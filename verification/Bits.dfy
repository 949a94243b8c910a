/** Words, bytes and bit strings.

    A machine word that holds `n` valid bits is a natural number below `Pow2(n)`.
    In that range the C expressions `w << k`, `w >> k` and `w & ((1 << k) - 1)` are
    `Shl(w, k)`, `Shr(w, k)` and `Low(w, k)`, and `w | (b << n)` is `w + Shl(b, n)`
    because the operands share no bit.  The lemmas relate words to bit strings. */
module Bits {

  type byte = x: int | 0 <= x < 256

  function Pow2(n: nat): (r: nat)
    ensures r > 0
  {
    if n == 0 then 1 else 2 * Pow2(n - 1)
  }

  /** `v << k`: doubled `k` times. */
  function Shl(v: nat, k: nat): nat {
    if k == 0 then v else 2 * Shl(v, k - 1)
  }

  /** `v >> k`: halved `k` times. */
  function Shr(v: nat, k: nat): nat {
    if k == 0 then v else Shr(v / 2, k - 1)
  }

  /** `v & ((1 << k) - 1)`: the `k` low bits. */
  function Low(v: nat, k: nat): (r: nat)
    ensures r < Pow2(k)
  {
    if k == 0 then 0 else v % 2 + 2 * Low(v / 2, k - 1)
  }

  function Bit(b: bool): (r: nat)
    ensures r <= 1
  {
    if b then 1 else 0
  }

  /** The `n` low bits of `v`, least significant first. */
  function ToBits(v: nat, n: nat): (r: seq<bool>)
    ensures |r| == n
  {
    if n == 0 then [] else [v % 2 == 1] + ToBits(v / 2, n - 1)
  }

  /** The number written by `b`, least significant bit first. */
  function FromBits(b: seq<bool>): (r: nat)
    ensures r < Pow2(|b|)
  {
    if b == [] then 0 else Bit(b[0]) + 2 * FromBits(b[1..])
  }

  /** The `n` low bits of `v`, most significant first. */
  function MsbBits(v: nat, n: nat): (r: seq<bool>)
    ensures |r| == n
  {
    if n == 0 then [] else MsbBits(v / 2, n - 1) + [v % 2 == 1]
  }

  /** The number written by `b`, most significant bit first. */
  function FromMsb(b: seq<bool>): (r: nat)
    ensures r < Pow2(|b|)
  {
    if b == [] then 0 else 2 * FromMsb(b[..|b| - 1]) + Bit(b[|b| - 1])
  }

  function Reverse<T>(s: seq<T>): (r: seq<T>)
    ensures |r| == |s|
    ensures forall i :: 0 <= i < |s| ==> r[i] == s[|s| - 1 - i]
  {
    if s == [] then [] else [s[|s| - 1]] + Reverse(s[..|s| - 1])
  }

  // ----- products

  /** Of places of `n` each, place `i` ends where place `j` begins, or before. */
  lemma {:induction false} TimesApart(i: nat, j: nat, n: nat)
    requires i < j
    ensures i * n + n <= j * n && n * i + n <= n * j
    decreases j
  {
    assert j * n == (j - 1) * n + n && n * j == n * (j - 1) + n;
    if i < j - 1 {
      TimesApart(i, j - 1, n);
    }
  }

  // ----- concatenation

  lemma Assoc<T>(a: seq<T>, b: seq<T>, c: seq<T>)
    ensures a + b + c == a + (b + c)
  {
  }

  lemma Regroup<T>(a: seq<T>, b: seq<T>, c: seq<T>, d: seq<T>)
    ensures a + b + c + d == a + (b + (c + d))
  {
  }

  // ----- shifts

  lemma {:induction false} Pow2Mono(a: nat, b: nat)
    requires a <= b
    ensures Pow2(a) <= Pow2(b)
    decreases b
  {
    if a < b {
      Pow2Mono(a, b - 1);
    }
  }

  lemma {:induction false} ShlPow2(a: nat, b: nat)
    ensures Shl(Pow2(a), b) == Pow2(a + b)
  {
    if b > 0 {
      ShlPow2(a, b - 1);
    }
  }

  lemma Pow2Small()
    ensures Pow2(1) == 2 && Pow2(2) == 4 && Pow2(3) == 8 && Pow2(4) == 16 && Pow2(5) == 32
    ensures Pow2(6) == 64 && Pow2(7) == 128 && Pow2(8) == 256 && Pow2(9) == 512
    ensures Pow2(13) == 8192 && Pow2(15) == 32768 && Pow2(16) == 65536
  {
    assert Pow2(4) == 16;
    assert Pow2(8) == 256;
    assert Pow2(12) == 4096;
  }

  lemma {:induction false} ShlAdd(v: nat, w: nat, k: nat)
    ensures Shl(v + w, k) == Shl(v, k) + Shl(w, k)
  {
    if k > 0 {
      ShlAdd(v, w, k - 1);
    }
  }

  lemma {:induction false} ShlMono(v: nat, w: nat, k: nat)
    requires v <= w
    ensures Shl(v, k) <= Shl(w, k)
  {
    if k > 0 {
      ShlMono(v, w, k - 1);
    }
  }

  lemma {:induction false} ShlShl(v: nat, a: nat, b: nat)
    ensures Shl(Shl(v, a), b) == Shl(v, a + b)
  {
    if b > 0 {
      ShlShl(v, a, b - 1);
    }
  }

  lemma {:induction false} ShrMono(v: nat, w: nat, k: nat)
    requires v <= w
    ensures Shr(v, k) <= Shr(w, k)
  {
    if k > 0 {
      ShrMono(v / 2, w / 2, k - 1);
    }
  }

  lemma {:induction false} ShrShr(v: nat, a: nat, b: nat)
    ensures Shr(Shr(v, a), b) == Shr(v, a + b)
  {
    if a > 0 {
      ShrShr(v / 2, a - 1, b);
    }
  }

  lemma ShrLast(v: nat, k: nat)
    requires k > 0
    ensures Shr(v, k) == Shr(v, k - 1) / 2
  {
    ShrShr(v, k - 1, 1);
  }

  lemma {:induction false} ShrShl(v: nat, k: nat)
    ensures Shr(Shl(v, k), k) == v
  {
    if k > 0 {
      ShrShl(v, k - 1);
    }
  }

  /** `k < (c << n)` compares the high part of `k` with `c`. */
  lemma {:induction false} BelowShl(k: nat, c: nat, n: nat)
    ensures k < Shl(c, n) <==> Shr(k, n) < c
  {
    if n > 0 {
      BelowShl(k / 2, c, n - 1);
    }
  }

  lemma {:induction false} ShrBelow(v: nat, n: nat, k: nat)
    requires k <= n && v < Pow2(n)
    ensures Shr(v, k) < Pow2(n - k)
  {
    if k > 0 {
      ShrBelow(v / 2, n - 1, k - 1);
    }
  }

  // ----- residues

  lemma {:induction false} LowAtMost(v: nat, k: nat)
    ensures Low(v, k) <= v
    ensures v < Pow2(k) ==> Low(v, k) == v
  {
    if k > 0 {
      LowAtMost(v / 2, k - 1);
    }
  }

  lemma {:induction false} LowPeriodic(v: nat, k: nat)
    ensures Low(v + Pow2(k), k) == Low(v, k)
  {
    if k > 0 {
      LowPeriodic(v / 2, k - 1);
      assert (v + Pow2(k)) / 2 == v / 2 + Pow2(k - 1);
    }
  }

  /** Numbers with the same `k` low bits are at least `1 << k` apart. */
  lemma {:induction false} LowApart(v: nat, w: nat, k: nat)
    requires v < w && Low(v, k) == Low(w, k)
    ensures v + Pow2(k) <= w
  {
    if k > 0 {
      assert v % 2 == w % 2;
      LowApart(v / 2, w / 2, k - 1);
    }
  }

  // ----- words and bit strings

  lemma {:induction false} FromToBits(v: nat, n: nat)
    requires v < Pow2(n)
    ensures FromBits(ToBits(v, n)) == v
  {
    if n > 0 {
      FromToBits(v / 2, n - 1);
      assert ToBits(v, n)[1..] == ToBits(v / 2, n - 1);
    }
  }

  lemma {:induction false} ToFromBits(b: seq<bool>)
    ensures ToBits(FromBits(b), |b|) == b
  {
    if b != [] {
      ToFromBits(b[1..]);
      assert FromBits(b) / 2 == FromBits(b[1..]);
    }
  }

  /** `w & mask` reads the first `k` bits. */
  lemma {:induction false} LowIsPrefix(v: nat, n: nat, k: nat)
    requires k <= n
    ensures ToBits(v, n)[..k] == ToBits(v, k)
    ensures Low(v, k) == FromBits(ToBits(v, k))
  {
    if k > 0 {
      LowIsPrefix(v / 2, n - 1, k - 1);
      assert ToBits(v, k)[1..] == ToBits(v / 2, k - 1);
    }
  }

  /** `w >> k` drops the first `k` bits. */
  lemma {:induction false} ShrDrops(v: nat, n: nat, k: nat)
    requires k <= n
    ensures ToBits(Shr(v, k), n - k) == ToBits(v, n)[k..]
  {
    if k > 0 {
      ShrDrops(v / 2, n - 1, k - 1);
    }
  }

  /** `w | (x << n)` appends bits. */
  lemma {:induction false} ShlAppends(v: nat, n: nat, x: nat, m: nat)
    requires v < Pow2(n) && x < Pow2(m)
    ensures v + Shl(x, n) < Pow2(n + m)
    ensures ToBits(v + Shl(x, n), n + m) == ToBits(v, n) + ToBits(x, m)
  {
    if n == 0 {
      assert ToBits(v, 0) + ToBits(x, m) == ToBits(x, m);
    } else {
      ShlAppends(v / 2, n - 1, x, m);
      assert (v + Shl(x, n)) / 2 == v / 2 + Shl(x, n - 1);
    }
  }

  lemma FromMsbAppend(b: seq<bool>, x: bool)
    ensures FromMsb(b + [x]) == 2 * FromMsb(b) + Bit(x)
  {
    assert (b + [x])[..|b|] == b;
  }

  lemma {:induction false} FromMsbOfMsb(v: nat, n: nat)
    requires v < Pow2(n)
    ensures FromMsb(MsbBits(v, n)) == v
  {
    if n > 0 {
      HalfBelow(v, n);
      FromMsbOfMsb(v / 2, n - 1);
      var b := MsbBits(v, n);
      assert b[..n - 1] == MsbBits(v / 2, n - 1) && b[n - 1] == (v % 2 == 1);
    }
  }

  lemma HalfBelow(v: nat, n: nat)
    requires n > 0 && v < Pow2(n)
    ensures v / 2 < Pow2(n - 1) && v == 2 * (v / 2) + Bit(v % 2 == 1)
  {
  }

  lemma {:induction false} MsbOfFromMsb(b: seq<bool>)
    ensures MsbBits(FromMsb(b), |b|) == b
  {
    if b != [] {
      MsbOfFromMsb(b[..|b| - 1]);
      assert FromMsb(b) / 2 == FromMsb(b[..|b| - 1]);
    }
  }

  /** The first `k` of `|b|` most-significant-first bits are `w >> (|b| - k)`. */
  lemma {:induction false} FromMsbPrefix(b: seq<bool>, k: nat)
    requires k <= |b|
    ensures FromMsb(b[..k]) == Shr(FromMsb(b), |b| - k)
    decreases |b|
  {
    if k == |b| {
      assert b[..k] == b;
    } else {
      var c := b[..|b| - 1];
      FromMsbPrefix(c, k);
      assert c[..k] == b[..k];
      assert FromMsb(b) / 2 == FromMsb(c);
    }
  }

  lemma {:induction false} FromMsbIsReversed(b: seq<bool>)
    ensures FromMsb(b) == FromBits(Reverse(b))
  {
    if b != [] {
      FromMsbIsReversed(b[..|b| - 1]);
      assert Reverse(b)[1..] == Reverse(b[..|b| - 1]);
    }
  }

  lemma {:induction false} MsbIsReversed(v: nat, n: nat)
    ensures MsbBits(v, n) == Reverse(ToBits(v, n))
  {
    if n > 0 {
      MsbIsReversed(v / 2, n - 1);
      assert ToBits(v, n)[1..] == ToBits(v / 2, n - 1);
    }
  }

  lemma {:induction false} MsbOfLow(v: nat, n: nat)
    ensures MsbBits(Low(v, n), n) == MsbBits(v, n)
  {
    MsbIsReversed(v, n);
    MsbIsReversed(Low(v, n), n);
    LowIsPrefix(v, n, n);
    ToFromBits(ToBits(v, n));
  }

  // ----- bytes

  function BytesBits(bs: seq<byte>): (r: seq<bool>)
    ensures |r| == 8 * |bs|
  {
    if bs == [] then [] else ToBits(bs[0], 8) + BytesBits(bs[1..])
  }

  lemma {:induction false} BytesBitsAppend(a: seq<byte>, b: seq<byte>)
    ensures BytesBits(a + b) == BytesBits(a) + BytesBits(b)
  {
    if a == [] {
      assert a + b == b;
    } else {
      BytesBitsAppend(a[1..], b);
      assert (a + b)[1..] == a[1..] + b && (a + b)[0] == a[0];
      Assoc(ToBits(a[0], 8), BytesBits(a[1..]), BytesBits(b));
    }
  }

  lemma {:induction false} BytesBitsInjective(a: seq<byte>, b: seq<byte>)
    requires |a| == |b| && BytesBits(a) == BytesBits(b)
    ensures a == b
  {
    if a != [] {
      Pow2Small();
      FromToBits(a[0], 8);
      FromToBits(b[0], 8);
      assert BytesBits(a)[..8] == ToBits(a[0], 8);
      assert BytesBits(b)[..8] == ToBits(b[0], 8);
      assert BytesBits(a)[8..] == BytesBits(a[1..]);
      assert BytesBits(b)[8..] == BytesBits(b[1..]);
      BytesBitsInjective(a[1..], b[1..]);
    }
  }

  lemma SumTimes<T>(a: seq<T>, b: seq<T>, x: T)
    ensures multiset(a + b)[x] == multiset(a)[x] + multiset(b)[x]
  {
  }
}
