/** Words, bits and bytes in numbers: what shifting and masking come to, and which bit has which value.

    The C expressions `w << k`, `w >> k` and `w & ((1 << k) - 1)` are products, quotients and remainders
    of powers of two. */
module BitNumbers {
  import opened Bits

  // ----- quotients and remainders

  lemma ModUnique(j: nat, d: nat, q: int, r: nat)
    requires r < d && j == q * d + r
    ensures j % d == r
  {
    assert (q - j / d) * d == j % d - r;
    NoMultipleBetween(q - j / d, d);
  }

  lemma NoMultipleBetween(x: int, d: nat)
    requires -1 * d < x * d < d
    ensures x == 0
  {
    if x > 0 {
      MulMono(1, x, d);
    } else if x < 0 {
      MulMono(x, -1, d);
    }
  }

  lemma MulMono(a: int, b: int, d: nat)
    requires a <= b
    ensures a * d <= b * d
  {
    assert (b - a) * d >= 0;
  }

  lemma QuotientUnique(j: nat, d: nat, q: int, r: nat)
    requires r < d && j == q * d + r
    ensures j / d == q
  {
    assert (q - j / d) * d == j % d - r;
    NoMultipleBetween(q - j / d, d);
  }

  lemma HalfThenQuotient(v: nat, p: nat)
    requires p > 0
    ensures v / 2 / p == v / (2 * p)
  {
    var q, r := v / (2 * p), v % (2 * p);
    assert v == (2 * p) * q + r;
    assert v / 2 == q * p + r / 2 by {
      assert v == 2 * (q * p) + r;
    }
    QuotientUnique(v / 2, p, q, r / 2);
  }

  lemma HalfThenRemainder(v: nat, p: nat)
    requires p > 0
    ensures v % 2 + 2 * (v / 2 % p) == v % (2 * p)
  {
    var q, r := v / 2 / p, v / 2 % p;
    assert v == q * (2 * p) + (v % 2 + 2 * r) by {
      assert v / 2 == q * p + r;
      TwiceProduct(q, p);
    }
    ModUnique(v, 2 * p, q, v % 2 + 2 * r);
  }

  lemma TwiceProduct(v: nat, p: nat)
    ensures v * (2 * p) == 2 * (v * p)
  {
  }

  /** Shifting is multiplying and dividing by powers of two, and masking is the remainder. */
  lemma {:induction false} ShiftNumbers(v: nat, k: nat)
    ensures Shl(v, k) == v * Pow2(k) && Shr(v, k) == v / Pow2(k) && Low(v, k) == v % Pow2(k)
  {
    if k > 0 {
      ShiftNumbers(v, k - 1);
      ShiftNumbers(v / 2, k - 1);
      HalfThenQuotient(v, Pow2(k - 1));
      HalfThenRemainder(v, Pow2(k - 1));
      TwiceProduct(v, Pow2(k - 1));
    }
  }

  /** `ToBits` writes the bit of value `2^k` at place `k`, and `MsbBits` the other way round. */
  lemma {:induction false} BitPlaces(v: nat, n: nat, k: nat)
    requires k < n
    ensures ToBits(v, n)[k] == (v / Pow2(k) % 2 == 1)
    ensures MsbBits(v, n)[n - 1 - k] == (v / Pow2(k) % 2 == 1)
  {
    if k > 0 {
      BitPlaces(v / 2, n - 1, k - 1);
      HalfThenQuotient(v, Pow2(k - 1));
    }
  }

  /** The bits of bytes stand in the order of the bytes, in each from the least significant on. */
  lemma {:induction false} BytePlaces(bs: seq<byte>, i: nat, k: nat)
    requires i < |bs| && k < 8
    ensures 8 * i + k < |BytesBits(bs)|
    ensures BytesBits(bs)[8 * i + k] == (bs[i] / Pow2(k) % 2 == 1)
  {
    if i == 0 {
      BitPlaces(bs[0], 8, k);
    } else {
      BytePlaces(bs[1..], i - 1, k);
    }
  }

  // ----- eight bits

  lemma FromEight(w: seq<bool>)
    requires |w| == 8
    ensures FromMsb(w) == 128 * Bit(w[0]) + 64 * Bit(w[1]) + 32 * Bit(w[2]) + 16 * Bit(w[3])
      + 8 * Bit(w[4]) + 4 * Bit(w[5]) + 2 * Bit(w[6]) + Bit(w[7])
  {
    FourMore(w, 0);
    FourMore(w, 4);
    assert w[..8] == w && w[..0] == [];
  }

  lemma FourMore(w: seq<bool>, k: nat)
    requires k + 4 <= |w|
    ensures FromMsb(w[..k + 4]) ==
      16 * FromMsb(w[..k]) + 8 * Bit(w[k]) + 4 * Bit(w[k + 1]) + 2 * Bit(w[k + 2]) + Bit(w[k + 3])
  {
    AppendStep(w, k + 1);
    AppendStep(w, k + 2);
    AppendStep(w, k + 3);
    AppendStep(w, k + 4);
  }

  lemma AppendStep(w: seq<bool>, k: nat)
    requires 0 < k <= |w|
    ensures FromMsb(w[..k]) == 2 * FromMsb(w[..k - 1]) + Bit(w[k - 1])
  {
    FromMsbAppend(w[..k - 1], w[k - 1]);
    assert w[..k] == w[..k - 1] + [w[k - 1]];
  }

  /** The byte read from bits, the least significant first. */
  lemma OctetBits(b: byte, w: seq<bool>)
    requires |w| == 8
    requires b as int == Bit(w[0]) + 2 * Bit(w[1]) + 4 * Bit(w[2]) + 8 * Bit(w[3])
      + 16 * Bit(w[4]) + 32 * Bit(w[5]) + 64 * Bit(w[6]) + 128 * Bit(w[7])
    ensures BytesBits([b]) == w
  {
    var r := Reverse(w);
    FromEight(r);
    FromMsbIsReversed(r);
    assert Reverse(r) == w;
    ToFromBits(w);
    assert BytesBits([b][1..]) == [];
  }
}
