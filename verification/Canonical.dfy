/** Canonical Huffman codes as section 3.2.2 of RFC 1951 defines them, given by the length of every codeword. */
module Canonical {
  import opened Bits

  const MAX_LEN: nat := 15

  predicate ValidLens(lens: seq<nat>) {
    forall i :: 0 <= i < |lens| ==> lens[i] <= MAX_LEN
  }

  /** `bl_count[l]`: how many symbols have a codeword of `l` bits. */
  function Count(lens: seq<nat>, l: nat): nat {
    if lens == [] then 0
    else Count(lens[..|lens| - 1], l) + (if lens[|lens| - 1] == l then 1 else 0)
  }

  /** One past the last codeword of length `l`, as a number. */
  function EndCode(lens: seq<nat>, l: nat): nat {
    if l == 0 then 0 else 2 * EndCode(lens, l - 1) + Count(lens, l)
  }

  /** `next_code[l]` before any symbol is assigned: the first codeword of length `l`. */
  function FirstCode(lens: seq<nat>, l: nat): nat
    requires l > 0
  {
    2 * EndCode(lens, l - 1)
  }

  /** The position of symbol `i` among the symbols with the same length. */
  function Rank(lens: seq<nat>, i: nat): nat
    requires i < |lens|
  {
    Count(lens[..i], lens[i])
  }

  function Code(lens: seq<nat>, i: nat): nat
    requires i < |lens| && lens[i] > 0
  {
    FirstCode(lens, lens[i]) + Rank(lens, i)
  }

  /** The codeword of symbol `i`, in the order its bits appear in the stream. */
  function Codeword(lens: seq<nat>, i: nat): (w: seq<bool>)
    requires i < |lens| && lens[i] > 0
    ensures |w| == lens[i]
  {
    MsbBits(Code(lens, i), lens[i])
  }

  /** The sum of `2^-length` over all codewords, in units of `2^-15`. */
  function KraftSum(lens: seq<nat>): nat
    requires ValidLens(lens)
  {
    if lens == [] then 0
    else
      var x := lens[|lens| - 1];
      KraftSum(lens[..|lens| - 1]) + (if x == 0 then 0 else Pow2(MAX_LEN - x))
  }

  predicate Kraft(lens: seq<nat>)
    requires ValidLens(lens)
  {
    KraftSum(lens) <= Pow2(MAX_LEN)
  }

  /** `lens` describes a code: bounded lengths that satisfy the Kraft inequality. */
  predicate IsCode(lens: seq<nat>) {
    ValidLens(lens) && Kraft(lens)
  }

  /** Symbol `i` is used and its codeword begins `bits`. */
  predicate Matches(lens: seq<nat>, i: nat, bits: seq<bool>)
    requires i < |lens|
  {
    lens[i] > 0 && Codeword(lens, i) <= bits
  }

  // ----- runs of one length

  function Repeat(v: nat, n: nat): (r: seq<nat>)
    ensures |r| == n
    ensures forall i :: 0 <= i < n ==> r[i] == v
  {
    if n == 0 then [] else Repeat(v, n - 1) + [v]
  }

  lemma {:induction false} CountRun(lens: seq<nat>, v: nat, n: nat, l: nat)
    ensures Count(lens + Repeat(v, n), l) == Count(lens, l) + if v == l then n else 0
  {
    if n == 0 {
      assert lens + Repeat(v, 0) == lens;
    } else {
      CountRun(lens, v, n - 1, l);
      var r := lens + Repeat(v, n);
      assert r[..|r| - 1] == lens + Repeat(v, n - 1);
    }
  }

  // ----- Kraft sum and code intervals

  lemma {:induction false} EndAppend(lens: seq<nat>, x: nat, l: nat)
    ensures EndCode(lens + [x], l) == EndCode(lens, l) + (if 1 <= x <= l then Pow2(l - x) else 0)
  {
    assert (lens + [x])[..|lens|] == lens;
    if l > 0 {
      EndAppend(lens, x, l - 1);
    }
  }

  lemma {:induction false} EndEmpty(l: nat)
    ensures EndCode([], l) == 0
  {
    if l > 0 {
      EndEmpty(l - 1);
    }
  }

  /** The numbering of section 3.2.2 uses up exactly the Kraft sum of the code space. */
  lemma {:induction false} EndIsKraftSum(lens: seq<nat>)
    requires ValidLens(lens)
    ensures EndCode(lens, MAX_LEN) == KraftSum(lens)
  {
    if lens == [] {
      EndEmpty(MAX_LEN);
    } else {
      var n := |lens| - 1;
      EndIsKraftSum(lens[..n]);
      EndAppend(lens[..n], lens[n], MAX_LEN);
      assert lens == lens[..n] + [lens[n]];
    }
  }

  lemma {:induction false} EndGrows(lens: seq<nat>, l: nat, m: nat)
    requires l <= m
    ensures Shl(EndCode(lens, l), m - l) <= EndCode(lens, m)
    decreases m
  {
    if l < m {
      EndGrows(lens, l, m - 1);
    }
  }

  /** Every length's codewords fit in that many bits. */
  ghost predicate Fits(lens: seq<nat>) {
    forall l: nat {:trigger EndCode(lens, l), Pow2(l)} :: EndCode(lens, l) <= Pow2(l)
  }

  /** Under the Kraft inequality they do. */
  lemma CodesFit(lens: seq<nat>, l: nat)
    requires IsCode(lens) && l <= MAX_LEN
    ensures EndCode(lens, l) <= Pow2(l)
  {
    EndIsKraftSum(lens);
    EndGrows(lens, l, MAX_LEN);
    if EndCode(lens, l) > Pow2(l) {
      ShlMono(Pow2(l) + 1, EndCode(lens, l), MAX_LEN - l);
      ShlAdd(Pow2(l), 1, MAX_LEN - l);
      ShlPow2(l, MAX_LEN - l);
      ShlPow2(0, MAX_LEN - l);
      assert false;
    }
  }

  lemma {:induction false} LongerFit(lens: seq<nat>, l: nat)
    requires IsCode(lens)
    ensures EndCode(lens, l) <= Pow2(l)
    decreases l
  {
    if l <= MAX_LEN {
      CodesFit(lens, l);
    } else {
      LongerFit(lens, l - 1);
      NoneLonger(lens, l);
    }
  }

  lemma {:induction false} NoneLonger(lens: seq<nat>, l: nat)
    requires forall i :: 0 <= i < |lens| ==> lens[i] < l
    ensures Count(lens, l) == 0
  {
    if lens != [] {
      NoneLonger(lens[..|lens| - 1], l);
    }
  }

  lemma CodeFits(lens: seq<nat>)
    requires IsCode(lens)
    ensures Fits(lens)
  {
    forall l: nat
      ensures EndCode(lens, l) <= Pow2(l)
    {
      LongerFit(lens, l);
    }
  }

  /** The converse: if all lengths fit, the Kraft inequality holds. */
  lemma FitImpliesKraft(lens: seq<nat>)
    requires ValidLens(lens)
    requires EndCode(lens, MAX_LEN) <= Pow2(MAX_LEN)
    ensures IsCode(lens)
  {
    EndIsKraftSum(lens);
  }

  // ----- ranks

  lemma {:induction false} CountPrefix(lens: seq<nat>, i: nat, j: nat, l: nat)
    requires i <= j <= |lens|
    ensures Count(lens[..i], l) <= Count(lens[..j], l)
    ensures i < j && lens[i] == l ==> Count(lens[..i], l) < Count(lens[..j], l)
    decreases j
  {
    if i < j {
      assert lens[..j][..j - 1] == lens[..j - 1];
      CountPrefix(lens, i, j - 1, l);
    }
  }

  lemma RankBelowCount(lens: seq<nat>, i: nat)
    requires i < |lens|
    ensures Rank(lens, i) < Count(lens, lens[i])
  {
    CountPrefix(lens, i, |lens|, lens[i]);
    assert lens[..|lens|] == lens;
  }

  lemma RankInjective(lens: seq<nat>, i: nat, j: nat)
    requires i < j < |lens| && lens[i] == lens[j]
    ensures Rank(lens, i) < Rank(lens, j)
  {
    CountPrefix(lens, i, j, lens[i]);
  }

  /** Every rank below the count belongs to some symbol: the codewords of one length
      fill an interval. */
  lemma {:induction false} RankSurjective(lens: seq<nat>, l: nat, r: nat) returns (i: nat)
    requires r < Count(lens, l)
    ensures i < |lens| && lens[i] == l && Rank(lens, i) == r
  {
    var n := |lens| - 1;
    if r < Count(lens[..n], l) {
      i := RankSurjective(lens[..n], l, r);
      assert lens[..n][..i] == lens[..i];
    } else {
      i := n;
    }
  }

  lemma CodeInterval(lens: seq<nat>, i: nat)
    requires Fits(lens) && i < |lens| && lens[i] > 0
    ensures FirstCode(lens, lens[i]) <= Code(lens, i) < EndCode(lens, lens[i]) <= Pow2(lens[i])
  {
    RankBelowCount(lens, i);
  }

  // ----- codewords as prefixes

  lemma PrefixAsNumber(c: nat, l: nat, bits: seq<bool>)
    requires l <= |bits| && c < Pow2(l)
    ensures MsbBits(c, l) <= bits <==> Shr(FromMsb(bits), |bits| - l) == c
  {
    var p := bits[..l];
    FromMsbPrefix(bits, l);
    FromMsbOfMsb(c, l);
    MsbOfFromMsb(p);
    assert MsbBits(c, l) <= bits <==> MsbBits(c, l) == p;
  }

  /** A codeword begins `bits` exactly when it equals the leading bits as a number. */
  lemma MatchesAsNumber(lens: seq<nat>, i: nat, bits: seq<bool>)
    requires Fits(lens) && i < |lens| && 0 < lens[i] <= |bits|
    ensures Matches(lens, i, bits) <==> Shr(FromMsb(bits), |bits| - lens[i]) == Code(lens, i)
  {
    assert Code(lens, i) < Pow2(lens[i]) by {
      CodeInterval(lens, i);
    }
    CodewordAsNumber(lens, i, bits, Code(lens, i), lens[i]);
  }

  lemma CodewordAsNumber(lens: seq<nat>, i: nat, bits: seq<bool>, c: nat, l: nat)
    requires i < |lens| && l == lens[i] && 0 < l <= |bits| && c == Code(lens, i) < Pow2(l)
    ensures Matches(lens, i, bits) <==> Shr(FromMsb(bits), |bits| - l) == c
  {
    PrefixAsNumber(c, l, bits);
  }

  lemma {:induction false} MatchBoundsEnd(lens: seq<nat>, i: nat, bits: seq<bool>, l: nat)
    requires Fits(lens) && i < |lens| && Matches(lens, i, bits)
    requires lens[i] <= l <= |bits|
    ensures Shr(FromMsb(bits), |bits| - l) < EndCode(lens, l)
    decreases l
  {
    if l == lens[i] {
      MatchesAsNumber(lens, i, bits);
      CodeInterval(lens, i);
    } else {
      MatchBoundsEnd(lens, i, bits, l - 1);
      ShrLast(FromMsb(bits), |bits| - l + 1);
    }
  }

  /** If the leading `l` bits are below the end of the `l`-bit codes, some codeword of at
      most `l` bits begins `bits`. */
  lemma {:induction false} BelowEndMatches(lens: seq<nat>, bits: seq<bool>, l: nat) returns (i: nat)
    requires Fits(lens) && l <= |bits|
    requires Shr(FromMsb(bits), |bits| - l) < EndCode(lens, l)
    ensures i < |lens| && lens[i] <= l && Matches(lens, i, bits)
  {
    var k := Shr(FromMsb(bits), |bits| - l);
    if k < FirstCode(lens, l) {
      ShrLast(FromMsb(bits), |bits| - l + 1);
      i := BelowEndMatches(lens, bits, l - 1);
    } else {
      i := RankSurjective(lens, l, k - FirstCode(lens, l));
      MatchesAsNumber(lens, i, bits);
    }
  }

  /** The code is prefix-free: at most one codeword begins a bit string. */
  lemma PrefixFree(lens: seq<nat>, i: nat, j: nat, bits: seq<bool>)
    requires Fits(lens) && i < |lens| && j < |lens|
    requires Matches(lens, i, bits) && Matches(lens, j, bits)
    ensures i == j
  {
    if lens[i] < lens[j] {
      LongerExcluded(lens, i, j, bits);
    } else if lens[j] < lens[i] {
      LongerExcluded(lens, j, i, bits);
    } else {
      MatchesAsNumber(lens, i, bits);
      MatchesAsNumber(lens, j, bits);
      if i < j {
        RankInjective(lens, i, j);
      } else if j < i {
        RankInjective(lens, j, i);
      }
    }
  }

  lemma LongerExcluded(lens: seq<nat>, i: nat, j: nat, bits: seq<bool>)
    requires Fits(lens) && i < |lens| && j < |lens| && lens[i] < lens[j]
    requires Matches(lens, i, bits)
    ensures !Matches(lens, j, bits)
  {
    if Matches(lens, j, bits) {
      var l := lens[j];
      MatchBoundsEnd(lens, i, bits, l - 1);
      ShrLast(FromMsb(bits), |bits| - l + 1);
      MatchesAsNumber(lens, j, bits);
      CodeInterval(lens, j);
      assert false;
    }
  }

  /** Which symbol's codeword begins `bits`; -1 if there is none. */
  ghost function Lookup(lens: seq<nat>, bits: seq<bool>): (r: int)
    ensures r == -1 || (0 <= r < |lens| && Matches(lens, r, bits))
    ensures r == -1 ==> forall i :: 0 <= i < |lens| ==> !Matches(lens, i, bits)
  {
    if exists i :: 0 <= i < |lens| && Matches(lens, i, bits) then
      var i :| 0 <= i < |lens| && Matches(lens, i, bits);
      i
    else -1
  }

  /** Lookup is determined by the codewords: any matching symbol is the answer. */
  lemma LookupIs(lens: seq<nat>, i: nat, bits: seq<bool>)
    requires IsCode(lens) && i < |lens| && Matches(lens, i, bits)
    ensures Lookup(lens, bits) == i
  {
    CodeFits(lens);
    PrefixFree(lens, i, Lookup(lens, bits), bits);
  }

  /** Only the first 15 bits matter. */
  lemma LookupPrefix(lens: seq<nat>, a: seq<bool>, b: seq<bool>)
    requires IsCode(lens) && a <= b && |a| >= MAX_LEN
    ensures Lookup(lens, a) == Lookup(lens, b)
  {
    forall k | 0 <= k < |lens|
      ensures Matches(lens, k, a) == Matches(lens, k, b)
    {
      SameMatch(lens, k, a, b);
    }
    var j := Lookup(lens, b);
    if j >= 0 {
      LookupIs(lens, j, a);
    }
  }

  lemma SameMatch(lens: seq<nat>, k: nat, a: seq<bool>, b: seq<bool>)
    requires k < |lens| && IsCode(lens) && a <= b && |a| >= MAX_LEN
    ensures Matches(lens, k, a) == Matches(lens, k, b)
  {
  }
}
