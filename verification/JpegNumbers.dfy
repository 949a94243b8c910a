/** JPEG tables by the numbers of ITU-T T.81: how many codewords of each length there are, and which values
    additional bits stand for. */
module JpegNumbers {
  import opened Bits
  import opened Canonical
  import opened JpegHuffman
  import opened JpegFastAc

  /** Of each length the list has as many entries as BITS says (Figure C.1). */
  lemma {:induction false} SizesNumbers(count: seq<nat>, n: nat, l: nat)
    requires n <= |count|
    ensures Count(Sizes(count, n), l) == if 1 <= l <= n then count[l - 1] else 0
  {
    if n > 0 {
      SizesNumbers(count, n - 1, l);
      CountRun(Sizes(count, n - 1), n, count[n - 1], l);
    }
  }

  /** And the short ones are first. */
  lemma {:induction false} SizesInOrder(count: seq<nat>, n: nat, i: nat, j: nat)
    requires n <= |count| && i <= j < |Sizes(count, n)|
    ensures 1 <= Sizes(count, n)[i] <= Sizes(count, n)[j] <= n
  {
    var k := |Sizes(count, n - 1)|;
    if j < k {
      SizesInOrder(count, n - 1, i, j);
    } else if i < k {
      SizesInOrder(count, n - 1, i, i);
    }
  }

  /** Of `n` additional bits the upper half of the numbers stand for themselves, and each of the lower half
      for the negative of its complement: -(2^n - 1) to -2^(n-1), then 2^(n-1) to 2^n - 1 (Table F.1). */
  lemma ExtendNumbers(v: nat, n: nat)
    requires n > 0 && v < Pow2(n)
    ensures v >= Pow2(n - 1) ==> Extend(v, n) == v
    ensures v < Pow2(n - 1) ==> Extend(v, n) == -Extend(Pow2(n) - 1 - v, n) == -(Pow2(n) - 1 - v)
  {
  }
}
