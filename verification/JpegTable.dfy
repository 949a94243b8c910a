/** Building the Huffman tables of JPEG: `stbi__build_huffman`.

    The loops work on the arrays of `stbi__huffman`: sizes and codes of the symbols in order, the
    end and the offset of the codes of every length, and the acceleration table.  They are proved
    to leave the tables that `JpegHuffman.Built` describes by the canonical code alone. */
module JpegTable {
  import opened Bits
  import opened Canonical
  import opened JpegHuffman
  import opened JpegAssertion

  // ----- the list of sizes

  lemma {:induction false} SizesSorted(count: seq<nat>, l: nat)
    requires l <= |count|
    ensures forall i :: 0 <= i < |Sizes(count, l)| ==> 1 <= Sizes(count, l)[i] <= l
    ensures forall i, j :: 0 <= i < j < |Sizes(count, l)| ==> Sizes(count, l)[i] <= Sizes(count, l)[j]
  {
    if l > 0 {
      SizesSorted(count, l - 1);
    }
  }

  lemma {:induction false} SizesGrow(count: seq<nat>, k: nat, l: nat)
    requires k <= l <= |count|
    ensures Sizes(count, k) <= Sizes(count, l)
    decreases l
  {
    if k < l {
      SizesGrow(count, k, l - 1);
    }
  }

  lemma {:induction false} CountSizes(count: seq<nat>, l: nat, m: nat)
    requires l <= |count|
    ensures Count(Sizes(count, l), m) == if 1 <= m <= l then count[m - 1] else 0
  {
    if l > 0 {
      CountSizes(count, l - 1, m);
      CountRun(Sizes(count, l - 1), l, count[l - 1], m);
    }
  }

  lemma {:induction false} BelowSizes(count: seq<nat>, l: nat)
    requires 1 <= l <= |count|
    ensures Below(Sizes(count, |count|), l) == |Sizes(count, l - 1)|
  {
    if l > 1 {
      BelowSizes(count, l - 1);
      CountSizes(count, |count|, l - 1);
    }
  }

  lemma EndSizes(count: seq<nat>, l: nat)
    requires 1 <= l <= |count|
    ensures var sizes := Sizes(count, |count|);
      EndCode(sizes, l) == 2 * EndCode(sizes, l - 1) + count[l - 1]
  {
    CountSizes(count, |count|, l);
  }

  /** The codeword of the `r`-th symbol of length `l`. */
  lemma CodeOfSizes(count: seq<nat>, l: nat, i: nat)
    requires 1 <= l <= |count| && |Sizes(count, l - 1)| <= i < |Sizes(count, l)|
    ensures var sizes := Sizes(count, |count|);
      i < |sizes| && sizes[i] == l
      && Code(sizes, i) == FirstCode(sizes, l) + (i - |Sizes(count, l - 1)|)
  {
    var before, r := Sizes(count, l - 1), i - |Sizes(count, l - 1)|;
    FirstSizes(count, l, i);
    CountSizes(count, l - 1, l);
    CountRun(before, l, r, l);
  }

  lemma FirstSizes(count: seq<nat>, l: nat, i: nat)
    requires 1 <= l <= |count| && |Sizes(count, l - 1)| <= i < |Sizes(count, l)|
    ensures var sizes, before := Sizes(count, |count|), Sizes(count, l - 1);
      i < |sizes| && sizes[i] == l && sizes[..i] == before + Repeat(l, i - |before|)
  {
    var part, before := Sizes(count, l), Sizes(count, l - 1);
    SizesGrow(count, l, |count|);
    RunPrefix(before, l, count[l - 1], i - |before|);
    assert Sizes(count, |count|)[..i] == part[..i];
  }

  lemma RunPrefix(a: seq<nat>, v: nat, n: nat, r: nat)
    requires r <= n
    ensures (a + Repeat(v, n))[..|a| + r] == a + Repeat(v, r)
  {
  }

  lemma {:induction false} AllFit(sizes: seq<nat>, l: nat)
    requires forall i :: 0 <= i < |sizes| ==> sizes[i] <= 16
    requires forall k :: 0 <= k <= 16 ==> EndCode(sizes, k) <= Pow2(k)
    ensures EndCode(sizes, l) <= Pow2(l)
  {
    if l > 16 {
      AllFit(sizes, l - 1);
      NoneLonger(sizes, l);
    }
  }

  /** The codes of up to `j` bits fit. */
  ghost predicate FitUpTo(sizes: seq<nat>, j: nat) {
    forall l :: 0 <= l <= j ==> EndCode(sizes, l) <= Pow2(l)
  }

  lemma FitNext(sizes: seq<nat>, j: nat)
    requires j > 0 && FitUpTo(sizes, j - 1) && EndCode(sizes, j) <= Pow2(j)
    ensures FitUpTo(sizes, j)
  {
  }

  lemma FitsFrom16(sizes: seq<nat>)
    requires forall i :: 0 <= i < |sizes| ==> sizes[i] <= 16
    requires FitUpTo(sizes, 16)
    ensures Fits(sizes)
  {
    forall l: nat
      ensures EndCode(sizes, l) <= Pow2(l)
    {
      AllFit(sizes, l);
    }
  }

  lemma {:induction false} LaterLonger(count: seq<nat>, j: nat, l: nat, k: nat)
    requires j <= l <= |count| && |Sizes(count, j)| <= k < |Sizes(count, l)|
    ensures Sizes(count, l)[k] > j
    decreases l
  {
    if k < |Sizes(count, l - 1)| {
      LaterLonger(count, j, l - 1, k);
    }
  }

  // ----- the entries of the acceleration table

  /** A codeword begins the nine bits of the numbers from `c` on, `m` of them. */
  lemma InEntry(sizes: seq<nat>, i: nat, x: nat, c: nat, m: nat)
    requires SizesOk(sizes) && Fits(sizes) && i < |sizes| && sizes[i] <= FAST_BITS && x < FAST_SIZE
    requires c == Shl(Code(sizes, i), FAST_BITS - sizes[i]) && m == Shl(1, FAST_BITS - sizes[i])
    ensures Matches(sizes, i, MsbBits(x, FAST_BITS)) <==> c <= x < c + m
  {
    Pow2Small();
    FromMsbOfMsb(x, FAST_BITS);
    MatchesAsNumber(sizes, i, MsbBits(x, FAST_BITS));
    ShrInterval(x, Code(sizes, i), FAST_BITS - sizes[i]);
  }

  lemma ShrInterval(x: nat, code: nat, k: nat)
    ensures Shr(x, k) == code <==> Shl(code, k) <= x < Shl(code, k) + Shl(1, k)
  {
    BelowShl(x, code, k);
    BelowShl(x, code + 1, k);
    ShlAdd(code, 1, k);
  }

  lemma EntryFits(sizes: seq<nat>, i: nat, c: nat, m: nat)
    requires SizesOk(sizes) && Fits(sizes) && i < |sizes| && sizes[i] <= FAST_BITS
    requires c == Shl(Code(sizes, i), FAST_BITS - sizes[i]) && m == Shl(1, FAST_BITS - sizes[i])
    ensures c + m <= FAST_SIZE
  {
    var s, k := sizes[i], FAST_BITS - sizes[i];
    CodeInterval(sizes, i);
    ShlAdd(Code(sizes, i), 1, k);
    ShlMono(Code(sizes, i) + 1, Pow2(s), k);
    ShlPow2(s, k);
    Pow2Small();
  }

  lemma LongCodeword(sizes: seq<nat>, i: nat)
    requires i < |sizes| && sizes[i] > FAST_BITS
    ensures forall x: nat, v: byte :: FastUpTo(sizes, i, x, v) ==> FastUpTo(sizes, i + 1, x, v)
  {
  }

  lemma NextEntry(sizes: seq<nat>, i: nat, x: nat, c: nat, m: nat, v: byte)
    requires SizesOk(sizes) && Fits(sizes) && i < |sizes| && sizes[i] <= FAST_BITS && x < FAST_SIZE
    requires c == Shl(Code(sizes, i), FAST_BITS - sizes[i]) && m == Shl(1, FAST_BITS - sizes[i])
    requires FastUpTo(sizes, i, x, v)
    ensures FastUpTo(sizes, i + 1, x, if c <= x < c + m then i else v)
  {
    InEntry(sizes, i, x, c, m);
    if c <= x < c + m {
      forall j | 0 <= j < i
        ensures !Matches(sizes, j, MsbBits(x, FAST_BITS))
      {
        if Matches(sizes, j, MsbBits(x, FAST_BITS)) {
          PrefixFree(sizes, i, j, MsbBits(x, FAST_BITS));
        }
      }
    }
  }

  /** `stbi__huffman`. */
  class Table {
    const fast: array<byte>
    const code: array<nat>
    const values: array<byte>
    const size: array<byte>
    const maxcode: array<nat>
    const delta: array<int>

    ghost predicate Valid() {
      && fast.Length == FAST_SIZE && code.Length == 256 && values.Length == 256 && size.Length == 257
      && maxcode.Length == 18 && delta.Length == 17
      && fast != values && fast != size && values != size && code != maxcode
    }

    function View(): Huffman
      reads fast, size, values, maxcode, delta
    {
      Huffman(fast[..], size[..], values[..], maxcode[..], delta[..])
    }

    constructor ()
      ensures Valid() && fresh(fast) && fresh(code) && fresh(values) && fresh(size) && fresh(maxcode) && fresh(delta)
    {
      fast := new byte[FAST_SIZE](_ => 0);
      code := new nat[256](_ => 0);
      values := new byte[256](_ => 0);
      size := new byte[257](_ => 0);
      maxcode := new nat[18](_ => 0);
      delta := new int[17](_ => 0);
    }

    /** `size` holds the sizes of the symbols and a zero behind them. */
    ghost predicate HoldsSizes(sizes: seq<nat>)
      requires Valid()
      reads size
    {
      |sizes| <= 256 && (forall i :: 0 <= i < |sizes| ==> size[i] == sizes[i]) && size[|sizes|] == 0
    }

    /** The first loops: the size of every symbol.  More than 256 symbols are refused. */
    method BuildSizes(count: seq<nat>) returns (ok: bool)
      requires Valid() && |count| == 16
      modifies size
      ensures ok <==> |Sizes(count, |count|)| <= 256
      ensures ok ==> HoldsSizes(Sizes(count, |count|))
    {
      var k := 0;
      for i := 0 to 16
        invariant k == |Sizes(count, i)| <= 256
        invariant forall x :: 0 <= x < k ==> size[x] == Sizes(count, i)[x]
      {
        ghost var before := Sizes(count, i);
        for j := 0 to count[i]
          invariant k == |before| + j <= 256
          invariant forall x :: 0 <= x < |before| ==> size[x] == before[x]
          invariant forall x :: |before| <= x < k ==> size[x] == i + 1
        {
          size[k] := i + 1;
          k := k + 1;
          if k >= 257 {
            SizesGrow(count, i + 1, |count|);
            return false;
          }
        }
        assert Sizes(count, i + 1) == before + Repeat(i + 1, count[i]);
      }
      size[k] := 0;
      ok := true;
    }

    /** What the loop over lengths has set for the lengths below `j`. */
    ghost predicate HoldsMaxcode(sizes: seq<nat>, j: nat)
      requires Valid() && 1 <= j <= 17
      reads maxcode
    {
      forall l :: 1 <= l < j ==> maxcode[l] == Shl(EndCode(sizes, l), 16 - l)
    }

    ghost predicate HoldsDelta(sizes: seq<nat>, j: nat)
      requires Valid() && 1 <= j <= 17
      reads delta
    {
      forall l :: 1 <= l < j ==> delta[l] == Below(sizes, l) - FirstCode(sizes, l)
    }

    ghost predicate HoldsCodes(sizes: seq<nat>, k: nat)
      requires Valid() && k <= |sizes| <= 256
      requires forall i :: 0 <= i < |sizes| ==> sizes[i] > 0
      reads code
    {
      forall i :: 0 <= i < k ==> code[i] == Code(sizes, i) % 0x1_0000
    }

    method SetCode(ghost sizes: seq<nat>, k: nat, c: nat)
      requires Valid() && k < |sizes| <= 256 && forall i :: 0 <= i < |sizes| ==> sizes[i] > 0
      requires HoldsCodes(sizes, k) && c == Code(sizes, k)
      modifies code
      ensures HoldsCodes(sizes, k + 1)
    {
      code[k] := c % 0x1_0000;
    }

    /** The codes of length `j`, counted up from `c`. */
    method CountUp(count: seq<nat>, j: nat, k: nat, c: nat) returns (k': nat, c': nat)
      requires Valid() && |count| == 16 && 1 <= j <= 16 && HoldsSizes(Sizes(count, |count|))
      requires k == |Sizes(count, j - 1)| && c == FirstCode(Sizes(count, |count|), j)
      requires SizesOk(Sizes(count, |count|)) && k <= |Sizes(count, |count|)| && HoldsCodes(Sizes(count, |count|), k)
      modifies code
      ensures k' == |Sizes(count, j)| <= |Sizes(count, |count|)| && c' == EndCode(Sizes(count, |count|), j)
      ensures HoldsCodes(Sizes(count, |count|), k')
    {
      ghost var sizes := Sizes(count, |count|);
      k', c' := k, c;
      SizesGrow(count, j, |count|);
      EndSizes(count, j);
      while size[k'] == j
        invariant k <= k' <= |Sizes(count, j)| && c' == c + (k' - k) && HoldsCodes(sizes, k')
        decreases |Sizes(count, j)| - k'
      {
        NextIs(count, j, k');
        CodeOfSizes(count, j, k');
        SetCode(sizes, k', c');
        k', c' := k' + 1, c' + 1;
      }
      NextIs(count, j, k');
    }

    /** From the first symbol of length `j` on, the size tells whether there are more of them. */
    lemma NextIs(count: seq<nat>, j: nat, k: nat)
      requires Valid() && |count| == 16 && 1 <= j <= 16 && HoldsSizes(Sizes(count, |count|))
      requires |Sizes(count, j - 1)| <= k <= |Sizes(count, j)| <= |Sizes(count, |count|)|
      ensures size[k] == j <==> k < |Sizes(count, j)|
    {
      var sizes := Sizes(count, |count|);
      SizesGrow(count, j, |count|);
      if k < |Sizes(count, j)| {
        assert sizes[k] == Sizes(count, j)[k] == j;
      } else if k < |sizes| {
        LaterLonger(count, j, |count|, k);
      }
    }

    method SetMaxcode(ghost sizes: seq<nat>, j: nat, m: nat)
      requires Valid() && 1 <= j <= 16 && HoldsMaxcode(sizes, j) && m == Shl(EndCode(sizes, j), 16 - j)
      modifies maxcode
      ensures HoldsMaxcode(sizes, j + 1)
    {
      maxcode[j] := m;
    }

    method SetDelta(ghost sizes: seq<nat>, j: nat, d: int)
      requires Valid() && 1 <= j <= 16 && HoldsDelta(sizes, j) && d == Below(sizes, j) - FirstCode(sizes, j)
      modifies delta
      ensures HoldsDelta(sizes, j + 1)
    {
      delta[j] := d;
    }

    /** The codes of length `j`, if there are any, and whether they fit. */
    method CodesOfLength(count: seq<nat>, j: nat, k: nat, c: nat) returns (ok: bool, k': nat, c': nat)
      requires Valid() && |count| == 16 && 1 <= j <= 16 && HoldsSizes(Sizes(count, |count|))
      requires SizesOk(Sizes(count, |count|)) && k == |Sizes(count, j - 1)| <= |Sizes(count, |count|)|
      requires c == FirstCode(Sizes(count, |count|), j) && EndCode(Sizes(count, |count|), j - 1) <= Pow2(j - 1)
      requires HoldsCodes(Sizes(count, |count|), k)
      modifies code
      ensures ok <==> EndCode(Sizes(count, |count|), j) <= Pow2(j)
      ensures k' == |Sizes(count, j)| <= |Sizes(count, |count|)| && c' == EndCode(Sizes(count, |count|), j)
      ensures HoldsCodes(Sizes(count, |count|), k')
    {
      SizesGrow(count, j, |count|);
      NextIs(count, j, k);
      k', c', ok := k, c, true;
      if size[k] == j {
        k', c' := CountUp(count, j, k, c);
        ShlPow2(0, j);
        assert Pow2(0) == 1;
        if c' - 1 >= Shl(1, j) {
          ok := false;
        }
      } else {
        EndSizes(count, j);
      }
    }

    /** One turn of the loop over lengths. */
    method OneLength(count: seq<nat>, j: nat, k: nat, c: nat) returns (ok: bool, k': nat, c': nat)
      requires Valid() && |count| == 16 && 1 <= j <= 16 && HoldsSizes(Sizes(count, |count|))
      requires SizesOk(Sizes(count, |count|)) && k == |Sizes(count, j - 1)| <= |Sizes(count, |count|)|
      requires c == FirstCode(Sizes(count, |count|), j) && EndCode(Sizes(count, |count|), j - 1) <= Pow2(j - 1)
      requires HoldsMaxcode(Sizes(count, |count|), j) && HoldsDelta(Sizes(count, |count|), j)
      requires HoldsCodes(Sizes(count, |count|), k)
      modifies code, maxcode, delta
      ensures ok <==> EndCode(Sizes(count, |count|), j) <= Pow2(j)
      ensures k' == |Sizes(count, j)| <= |Sizes(count, |count|)| && HoldsCodes(Sizes(count, |count|), k')
      ensures ok ==>
        && HoldsMaxcode(Sizes(count, |count|), j + 1) && HoldsDelta(Sizes(count, |count|), j + 1)
        && c' == 2 * EndCode(Sizes(count, |count|), j)
    {
      ghost var sizes := Sizes(count, |count|);
      BelowSizes(count, j);
      SetDelta(sizes, j, k - c);
      ok, k', c' := CodesOfLength(count, j, k, c);
      if ok {
        SetMaxcode(sizes, j, Shl(c', 16 - j));
        c' := 2 * c';
      }
    }

    /** The loop over lengths: codes, `delta` and `maxcode`.  It fails at the first length whose
        codes do not fit. */
    method BuildCodes(count: seq<nat>) returns (ok: bool, k: nat)
      requires Valid() && |count| == 16 && SizesOk(Sizes(count, |count|)) && HoldsSizes(Sizes(count, |count|))
      modifies code, maxcode, delta
      ensures ok <==> Fits(Sizes(count, |count|))
      ensures ok ==> HoldsMaxcode(Sizes(count, |count|), 17) && HoldsDelta(Sizes(count, |count|), 17)
      ensures ok ==> maxcode[17] == 0xFFFF_FFFF
      ensures ok ==> k == |Sizes(count, |count|)| && HoldsCodes(Sizes(count, |count|), k)
    {
      ok, k := AllLengths(count);
      if ok {
        maxcode[17] := 0xFFFF_FFFF;
        FitsFrom16(Sizes(count, |count|));
      }
    }

    method AllLengths(count: seq<nat>) returns (ok: bool, k: nat)
      requires Valid() && |count| == 16 && SizesOk(Sizes(count, |count|)) && HoldsSizes(Sizes(count, |count|))
      modifies code, maxcode, delta
      ensures !ok ==> !Fits(Sizes(count, |count|))
      ensures ok ==> FitUpTo(Sizes(count, |count|), 16)
      ensures ok ==> HoldsMaxcode(Sizes(count, |count|), 17) && HoldsDelta(Sizes(count, |count|), 17)
      ensures ok ==> k == |Sizes(count, |count|)| && HoldsCodes(Sizes(count, |count|), k)
    {
      ghost var sizes := Sizes(count, |count|);
      var c := 0;
      k, ok := 0, true;
      for j := 1 to 17
        invariant ok && k == |Sizes(count, j - 1)| <= |sizes| && c == FirstCode(sizes, j)
        invariant HoldsMaxcode(sizes, j) && HoldsDelta(sizes, j) && HoldsCodes(sizes, k)
        invariant FitUpTo(sizes, j - 1)
      {
        ok, k, c := OneLength(count, j, k, c);
        if !ok {
          return;
        }
        FitNext(sizes, j);
      }
    }

    /** The entries that the codeword of symbol `i` fills. */
    method FillEntries(ghost sizes: seq<nat>, i: nat, c: nat, m: nat)
      requires Valid() && SizesOk(sizes) && Fits(sizes) && i < |sizes| && sizes[i] <= FAST_BITS
      requires c == Shl(Code(sizes, i), FAST_BITS - sizes[i]) && m == Shl(1, FAST_BITS - sizes[i]) && c + m <= FAST_SIZE
      requires EntriesUpTo(sizes, i)
      modifies fast
      ensures EntriesUpTo(sizes, i + 1)
    {
      for j := 0 to m
        invariant forall x :: 0 <= x < FAST_SIZE ==> fast[x] == if c <= x < c + j then i else old(fast[x])
      {
        fast[c + j] := i;
      }
      forall x | 0 <= x < FAST_SIZE
        ensures FastUpTo(sizes, i + 1, x, fast[x])
      {
        NextEntry(sizes, i, x, c, m, old(fast[x]));
      }
    }

    ghost predicate EntriesUpTo(sizes: seq<nat>, k: nat)
      requires Valid() && k <= |sizes|
      reads fast
    {
      forall x :: 0 <= x < FAST_SIZE ==> FastUpTo(sizes, k, x, fast[x])
    }

    /** The acceleration table; 255 marks what it does not accelerate. */
    method BuildFast(ghost sizes: seq<nat>, k: nat)
      requires Valid() && SizesOk(sizes) && Fits(sizes) && k == |sizes| && HoldsSizes(sizes) && HoldsCodes(sizes, k)
      modifies fast
      ensures forall c :: 0 <= c < FAST_SIZE ==> FastIs(sizes, c, fast[c])
    {
      for x := 0 to FAST_SIZE
        invariant forall y :: 0 <= y < x ==> fast[y] == 255
      {
        fast[x] := 255;
      }
      for i := 0 to k
        invariant EntriesUpTo(sizes, i)
      {
        var s := size[i];
        if s <= FAST_BITS {
          CodeInWord(sizes, i);
          var c, m := Shl(code[i], FAST_BITS - s), Shl(1, FAST_BITS - s);
          EntryFits(sizes, i, c, m);
          FillEntries(sizes, i, c, m);
        } else {
          LongCodeword(sizes, i);
        }
      }
    }

    lemma CodesAreHeld(sizes: seq<nat>)
      requires Valid() && SizesOk(sizes) && Fits(sizes) && HoldsCodes(sizes, |sizes|)
      ensures IsCodes(code[..], sizes)
    {
      forall i | 0 <= i < |sizes|
        ensures code[i] == Code(sizes, i)
      {
        CodeInWord(sizes, i);
      }
    }

    /** `stbi__build_huffman`: it succeeds exactly if there are at most 256 symbols and the codes of
        every length fit, and then the tables are those of the canonical code. */
    method Build(count: seq<nat>) returns (ok: bool)
      requires Valid() && |count| == 16
      modifies size, code, maxcode, delta, fast
      ensures ok <==> |Sizes(count, |count|)| <= 256 && Fits(Sizes(count, |count|))
      ensures ok ==> Built(View(), Sizes(count, |count|)) && IsCodes(code[..], Sizes(count, |count|))
    {
      SizesSorted(count, |count|);
      ok := BuildSizes(count);
      if ok {
        var k;
        ok, k := BuildCodes(count);
        if ok {
          BuildFast(Sizes(count, |count|), k);
          CodesAreHeld(Sizes(count, |count|));
        }
      }
    }
  }

  lemma CodeInWord(sizes: seq<nat>, i: nat)
    requires SizesOk(sizes) && Fits(sizes) && i < |sizes|
    ensures Code(sizes, i) < 0x1_0000
  {
    CodeInterval(sizes, i);
    Pow2Mono(sizes[i], 16);
    Pow2Small();
  }

  // ----- a table that misreads its last symbol

  /** One code of eight bits and 255 of nine. */
  predicate MisreadCount(count: seq<nat>) {
    && |count| == 16 && count[7] == 1 && count[8] == 255
    && forall l :: 0 <= l < 16 && l != 7 && l != 8 ==> count[l] == 0
  }

  lemma {:induction false} SizesUnused(count: seq<nat>, k: nat, l: nat)
    requires k <= l <= |count| && forall m :: k <= m < l ==> count[m] == 0
    ensures Sizes(count, l) == Sizes(count, k)
    decreases l
  {
    if k < l {
      SizesUnused(count, k, l - 1);
      assert Repeat(l, 0) == [];
    }
  }

  lemma MisreadSizes(count: seq<nat>)
    requires MisreadCount(count)
    ensures Sizes(count, |count|) == Repeat(8, 1) + Repeat(9, 255)
    ensures |Sizes(count, |count|)| == 256 && SizesOk(Sizes(count, |count|))
    ensures |Sizes(count, 8)| == 1 && |Sizes(count, 9)| == 256
  {
    SizesUnused(count, 0, 7);
    SizesUnused(count, 9, |count|);
    SizesSorted(count, |count|);
    assert [] + Repeat(8, 1) == Repeat(8, 1);
  }

  lemma {:induction false} MisreadEnd(count: seq<nat>, l: nat)
    requires MisreadCount(count) && l <= 16
    ensures EndCode(Sizes(count, |count|), l) == if l < 8 then 0 else if l == 8 then 1 else Shl(257, l - 9)
  {
    if l > 0 {
      MisreadEnd(count, l - 1);
      EndSizes(count, l);
    }
  }

  /** `stbi__build_huffman` accepts it. */
  lemma MisreadAccepted(count: seq<nat>)
    requires MisreadCount(count)
    ensures |Sizes(count, |count|)| == 256 && SizesOk(Sizes(count, |count|)) && Fits(Sizes(count, |count|))
    ensures Code(Sizes(count, |count|), 255) == 256 && Sizes(count, |count|)[255] == 9
  {
    var sizes := Sizes(count, |count|);
    MisreadSizes(count);
    forall l | 0 <= l <= 16
      ensures EndCode(sizes, l) <= Pow2(l)
    {
      MisreadEnd(count, l);
      if l >= 9 {
        Pow2Small();
        ShlMono(257, Pow2(9), l - 9);
        ShlPow2(9, l - 9);
      } else if l == 8 {
        Pow2Small();
      }
    }
    FitsFrom16(sizes);
    MisreadEnd(count, 8);
    CodeOfSizes(count, 9, 255);
  }

  /** The word that begins with its last codeword, 100000000, is not decoded as symbol 255. */
  lemma LastSymbolMisread(count: seq<nat>, h: Huffman)
    requires MisreadCount(count) && Built(h, Sizes(count, |count|))
    ensures GoodTables(h) && |Sizes(count, |count|)| == 256 && Sizes(count, |count|)[255] == 9
    ensures 0x8000_0000 < Pow2(WORD) && Matches(Sizes(count, |count|), 255, Stream(0x8000_0000))
    ensures HuffDecode(h, Buffer(0x8000_0000, 16)) != Decoded(h, Sizes(count, |count|), Buffer(0x8000_0000, 16), 255)
  {
    var sizes := Sizes(count, |count|);
    MisreadAccepted(count);
    WordOfMatches(sizes, 255);
    ShlWord();
    DecodesExactly(h, sizes, Buffer(0x8000_0000, 16), 255);
  }

  /** In a build with assertions, the assertion of the slow path fails there. */
  lemma LastSymbolAsserts(count: seq<nat>, h: Huffman, code: seq<nat>)
    requires MisreadCount(count) && Built(h, Sizes(count, |count|)) && IsCodes(code, Sizes(count, |count|))
    ensures GoodTables(h) && 0x8000_0000 < Pow2(WORD) && !AssertionHolds(h, code, Buffer(0x8000_0000, 16))
  {
    var sizes := Sizes(count, |count|);
    LastSymbolMisread(count, h);
    ShlWord();
    MsbOfShl(256, 9, 23);
    assert !Stream(0x8000_0000)[9];
    AssertionExactly(h, sizes, code, Buffer(0x8000_0000, 16), 255);
  }

  lemma ShlWord()
    ensures Shl(256, 23) == 0x8000_0000
  {
    Pow2Small();
    ShlPow2(8, 8);
    ShlShl(256, 8, 15);
    assert Shl(256, 8) == 65536;
    ShlShl(65536, 8, 7);
    assert Shl(65536, 8) == 0x100_0000;
    assert Shl(0x100_0000, 7) == 0x8000_0000;
  }
}
