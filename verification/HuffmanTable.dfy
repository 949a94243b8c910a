/** `stbi__zhuffman`: the decoding tables built from a list of code lengths. */
module HuffmanTable {
  import opened BitReversal
  import opened Bits
  import opened Canonical

  const ZFAST_BITS: nat := 9
  const ZFAST_SIZE: nat := 512
  const NUM_SYMS: nat := 288

  /** How many symbols have a codeword shorter than `l` bits. */
  function FirstSymbol(lens: seq<nat>, l: nat): nat
    requires l > 0
  {
    if l == 1 then 0 else FirstSymbol(lens, l - 1) + Count(lens, l - 1)
  }

  /** The place of symbol `i` when symbols are sorted by (length, symbol). */
  function Slot(lens: seq<nat>, i: nat): nat
    requires i < |lens| && lens[i] > 0
  {
    FirstSymbol(lens, lens[i]) + Rank(lens, i)
  }

  lemma {:induction false} FirstSymbolMono(lens: seq<nat>, l: nat, m: nat)
    requires 0 < l < m
    ensures FirstSymbol(lens, l) + Count(lens, l) <= FirstSymbol(lens, m)
    decreases m
  {
    if l < m - 1 {
      FirstSymbolMono(lens, l, m - 1);
    }
  }

  lemma {:induction false} FirstSymbolBound(lens: seq<nat>, l: nat)
    requires l > 0
    ensures FirstSymbol(lens, l) <= |lens|
  {
    if lens == [] {
      FirstSymbolEmpty(l);
    } else {
      var n := |lens| - 1;
      FirstSymbolBound(lens[..n], l);
      FirstSymbolAppend(lens[..n], lens[n], l);
      assert lens == lens[..n] + [lens[n]];
    }
  }

  lemma {:induction false} FirstSymbolEmpty(l: nat)
    requires l > 0
    ensures FirstSymbol([], l) == 0
  {
    if l > 1 {
      FirstSymbolEmpty(l - 1);
    }
  }

  lemma {:induction false} FirstSymbolAppend(lens: seq<nat>, x: nat, l: nat)
    requires l > 0
    ensures FirstSymbol(lens + [x], l) == FirstSymbol(lens, l) + (if 0 < x < l then 1 else 0)
  {
    assert (lens + [x])[..|lens|] == lens;
    if l > 1 {
      FirstSymbolAppend(lens, x, l - 1);
    }
  }

  lemma SlotBound(lens: seq<nat>, i: nat)
    requires i < |lens| && lens[i] > 0
    ensures Slot(lens, i) < |lens|
  {
    RankBelowCount(lens, i);
    FirstSymbolBound(lens, lens[i] + 1);
  }

  /** No two used symbols share a place. */
  lemma SlotInjective(lens: seq<nat>, i: nat, j: nat)
    requires i < |lens| && j < |lens| && i != j && lens[i] > 0 && lens[j] > 0
    ensures Slot(lens, i) != Slot(lens, j)
  {
    RankBelowCount(lens, i);
    RankBelowCount(lens, j);
    if lens[i] < lens[j] {
      FirstSymbolMono(lens, lens[i], lens[j]);
    } else if lens[j] < lens[i] {
      FirstSymbolMono(lens, lens[j], lens[i]);
    } else if i < j {
      RankInjective(lens, i, j);
    } else {
      RankInjective(lens, j, i);
    }
  }

  /** A fast-table entry `b` for the nine stream bits `bits`, with the symbols below `upto`
      entered: 0 if no short codeword of theirs begins `bits`, else length and symbol. */
  predicate FastEntry(lens: seq<nat>, upto: nat, b: nat, bits: seq<bool>)
    requires upto <= |lens|
  {
    if b == 0 then
      forall i :: 0 <= i < upto && lens[i] <= ZFAST_BITS ==> !Matches(lens, i, bits)
    else
      b % 512 < upto && lens[b % 512] == b / 512 <= ZFAST_BITS && Matches(lens, b % 512, bits)
  }

  /** The table index of a codeword is its bit reversal: the stream is read from the low end. */
  lemma FastIndex(lens: seq<nat>, i: nat, j: nat)
    requires IsCode(lens) && i < |lens| && 0 < lens[i] <= ZFAST_BITS
    ensures Matches(lens, i, ToBits(j, ZFAST_BITS))
            <==> Low(j, lens[i]) == BitReverse(Code(lens, i), lens[i])
  {
    var s, c := lens[i], Code(lens, i);
    LowIsPrefix(j, ZFAST_BITS, s);
    MsbIsReversed(c, s);
    FromMsbIsReversed(ToBits(c, s));
    assert BitReverse(c, s) == FromBits(Codeword(lens, i));
    ToFromBits(ToBits(j, s));
    ToFromBits(Codeword(lens, i));
    assert Codeword(lens, i) <= ToBits(j, ZFAST_BITS) <==> Codeword(lens, i) == ToBits(j, s);
  }

  class ZHuffman {
    const fast: array<nat>
    const firstcode: array<nat>
    const maxcode: array<nat>
    const firstsymbol: array<nat>
    const size: array<nat>
    const value: array<nat>

    /** The code lengths the tables were built from. */
    ghost var lens: seq<nat>

    ghost predicate Shape() {
      && fast.Length == ZFAST_SIZE && maxcode.Length == 17
      && firstcode.Length == 16 && firstsymbol.Length == 16 && firstcode != firstsymbol
      && size.Length == NUM_SYMS && value.Length == NUM_SYMS && size != value
    }

    /** `o` is neither this object nor one of its arrays. */
    ghost predicate Apart(o: object) {
      && o != this && o != fast && o != firstcode && o != maxcode
      && o != firstsymbol && o != size && o != value
    }

    /** No array is shared with `that`. */
    ghost predicate ApartFrom(that: ZHuffman) {
      && Apart(that) && Apart(that.fast) && Apart(that.firstcode) && Apart(that.maxcode)
      && Apart(that.firstsymbol) && Apart(that.size) && Apart(that.value)
      && that.Apart(this)
    }

    ghost predicate RangesBelow(ls: seq<nat>, n: nat)
      requires Shape() && n <= 16
      reads firstcode, maxcode, firstsymbol
    {
      && (forall l {:trigger firstcode[l]} :: 1 <= l < n ==> firstcode[l] == FirstCode(ls, l))
      && (forall l {:trigger firstsymbol[l]} :: 1 <= l < n ==> firstsymbol[l] == FirstSymbol(ls, l))
      && (forall l {:trigger maxcode[l]} :: 1 <= l < n ==> maxcode[l] == Shl(EndCode(ls, l), 16 - l))
    }

    ghost predicate SlotsBelow(ls: seq<nat>, n: nat)
      requires Shape() && n <= |ls| <= NUM_SYMS
      reads size, value
    {
      forall i {:trigger Slot(ls, i)} :: 0 <= i < n && ls[i] > 0 ==>
        && Slot(ls, i) < NUM_SYMS
        && size[Slot(ls, i)] == ls[i]
        && value[Slot(ls, i)] == i
    }

    ghost predicate FastBelow(ls: seq<nat>, n: nat)
      requires Shape() && n <= |ls|
      reads fast
    {
      forall j {:trigger fast[j]} :: 0 <= j < ZFAST_SIZE ==> FastEntry(ls, n, fast[j], ToBits(j, ZFAST_BITS))
    }

    /** The tables describe the code with lengths `lens`. */
    ghost predicate Ready()
      reads this, fast, firstcode, maxcode, firstsymbol, size, value
    {
      && Shape()
      && IsCode(lens) && |lens| <= NUM_SYMS
      && RangesBelow(lens, 16) && maxcode[16] == 0x1_0000
      && SlotsBelow(lens, |lens|)
      && FastBelow(lens, |lens|)
    }

    constructor ()
      ensures Shape()
      ensures fresh(fast) && fresh(firstcode) && fresh(maxcode)
      ensures fresh(firstsymbol) && fresh(size) && fresh(value)
    {
      fast := new nat[ZFAST_SIZE](_ => 0);
      firstcode := new nat[16](_ => 0);
      maxcode := new nat[17](_ => 0);
      firstsymbol := new nat[16](_ => 0);
      size := new nat[NUM_SYMS](_ => 0);
      value := new nat[NUM_SYMS](_ => 0);
    }

    /** `sizes[l]`: how many symbols have length `l`, with `sizes[0]` cleared. */
    method CountSizes(sizelist: seq<nat>) returns (sizes: array<nat>)
      requires ValidLens(sizelist)
      ensures fresh(sizes) && sizes.Length == 17
      ensures forall l :: 1 <= l <= 15 ==> sizes[l] == Count(sizelist, l)
    {
      sizes := new nat[17](_ => 0);
      for i := 0 to |sizelist|
        invariant forall l :: 0 <= l <= 15 ==> sizes[l] == Count(sizelist[..i], l)
      {
        assert sizelist[..i + 1][..i] == sizelist[..i];
        sizes[sizelist[i]] := sizes[sizelist[i]] + 1;
      }
      assert sizelist[..|sizelist|] == sizelist;
      sizes[0] := 0;
    }

    /** The first check: no length has more codewords than there are bit strings. */
    method CheckCounts(ghost sizelist: seq<nat>, sizes: seq<nat>) returns (ok: bool)
      requires ValidLens(sizelist) && |sizes| == 17
      requires forall l :: 1 <= l <= 15 ==> sizes[l] == Count(sizelist, l)
      ensures ok <==> forall l :: 1 <= l <= 15 ==> sizes[l] <= Pow2(l)
      ensures Kraft(sizelist) ==> ok
    {
      for i := 1 to 16
        invariant forall l :: 1 <= l < i ==> sizes[l] <= Pow2(l)
      {
        if sizes[i] > Pow2(i) {
          NotKraft(sizelist, i);
          return false;
        }
      }
      ok := true;
    }

    /** One turn of the loop over code lengths: the first code, first symbol and (shifted)
        end code of length `l`. */
    method SetRange(ghost ls: seq<nat>, l: nat, code: nat, k: nat, count: nat, next_code: array<nat>)
      requires Shape() && next_code.Length == 16 && Apart(next_code) && 1 <= l <= 15
      requires code == FirstCode(ls, l) < 0x1_0000 && k == FirstSymbol(ls, l) < 0x1_0000
      requires count == Count(ls, l)
      requires RangesBelow(ls, l)
      modifies next_code, firstcode, firstsymbol, maxcode
      ensures RangesBelow(ls, l + 1)
      ensures next_code[..] == old(next_code[..])[l := code]
    {
      next_code[l] := code;
      firstcode[l] := code % 0x1_0000;
      firstsymbol[l] := k % 0x1_0000;
      maxcode[l] := Shl(code + count, 16 - l);
    }

    /** The loop over code lengths.  It fails if some length has more codewords than fit. */
    method FillRanges(sizelist: seq<nat>, sizes: seq<nat>, next_code: array<nat>) returns (ok: bool)
      requires Shape() && ValidLens(sizelist) && |sizelist| <= NUM_SYMS
      requires |sizes| == 17 && next_code.Length == 16 && Apart(next_code)
      requires forall l :: 1 <= l <= 15 ==> sizes[l] == Count(sizelist, l)
      modifies next_code, firstcode, firstsymbol, maxcode
      ensures ok <==> Kraft(sizelist)
      ensures ok ==> RangesBelow(sizelist, 16) && maxcode[16] == 0x1_0000
      ensures ok ==> forall l :: 1 <= l <= 15 ==> next_code[l] == FirstCode(sizelist, l)
    {
      var code: nat, k: nat := 0, 0;
      for i := 1 to 16
        invariant code == FirstCode(sizelist, i) && EndCode(sizelist, i - 1) <= Pow2(i - 1)
        invariant k == FirstSymbol(sizelist, i)
        invariant RangesBelow(sizelist, i)
        invariant forall l :: 1 <= l < i ==> next_code[l] == FirstCode(sizelist, l)
      {
        CodeFitsWord(i);
        FirstSymbolBound(sizelist, i);
        if sizes[i] != 0 {
          if code + sizes[i] - 1 >= Pow2(i) {
            NotKraft(sizelist, i);
            return false;
          }
        }
        SetRange(sizelist, i, code, k, sizes[i], next_code);
        code := (code + sizes[i]) * 2;
        k := k + sizes[i];
      }
      maxcode[16] := 0x1_0000;
      FitImpliesKraft(sizelist);
      ok := true;
    }

    lemma CodeFitsWord(i: nat)
      requires 1 <= i <= 15
      ensures 2 * Pow2(i - 1) == Pow2(i) <= 0x8000
    {
      Pow2Mono(i, 15);
      Pow2Small();
    }

    lemma NotKraft(ls: seq<nat>, i: nat)
      requires ValidLens(ls) && i <= 15 && EndCode(ls, i) > Pow2(i)
      ensures !Kraft(ls)
    {
      if Kraft(ls) {
        CodesFit(ls, i);
      }
    }

    /** The replication loop: every index whose `s` low bits are `j0` gets `fastv`. */
    method FillFast(j0: nat, s: nat, fastv: nat)
      requires Shape() && j0 < Pow2(s)
      modifies fast
      ensures forall j :: 0 <= j < ZFAST_SIZE ==>
        fast[j] == if Low(j, s) == j0 then fastv else old(fast[j])
    {
      var j := j0;
      LowAtMost(j0, s);
      forall i: nat | i < j0
        ensures Low(i, s) != j0
      {
        LowAtMost(i, s);
      }
      while j < ZFAST_SIZE
        invariant Low(j, s) == j0
        invariant forall i :: 0 <= i < ZFAST_SIZE && i < j ==>
          fast[i] == if Low(i, s) == j0 then fastv else old(fast[i])
        invariant forall i :: j <= i < ZFAST_SIZE ==> fast[i] == old(fast[i])
      {
        fast[j] := fastv;
        forall i: nat | j < i < j + Pow2(s)
          ensures Low(i, s) != j0
        {
          if Low(i, s) == j0 {
            LowApart(j, i, s);
          }
        }
        LowPeriodic(j, s);
        j := j + Pow2(s);
      }
    }

    /** The loop over symbols: each used symbol gets its sorted slot, and, if its codeword
        is short enough, its fast-table entries. */
    method FillSymbols(sizelist: seq<nat>, next_code: array<nat>)
      requires Shape() && IsCode(sizelist) && |sizelist| <= NUM_SYMS
      requires next_code.Length == 16 && Apart(next_code)
      requires RangesBelow(sizelist, 16)
      requires forall l :: 1 <= l <= 15 ==> next_code[l] == FirstCode(sizelist, l)
      requires forall j :: 0 <= j < ZFAST_SIZE ==> fast[j] == 0
      modifies next_code, fast, size, value
      ensures SlotsBelow(sizelist, |sizelist|) && FastBelow(sizelist, |sizelist|)
    {
      for i := 0 to |sizelist|
        invariant forall l :: 1 <= l <= 15 ==>
          next_code[l] == FirstCode(sizelist, l) + Count(sizelist[..i], l)
        invariant SlotsBelow(sizelist, i) && FastBelow(sizelist, i)
      {
        var s := sizelist[i];
        assert sizelist[..i + 1][..i] == sizelist[..i];
        if s != 0 {
          SetSlot(sizelist, i, next_code[s]);
          SetFast(sizelist, i, next_code[s]);
          next_code[s] := next_code[s] + 1;
        }
      }
    }

    method SetSlot(sizelist: seq<nat>, i: nat, code: nat)
      requires Shape() && IsCode(sizelist) && i < |sizelist| <= NUM_SYMS && sizelist[i] > 0
      requires RangesBelow(sizelist, 16) && SlotsBelow(sizelist, i)
      requires code == Code(sizelist, i)
      modifies size, value
      ensures SlotsBelow(sizelist, i + 1)
    {
      var s := sizelist[i];
      var c := code - firstcode[s] + firstsymbol[s];
      SlotBound(sizelist, i);
      forall j | 0 <= j < i && sizelist[j] > 0
        ensures Slot(sizelist, j) != c
      {
        SlotInjective(sizelist, i, j);
      }
      size[c] := s % 0x100;
      value[c] := i % 0x1_0000;
    }

    method SetFast(sizelist: seq<nat>, i: nat, code: nat)
      requires Shape() && IsCode(sizelist) && i < |sizelist| <= NUM_SYMS && sizelist[i] > 0
      requires FastBelow(sizelist, i)
      requires code == Code(sizelist, i)
      modifies fast
      ensures FastBelow(sizelist, i + 1)
    {
      var s := sizelist[i];
      var fastv := FastValue(s, i);
      if s <= ZFAST_BITS {
        FillFast(BitReverse(code, s), s, fastv);
      }
      forall j | 0 <= j < ZFAST_SIZE
        ensures FastEntry(sizelist, i + 1, fast[j], ToBits(j, ZFAST_BITS))
      {
        FastEntryStep(sizelist, i, old(fast[j]), fast[j], j, fastv);
      }
    }

    /** `(stbi__uint16) ((s << 9) | i)`. */
    function FastValue(s: nat, i: nat): (r: nat)
      requires s <= 15 && i < NUM_SYMS
      ensures r / 512 == s && r % 512 == i
    {
      (s * 512 + i) % 0x1_0000
    }

    /** Entering symbol `i` keeps the meaning of every fast-table entry. */
    lemma FastEntryStep(ls: seq<nat>, i: nat, before: nat, after: nat, j: nat, fastv: nat)
      requires IsCode(ls) && i < |ls| <= NUM_SYMS && ls[i] > 0
      requires FastEntry(ls, i, before, ToBits(j, ZFAST_BITS))
      requires fastv / 512 == ls[i] && fastv % 512 == i
      requires after == if ls[i] <= ZFAST_BITS && Low(j, ls[i]) == BitReverse(Code(ls, i), ls[i])
                        then fastv else before
      ensures FastEntry(ls, i + 1, after, ToBits(j, ZFAST_BITS))
    {
      if ls[i] <= ZFAST_BITS {
        FastIndex(ls, i, j);
      }
    }

    /** `stbi__zbuild_huffman`: builds the tables, or fails, exactly when the lengths break
        the Kraft inequality. */
    method Build(sizelist: seq<nat>) returns (ok: bool)
      requires Shape() && ValidLens(sizelist) && |sizelist| <= NUM_SYMS
      modifies this`lens, fast, firstcode, maxcode, firstsymbol, size, value
      ensures ok <==> Kraft(sizelist)
      ensures ok ==> Ready() && lens == sizelist
    {
      var sizes := CountSizes(sizelist);
      forall j | 0 <= j < ZFAST_SIZE {
        fast[j] := 0;
      }
      ok := CheckCounts(sizelist, sizes[..]);
      if !ok {
        return;
      }
      var next_code := new nat[16](_ => 0);
      ok := FillRanges(sizelist, sizes[..], next_code);
      if ok {
        FillSymbols(sizelist, next_code);
        lens := sizelist;
      }
    }
  }
}
