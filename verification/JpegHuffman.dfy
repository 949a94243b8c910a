/** Huffman decoding of JPEG (annexes C and F of ITU-T Recommendation T.81) and the tables it relies on.

    The bit buffer is a 32-bit word with the next bits of the stream at its high end. */
module JpegHuffman {
  import opened Bits
  import opened Canonical

  const WORD: nat := 32
  const FAST_BITS: nat := 9
  const FAST_SIZE: nat := 512

  /** The first `n` of the 32 bits of the buffer, which hold the next bits of the stream. */
  function Top(w: nat, n: nat): nat
    requires n <= WORD
  {
    Shr(w, WORD - n)
  }

  /** `w <<= n` on 32 bits. */
  function Drop(w: nat, n: nat): (r: nat)
    ensures r < Pow2(WORD)
  {
    Low(Shl(w, n), WORD)
  }

  /** The bits of the buffer in stream order. */
  function Stream(w: nat): seq<bool> {
    MsbBits(w, WORD)
  }

  lemma TopIs(w: nat, n: nat)
    requires n <= WORD && w < Pow2(WORD)
    ensures Top(w, n) == FromMsb(Stream(w)[..n]) && Top(w, n) < Pow2(n)
  {
    FromMsbOfMsb(w, WORD);
    FromMsbPrefix(Stream(w), n);
  }

  function Falses(n: nat): seq<bool> {
    seq(n, _ => false)
  }

  lemma {:induction false} MsbOfShl(w: nat, n: nat, k: nat)
    ensures MsbBits(Shl(w, k), n + k) == MsbBits(w, n) + Falses(k)
  {
    if k > 0 {
      MsbOfShl(w, n, k - 1);
      assert MsbBits(w, n) + Falses(k - 1) + [false] == MsbBits(w, n) + Falses(k);
    } else {
      assert MsbBits(w, n) + Falses(0) == MsbBits(w, n);
    }
  }

  lemma {:induction false} MsbSuffix(v: nat, m: nat, n: nat)
    requires m <= n
    ensures MsbBits(v, m) == MsbBits(v, n)[n - m..]
  {
    if m > 0 {
      MsbSuffix(v / 2, m - 1, n - 1);
    }
  }

  lemma DropIs(w: nat, n: nat)
    requires n <= WORD
    ensures Stream(Drop(w, n)) == Stream(w)[n..] + Falses(n)
  {
    MsbOfLow(Shl(w, n), WORD);
    MsbSuffix(Shl(w, n), WORD, WORD + n);
    MsbOfShl(w, WORD, n);
  }

  lemma StreamInjective(v: nat, w: nat)
    requires v < Pow2(WORD) && w < Pow2(WORD) && Stream(v) == Stream(w)
    ensures v == w
  {
    FromMsbOfMsb(v, WORD);
    FromMsbOfMsb(w, WORD);
  }

  /** Dropping bits in two steps. */
  lemma DropTwice(w: nat, m: nat, n: nat)
    requires m + n <= WORD
    ensures Drop(Drop(w, m), n) == Drop(w, m + n)
  {
    DropIs(w, m);
    DropIs(Drop(w, m), n);
    DropIs(w, m + n);
    assert Stream(Drop(Drop(w, m), n)) == Stream(Drop(w, m + n));
    StreamInjective(Drop(Drop(w, m), n), Drop(w, m + n));
  }

  /** The bits after the first `m`. */
  lemma TopAfterDrop(w: nat, m: nat, n: nat)
    requires m + n <= WORD
    ensures Top(Drop(w, m), n) == FromMsb(Stream(w)[m..m + n])
  {
    TopIs(Drop(w, m), n);
    DropIs(w, m);
    assert Stream(Drop(w, m))[..n] == Stream(w)[m..m + n];
  }

  // ----- the tables and the first decoding step

  /** `stbi__huffman` after it has been built. */
  datatype Huffman = Huffman(fast: seq<byte>, size: seq<byte>, values: seq<byte>, maxcode: seq<nat>, delta: seq<int>)

  /** What decoding relies on: accelerated symbols have codes of at most nine bits; 255 marks the
      others. */
  predicate GoodTables(h: Huffman) {
    && |h.fast| == FAST_SIZE && |h.size| == 257 && |h.values| == 256 && |h.maxcode| == 18 && |h.delta| == 17
    && h.maxcode[17] == 0xFFFF_FFFF
    && forall c :: 0 <= c < FAST_SIZE && h.fast[c] < 255 ==> 1 <= h.size[h.fast[c]] <= FAST_BITS
  }

  /** The top `bits` bits of `word` are buffered. */
  datatype Buffer = Buffer(word: nat, bits: nat)

  datatype Symbol = NoSymbol | Symbol(v: byte)

  function SlowLength(h: Huffman, temp: nat, k: nat): (r: nat)
    requires GoodTables(h) && k <= 17 && temp < 0x1_0000
    ensures k <= r <= 17
    decreases 17 - k
  {
    if temp < h.maxcode[k] then k else SlowLength(h, temp, k + 1)
  }

  /** `stbi__jpeg_huff_decode` with at least 16 bits in the buffer. */
  function HuffDecode(h: Huffman, b: Buffer): (r: (Symbol, Buffer))
    requires GoodTables(h) && b.word < Pow2(WORD) && b.bits >= 16
  {
    TopIs(b.word, FAST_BITS);
    TopIs(b.word, 16);
    Pow2Small();
    var k := h.fast[Top(b.word, FAST_BITS)];
    if k < 255 then (Symbol(h.values[k]), Buffer(Drop(b.word, h.size[k]), b.bits - h.size[k]))
    else
      var n := SlowLength(h, Top(b.word, 16), FAST_BITS + 1);
      if n == 17 then (NoSymbol, Buffer(b.word, b.bits - 16))
      else
        var c := Top(b.word, n) + h.delta[n];
        if c < 0 || c >= 256 then (NoSymbol, b)
        else (Symbol(h.values[c]), Buffer(Drop(b.word, n), b.bits - n))
  }

  // ----- the tables that are built

  /** The code sizes of the symbols in order, from the number of codes of each size (Figure C.1). */
  function Sizes(count: seq<nat>, l: nat): seq<nat>
    requires l <= |count|
  {
    if l == 0 then [] else Sizes(count, l - 1) + Repeat(l, count[l - 1])
  }

  /** How many symbols have codes shorter than `l`. */
  function Below(sizes: seq<nat>, l: nat): nat {
    if l <= 1 then 0 else Below(sizes, l - 1) + Count(sizes, l - 1)
  }

  predicate SizesOk(sizes: seq<nat>) {
    && |sizes| <= 256 && (forall i :: 0 <= i < |sizes| ==> 1 <= sizes[i] <= 16)
    && forall i, j :: 0 <= i < j < |sizes| ==> sizes[i] <= sizes[j]
  }

  /** `v` is the number of the symbol, of the first `k`, whose codeword begins the nine bits `c`, or
      255 if there is none. */
  ghost predicate FastUpTo(sizes: seq<nat>, k: nat, c: nat, v: byte)
    requires k <= |sizes|
  {
    && (forall i :: 0 <= i < k && Matches(sizes, i, MsbBits(c, FAST_BITS)) ==> v == i)
    && ((forall i :: 0 <= i < k ==> !Matches(sizes, i, MsbBits(c, FAST_BITS))) ==> v == 255)
  }

  ghost predicate FastIs(sizes: seq<nat>, c: nat, v: byte) {
    FastUpTo(sizes, |sizes|, c, v)
  }

  /** The tables of the code with these sizes. */
  ghost predicate Built(h: Huffman, sizes: seq<nat>) {
    && SizesOk(sizes) && Fits(sizes)
    && |h.fast| == FAST_SIZE && |h.size| == 257 && |h.values| == 256 && |h.maxcode| == 18 && |h.delta| == 17
    && (forall i :: 0 <= i < |sizes| ==> h.size[i] == sizes[i])
    && (forall l :: 1 <= l <= 16 ==> h.maxcode[l] == Shl(EndCode(sizes, l), 16 - l)) && h.maxcode[17] == 0xFFFF_FFFF
    && (forall l :: 1 <= l <= 16 ==> h.delta[l] == Below(sizes, l) - FirstCode(sizes, l))
    && (forall c :: 0 <= c < FAST_SIZE ==> FastIs(sizes, c, h.fast[c]))
  }

  /** The array `code` with them. */
  ghost predicate IsCodes(code: seq<nat>, sizes: seq<nat>) {
    && SizesOk(sizes) && |code| == 256
    && forall i :: 0 <= i < |sizes| ==> code[i] == Code(sizes, i)
  }

  lemma BuiltIsGood(h: Huffman, sizes: seq<nat>)
    requires Built(h, sizes)
    ensures GoodTables(h)
  {
    forall c | 0 <= c < FAST_SIZE && h.fast[c] < 255
      ensures 1 <= h.size[h.fast[c]] <= FAST_BITS
    {
      assert FastIs(sizes, c, h.fast[c]);
      var i :| 0 <= i < |sizes| && Matches(sizes, i, MsbBits(c, FAST_BITS));
    }
  }

  // ----- ranks in a sorted list

  lemma {:induction false} BelowAppend(p: seq<nat>, x: nat, l: nat)
    requires x >= 1
    ensures Below(p + [x], l) == Below(p, l) + if x < l then 1 else 0
  {
    if l > 1 {
      BelowAppend(p, x, l - 1);
      assert (p + [x])[..|p|] == p;
    }
  }

  lemma {:induction false} BelowEmpty(l: nat)
    ensures Below([], l) == 0
  {
    if l > 1 {
      BelowEmpty(l - 1);
    }
  }

  lemma {:induction false} BelowAndAt(p: seq<nat>, l: nat)
    requires forall i :: 0 <= i < |p| ==> 1 <= p[i] <= l
    ensures |p| == Below(p, l) + Count(p, l)
  {
    if p == [] {
      BelowEmpty(l);
    } else {
      var q := p[..|p| - 1];
      BelowAndAt(q, l);
      BelowAppend(q, p[|p| - 1], l);
      assert p == q + [p[|p| - 1]];
    }
  }

  lemma {:induction false} BelowPrefix(p: seq<nat>, k: nat, l: nat)
    requires k <= |p| && forall i :: k <= i < |p| ==> l <= p[i]
    requires forall i :: 0 <= i < |p| ==> 1 <= p[i]
    ensures Below(p, l) == Below(p[..k], l)
    decreases |p|
  {
    if k == |p| {
      assert p[..k] == p;
    } else {
      var q := p[..|p| - 1];
      BelowPrefix(q, k, l);
      BelowAppend(q, p[|p| - 1], l);
      assert p == q + [p[|p| - 1]] && q[..k] == p[..k];
    }
  }

  /** In the order of sizes, the rank of a symbol is its distance from the first of its size. */
  lemma RankInOrder(sizes: seq<nat>, i: nat)
    requires SizesOk(sizes) && i < |sizes|
    ensures Rank(sizes, i) == i - Below(sizes, sizes[i])
  {
    BelowAndAt(sizes[..i], sizes[i]);
    BelowPrefix(sizes, i, sizes[i]);
  }

  // ----- decoding one symbol

  lemma {:induction false} SlowIs(h: Huffman, temp: nat, k: nat, s: nat)
    requires GoodTables(h) && k <= s <= 17 && temp < 0x1_0000 && temp < h.maxcode[s]
    requires forall r :: k <= r < s ==> temp >= h.maxcode[r]
    ensures SlowLength(h, temp, k) == s
    decreases s - k
  {
    if k < s {
      SlowIs(h, temp, k + 1, s);
    }
  }

  /** The comparison with `maxcode` asks whether the first `l` bits lie below the end of the codes
      of length `l`. */
  lemma MaxcodeIs(h: Huffman, sizes: seq<nat>, temp: nat, l: nat)
    requires Built(h, sizes) && 1 <= l <= 16
    ensures temp < h.maxcode[l] <==> Shr(temp, 16 - l) < EndCode(sizes, l)
  {
    BelowShl(temp, EndCode(sizes, l), 16 - l);
  }

  lemma MatchesPrefix(sizes: seq<nat>, i: nat, bits: seq<bool>, n: nat)
    requires i < |sizes| && sizes[i] <= n <= |bits|
    ensures Matches(sizes, i, bits[..n]) <==> Matches(sizes, i, bits)
  {
    if Matches(sizes, i, bits[..n]) {
      assert bits[..n] <= bits;
    }
  }

  /** Below the length of the codeword that comes next, the bits lie beyond all codes. */
  lemma BeyondShorter(sizes: seq<nat>, i: nat, bits: seq<bool>, l: nat)
    requires Fits(sizes) && i < |sizes| && Matches(sizes, i, bits) && l < sizes[i] && l <= |bits|
    ensures Shr(FromMsb(bits), |bits| - l) >= EndCode(sizes, l)
  {
    if Shr(FromMsb(bits), |bits| - l) < EndCode(sizes, l) {
      var j := BelowEndMatches(sizes, bits, l);
      PrefixFree(sizes, i, j, bits);
      assert false;
    }
  }

  lemma BeyondAll(sizes: seq<nat>, bits: seq<bool>, l: nat)
    requires Fits(sizes) && l <= |bits| && forall i :: 0 <= i < |sizes| ==> !Matches(sizes, i, bits)
    ensures Shr(FromMsb(bits), |bits| - l) >= EndCode(sizes, l)
  {
    if Shr(FromMsb(bits), |bits| - l) < EndCode(sizes, l) {
      var j := BelowEndMatches(sizes, bits, l);
      assert false;
    }
  }

  /** What the fast table holds for the bits of the buffer. */
  lemma FastEntry(h: Huffman, sizes: seq<nat>, w: nat)
    requires Built(h, sizes) && w < Pow2(WORD)
    ensures Top(w, FAST_BITS) < FAST_SIZE && FastIs(sizes, Top(w, FAST_BITS), h.fast[Top(w, FAST_BITS)])
    ensures MsbBits(Top(w, FAST_BITS), FAST_BITS) == Stream(w)[..FAST_BITS]
  {
    TopIs(w, FAST_BITS);
    Pow2Small();
    MsbOfFromMsb(Stream(w)[..FAST_BITS]);
  }

  lemma FastHit(h: Huffman, sizes: seq<nat>, w: nat, i: nat)
    requires Built(h, sizes) && w < Pow2(WORD) && i < |sizes| && Matches(sizes, i, Stream(w)) && sizes[i] <= FAST_BITS
    ensures Top(w, FAST_BITS) < FAST_SIZE && h.fast[Top(w, FAST_BITS)] == i
  {
    FastEntry(h, sizes, w);
    MatchesPrefix(sizes, i, Stream(w), FAST_BITS);
  }

  lemma FastMiss(h: Huffman, sizes: seq<nat>, w: nat)
    requires Built(h, sizes) && w < Pow2(WORD)
    requires forall i :: 0 <= i < |sizes| && sizes[i] <= FAST_BITS ==> !Matches(sizes, i, Stream(w))
    ensures Top(w, FAST_BITS) < FAST_SIZE && h.fast[Top(w, FAST_BITS)] == 255
  {
    FastEntry(h, sizes, w);
    forall i | 0 <= i < |sizes|
      ensures !Matches(sizes, i, Stream(w)[..FAST_BITS])
    {
      if sizes[i] <= FAST_BITS {
        MatchesPrefix(sizes, i, Stream(w), FAST_BITS);
      }
    }
  }

  /** The slow search, for a symbol whose codeword comes next: it stops at the first length from
      ten on that is not below the length of the codeword. */
  lemma SlowFinds(h: Huffman, sizes: seq<nat>, w: nat, i: nat)
    requires Built(h, sizes) && w < Pow2(WORD) && i < |sizes| && Matches(sizes, i, Stream(w))
    ensures GoodTables(h) && Top(w, 16) < 0x1_0000
    ensures SlowLength(h, Top(w, 16), FAST_BITS + 1) == if sizes[i] <= FAST_BITS then FAST_BITS + 1 else sizes[i]
  {
    BuiltIsGood(h, sizes);
    TopIs(w, 16);
    Pow2Small();
    var bits, s := Stream(w)[..16], if sizes[i] <= FAST_BITS then FAST_BITS + 1 else sizes[i];
    MatchesPrefix(sizes, i, Stream(w), 16);
    MatchBoundsEnd(sizes, i, bits, s);
    MaxcodeIs(h, sizes, Top(w, 16), s);
    forall r | FAST_BITS + 1 <= r < s
      ensures Top(w, 16) >= h.maxcode[r]
    {
      BeyondShorter(sizes, i, bits, r);
      MaxcodeIs(h, sizes, Top(w, 16), r);
    }
    SlowIs(h, Top(w, 16), FAST_BITS + 1, s);
  }

  /** The number of a symbol is the number its codeword writes, shifted by `delta`. */
  lemma IdOfCode(h: Huffman, sizes: seq<nat>, w: nat, i: nat)
    requires Built(h, sizes) && w < Pow2(WORD) && i < |sizes| && Matches(sizes, i, Stream(w))
    ensures Top(w, sizes[i]) + h.delta[sizes[i]] == i
  {
    TopIs(w, sizes[i]);
    var bits, s := Stream(w)[..sizes[i]], sizes[i];
    MatchesPrefix(sizes, i, Stream(w), s);
    MatchesAsNumber(sizes, i, bits);
    RankInOrder(sizes, i);
  }

  /** What decoding symbol `i` should give. */
  function Decoded(h: Huffman, sizes: seq<nat>, b: Buffer, i: nat): (Symbol, Buffer)
    requires |h.values| == 256 && i < |sizes| <= 256 && sizes[i] <= b.bits && sizes[i] <= WORD
  {
    (Symbol(h.values[i]), Buffer(Drop(b.word, sizes[i]), b.bits - sizes[i]))
  }

  /** With 16 bits in the buffer, the symbol whose codeword comes next is decoded, exactly if its
      number is not 255 or its codeword is too long for the fast table: the entry 255 there is
      also the mark of a codeword that is not accelerated. */
  lemma DecodesExactly(h: Huffman, sizes: seq<nat>, b: Buffer, i: nat)
    requires Built(h, sizes) && b.word < Pow2(WORD) && b.bits >= 16
    requires i < |sizes| && Matches(sizes, i, Stream(b.word))
    ensures GoodTables(h)
    ensures HuffDecode(h, b) == Decoded(h, sizes, b, i) <==> !(i == 255 && sizes[i] <= FAST_BITS)
  {
    if sizes[i] <= FAST_BITS {
      DecodesShort(h, sizes, b, i);
    } else {
      DecodesLong(h, sizes, b, i);
    }
  }

  lemma DecodesShort(h: Huffman, sizes: seq<nat>, b: Buffer, i: nat)
    requires Built(h, sizes) && b.word < Pow2(WORD) && b.bits >= 16
    requires i < |sizes| && Matches(sizes, i, Stream(b.word)) && sizes[i] <= FAST_BITS
    ensures GoodTables(h) && (HuffDecode(h, b) == Decoded(h, sizes, b, i) <==> i != 255)
  {
    BuiltIsGood(h, sizes);
    FastHit(h, sizes, b.word, i);
    SlowFinds(h, sizes, b.word, i);
  }

  lemma DecodesLong(h: Huffman, sizes: seq<nat>, b: Buffer, i: nat)
    requires Built(h, sizes) && b.word < Pow2(WORD) && b.bits >= 16
    requires i < |sizes| && Matches(sizes, i, Stream(b.word)) && sizes[i] > FAST_BITS
    ensures GoodTables(h) && HuffDecode(h, b) == Decoded(h, sizes, b, i)
  {
    BuiltIsGood(h, sizes);
    forall j | 0 <= j < |sizes| && sizes[j] <= FAST_BITS
      ensures !Matches(sizes, j, Stream(b.word))
    {
      if Matches(sizes, j, Stream(b.word)) {
        PrefixFree(sizes, i, j, Stream(b.word));
      }
    }
    FastMiss(h, sizes, b.word);
    SlowFinds(h, sizes, b.word, i);
    IdOfCode(h, sizes, b.word, i);
  }

  /** If no codeword comes next, none is decoded, and 16 bits are given up. */
  lemma DecodesNothing(h: Huffman, sizes: seq<nat>, b: Buffer)
    requires Built(h, sizes) && b.word < Pow2(WORD) && b.bits >= 16
    requires forall i :: 0 <= i < |sizes| ==> !Matches(sizes, i, Stream(b.word))
    ensures GoodTables(h) && HuffDecode(h, b) == (NoSymbol, Buffer(b.word, b.bits - 16))
  {
    BuiltIsGood(h, sizes);
    FastMiss(h, sizes, b.word);
    SlowFails(h, sizes, b.word);
  }

  lemma SlowFails(h: Huffman, sizes: seq<nat>, w: nat)
    requires Built(h, sizes) && w < Pow2(WORD)
    requires forall i :: 0 <= i < |sizes| ==> !Matches(sizes, i, Stream(w))
    ensures GoodTables(h) && Top(w, 16) < 0x1_0000 && SlowLength(h, Top(w, 16), FAST_BITS + 1) == 17
  {
    BuiltIsGood(h, sizes);
    TopIs(w, 16);
    Pow2Small();
    var bits := Stream(w)[..16];
    forall i | 0 <= i < |sizes|
      ensures !Matches(sizes, i, bits)
    {
      MatchesPrefix(sizes, i, Stream(w), 16);
    }
    forall r | FAST_BITS + 1 <= r < 17
      ensures Top(w, 16) >= h.maxcode[r]
    {
      BeyondAll(sizes, bits, r);
      MaxcodeIs(h, sizes, Top(w, 16), r);
    }
    SlowIs(h, Top(w, 16), FAST_BITS + 1, 17);
  }

  // ----- which tables decode all their codewords

  /** Whatever codeword comes next is decoded. */
  ghost predicate DecodesAll(h: Huffman, sizes: seq<nat>)
    requires Built(h, sizes) && GoodTables(h)
  {
    forall b: Buffer, i: nat ::
      b.word < Pow2(WORD) && b.bits >= 16 && i < |sizes| && Matches(sizes, i, Stream(b.word))
      ==> HuffDecode(h, b) == Decoded(h, sizes, b, i)
  }

  /** A buffer that begins with codeword `i`. */
  function WordOf(sizes: seq<nat>, i: nat): nat
    requires i < |sizes| && 1 <= sizes[i] <= 16
  {
    Shl(Code(sizes, i), WORD - sizes[i])
  }

  lemma WordOfMatches(sizes: seq<nat>, i: nat)
    requires SizesOk(sizes) && Fits(sizes) && i < |sizes|
    ensures WordOf(sizes, i) < Pow2(WORD) && Matches(sizes, i, Stream(WordOf(sizes, i)))
  {
    var c, s := Code(sizes, i), sizes[i];
    CodeInterval(sizes, i);
    MsbOfShl(c, s, WORD - s);
    assert Codeword(sizes, i) == MsbBits(c, s);
    ShlMono(c + 1, Pow2(s), WORD - s);
    ShlAdd(c, 1, WORD - s);
    ShlPow2(s, WORD - s);
    ShlPow2(0, WORD - s);
  }

  /** All codewords are decoded exactly if there are at most 255 symbols, or the last of 256 has a
      codeword of ten bits or more. */
  lemma TablesDecodeExactly(h: Huffman, sizes: seq<nat>)
    requires Built(h, sizes)
    ensures GoodTables(h) && (DecodesAll(h, sizes) <==> |sizes| <= 255 || sizes[255] > FAST_BITS)
  {
    BuiltIsGood(h, sizes);
    if |sizes| <= 255 || sizes[255] > FAST_BITS {
      forall b: Buffer, i: nat
        | b.word < Pow2(WORD) && b.bits >= 16 && i < |sizes| && Matches(sizes, i, Stream(b.word))
        ensures HuffDecode(h, b) == Decoded(h, sizes, b, i)
      {
        DecodesExactly(h, sizes, b, i);
      }
    } else {
      var b := Buffer(WordOf(sizes, 255), 16);
      WordOfMatches(sizes, 255);
      DecodesExactly(h, sizes, b, 255);
    }
  }
}
