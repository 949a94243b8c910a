/** The assertion in `stbi__jpeg_huff_decode`: the bits in front of the buffer are the code of the symbol found. */
module JpegAssertion {
  import opened Bits
  import opened Canonical
  import opened JpegHuffman

  /** `STBI_ASSERT` of the slow path, with the array `code` of the table; it holds if it is not
      reached. */
  predicate AssertionHolds(h: Huffman, code: seq<nat>, b: Buffer)
    requires GoodTables(h) && |code| == 256 && b.word < Pow2(WORD) && b.bits >= 16
  {
    TopIs(b.word, FAST_BITS);
    TopIs(b.word, 16);
    Pow2Small();
    var n := SlowLength(h, Top(b.word, 16), FAST_BITS + 1);
    h.fast[Top(b.word, FAST_BITS)] == 255 && n < 17 ==>
      var c := Top(b.word, n) + h.delta[n];
      0 <= c < 256 ==> h.size[c] <= WORD && Top(b.word, h.size[c]) == code[c]
  }

  lemma CodeInFront(sizes: seq<nat>, w: nat, i: nat)
    requires SizesOk(sizes) && Fits(sizes) && w < Pow2(WORD) && i < |sizes|
    ensures Top(w, sizes[i]) == Code(sizes, i) <==> Matches(sizes, i, Stream(w))
  {
    var bits := Stream(w)[..sizes[i]];
    TopIs(w, sizes[i]);
    MatchesPrefix(sizes, i, Stream(w), sizes[i]);
    MatchesAsNumber(sizes, i, bits);
  }

  lemma TopNext(w: nat, n: nat)
    requires n < WORD && w < Pow2(WORD)
    ensures Top(w, n + 1) == 2 * Top(w, n) + Bit(Stream(w)[n])
  {
    TopIs(w, n);
    TopIs(w, n + 1);
    FromMsbAppend(Stream(w)[..n], Stream(w)[n]);
    assert Stream(w)[..n + 1] == Stream(w)[..n] + [Stream(w)[n]];
  }

  lemma {:induction false} EndAtLeast(sizes: seq<nat>, l: nat)
    requires l > 0
    ensures EndCode(sizes, l) >= Below(sizes, l) + Count(sizes, l)
  {
    if l > 1 {
      EndAtLeast(sizes, l - 1);
    }
  }

  /** The last of 256 symbols has the last code, which has at least eight bits. */
  lemma LastCode(sizes: seq<nat>)
    requires SizesOk(sizes) && Fits(sizes) && |sizes| == 256
    ensures sizes[255] >= 8 && EndCode(sizes, sizes[255]) == Code(sizes, 255) + 1
  {
    var s := sizes[255];
    RankInOrder(sizes, 255);
    BelowAndAt(sizes, s);
    EndAtLeast(sizes, s);
    assert 256 <= EndCode(sizes, s) <= Pow2(s);
    Pow2Small();
    if s < 8 {
      Pow2Mono(s, 7);
    }
  }

  /** Behind the codes of up to nine bits, `delta` leads to what comes after all 256 symbols. */
  lemma DeltaAtTen(h: Huffman, sizes: seq<nat>)
    requires Built(h, sizes) && |sizes| == 256 && sizes[255] <= FAST_BITS
    ensures h.delta[10] == 256 - 2 * EndCode(sizes, 9)
    ensures sizes[255] == 8 ==> EndCode(sizes, 9) == 2 * EndCode(sizes, 8)
  {
    BelowAndAt(sizes, 9);
    assert Below(sizes, 10) == Below(sizes, 9) + Count(sizes, 9);
    assert h.delta[10] == Below(sizes, 10) - FirstCode(sizes, 10);
    if sizes[255] == 8 {
      NoneLonger(sizes, 9);
    }
  }

  /** The bits behind the codeword of symbol 255, up to ten, are ones. */
  predicate OnesUpToTen(sizes: seq<nat>, w: nat)
    requires |sizes| == 256
  {
    forall k :: sizes[255] <= k < 10 ==> Stream(w)[k]
  }

  /** The number that the slow path makes of the codeword of symbol 255. */
  lemma NumberFound(h: Huffman, sizes: seq<nat>, w: nat)
    requires Built(h, sizes) && w < Pow2(WORD) && |sizes| == 256 && sizes[255] <= FAST_BITS
    requires Matches(sizes, 255, Stream(w))
    ensures 0 <= Top(w, 10) + h.delta[10] <= 255
    ensures Top(w, 10) + h.delta[10] == 255 <==> OnesUpToTen(sizes, w)
  {
    LastCode(sizes);
    DeltaAtTen(h, sizes);
    CodeInFront(sizes, w, 255);
    TopNext(w, 9);
    if sizes[255] == 8 {
      TopNext(w, 8);
      assert OnesUpToTen(sizes, w) <==> Stream(w)[8] && Stream(w)[9];
    } else {
      assert OnesUpToTen(sizes, w) <==> Stream(w)[9];
    }
  }

  lemma AssertionShort(h: Huffman, sizes: seq<nat>, code: seq<nat>, b: Buffer, i: nat)
    requires Built(h, sizes) && IsCodes(code, sizes) && b.word < Pow2(WORD) && b.bits >= 16
    requires i < |sizes| && Matches(sizes, i, Stream(b.word)) && sizes[i] <= FAST_BITS
    ensures GoodTables(h) && (AssertionHolds(h, code, b) <==> i == 255 ==> OnesUpToTen(sizes, b.word))
  {
    BuiltIsGood(h, sizes);
    FastHit(h, sizes, b.word, i);
    if i == 255 {
      SlowFinds(h, sizes, b.word, i);
      NumberFound(h, sizes, b.word);
      var c := Top(b.word, 10) + h.delta[10];
      CodeInFront(sizes, b.word, c);
      if Matches(sizes, c, Stream(b.word)) {
        PrefixFree(sizes, c, 255, Stream(b.word));
      }
    }
  }

  /** When a codeword comes next, the assertion fails exactly for a short codeword of symbol 255
      with a zero behind it among the first ten bits. */
  lemma AssertionExactly(h: Huffman, sizes: seq<nat>, code: seq<nat>, b: Buffer, i: nat)
    requires Built(h, sizes) && IsCodes(code, sizes) && b.word < Pow2(WORD) && b.bits >= 16
    requires i < |sizes| && Matches(sizes, i, Stream(b.word))
    ensures GoodTables(h)
    ensures AssertionHolds(h, code, b) <==> (i == 255 && sizes[i] <= FAST_BITS ==> OnesUpToTen(sizes, b.word))
  {
    BuiltIsGood(h, sizes);
    if sizes[i] <= FAST_BITS {
      AssertionShort(h, sizes, code, b, i);
    } else {
      SlowFinds(h, sizes, b.word, i);
      IdOfCode(h, sizes, b.word, i);
      CodeInFront(sizes, b.word, i);
    }
  }

  /** A table whose last symbol is misread is misread without a failed assertion, too: when ones
      follow the codeword, the right symbol is found and too many bits are dropped. */
  lemma SilentMisread(h: Huffman, sizes: seq<nat>, code: seq<nat>) returns (b: Buffer)
    requires Built(h, sizes) && IsCodes(code, sizes) && |sizes| == 256 && sizes[255] <= FAST_BITS
    ensures GoodTables(h) && b.word < Pow2(WORD) && b.bits >= 16 && Matches(sizes, 255, Stream(b.word))
    ensures AssertionHolds(h, code, b) && HuffDecode(h, b) != Decoded(h, sizes, b, 255)
  {
    var w := Codeword(sizes, 255) + seq(WORD - sizes[255], _ => true);
    b := Buffer(FromMsb(w), 16);
    MsbOfFromMsb(w);
    AssertionExactly(h, sizes, code, b, 255);
    DecodesExactly(h, sizes, b, 255);
  }

  /** When no codeword comes next, it is not reached. */
  lemma AssertionUnreached(h: Huffman, sizes: seq<nat>, code: seq<nat>, b: Buffer)
    requires Built(h, sizes) && IsCodes(code, sizes) && b.word < Pow2(WORD) && b.bits >= 16
    requires forall i :: 0 <= i < |sizes| ==> !Matches(sizes, i, Stream(b.word))
    ensures GoodTables(h) && AssertionHolds(h, code, b)
  {
    BuiltIsGood(h, sizes);
    SlowFails(h, sizes, b.word);
  }
}
