/** JPEG AC coefficients: `stbi__build_fast_ac` and the two decoding steps it combines (T.81, section F.2.2). */
module JpegFastAc {
  import opened Bits
  import opened Canonical
  import opened JpegHuffman

  // ----- the second decoding step

  /** `stbi_lrot`: rotate 32 bits to the left. */
  function Lrot(w: nat, n: nat): nat
    requires n <= WORD
  {
    Drop(w, n) + Top(w, n)
  }

  /** `stbi__extend_receive` with at least `n` bits in the buffer: rotate the bits to the low end,
      and add the bias if the first of them is 0. */
  function ExtendReceive(b: Buffer, n: nat): (int, Buffer)
    requires b.word < Pow2(WORD) && 1 <= n <= 15 && n <= b.bits
  {
    var sgn := Top(b.word, 1);
    var rot := Lrot(b.word, n);
    LowAtMost(rot, n);
    var k := Low(rot, n);
    (k + (if sgn == 0 then 1 - Pow2(n) else 0), Buffer(rot - k, b.bits - n))
  }

  /** EXTEND of section F.2.2.1: `v` bits of a value of `n` bits, those that begin with 0 being
      the negative ones. */
  function Extend(v: nat, n: nat): int
    requires n > 0
  {
    if v < Pow2(n - 1) then v - Pow2(n) + 1 else v
  }

  lemma {:induction false} LowOfShl(v: nat, n: nat, t: nat)
    requires t < Pow2(n)
    ensures Low(Shl(v, n) + t, n) == t
  {
    if n > 0 {
      LowOfShl(v, n - 1, t / 2);
      assert (Shl(v, n) + t) / 2 == Shl(v, n - 1) + t / 2;
    }
  }

  lemma {:induction false} LowShlIsShl(v: nat, n: nat, m: nat)
    requires n <= m
    ensures Low(Shl(v, n), m) == Shl(Low(v, m - n), n)
  {
    if n > 0 {
      LowShlIsShl(v, n - 1, m - 1);
      LowTwice(Shl(v, n - 1), m);
    }
  }

  lemma LowTwice(a: nat, m: nat)
    requires m > 0
    ensures Low(2 * a, m) == 2 * Low(a, m - 1)
  {
    assert 2 * a % 2 == 0 && 2 * a / 2 == a;
  }

  lemma LrotIs(w: nat, n: nat, rot: nat)
    requires n <= WORD && w < Pow2(WORD) && rot == Lrot(w, n)
    ensures Low(rot, n) == Top(w, n)
  {
    TopIs(w, n);
    DropIsShl(w, n);
    LowOfSum(rot, Drop(w, n), Low(w, WORD - n), n, Top(w, n));
  }

  lemma DropIsShl(w: nat, n: nat)
    requires n <= WORD
    ensures Drop(w, n) == Shl(Low(w, WORD - n), n)
  {
    LowShlIsShl(w, n, WORD);
  }

  lemma LowOfSum(sum: nat, d: nat, v: nat, n: nat, t: nat)
    requires sum == d + t && d == Shl(v, n) && t < Pow2(n)
    ensures Low(sum, n) == t
  {
    LowOfShl(v, n, t);
  }

  /** The first of `n` bits says whether their number is below `2^(n-1)`. */
  lemma FirstBit(w: nat, n: nat)
    requires 1 <= n <= WORD && w < Pow2(WORD)
    ensures Top(w, 1) == 0 <==> Top(w, n) < Pow2(n - 1)
  {
    ShrShr(w, WORD - n, n - 1);
    BelowShl(Top(w, n), 1, n - 1);
    ShlPow2(0, n - 1);
    TopIs(w, 1);
  }

  lemma ReceivedParts(b: Buffer, n: nat)
    requires b.word < Pow2(WORD) && 1 <= n <= 15 && n <= b.bits
    ensures ExtendReceive(b, n) ==
      (Top(b.word, n) + (if Top(b.word, 1) == 0 then 1 - Pow2(n) else 0), Buffer(Drop(b.word, n), b.bits - n))
  {
    LrotIs(b.word, n, Lrot(b.word, n));
  }

  /** What is received is the extended value of the next `n` bits. */
  lemma ExtendReceiveIs(b: Buffer, n: nat)
    requires b.word < Pow2(WORD) && 1 <= n <= 15 && n <= b.bits
    ensures ExtendReceive(b, n) == (Extend(FromMsb(Stream(b.word)[..n]), n), Buffer(Drop(b.word, n), b.bits - n))
  {
    ReceivedParts(b, n);
    TopIs(b.word, n);
    FirstBit(b.word, n);
  }

  // ----- the combined table

  /** The entry for the look-ahead `i`: 256 times the value, 16 times the run, and the length. */
  function Combined(value: int, run: nat, len: nat): int {
    value * 256 + run * 16 + len
  }

  /** The value that a look-ahead shows after a code of `len` bits. */
  function Received(i: nat, len: nat, magbits: nat): int
    requires 0 < magbits <= FAST_BITS
  {
    var k := Shr(Low(Shl(i, len), FAST_BITS), FAST_BITS - magbits);
    if k < Shl(1, magbits - 1) then k - Shl(1, magbits) + 1 else k
  }

  /** One turn of the loop of `stbi__build_fast_ac`. */
  function FastAc(h: Huffman, i: nat): int
    requires GoodTables(h) && i < FAST_SIZE
  {
    var fast := h.fast[i];
    if fast < 255 then
      var rs := h.values[fast];
      var run, magbits, len := rs / 16 % 16, rs % 16, h.size[fast];
      if magbits > 0 && len + magbits <= FAST_BITS then
        var v := Received(i, len, magbits);
        if -128 <= v <= 127 then Combined(v, run, len + magbits) else 0
      else 0
    else 0
  }

  /** The bits after the code, in the look-ahead and in the buffer. */
  lemma MagnitudeBits(w: nat, len: nat, mag: nat)
    requires w < Pow2(WORD) && len + mag <= FAST_BITS
    ensures Shr(Low(Shl(Top(w, FAST_BITS), len), FAST_BITS), FAST_BITS - mag) == FromMsb(Stream(w)[len..len + mag])
  {
    TopIs(w, FAST_BITS);
    var bits := Stream(w)[..FAST_BITS];
    LookAhead(bits, len, mag);
    assert bits[len..len + mag] == Stream(w)[len..len + mag];
  }

  lemma LookAhead(bits: seq<bool>, len: nat, mag: nat)
    requires |bits| == FAST_BITS && len + mag <= FAST_BITS
    ensures Shr(Low(Shl(FromMsb(bits), len), FAST_BITS), FAST_BITS - mag) == FromMsb(bits[len..len + mag])
  {
    var v := Low(Shl(FromMsb(bits), len), FAST_BITS);
    ShiftedOut(bits, len);
    FromMsbOfMsb(v, FAST_BITS);
    FromMsbPrefix(MsbBits(v, FAST_BITS), mag);
    assert (bits[len..] + Falses(len))[..mag] == bits[len..len + mag];
  }

  lemma ShiftedOut(bits: seq<bool>, len: nat)
    requires |bits| == FAST_BITS && len <= FAST_BITS
    ensures MsbBits(Low(Shl(FromMsb(bits), len), FAST_BITS), FAST_BITS) == bits[len..] + Falses(len)
  {
    var i := FromMsb(bits);
    MsbOfFromMsb(bits);
    MsbOfLow(Shl(i, len), FAST_BITS);
    MsbSuffix(Shl(i, len), FAST_BITS, FAST_BITS + len);
    MsbOfShl(i, FAST_BITS, len);
    assert (bits + Falses(len))[len..] == bits[len..] + Falses(len);
  }

  lemma Uncombine(value: int, run: nat, len: nat)
    requires run < 16 && len < 16
    ensures Combined(value, run, len) / 256 == value && Combined(value, run, len) / 16 % 16 == run
    ensures Combined(value, run, len) % 16 == len
  {
    LowDigit(value * 16 + run, len);
    LowDigit(value, run);
    HighPart(value, run * 16 + len);
  }

  lemma LowDigit(v: int, d: nat)
    requires d < 16
    ensures (v * 16 + d) / 16 == v && (v * 16 + d) % 16 == d
  {
  }

  lemma HighPart(v: int, d: nat)
    requires d < 256
    ensures (v * 256 + d) / 256 == v
  {
  }

  /** An entry is made exactly for a short code with a value that follows within the look-ahead
      and fits a byte. */
  lemma FastAcMade(h: Huffman, i: nat)
    requires GoodTables(h) && i < FAST_SIZE
    ensures FastAc(h, i) != 0 <==>
      && h.fast[i] < 255 && h.values[h.fast[i]] % 16 > 0
      && h.size[h.fast[i]] + h.values[h.fast[i]] % 16 <= FAST_BITS
      && -128 <= Received(i, h.size[h.fast[i]], h.values[h.fast[i]] % 16) <= 127
  {
    if h.fast[i] < 255 {
      var rs, len := h.values[h.fast[i]], h.size[h.fast[i]];
      if rs % 16 > 0 && len + rs % 16 <= FAST_BITS {
        NotZero(Received(i, len, rs % 16), rs / 16, len + rs % 16);
      }
    }
  }

  lemma NotZero(v: int, run: nat, len: nat)
    requires run < 16 && 0 < len < 16
    ensures Combined(v, run, len) != 0
  {
  }

  /** With 16 bits in the buffer, an entry of the combined table gives the run, the value and the
      number of bits that the two separate steps give. */
  lemma FastAcAgrees(h: Huffman, b: Buffer)
    requires GoodTables(h) && b.word < Pow2(WORD) && b.bits >= 16
    ensures Top(b.word, FAST_BITS) < FAST_SIZE
    ensures var r := FastAc(h, Top(b.word, FAST_BITS));
      r != 0 ==>
        var (sym, rest) := HuffDecode(h, b);
        && sym.Symbol? && sym.v / 16 == r / 16 % 16 && 1 <= sym.v % 16 <= rest.bits && rest.word < Pow2(WORD)
        && ExtendReceive(rest, sym.v % 16) == (r / 256, Buffer(Drop(b.word, r % 16), b.bits - r % 16))
  {
    TopIs(b.word, FAST_BITS);
    Pow2Small();
    var i := Top(b.word, FAST_BITS);
    if FastAc(h, i) != 0 {
      var rs, len := h.values[h.fast[i]], h.size[h.fast[i]];
      FastAcMade(h, i);
      Separately(h, b, i, rs, len, rs % 16);
      assert HuffDecode(h, b).0 == Symbol(rs) && HuffDecode(h, b).1 == Buffer(Drop(b.word, len), b.bits - len);
    }
  }

  /** The value that follows a code of `len` bits. */
  function Following(w: nat, len: nat, mag: nat): int
    requires mag > 0 && len + mag <= WORD
  {
    Extend(FromMsb(Stream(w)[len..len + mag]), mag)
  }

  lemma Separately(h: Huffman, b: Buffer, i: nat, rs: byte, len: nat, mag: nat)
    requires GoodTables(h) && b.word < Pow2(WORD) && b.bits >= 16 && i == Top(b.word, FAST_BITS) < FAST_SIZE
    requires h.fast[i] < 255 && rs == h.values[h.fast[i]] && len == h.size[h.fast[i]] && mag == rs % 16
    requires mag > 0 && len + mag <= FAST_BITS && FastAc(h, i) != 0
    ensures var r := FastAc(h, i);
      r / 256 == Following(b.word, len, mag) && r / 16 % 16 == rs / 16 && r % 16 == len + mag
    ensures HuffDecode(h, b) == (Symbol(rs), Buffer(Drop(b.word, len), b.bits - len))
    ensures ExtendReceive(Buffer(Drop(b.word, len), b.bits - len), mag) ==
      (Following(b.word, len, mag), Buffer(Drop(b.word, len + mag), b.bits - (len + mag)))
  {
    EntryParts(h, b.word, i, rs, len, mag);
    ShortDecode(h, b, i, rs, len);
    ReceiveAfter(b, len, mag);
  }

  lemma EntryParts(h: Huffman, w: nat, i: nat, rs: byte, len: nat, mag: nat)
    requires GoodTables(h) && w < Pow2(WORD) && i == Top(w, FAST_BITS) < FAST_SIZE
    requires h.fast[i] < 255 && rs == h.values[h.fast[i]] && len == h.size[h.fast[i]] && mag == rs % 16
    requires mag > 0 && len + mag <= FAST_BITS && FastAc(h, i) != 0
    ensures var r := FastAc(h, i);
      r / 256 == Following(w, len, mag) && r / 16 % 16 == rs / 16 && r % 16 == len + mag
  {
    EntryIs(h, w, i, rs, len, mag);
    Uncombine(Following(w, len, mag), rs / 16, len + mag);
  }

  lemma ShortDecode(h: Huffman, b: Buffer, i: nat, rs: byte, len: nat)
    requires GoodTables(h) && b.word < Pow2(WORD) && b.bits >= 16 && i == Top(b.word, FAST_BITS) < FAST_SIZE
    requires h.fast[i] < 255 && rs == h.values[h.fast[i]] && len == h.size[h.fast[i]]
    ensures len <= FAST_BITS && HuffDecode(h, b) == (Symbol(rs), Buffer(Drop(b.word, len), b.bits - len))
  {
  }

  lemma EntryIs(h: Huffman, w: nat, i: nat, rs: byte, len: nat, mag: nat)
    requires GoodTables(h) && w < Pow2(WORD) && i == Top(w, FAST_BITS) < FAST_SIZE
    requires h.fast[i] < 255 && rs == h.values[h.fast[i]] && len == h.size[h.fast[i]] && mag == rs % 16
    requires mag > 0 && len + mag <= FAST_BITS && FastAc(h, i) != 0
    ensures FastAc(h, i) == Combined(Following(w, len, mag), rs / 16, len + mag)
  {
    assert rs / 16 % 16 == rs / 16;
    var v := Received(i, len, mag);
    assert FastAc(h, i) == if -128 <= v <= 127 then Combined(v, rs / 16, len + mag) else 0;
    ReceivedIs(w, len, mag);
  }

  lemma ReceivedIs(w: nat, len: nat, mag: nat)
    requires w < Pow2(WORD) && 0 < mag && len + mag <= FAST_BITS
    ensures Received(Top(w, FAST_BITS), len, mag) == Following(w, len, mag)
  {
    ShlPow2(0, mag - 1);
    ShlPow2(0, mag);
    MagnitudeBits(w, len, mag);
  }

  lemma ReceiveAfter(b: Buffer, len: nat, mag: nat)
    requires b.word < Pow2(WORD) && 0 < mag && len + mag <= FAST_BITS && len + mag <= b.bits
    ensures ExtendReceive(Buffer(Drop(b.word, len), b.bits - len), mag) ==
      (Following(b.word, len, mag), Buffer(Drop(b.word, len + mag), b.bits - (len + mag)))
  {
    ExtendReceiveIs(Buffer(Drop(b.word, len), b.bits - len), mag);
    TopIs(Drop(b.word, len), mag);
    TopAfterDrop(b.word, len, mag);
    DropTwice(b.word, len, mag);
  }

  /** For tables that have been built: an entry stands for the symbol whose codeword comes next
      and the value behind it. */
  lemma FastAcOfBuilt(h: Huffman, sizes: seq<nat>, b: Buffer) returns (i: nat)
    requires Built(h, sizes) && b.word < Pow2(WORD) && b.bits >= 16
    requires GoodTables(h) && Top(b.word, FAST_BITS) < FAST_SIZE && FastAc(h, Top(b.word, FAST_BITS)) != 0
    ensures i < |sizes| && i < 255 && Matches(sizes, i, Stream(b.word))
    ensures var r, len, mag := FastAc(h, Top(b.word, FAST_BITS)), sizes[i], h.values[i] % 16;
      && mag > 0 && len + mag == r % 16 <= FAST_BITS && r / 16 % 16 == h.values[i] / 16
      && r / 256 == Extend(FromMsb(Stream(b.word)[len..len + mag]), mag)
  {
    i := EntrySymbol(h, sizes, b.word);
    EntryParts(h, b.word, Top(b.word, FAST_BITS), h.values[i], sizes[i], h.values[i] % 16);
  }

  /** The symbol of an entry that is not zero. */
  lemma EntrySymbol(h: Huffman, sizes: seq<nat>, w: nat) returns (i: nat)
    requires Built(h, sizes) && GoodTables(h) && w < Pow2(WORD)
    requires Top(w, FAST_BITS) < FAST_SIZE && FastAc(h, Top(w, FAST_BITS)) != 0
    ensures i < |sizes| && i < 255 && Matches(sizes, i, Stream(w)) && h.fast[Top(w, FAST_BITS)] == i
    ensures h.size[i] == sizes[i] && h.values[i] % 16 > 0 && sizes[i] + h.values[i] % 16 <= FAST_BITS
  {
    var c := Top(w, FAST_BITS);
    FastEntry(h, sizes, w);
    FastAcMade(h, c);
    i :| 0 <= i < |sizes| && Matches(sizes, i, MsbBits(c, FAST_BITS));
    MatchesPrefix(sizes, i, Stream(w), FAST_BITS);
  }

  /** `stbi__build_fast_ac`. */
  method BuildFastAc(fast_ac: array<int>, h: Huffman)
    requires GoodTables(h) && fast_ac.Length == FAST_SIZE
    modifies fast_ac
    ensures forall i :: 0 <= i < FAST_SIZE ==> fast_ac[i] == FastAc(h, i)
  {
    for i := 0 to FAST_SIZE
      invariant forall j :: 0 <= j < i ==> fast_ac[j] == FastAc(h, j)
    {
      fast_ac[i] := 0;
      var fast := h.fast[i];
      if fast < 255 {
        var rs := h.values[fast];
        var run, magbits, len := rs / 16 % 16, rs % 16, h.size[fast];
        if magbits > 0 && len + magbits <= FAST_BITS {
          var k: int := Shr(Low(Shl(i, len), FAST_BITS), FAST_BITS - magbits);
          if k < Shl(1, magbits - 1) {
            k := k - Shl(1, magbits) + 1;
          }
          if -128 <= k <= 127 {
            fast_ac[i] := k * 256 + run * 16 + (len + magbits);
          }
        }
      }
    }
  }
}
