/** DEFLATE and zlib by the numbers of RFC 1951 and RFC 1950: tables, codes and fields. */
module DeflateNumbers {
  import opened Bits
  import opened BitNumbers
  import opened Canonical
  import opened Deflate
  import opened Inflate
  import opened Options

  // ----- zlib header (section 2.2 of RFC 1950)

  /** CM is 8, FDICT is 0 and the two bytes are a multiple of 31. */
  predicate IsZlibHeader(cmf: int, flg: int, info: nat, level: nat, check: nat) {
    && info < 16 && level < 4 && check < 32
    && cmf == 16 * info + 8 && flg == 64 * level + check
    && (256 * cmf + flg) % 31 == 0
  }

  /** Some window size, level and check bits make such a header. */
  ghost predicate HasZlibFields(cmf: int, flg: int) {
    exists info, level, check :: IsZlibHeader(cmf, flg, info, level, check)
  }

  /** A header is taken exactly if its fields say so, whatever window size and level they give. */
  lemma HeaderFields(input: seq<byte>)
    ensures GoodHeader(input) <==> |input| > 2 && HasZlibFields(input[0], input[1])
  {
    if |input| > 2 {
      FieldsExist(input[0], input[1]);
      assert GoodHeader(input) <==> PassesTests(input[0], input[1]);
    }
  }

  predicate PassesTests(cmf: byte, flg: byte) {
    (cmf as int * 256 + flg as int) % 31 == 0 && flg / 32 % 2 == 0 && cmf % 16 == 8
  }

  lemma FieldsExist(cmf: byte, flg: byte)
    ensures PassesTests(cmf, flg) <==> HasZlibFields(cmf, flg)
  {
    if PassesTests(cmf, flg) {
      FieldsOf(cmf, flg);
    } else if info: nat, level: nat, check: nat :| IsZlibHeader(cmf, flg, info, level, check) {
      FieldsGive(cmf, flg, info, level, check);
      assert false;
    }
  }

  lemma FieldsOf(cmf: byte, flg: byte)
    requires PassesTests(cmf, flg)
    ensures HasZlibFields(cmf, flg)
  {
    var info, level, check := cmf / 16, flg / 64, flg % 64;
    assert cmf == 16 * info + 8;
    assert check < 32 && flg == 64 * level + check;
    assert IsZlibHeader(cmf, flg, info, level, check);
  }

  lemma FieldsGive(cmf: byte, flg: byte, info: nat, level: nat, check: nat)
    requires IsZlibHeader(cmf, flg, info, level, check)
    ensures PassesTests(cmf, flg)
  {
    assert flg / 32 == 2 * level && cmf / 16 == info;
  }

  // ----- length and distance codes (section 3.2.5)

  /** Eight codes for one length each, then four codes for every number of extra bits, and 258. */
  lemma LengthNumbers(z: nat)
    requires z < 29
    ensures z < 8 ==> LengthExtra(z) == 0 && LengthBase(z) == 3 + z
    ensures 8 <= z < 28 ==> LengthExtra(z) == z / 4 - 1 && LengthBase(z) == 3 + (4 + z % 4) * Pow2(z / 4 - 1)
    ensures z == 28 ==> LengthExtra(z) == 0 && LengthBase(z) == 258
  {
    Pow2Small();
  }

  /** Four codes for one distance each, then two codes for every number of extra bits. */
  lemma DistNumbers(z: nat)
    requires z < 30
    ensures z < 4 ==> DistExtra(z) == 0 && DistBase(z) == 1 + z
    ensures z >= 4 ==> DistExtra(z) == z / 2 - 1 && DistBase(z) == 1 + (2 + z % 2) * Pow2(z / 2 - 1)
  {
    Pow2Small();
    assert Pow2(10) == 1024 && Pow2(11) == 2048 && Pow2(12) == 4096;
  }

  // ----- canonical codes (section 3.2.2)

  /** Symbol `j` has a codeword before that of symbol `i`: a shorter one, or one as long if `j` is before `i`. */
  predicate ComesBefore(lens: seq<nat>, j: nat, i: nat)
    requires i < |lens| && j < |lens|
  {
    lens[j] > 0 && (lens[j] < lens[i] || (lens[j] == lens[i] && j < i))
  }

  /** The code space, in units of `2^-max`, of those of the first `k` symbols that come before symbol `i`. */
  function SpaceBefore(lens: seq<nat>, max: nat, i: nat, k: nat): nat
    requires AtMost(lens, max) && i < |lens| && k <= |lens|
  {
    if k == 0 then 0
    else SpaceBefore(lens, max, i, k - 1) + if ComesBefore(lens, k - 1, i) then Pow2(max - lens[k - 1]) else 0
  }

  predicate AtMost(lens: seq<nat>, max: nat) {
    forall i :: 0 <= i < |lens| ==> lens[i] <= max
  }

  /** A codeword, as a binary fraction, is the code space of all codewords before it. */
  lemma CodesInOrder(lens: seq<nat>, max: nat, i: nat)
    requires AtMost(lens, max) && i < |lens| && lens[i] > 0
    ensures Shl(Code(lens, i), max - lens[i]) == SpaceBefore(lens, max, i, |lens|)
  {
    var l := lens[i];
    SpaceOfPrefix(lens, max, i, |lens|);
    assert lens[..|lens|] == lens;
    CodeScaled(EndCode(lens, l - 1), Rank(lens, i), max - l);
  }

  lemma CodeScaled(e: nat, r: nat, k: nat)
    ensures Shl(2 * e + r, k) == Shl(e, k + 1) + Shl(r, k)
  {
    ShlAdd(2 * e, r, k);
    ShlShl(e, 1, k);
    assert Shl(e, 1) == 2 * e;
  }

  lemma {:induction false} SpaceOfPrefix(lens: seq<nat>, max: nat, i: nat, k: nat)
    requires AtMost(lens, max) && i < |lens| && lens[i] > 0 && k <= |lens|
    ensures SpaceBefore(lens, max, i, k) ==
      Shl(EndCode(lens[..k], lens[i] - 1), max + 1 - lens[i])
      + Shl(Count(lens[..if k < i then k else i], lens[i]), max - lens[i])
  {
    var l := lens[i];
    if k == 0 {
      EndEmpty(l - 1);
      ShlZero(max + 1 - l);
      ShlZero(max - l);
    } else {
      var x := lens[k - 1];
      SpaceOfPrefix(lens, max, i, k - 1);
      assert lens[..k] == lens[..k - 1] + [x];
      EndAppend(lens[..k - 1], x, l - 1);
      if 1 <= x < l {
        ShlAdd(EndCode(lens[..k - 1], l - 1), Pow2(l - 1 - x), max + 1 - l);
        ShlPow2(l - 1 - x, max + 1 - l);
      }
      if k - 1 < i {
        assert lens[..k][..k - 1] == lens[..k - 1];
        if x == l {
          ShlAdd(Count(lens[..k - 1], l), 1, max - l);
          ShlPow2(0, max - l);
        }
      }
    }
  }

  /** Up to `2^v` codewords of `v` bits are accepted as a code, also if there are fewer, and no more. */
  lemma CodesOfOneLength(v: nat, n: nat)
    requires 1 <= v <= 15
    ensures IsCode(Repeat(v, n)) <==> n <= Pow2(v)
  {
    var w := Pow2(15 - v);
    KraftOfRun([], v, n, w);
    assert [] + Repeat(v, n) == Repeat(v, n);
    AllSpace(v, w);
    TimesCompare(n, Pow2(v), w);
  }

  lemma AllSpace(v: nat, w: nat)
    requires v <= 15 && w == Pow2(15 - v)
    ensures Pow2(15) == Pow2(v) * w
  {
    ShlPow2(v, 15 - v);
    ShiftNumbers(Pow2(v), 15 - v);
  }

  lemma TimesCompare(n: nat, m: nat, w: nat)
    requires w > 0
    ensures n * w <= m * w <==> n <= m
  {
    if n <= m {
      MulMono(n, m, w);
    } else {
      MulMono(m + 1, n, w);
      assert (m + 1) * w == m * w + w;
    }
  }

  lemma {:induction false} ShlZero(k: nat)
    ensures Shl(0, k) == 0
  {
    if k > 0 {
      ShlZero(k - 1);
    }
  }

  /** The codeword of a symbol whose length starts a run or goes on with it. */
  lemma RunCode(lens: seq<nat>, a: seq<nat>, v: nat, n: nat, b: seq<nat>, k: nat)
    requires lens == a + Repeat(v, n) + b && k < n && v > 0
    ensures lens[|a| + k] == v && Code(lens, |a| + k) == 2 * EndCode(lens, v - 1) + Count(a, v) + k
  {
    assert lens[..|a| + k] == a + Repeat(v, k);
    CountRun(a, v, k, v);
  }

  /** The fixed literal/length code (section 3.2.6). */
  lemma FixedLitCode(i: nat)
    requires i < 288
    ensures |FixedLit()| == 288 && FixedLit()[i] > 0
    ensures i < 144 ==> Codeword(FixedLit(), i) == MsbBits(48 + i, 8)
    ensures 144 <= i < 256 ==> Codeword(FixedLit(), i) == MsbBits(400 + (i - 144), 9)
    ensures 256 <= i < 280 ==> Codeword(FixedLit(), i) == MsbBits(i - 256, 7)
    ensures 280 <= i ==> Codeword(FixedLit(), i) == MsbBits(192 + (i - 280), 8)
  {
    FixedLitNumber(i);
  }

  lemma FixedLitNumber(i: nat)
    requires i < 288
    ensures |FixedLit()| == 288
    ensures FixedLit()[i] == if i < 144 then 8 else if i < 256 then 9 else if i < 280 then 7 else 8
    ensures Code(FixedLit(), i) ==
      if i < 144 then 48 + i else if i < 256 then 400 + (i - 144)
      else if i < 280 then i - 256 else 192 + (i - 280)
  {
    FixedEnds();
    FixedParts();
    if i < 144 {
      FixedRun([], 8, 144, Repeat(9, 112) + (Repeat(7, 24) + Repeat(8, 8)), i);
    } else if i < 256 {
      FixedRun(Repeat(8, 144), 9, 112, Repeat(7, 24) + Repeat(8, 8), i - 144);
    } else if i < 280 {
      FixedRun(Repeat(8, 144) + Repeat(9, 112), 7, 24, Repeat(8, 8), i - 256);
    } else {
      FixedRun(Repeat(8, 144) + Repeat(9, 112) + Repeat(7, 24), 8, 8, [], i - 280);
    }
  }

  lemma FixedParts()
    ensures FixedLit() == [] + Repeat(8, 144) + (Repeat(9, 112) + (Repeat(7, 24) + Repeat(8, 8)))
    ensures FixedLit() == Repeat(8, 144) + Repeat(9, 112) + (Repeat(7, 24) + Repeat(8, 8))
    ensures FixedLit() == Repeat(8, 144) + Repeat(9, 112) + Repeat(7, 24) + Repeat(8, 8)
    ensures FixedLit() == Repeat(8, 144) + Repeat(9, 112) + Repeat(7, 24) + Repeat(8, 8) + []
  {
    var a, b, c, d := Repeat(8, 144), Repeat(9, 112), Repeat(7, 24), Repeat(8, 8);
    Regroup(a, b, c, d);
    Assoc(a + b, c, d);
    assert [] + a == a;
    Assoc(a, b, c + d);
    assert a + b + c + d + [] == a + b + c + d;
  }

  lemma FixedRun(a: seq<nat>, v: nat, n: nat, b: seq<nat>, k: nat)
    requires a + Repeat(v, n) + b == FixedLit() && k < n && v > 0
    requires a == [] || a == Repeat(8, 144) || a == Repeat(8, 144) + Repeat(9, 112)
      || a == Repeat(8, 144) + Repeat(9, 112) + Repeat(7, 24)
    ensures |a| + k < 288 && FixedLit()[|a| + k] == v
    ensures Code(FixedLit(), |a| + k) == 2 * EndCode(FixedLit(), v - 1) + k + if a != [] && v == 8 then 144 else 0
  {
    RunCode(FixedLit(), a, v, n, b, k);
    FixedCounts(v);
  }

  lemma FixedCounts(l: nat)
    ensures Count(Repeat(8, 144), l) == if l == 8 then 144 else 0
    ensures Count(Repeat(8, 144) + Repeat(9, 112), l) == if l == 8 then 144 else if l == 9 then 112 else 0
    ensures Count(Repeat(8, 144) + Repeat(9, 112) + Repeat(7, 24), l) ==
      if l == 8 then 144 else if l == 9 then 112 else if l == 7 then 24 else 0
    ensures Count(FixedLit(), l) == if l == 8 then 152 else if l == 9 then 112 else if l == 7 then 24 else 0
  {
    var a := Repeat(8, 144);
    assert [] + a == a;
    CountRun([], 8, 144, l);
    CountRun(a, 9, 112, l);
    CountRun(a + Repeat(9, 112), 7, 24, l);
    CountRun(a + Repeat(9, 112) + Repeat(7, 24), 8, 8, l);
  }

  lemma FixedEnds()
    ensures EndCode(FixedLit(), 6) == 0 && EndCode(FixedLit(), 7) == 24 && EndCode(FixedLit(), 8) == 200
  {
    EndBefore(FixedLit(), 6);
    FixedCounts(7);
    FixedCounts(8);
  }

  /** Nothing is numbered below the shortest codeword. */
  lemma {:induction false} EndBefore(lens: seq<nat>, l: nat)
    requires forall i :: 0 <= i < |lens| ==> lens[i] == 0 || lens[i] > l
    ensures EndCode(lens, l) == 0
  {
    if l > 0 {
      EndBefore(lens, l - 1);
      CountNone(lens, l);
    }
  }

  lemma {:induction false} CountNone(lens: seq<nat>, l: nat)
    requires l !in lens
    ensures Count(lens, l) == 0
  {
    if lens != [] {
      CountNone(lens[..|lens| - 1], l);
    }
  }

  /** Codewords of one length are the numbers from 0 on. */
  lemma OneLengthCode(lens: seq<nat>, v: nat, n: nat, i: nat)
    requires lens == Repeat(v, n) && v > 0 && i < n
    ensures |lens| == n && lens[i] == v && Codeword(lens, i) == MsbBits(i, v)
  {
    OneLengthNumber(lens, v, n, i);
  }

  lemma OneLengthNumber(lens: seq<nat>, v: nat, n: nat, i: nat)
    requires lens == Repeat(v, n) && v > 0 && i < n
    ensures Code(lens, i) == i
  {
    assert lens[..i] == [] + Repeat(v, i);
    CountRun([], v, i, v);
    EndBefore(lens, v - 1);
  }

  /** The fixed distance code: the numbers from 0 to 31 in five bits. */
  lemma FixedDistCode(i: nat)
    requires i < 32
    ensures |FixedDist()| == 32 && FixedDist()[i] > 0 && Codeword(FixedDist(), i) == MsbBits(i, 5)
  {
    OneLengthCode(FixedDist(), 5, 32, i);
  }

  // ----- matches

  /** A length symbol with its extra bits and a distance symbol with its own stand for a copy that goes
      back by the one and is as long as the other. */
  lemma MatchNumbers(z: nat, x: nat, d: nat, y: nat, out: seq<byte>)
    requires z < 29 && d < 30
    ensures TokenOut(Match(257 + z, x, d, y), out).Some? <==> DistBase(d) + y <= |out|
    ensures TokenOut(Match(257 + z, x, d, y), out).Some? ==>
      var r := TokenOut(Match(257 + z, x, d, y), out).value;
      && |r| == |out| + LengthBase(z) + x && out <= r
      && forall k :: |out| <= k < |r| ==> r[k] == r[k - (DistBase(d) + y)]
  {
    if DistBase(d) + y <= |out| {
      CopyEquation(out, DistBase(d) + y, LengthBase(z) + x);
    }
  }

  // ----- dynamic headers (section 3.2.7)

  /** Symbol 16 repeats the previous length 3 to 6 times. */
  lemma RepeatNumbers(cl: seq<nat>, lens: seq<nat>, n: nat)
    requires Used(cl, 16) && lens != [] && 3 <= n <= 6
    ensures exists op ::
      && ClOpOk(op, cl) && ClOpBits(op, cl) == Codeword(cl, 16) + ToBits(n - 3, 2)
      && ClOpOut(op, lens) == Some(lens + Repeat(lens[|lens| - 1], n))
  {
    Pow2Small();
    assert ClOpOk(ClRepeat(n - 3), cl);
  }

  /** Symbol 17 stands for 3 to 10 zeros, and symbol 18 for 11 to 138. */
  lemma ZeroNumbers(cl: seq<nat>, lens: seq<nat>, n: nat)
    requires 3 <= n <= 138 && Used(cl, if n <= 10 then 17 else 18)
    ensures exists op ::
      && ClOpOk(op, cl) && ClOpOut(op, lens) == Some(lens + Repeat(0, n))
      && ClOpBits(op, cl) ==
        if n <= 10 then Codeword(cl, 17) + ToBits(n - 3, 3) else Codeword(cl, 18) + ToBits(n - 11, 7)
  {
    Pow2Small();
    assert ClOpOk(if n <= 10 then ClZeros3(n - 3) else ClZeros7(n - 11), cl);
  }

  /** Symbols 0 to 15 stand for themselves. */
  lemma LengthSymbols(cl: seq<nat>, lens: seq<nat>, v: nat)
    requires Used(cl, v) && v <= 15
    ensures exists op :: ClOpOk(op, cl) && ClOpBits(op, cl) == Codeword(cl, v) && ClOpOut(op, lens) == Some(lens + [v])
  {
    assert ClOpOk(ClLen(v), cl) by {
      assert Pow2(0) == 1;
    }
    assert ToBits(0, 0) == [];
  }

  /** The lengths are written for 16, 17 and 18 first, then for 0, and then for 8, 7, 9, 6, 10 and so on,
      outwards from 8; those left out are 0. */
  lemma LengthOrder(vals: seq<nat>, i: nat)
    requires i < 19
    ensures |Dezigzag(vals)| == 19
    ensures i < 3 ==> Dezigzag(vals)[16 + i] == ValueAt(vals, i)
    ensures Dezigzag(vals)[0] == ValueAt(vals, 3)
    ensures i < 8 ==> Dezigzag(vals)[8 + i] == ValueAt(vals, 4 + 2 * i)
    ensures 1 <= i < 8 ==> Dezigzag(vals)[8 - i] == ValueAt(vals, 3 + 2 * i)
  {
  }

  function ValueAt(vals: seq<nat>, i: nat): nat {
    if i < |vals| then vals[i] else 0
  }

  /** HLIT, HDIST and HCLEN in 5, 5 and 4 bits, then three bits for each length. */
  lemma PreambleNumbers(hlit: nat, hdist: nat, vals: seq<nat>)
    requires 257 <= hlit <= 288 && 1 <= hdist <= 32 && 4 <= |vals| <= 19
    requires forall i :: 0 <= i < |vals| ==> vals[i] < 8
    ensures var w := PreambleBits(hlit, hdist, vals);
      && |w| == 14 + 3 * |vals|
      && FromBits(w[..5]) + 257 == hlit && FromBits(w[5..10]) + 1 == hdist && FromBits(w[10..14]) + 4 == |vals|
      && forall i :: 0 <= i < |vals| ==> FromBits(w[14 + 3 * i..17 + 3 * i]) == vals[i]
  {
    var w := PreambleBits(hlit, hdist, vals);
    Pow2Small();
    FromToBits(hlit - 257, 5);
    FromToBits(hdist - 1, 5);
    FromToBits(|vals| - 4, 4);
    ValuesLength(vals);
    assert w[..5] == ToBits(hlit - 257, 5) && w[5..10] == ToBits(hdist - 1, 5) && w[10..14] == ToBits(|vals| - 4, 4);
    forall i | 0 <= i < |vals|
      ensures FromBits(w[14 + 3 * i..17 + 3 * i]) == vals[i]
    {
      ValueThere(vals, i);
      assert w[14 + 3 * i..17 + 3 * i] == ValuesBits(vals)[3 * i..3 * i + 3];
    }
  }

  /** The lengths that the operations give are those of the literal/length code, HLIT of them, and then those
      of the distance code; the operations are written behind the preamble. */
  lemma HeaderNumbers(h: Header)
    requires HeaderOk(h)
    ensures LitLens(h) + DistLens(h) == ClOpsOut(h.ops, []).value && |LitLens(h)| == h.hlit && |DistLens(h)| == h.hdist
    ensures var n := 14 + 3 * |h.clvals|;
      |HeaderBits(h)| >= n && HeaderBits(h)[..n] == PreambleBits(h.hlit, h.hdist, h.clvals)
      && HeaderBits(h)[n..] == ClOpsBits(h.ops, Dezigzag(h.clvals))
  {
    ValuesLength(h.clvals);
  }

  lemma {:induction false} ValuesLength(vals: seq<nat>)
    ensures |ValuesBits(vals)| == 3 * |vals|
  {
    if vals != [] {
      ValuesLength(vals[1..]);
    }
  }

  lemma {:induction false} ValueThere(vals: seq<nat>, i: nat)
    requires i < |vals| && vals[i] < 8
    ensures |ValuesBits(vals)| == 3 * |vals| && FromBits(ValuesBits(vals)[3 * i..3 * i + 3]) == vals[i]
  {
    ValuesLength(vals);
    if i == 0 {
      Pow2Small();
      FromToBits(vals[0], 3);
      assert ValuesBits(vals)[0..3] == ToBits(vals[0], 3);
    } else {
      ValueThere(vals[1..], i - 1);
      assert ValuesBits(vals)[3 * i..3 * i + 3] == ValuesBits(vals[1..])[3 * (i - 1)..3 * (i - 1) + 3];
    }
  }

  // ----- blocks (section 3.2.3)

  /** BFINAL, then BTYPE: 00 stored, 01 fixed, 10 dynamic, the low bit first. */
  lemma BlockStart(b: Block, last: bool)
    requires BlockOk(b)
    ensures BlockBits(b, last) == [last, b.Fixed?, b.Dynamic?] + ContentBits(b)
  {
    StartBits(last, BlockType(b), ContentBits(b));
  }

  lemma StartBits(last: bool, t: nat, content: seq<bool>)
    requires t < 3
    ensures [last] + ToBits(t, 2) + content == [last, t == 1, t == 2] + content
  {
    TypeBits(t);
  }

  lemma TypeBits(t: nat)
    requires t < 3
    ensures ToBits(t, 2) == [t == 1, t == 2]
  {
    assert ToBits(t / 2, 1) == [t / 2 % 2 == 1] + ToBits(t / 4, 0);
  }

  /** The bits skipped after the three header bits of a stored block that starts at `p` end the byte. */
  lemma PadNumbers(p: nat)
    requires p < 8
    ensures PadLen(p) < 8 && (p + 3 + PadLen(p)) % 8 == 0
  {
  }

  /** LEN with its low byte first, and NLEN, whose bytes are those of LEN taken from 255. */
  lemma StoredNumbers(b: Block)
    requires b.Stored? && BlockOk(b)
    ensures exists h: seq<byte> {:trigger BytesBits(h)} ::
      && |h| == 4 && ContentBits(b) == b.pad + BytesBits(h) + BytesBits(b.data)
      && h[0] as int + 256 * h[1] as int == |b.data|
      && h[0] as int + h[2] as int == 255 && h[1] as int + h[3] as int == 255
  {
    HeaderBytes(|b.data|);
    var h := StoredHeader(|b.data|);
    assert ContentBits(b) == b.pad + BytesBits(h) + BytesBits(b.data);
  }

  lemma HeaderBytes(len: nat)
    requires len < 0x1_0000
    ensures var h := StoredHeader(len);
      && h[0] as int + 256 * h[1] as int == len
      && h[0] as int + h[2] as int == 255 && h[1] as int + h[3] as int == 255
  {
  }
}
