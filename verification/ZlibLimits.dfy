/** The end of the input: what is accepted though most of it is missing, and how much is needed
    behind a stream.

    Both are shown by blocks of literals in the fixed code, whose reads have seven, eight or nine
    bits. */
module ZlibLimits {
  import opened Bits
  import opened Canonical
  import opened Options
  import opened Source
  import opened Deflate
  import opened InflateBlock
  import opened Inflate
  import opened ZlibStream

  // ----- literals in one fixed block

  function Literals(b: seq<byte>): (ts: seq<Token>)
    ensures |ts| == |b|
  {
    if b == [] then [] else [Literal(b[0])] + Literals(b[1..])
  }

  function LiteralBlock(b: seq<byte>): seq<Block> {
    [Fixed(Literals(b))]
  }

  lemma FixedLengths(i: nat)
    requires i < 288
    ensures FixedLit()[i] == if i < 144 then 8 else if i < 256 then 9 else if i < 280 then 7 else 8
  {
  }

  lemma {:induction false} LiteralsOk(b: seq<byte>)
    ensures BodyOk(Literals(b), FixedLit(), FixedDist())
  {
    FixedLengths(256);
    if b != [] {
      LiteralsOk(b[1..]);
      FixedLengths(b[0]);
    }
  }

  lemma {:induction false} LiteralsOut(b: seq<byte>, out: seq<byte>)
    ensures forall i :: 0 <= i < |b| ==> Literals(b)[i].Literal?
    ensures TokensOut(Literals(b), out) == Some(out + b)
    decreases |b|
  {
    if b == [] {
      assert out + b == out;
    } else {
      LiteralsOut(b[1..], out + [b[0]]);
      assert Literals(b)[1..] == Literals(b[1..]);
      assert out + [b[0]] + b[1..] == out + b;
    }
  }

  lemma LiteralBlockOk(b: seq<byte>)
    ensures BlocksOk(LiteralBlock(b)) && BlocksAligned(LiteralBlock(b), 0)
    ensures BlocksOut(LiteralBlock(b), []) == Some(b)
  {
    LiteralsOk(b);
    LiteralsOut(b, []);
    assert [] + b == b;
  }

  /** How many bits are buffered and left once the literals `b` have been read. */
  function AfterLiterals(h: Shape, b: seq<byte>): Option<Shape>
    decreases |b|
  {
    if b == [] then Some(h)
    else
      FixedLengths(b[0]);
      var t := Take(h, Symbol(FixedLit()[b[0]]));
      if t.None? then None else AfterLiterals(t.value, b[1..])
  }

  lemma {:induction false} LiteralsTake(h: Shape, b: seq<byte>)
    ensures BodyOk(Literals(b), FixedLit(), FixedDist())
    ensures TakeAll(h, BodyReads(Literals(b), FixedLit(), FixedDist())) ==
      var t := AfterLiterals(h, b); if t.None? then None else Take(t.value, Symbol(7))
    decreases |b|
  {
    LiteralsOk(b);
    FixedLengths(256);
    var ll, dl := FixedLit(), FixedDist();
    if b == [] {
      TakeOne(h, Symbol(7));
    } else {
      FixedLengths(b[0]);
      var r := Symbol(ll[b[0]]);
      LiteralsOk(b[1..]);
      assert Literals(b)[1..] == Literals(b[1..]);
      assert BodyReads(Literals(b), ll, dl) == [r] + BodyReads(Literals(b[1..]), ll, dl);
      TakeOne(h, r);
      TakeAppend(h, [r], BodyReads(Literals(b[1..]), ll, dl));
      if Take(h, r).Some? {
        LiteralsTake(Take(h, r).value, b[1..]);
      }
    }
  }

  /** After the three header bits, the literals and the end-of-block symbol decide. */
  lemma LiteralBlockFed(b: seq<byte>, n: nat)
    requires n >= 1
    ensures BlocksOk(LiteralBlock(b))
    ensures Fed(n, LiteralBlock(b)) <==>
      var t := AfterLiterals(Shape(29, if n < 4 then 0 else n - 4), b);
      t.Some? && Take(t.value, Symbol(7)).Some?
  {
    LiteralBlockOk(b);
    var rs := BodyReads(Literals(b), FixedLit(), FixedDist());
    var h := Shape(29, if n < 4 then 0 else n - 4);
    HeadTakes(n);
    TakeAppend(Shape(0, n), HEAD_READS, rs);
    LiteralsTake(h, b);
    assert BlocksReads(LiteralBlock(b)) == HEAD_READS + rs;
  }

  lemma HeadTakes(n: nat)
    ensures TakeAll(Shape(0, n), HEAD_READS) == Some(Shape(29, if n < 4 then 0 else n - 4))
  {
    var m := if n < 4 then 0 else n - 4;
    FirstFill(n);
    TakeOne(Shape(0, n), Number(1));
    TakeOne(Shape(31, m), Number(2));
    TakeAppend(Shape(0, n), [Number(1)], [Number(2)]);
  }

  lemma FirstFill(n: nat)
    ensures Refill(Shape(0, n)) == Shape(32, if n < 4 then 0 else n - 4)
  {
    var m := if n == 0 then 0 else n - 1;
    var k := if m == 0 then 0 else m - 1;
    var j := if k == 0 then 0 else k - 1;
    assert Refill(Shape(24, j)) == Shape(32, if j == 0 then 0 else j - 1);
    assert Refill(Shape(16, k)) == Refill(Shape(24, j));
    assert Refill(Shape(8, m)) == Refill(Shape(16, k));
  }

  // ----- a stream that is accepted though most of it is missing

  lemma FixedCount(l: nat)
    ensures Count(FixedLit(), l) == if l == 7 then 24 else if l == 8 then 152 else if l == 9 then 112 else 0
  {
    var a := Repeat(8, 144);
    var b := a + Repeat(9, 112);
    var c := b + Repeat(7, 24);
    assert [] + a == a;
    CountRun([], 8, 144, l);
    CountRun(a, 9, 112, l);
    CountRun(b, 7, 24, l);
    CountRun(c, 8, 8, l);
  }

  lemma {:induction false} FixedEnd(l: nat)
    requires l <= 7
    ensures EndCode(FixedLit(), l) == if l == 7 then 24 else 0
  {
    FixedCount(l);
    if l > 0 {
      FixedEnd(l - 1);
    }
  }

  /** The fixed code of a literal below 144 is 48 more than the literal (section 3.2.6 of RFC 1951). */
  lemma FixedCode(a: byte)
    requires a < 144
    ensures FixedLit()[a] == 8 && Code(FixedLit(), a) == 48 + a
  {
    FixedLengths(a);
    FixedEnd(7);
    FirstLiterals(a, FixedLit()[..a]);
  }

  lemma FirstLiterals(a: byte, c: seq<nat>)
    requires a < 144 && c == FixedLit()[..a]
    ensures Count(c, 8) == a
  {
    assert c == [] + Repeat(8, a);
    CountRun([], 8, a, 8);
  }

  lemma EndOfBlockCode()
    ensures FixedLit()[256] == 7 && Codeword(FixedLit(), 256) == MsbBits(0, 7)
  {
    FixedLengths(256);
    FixedEnd(6);
    NoSevens(FixedLit()[..256]);
    assert Code(FixedLit(), 256) == 0;
  }

  lemma NoSevens(c: seq<nat>)
    requires c == FixedLit()[..256]
    ensures Count(c, 7) == 0
  {
    var a, b := Repeat(8, 144), Repeat(9, 112);
    FirstTwo(a, b, Repeat(7, 24), Repeat(8, 8));
    CountRun(a, 9, 112, 7);
    CountRun([], 8, 144, 7);
    assert [] + a == a;
  }

  lemma FirstTwo(a: seq<nat>, b: seq<nat>, c: seq<nat>, d: seq<nat>)
    ensures (a + b + c + d)[..|a| + |b|] == a + b
  {
  }

  lemma OneLiteral(a: byte, ll: seq<nat>, dl: seq<nat>)
    requires Used(ll, a) && Used(ll, 256)
    ensures BodyOk([Literal(a)], ll, dl)
    ensures BodyBits([Literal(a)], ll, dl) == Codeword(ll, a) + Codeword(ll, 256)
  {
    var ts := [Literal(a)];
    assert ts[1..] == [] && TokensBits(ts, ll, dl) == Codeword(ll, a) + [];
  }

  lemma LiteralBits(a: byte)
    requires a < 144
    ensures BlocksOk(LiteralBlock([a]))
    ensures BlocksBits(LiteralBlock([a])) == [true, true, false] + (MsbBits(48 + a, 8) + MsbBits(0, 7))
  {
    LiteralBlockOk([a]);
    FixedCode(a);
    EndOfBlockCode();
    OneLiteral(a, FixedLit(), FixedDist());
    assert Literals([a]) == [Literal(a)];
    FixedBlockBits([Literal(a)]);
  }

  lemma FixedBlockBits(ts: seq<Token>)
    requires BodyOk(ts, FixedLit(), FixedDist())
    ensures BlocksOk([Fixed(ts)])
    ensures BlocksBits([Fixed(ts)]) == [true, true, false] + BodyBits(ts, FixedLit(), FixedDist())
  {
    FixedHead(BodyBits(ts, FixedLit(), FixedDist()));
  }

  lemma FixedHead(w: seq<bool>)
    ensures [true] + ToBits(1, 2) + w == [true, true, false] + w
  {
    assert ToBits(1, 2) == [true, false];
    assert [true] + [true, false] == [true, true, false];
  }

  lemma LiteralTop(v: nat)
    requires 48 <= v < 56
    ensures MsbBits(v, 8)[..5] == [false, false, true, true, false]
    ensures v == 48 ==> MsbBits(v, 8)[5..] == [false, false, false]
  {
    assert v / 2 / 2 / 2 == 6;
    assert MsbBits(v / 2, 7) == MsbBits(v / 2 / 2, 6) + [v / 2 % 2 == 1];
    assert MsbBits(v / 2 / 2, 6) == MsbBits(6, 5) + [v / 2 / 2 % 2 == 1];
    assert MsbBits(6, 5) == [false, false, true, true, false];
  }

  /** The streams of a single literal 0 to 7 have 18 bits in three bytes.  Their first byte alone
      (63 in hexadecimal) is accepted and decoded to the literal 0: for 0 that is right, for the
      others it is not what the stream stands for. */
  lemma TruncatedAccepted(a: byte, cap: nat)
    requires a < 8 && cap >= 1
    ensures BlocksOk(LiteralBlock([a])) && BlocksAligned(LiteralBlock([a]), 0)
    ensures BlocksOut(LiteralBlock([a]), []) == Some([a])
    ensures |Packed(BlocksBits(LiteralBlock([a])))| == 3 && Packed(BlocksBits(LiteralBlock([a])))[..1] == [0x63]
    ensures Decoded([0x63], cap, false) == Some([0])
  {
    LiteralBlockOk([a]);
    FirstByte(a);
    ZeroDecoded(cap);
  }

  lemma PackedSize(w: seq<bool>)
    ensures |Packed(w)| == (|w| + 7) / 8
  {
  }

  lemma FirstOfPacked(w: seq<bool>)
    requires |w| >= 8
    ensures |Packed(w)| == (|w| + 7) / 8 && Packed(w)[0] == FromBits(w[..8])
  {
    assert (w + FillBits(|w|))[..8] == w[..8];
  }

  lemma FirstByte(a: byte)
    requires a < 8
    ensures BlocksOk(LiteralBlock([a])) && |BlocksBits(LiteralBlock([a]))| == 18
    ensures |Packed(BlocksBits(LiteralBlock([a])))| == 3 && Packed(BlocksBits(LiteralBlock([a])))[..1] == [0x63]
  {
    LiteralBits(a);
    FirstPacked(BlocksBits(LiteralBlock([a])), 48 + a);
  }

  lemma FirstPacked(w: seq<bool>, v: nat)
    requires 48 <= v < 56 && w == [true, true, false] + (MsbBits(v, 8) + MsbBits(0, 7))
    ensures |w| == 18 && |Packed(w)| == 3 && Packed(w)[..1] == [0x63]
  {
    LiteralTop(v);
    FirstBits(w, MsbBits(v, 8), MsbBits(0, 7));
    FirstOfPacked(w);
    ByteOfBits();
  }

  lemma FirstBits(w: seq<bool>, m: seq<bool>, z: seq<bool>)
    requires w == [true, true, false] + (m + z) && |m| == 8 && m[..5] == [false, false, true, true, false]
    ensures w[..8] == [true, true, false, false, false, true, true, false]
  {
    assert w[..8] == [true, true, false] + m[..5];
  }

  lemma ByteOfBits()
    ensures FromBits([true, true, false, false, false, true, true, false]) == 0x63
  {
    assert FromBits([true, true, false]) == 3;
    assert FromBits([false, true, true, false]) == 6;
    assert FromBits([false, false, true, true, false]) == 12;
    assert FromBits([false, false, false, true, true, false]) == 24;
    var b := [true, true, false, false, false, true, true, false];
    assert b[1..] == [true, false, false, false, true, true, false];
    assert b[1..][1..] == [false, false, false, true, true, false];
  }

  lemma LostBits(w: seq<bool>, m: seq<bool>, z: seq<bool>)
    requires w == [true, true, false] + (m + z) && |m| == 8 && m[5..] == [false, false, false]
    requires forall i :: 0 <= i < |z| ==> !z[i]
    ensures ZerosFrom(w, 1)
  {
    assert m[5] == m[5..][0] && m[6] == m[5..][1] && m[7] == m[5..][2];
  }

  lemma ZeroDecoded(cap: nat)
    requires cap >= 1
    ensures Decoded([0x63], cap, false) == Some([0])
  {
    LiteralBlockOk([0]);
    FirstByte(0);
    ZeroLost(0);
    ZeroFed();
    AcceptedCut(LiteralBlock([0]), [0], 1, cap);
  }

  lemma ZeroLost(a: byte)
    requires a == 0
    ensures BlocksOk(LiteralBlock([a])) && ZerosFrom(BlocksBits(LiteralBlock([a])), 1)
  {
    LiteralBits(a);
    LiteralTop(48 + a);
    MsbZero(7);
    LostBits(BlocksBits(LiteralBlock([a])), MsbBits(48 + a, 8), MsbBits(0, 7));
  }

  lemma {:induction false} MsbZero(n: nat)
    ensures forall i :: 0 <= i < n ==> !MsbBits(0, n)[i]
  {
    if n > 0 {
      MsbZero(n - 1);
    }
  }

  /** What is left of a stream decodes to what it stands for if only zeros are lost and it is fed. */
  lemma AcceptedCut(bs: seq<Block>, r: seq<byte>, n: nat, cap: nat)
    requires BlocksOk(bs) && BlocksAligned(bs, 0) && BlocksOut(bs, []) == Some(r) && |r| <= cap
    requires n <= |Packed(BlocksBits(bs))| && ZerosFrom(BlocksBits(bs), n) && Fed(n, bs)
    ensures Decoded(Packed(BlocksBits(bs))[..n], cap, false) == Some(r)
  {
    var p := Packed(BlocksBits(bs));
    assert p + [] == p;
    CutStream(p[..n], cap, false, bs, [], n);
  }

  lemma ZeroFed()
    ensures BlocksOk(LiteralBlock([0])) && Fed(1, LiteralBlock([0]))
  {
    LiteralStep(Shape(29, 0), 0, [], 8);
    assert [0] + [] == [0];
    LiteralBlockFed([0], 1);
  }

  // ----- how many bytes are needed behind a stream

  /** `k` bytes of anything behind a zlib stream guarantee that it is decoded. */
  ghost predicate Guaranteed(k: nat) {
    forall bs, trailer, cap ::
      BlocksOk(bs) && BlocksAligned(bs, 0) && |trailer| == k
      && BlocksOut(bs, []).Some? && |BlocksOut(bs, []).value| <= cap
      ==> Decoded(ZlibBytes(bs, trailer), cap, true) == BlocksOut(bs, [])
  }

  /** A zlib stream with `trailer` behind it is decoded exactly if it is fed. */
  lemma TrailerExactly(bs: seq<Block>, trailer: seq<byte>, n: nat, cap: nat)
    requires BlocksOk(bs) && BlocksAligned(bs, 0)
    requires BlocksOut(bs, []).Some? && |BlocksOut(bs, []).value| <= cap
    requires n == |Packed(BlocksBits(bs))| + |trailer|
    ensures Decoded(ZlibBytes(bs, trailer), cap, true) == if Fed(n, bs) then BlocksOut(bs, []) else None
  {
    ShowsPacked(BlocksBits(bs), trailer);
    HeadedExactly(bs, Packed(BlocksBits(bs)) + trailer, n, cap);
  }

  lemma HeadedExactly(bs: seq<Block>, body: seq<byte>, n: nat, cap: nat)
    requires BlocksOk(bs) && BlocksAligned(bs, 0) && Shows(Src([], body), BlocksBits(bs)) && n == |body| > 0
    requires BlocksOut(bs, []).Some? && |BlocksOut(bs, []).value| <= cap
    ensures Decoded([0x78, 0x9c] + body, cap, true) == if Fed(n, bs) then BlocksOut(bs, []) else None
  {
    StreamHeader(body);
    DecodeExact([0x78, 0x9c] + body, cap, true, bs);
  }

  /** The bound is exact: two bytes behind the last block are enough for every stream, and fewer
      are not.  With one byte behind them, the 80 bits of five literals of nine bits, two of
      eight and one of nine leave 15 bits for the end-of-block symbol; with none, two literals
      of eight bits leave 13. */
  lemma TwoBytesNeeded(k: nat)
    ensures Guaranteed(k) <==> k >= 2
  {
    if k >= 2 {
      forall bs, trailer, cap | BlocksOk(bs) && BlocksAligned(bs, 0) && |trailer| == k
          && BlocksOut(bs, []).Some? && |BlocksOut(bs, []).value| <= cap
        ensures Decoded(ZlibBytes(bs, trailer), cap, true) == BlocksOut(bs, [])
      {
        RoundTrip(bs, trailer, cap);
      }
    } else if k == 1 {
      var b := OneByteShort();
      OneByteNotEnough(b, [0]);
      LiteralsNotGuaranteed(b, [0]);
    } else {
      var b := [0] + ([0] + []);
      NoByteNotEnough(b);
      LiteralsNotGuaranteed(b, []);
    }
  }

  function LiteralSize(b: seq<byte>): nat {
    if b == [] then 7
    else
      FixedLengths(b[0]);
      FixedLit()[b[0]] + LiteralSize(b[1..])
  }

  lemma {:induction false} LiteralsSize(b: seq<byte>)
    ensures BodyOk(Literals(b), FixedLit(), FixedDist())
    ensures |BodyBits(Literals(b), FixedLit(), FixedDist())| == LiteralSize(b)
  {
    LiteralsOk(b);
    FixedLengths(256);
    if b != [] {
      LiteralsSize(b[1..]);
      FixedLengths(b[0]);
      assert Literals(b)[1..] == Literals(b[1..]);
    }
  }

  lemma LiteralBlockSize(b: seq<byte>)
    ensures BlocksOk(LiteralBlock(b)) && |BlocksBits(LiteralBlock(b))| == 3 + LiteralSize(b)
  {
    LiteralBlockOk(b);
    LiteralsSize(b);
  }

  /** One more literal of `n` bits. */
  lemma LiteralStep(h: Shape, x: byte, b: seq<byte>, n: nat)
    requires n == if x < 144 then 8 else 9
    ensures LiteralSize([x] + b) == n + LiteralSize(b)
    ensures AfterLiterals(h, [x] + b) ==
      var t := Take(h, Symbol(n)); if t.None? then None else AfterLiterals(t.value, b)
  {
    FixedLengths(x);
    assert ([x] + b)[1..] == b;
  }

  /** Literals of 9, 9, 9, 9, 9, 8, 8 and 9 bits. */
  function OneByteShort(): seq<byte> {
    [144] + ([144] + ([144] + ([144] + ([144] + ([0] + ([0] + ([144] + [])))))))
  }

  lemma EightLiterals(b: seq<byte>, c: seq<byte>)
    requires c == [144] + ([0] + ([0] + ([144] + []))) && b == [144] + ([144] + ([144] + ([144] + c)))
    ensures LiteralSize(b) == 77 && AfterLiterals(Shape(29, 7), b) == Some(Shape(15, 0))
  {
    Refills();
    LastFour(c);
    LiteralStep(Shape(18, 5), 144, c, 9);
    LiteralStep(Shape(11, 7), 144, [144] + c, 9);
    LiteralStep(Shape(20, 7), 144, [144] + ([144] + c), 9);
    LiteralStep(Shape(29, 7), 144, [144] + ([144] + ([144] + c)), 9);
  }

  lemma LastFour(c: seq<byte>)
    requires c == [144] + ([0] + ([0] + ([144] + [])))
    ensures LiteralSize(c) == 41 && AfterLiterals(Shape(9, 5), c) == Some(Shape(15, 0))
  {
    Refills();
    LiteralStep(Shape(24, 0), 144, [], 9);
    LiteralStep(Shape(8, 3), 0, [144] + [], 8);
    LiteralStep(Shape(16, 3), 0, [0] + ([144] + []), 8);
    LiteralStep(Shape(9, 5), 144, [0] + ([0] + ([144] + [])), 9);
  }

  lemma Refills()
    ensures Refill(Shape(11, 7)) == Shape(27, 5) && Refill(Shape(9, 5)) == Shape(25, 3)
    ensures Refill(Shape(8, 3)) == Shape(32, 0)
  {
    assert Refill(Shape(16, 2)) == Refill(Shape(24, 1)) == Shape(32, 0);
  }

  lemma TwoLiterals(b: seq<byte>)
    requires b == [0] + ([0] + [])
    ensures LiteralSize(b) == 23 && AfterLiterals(Shape(29, 0), b) == Some(Shape(13, 0))
  {
    LiteralStep(Shape(21, 0), 0, [], 8);
    LiteralStep(Shape(29, 0), 0, [0] + [], 8);
  }

  lemma LiteralsNotGuaranteed(b: seq<byte>, trailer: seq<byte>)
    requires BlocksOk(LiteralBlock(b)) && Decoded(ZlibBytes(LiteralBlock(b), trailer), |b|, true) == None
    ensures !Guaranteed(|trailer|)
  {
    LiteralBlockOk(b);
  }

  /** A block of literals with too few bytes for its reads is refused. */
  lemma LiteralsRefused(b: seq<byte>, trailer: seq<byte>, n: nat)
    requires BlocksOk(LiteralBlock(b)) && n == |Packed(BlocksBits(LiteralBlock(b)))| + |trailer|
    requires !Fed(n, LiteralBlock(b))
    ensures Decoded(ZlibBytes(LiteralBlock(b), trailer), |b|, true) == None
  {
    LiteralBlockOk(b);
    TrailerExactly(LiteralBlock(b), trailer, n, |b|);
  }

  lemma OneByteNotEnough(b: seq<byte>, trailer: seq<byte>)
    requires b == OneByteShort() && |trailer| == 1
    ensures BlocksOk(LiteralBlock(b)) && |BlocksBits(LiteralBlock(b))| == 80
    ensures Decoded(ZlibBytes(LiteralBlock(b), trailer), |b|, true) == None
  {
    EightNotFed(b);
    LiteralsRefused(b, trailer, 11);
  }

  lemma EightNotFed(b: seq<byte>)
    requires b == OneByteShort()
    ensures BlocksOk(LiteralBlock(b)) && |BlocksBits(LiteralBlock(b))| == 80
    ensures |Packed(BlocksBits(LiteralBlock(b)))| == 10 && !Fed(11, LiteralBlock(b))
  {
    LiteralBlockSize(b);
    EightLiterals(b, [144] + ([0] + ([0] + ([144] + []))));
    LiteralBlockFed(b, 11);
    assert Take(Shape(15, 0), Symbol(7)) == None;
    PackedSize(BlocksBits(LiteralBlock(b)));
  }

  lemma NoByteNotEnough(b: seq<byte>)
    requires b == [0] + ([0] + [])
    ensures BlocksOk(LiteralBlock(b)) && |BlocksBits(LiteralBlock(b))| == 26
    ensures Decoded(ZlibBytes(LiteralBlock(b), []), |b|, true) == None
  {
    TwoNotFed(b);
    LiteralsRefused(b, [], 4);
  }

  lemma TwoNotFed(b: seq<byte>)
    requires b == [0] + ([0] + [])
    ensures BlocksOk(LiteralBlock(b)) && |BlocksBits(LiteralBlock(b))| == 26
    ensures |Packed(BlocksBits(LiteralBlock(b)))| == 4 && !Fed(4, LiteralBlock(b))
  {
    LiteralBlockSize(b);
    TwoLiterals(b);
    LiteralBlockFed(b, 4);
    assert Take(Shape(13, 0), Symbol(7)) == None;
    PackedSize(BlocksBits(LiteralBlock(b)));
  }
}
