/** What `stbi__parse_uncompressed_block` and the dispatch of `stbi__parse_zlib` compute, on values:
    stored blocks, and blocks of any type.

    A stored block begins at a byte boundary of the input, though the reservoir may hold whole
    bytes of its header; the contents then come straight from the input. */
module InflateStream {
  import opened Bits
  import opened Options
  import opened Source
  import opened Deflate
  import opened InflateBlock
  import opened InflateHeader

  // ----- bits as bytes

  function BitsBytes(b: seq<bool>): (r: seq<byte>)
    requires |b| % 8 == 0
    ensures |r| == |b| / 8
    decreases |b|
  {
    if b == [] then []
    else
      assert Pow2(8) == 256;
      [FromBits(b[..8])] + BitsBytes(b[8..])
  }

  lemma {:induction false} BytesOfBits(b: seq<bool>)
    requires |b| % 8 == 0
    ensures BytesBits(BitsBytes(b)) == b
    decreases |b|
  {
    if b != [] {
      BytesOfBits(b[8..]);
      ToFromBits(b[..8]);
      assert BitsBytes(b)[1..] == BitsBytes(b[8..]);
      assert b == b[..8] + b[8..];
    }
  }

  // ----- stored blocks

  function ByteAt(bs: seq<byte>, i: nat): byte {
    if i < |bs| then bs[i] else 0
  }

  /** The unread bytes once the reader is at a byte boundary: the buffered ones, then the rest. */
  function AlignedBytes(s: Src): (r: seq<byte>)
    ensures |r| == |s.buf| / 8 + |s.rest|
  {
    BitsBytes(s.buf[|s.buf| % 8..]) + s.rest
  }

  /** A 16-bit number, low byte first. */
  function Le16(lo: nat, hi: nat): nat {
    hi * 256 + lo
  }

  /** The four header bytes and the bytes after them are given; copy LEN of them. */
  function StoredData(header: seq<byte>, rest: seq<byte>, out: seq<byte>, cap: nat): (r: Option<(Src, seq<byte>)>)
    requires |header| == 4 && |out| <= cap
    ensures r.Some? ==> r.value.0.buf == [] && |out| <= |r.value.1| <= cap
  {
    var len := Le16(header[0], header[1]);
    var nlen := Le16(header[2], header[3]);
    if nlen != 0xffff - len || len > |rest| || |out| + len > cap then None
    else Some((Src([], rest[len..]), out + rest[..len]))
  }

  function StoredBlock(s: Src, out: seq<byte>, cap: nat): (r: Option<(Src, seq<byte>)>)
    requires |s.buf| < 32 && |out| <= cap
    ensures r.Some? ==> r.value.0.buf == [] && |out| <= |r.value.1| <= cap
  {
    var bs := AlignedBytes(s);
    StoredData([ByteAt(bs, 0), ByteAt(bs, 1), ByteAt(bs, 2), ByteAt(bs, 3)],
      if |bs| < 4 then [] else bs[4..], out, cap)
  }

  lemma AlignedStream(s: Src)
    ensures Stream(s) == s.buf[..|s.buf| % 8] + BytesBits(AlignedBytes(s))
  {
    var k := |s.buf| % 8;
    BytesOfBits(s.buf[k..]);
    BytesBitsAppend(BitsBytes(s.buf[k..]), s.rest);
    assert s.buf == s.buf[..k] + s.buf[k..];
    Assoc(s.buf[..k], s.buf[k..], BytesBits(s.rest));
  }

  /** A header that passes the LEN/NLEN check is the one a writer would have written. */
  lemma HeaderIsComplement(h: seq<byte>, len: nat)
    requires |h| == 4 && len == Le16(h[0], h[1]) && Le16(h[2], h[3]) == 0xffff - len
    ensures len < 0x1_0000 && h == StoredHeader(len)
  {
  }

  /** A stored block that is accepted lies wholly inside the input: zero padding never passes
      the LEN/NLEN check and the length check together. */
  lemma StoredBlockInput(s: Src, out: seq<byte>, cap: nat)
    requires |s.buf| < 32 && |out| <= cap && StoredBlock(s, out, cap).Some?
    ensures |AlignedBytes(s)| >= 4
  {
  }

  lemma StoredBits(pad: seq<bool>, h: seq<byte>, data: seq<byte>, rest: seq<byte>)
    ensures pad + BytesBits(h + data + rest) == pad + BytesBits(h) + BytesBits(data) + BytesBits(rest)
  {
    BytesBitsAppend(h + data, rest);
    BytesBitsAppend(h, data);
    Regroup(pad, BytesBits(h), BytesBits(data), BytesBits(rest));
    Assoc(BytesBits(h), BytesBits(data), BytesBits(rest));
  }

  lemma StoredConsumes(s: Src, h: seq<byte>, data: seq<byte>, rest: seq<byte>)
    requires AlignedBytes(s) == h + data + rest
    ensures Consumes(s, s.buf[..|s.buf| % 8] + BytesBits(h) + BytesBits(data), Src([], rest))
  {
    var pad := s.buf[..|s.buf| % 8];
    AlignedStream(s);
    StoredBits(pad, h, data, rest);
    assert Stream(Src([], rest)) == BytesBits(rest);
  }

  lemma StoredBlockSound(s: Src, out: seq<byte>, cap: nat) returns (b: Block)
    requires |s.buf| < 32 && |out| <= cap && StoredBlock(s, out, cap).Some?
    ensures b.Stored? && BlockOk(b) && |b.pad| == |s.buf| % 8 && 4 + |b.data| <= |AlignedBytes(s)|
    ensures var (t, r) := StoredBlock(s, out, cap).value;
      r == out + b.data && Consumes(s, ContentBits(b), t)
  {
    StoredBlockInput(s, out, cap);
    var h, rest, len := StoredSplit(AlignedBytes(s), out, cap);
    StoredConsumes(s, h, rest[..len], rest[len..]);
    b := Stored(s.buf[..|s.buf| % 8], rest[..len]);
  }

  lemma StoredSplit(bs: seq<byte>, out: seq<byte>, cap: nat) returns (h: seq<byte>, rest: seq<byte>, len: nat)
    requires |bs| >= 4 && |out| <= cap
    requires StoredData([bs[0], bs[1], bs[2], bs[3]], bs[4..], out, cap).Some?
    ensures len < 0x1_0000 && h == StoredHeader(len) && len <= |rest|
    ensures bs == h + rest[..len] + rest[len..]
    ensures StoredData([bs[0], bs[1], bs[2], bs[3]], bs[4..], out, cap) ==
      Some((Src([], rest[len..]), out + rest[..len]))
  {
    h, rest := [bs[0], bs[1], bs[2], bs[3]], bs[4..];
    len := Le16(h[0], h[1]);
    HeaderIsComplement(h, len);
  }

  /** A stored block that comes next is accepted exactly if all its data is in the input. */
  lemma StoredBlockExact(s: Src, b: Block, out: seq<byte>, cap: nat, x: seq<bool>)
    requires |s.buf| < 32
    requires b.Stored? && BlockOk(b) && |b.pad| == |s.buf| % 8 && |out| + |b.data| <= cap
    requires Shows(s, ContentBits(b) + x)
    ensures var r := StoredBlock(s, out, cap);
      && (r.Some? ==> r.value.1 == out + b.data)
      && Exactly(s, ContentBits(b), [Bytes(|b.data|)], x, LeftOf(r))
  {
    ShowsPrefix(s, ContentBits(b), x);
    StoredTakes(s, b);
    if Starves(s, [Bytes(|b.data|)]) {
      StoredNotThere(s, b, out, cap);
    } else {
      StoredThere(s, b, out, cap);
      ConsumesShown(s, ContentBits(b), StoredBlock(s, out, cap).value.0, ContentBits(b), x);
    }
  }

  lemma StoredTakes(s: Src, b: Block)
    requires b.Stored? && BlockOk(b) && |b.pad| == |s.buf| % 8
    ensures TakeAll(ShapeOf(s), [Bytes(|b.data|)]) ==
      var n := 4 + |b.data|; if |AlignedBytes(s)| < n then None else Some(Shape(0, |AlignedBytes(s)| - n))
    ensures |AlignedBytes(s)| < 4 + |b.data| ==> |Stream(s)| < |ContentBits(b)|
  {
    AlignedStream(s);
    TakeOne(ShapeOf(s), Bytes(|b.data|));
  }

  lemma StoredNotThere(s: Src, b: Block, out: seq<byte>, cap: nat)
    requires |s.buf| < 32 && |out| <= cap && b.Stored? && BlockOk(b) && |b.pad| == |s.buf| % 8
    requires Shows(s, ContentBits(b)) && |AlignedBytes(s)| < 4 + |b.data|
    ensures StoredBlock(s, out, cap).None?
  {
    if StoredBlock(s, out, cap).Some? {
      var c := StoredBlockSound(s, out, cap);
      SameHeader(s, b, c, StoredBlock(s, out, cap).value.0);
    }
  }

  lemma StoredThere(s: Src, b: Block, out: seq<byte>, cap: nat)
    requires |s.buf| < 32
    requires b.Stored? && BlockOk(b) && |b.pad| == |s.buf| % 8 && |out| + |b.data| <= cap
    requires Shows(s, ContentBits(b)) && 4 + |b.data| <= |AlignedBytes(s)|
    ensures StoredBlock(s, out, cap) == Some((Src([], AlignedBytes(s)[4..][|b.data|..]), out + b.data))
    ensures Consumes(s, ContentBits(b), Src([], AlignedBytes(s)[4..][|b.data|..]))
  {
    var bs, pad, h, n := AlignedBytes(s), s.buf[..|s.buf| % 8], StoredHeader(|b.data|), 4 + |b.data|;
    AlignedStream(s);
    StoredPrefix(s, pad, bs, b);
    StoredAccepts(bs, b.data, out, cap);
    assert bs == h + b.data + bs[n..] && bs[4..][|b.data|..] == bs[n..];
    StoredConsumes(s, h, b.data, bs[n..]);
  }

  /** Two stored blocks at the same place have the same length. */
  lemma SameHeader(s: Src, b: Block, c: Block, t: Src)
    requires b.Stored? && BlockOk(b) && c.Stored? && BlockOk(c) && |b.pad| == |c.pad|
    requires Shows(s, ContentBits(b)) && Consumes(s, ContentBits(c), t)
    ensures |b.data| == |c.data|
  {
    var v, w, k := ContentBits(b), ContentBits(c), |b.pad|;
    var hb, hc := StoredHeader(|b.data|), StoredHeader(|c.data|);
    SameShown(s, v, w, t, k + 32);
    HeaderAt(b);
    HeaderAt(c);
    assert v[..k + 32][k..] == v[k..k + 32] && w[..k + 32][k..] == w[k..k + 32];
    BytesBitsInjective(hb, hc);
    assert Le16(hb[0], hb[1]) == |b.data| && Le16(hc[0], hc[1]) == |c.data|;
  }

  lemma HeaderAt(b: Block)
    requires b.Stored? && BlockOk(b)
    ensures |ContentBits(b)| >= |b.pad| + 32
    ensures ContentBits(b)[|b.pad|..|b.pad| + 32] == BytesBits(StoredHeader(|b.data|))
  {
  }

  /** What is shown and what is consumed begin alike. */
  lemma SameShown(s: Src, v: seq<bool>, w: seq<bool>, t: Src, n: nat)
    requires Shows(s, v) && Consumes(s, w, t) && n <= |v| && n <= |w|
    ensures v[..n] == w[..n]
  {
    forall i | 0 <= i < n
      ensures v[i] == w[i]
    {
      BitAtZeroExt(Stream(s), w + Stream(t), i);
    }
  }

  lemma StoredAccepts(bs: seq<byte>, data: seq<byte>, out: seq<byte>, cap: nat)
    requires |data| < 0x1_0000 && StoredHeader(|data|) + data <= bs && |out| + |data| <= cap
    ensures StoredData([bs[0], bs[1], bs[2], bs[3]], bs[4..], out, cap)
            == Some((Src([], bs[4..][|data|..]), out + data))
  {
    var h := StoredHeader(|data|);
    assert bs[..4] == h;
    assert bs[4..][..|data|] == data;
    assert Le16(h[0], h[1]) == |data| && Le16(h[2], h[3]) == 0xffff - |data|;
  }

  lemma PrefixParts(q: seq<bool>, a: seq<bool>, pad: seq<bool>, b: seq<bool>)
    requires |q| == |pad| && q + a <= pad + b
    ensures q == pad && a <= b
  {
    assert q == (q + a)[..|q|] == (pad + b)[..|q|] == pad;
    assert a == (q + a)[|q|..] && b == (pad + b)[|q|..];
  }

  lemma PrefixBytes(a: seq<byte>, bs: seq<byte>)
    requires |a| <= |bs| && BytesBits(a) <= BytesBits(bs)
    ensures a <= bs
  {
    var c := bs[..|a|];
    BytesBitsAppend(c, bs[|a|..]);
    assert bs == c + bs[|a|..];
    assert BytesBits(a) == BytesBits(bs)[..|BytesBits(a)|] == BytesBits(c);
    BytesBitsInjective(a, c);
  }

  lemma StoredPrefix(s: Src, pad: seq<bool>, bs: seq<byte>, b: Block)
    requires b.Stored? && BlockOk(b) && |b.pad| == |pad| && Stream(s) == pad + BytesBits(bs)
    requires Shows(s, ContentBits(b)) && 4 + |b.data| <= |bs|
    ensures StoredHeader(|b.data|) + b.data <= bs && b.pad == pad
  {
    var h := StoredHeader(|b.data|);
    BytesBitsAppend(h, b.data);
    Assoc(b.pad, BytesBits(h), BytesBits(b.data));
    PrefixParts(b.pad, BytesBits(h + b.data), pad, BytesBits(bs));
    PrefixBytes(h + b.data, bs);
  }

  // ----- one block

  /** One turn of the loop in `stbi__parse_zlib`: the final flag, the type, the block. */
  ghost function OneBlock(s: Src, out: seq<byte>, cap: nat): (r: Option<(bool, Src, seq<byte>)>)
    requires |s.buf| <= 32 && |out| <= cap
    ensures r.Some? ==> |r.value.1.buf| <= 32 && |out| <= |r.value.2| <= cap
  {
    var (final, s1) := Receive(s, 1);
    var (kind, s2) := Receive(s1, 2);
    var r := BlockContent(kind, s2, out, cap);
    if r.None? then None else Some((final == 1, r.value.0, r.value.1))
  }

  ghost function BlockContent(kind: nat, s: Src, out: seq<byte>, cap: nat): (r: Option<(Src, seq<byte>)>)
    requires |s.buf| < 32 && |out| <= cap
    ensures r.Some? ==> |r.value.0.buf| <= 32 && |out| <= |r.value.1| <= cap
  {
    if kind == 0 then StoredBlock(s, out, cap)
    else if kind == 1 then
      FixedAreCodes();
      HuffmanBlock(s, FixedLit(), FixedDist(), out, cap)
    else if kind == 2 then
      var d := DynamicTables(s);
      if d.None? then None else HuffmanBlock(d.value.0, d.value.1, d.value.2, out, cap)
    else None
  }

  lemma BlockContentSound(kind: nat, s: Src, out: seq<byte>, cap: nat) returns (b: Block)
    requires |s.buf| < 32 && |out| <= cap && BlockContent(kind, s, out, cap).Some?
    ensures BlockOk(b) && BlockType(b) == kind && (b.Stored? ==> |b.pad| == |s.buf| % 8)
    ensures var (t, r) := BlockContent(kind, s, out, cap).value;
      BlockOut(b, out) == Some(r) && Consumes(s, ContentBits(b), t)
  {
    if kind == 0 {
      b := StoredBlockSound(s, out, cap);
    } else if kind == 1 {
      FixedAreCodes();
      var ts := HuffmanBlockSound(s, FixedLit(), FixedDist(), out, cap);
      b := Fixed(ts);
    } else {
      b := DynamicBlockSound(s, out, cap);
    }
  }

  lemma DynamicBlockSound(s: Src, out: seq<byte>, cap: nat) returns (b: Block)
    requires |s.buf| < 32 && |out| <= cap && BlockContent(2, s, out, cap).Some?
    ensures b.Dynamic? && BlockOk(b)
    ensures var (t, r) := BlockContent(2, s, out, cap).value;
      BlockOut(b, out) == Some(r) && Consumes(s, ContentBits(b), t)
  {
    var h := DynamicTablesSound(s);
    var (u, ll, dl) := DynamicTables(s).value;
    var ts := HuffmanBlockSound(u, ll, dl, out, cap);
    b := Dynamic(h, ts);
    ConsumesTrans(s, HeaderBits(h), u, BodyBits(ts, ll, dl), HuffmanBlock(u, ll, dl, out, cap).value.0);
  }

  /** The reads of a block after its three header bits. */
  function ContentReads(b: Block): seq<Read>
    requires BlockOk(b)
  {
    match b
    case Stored(_, data) => [Bytes(|data|)]
    case Fixed(ts) => BodyReads(ts, FixedLit(), FixedDist())
    case Dynamic(h, ts) => HeaderReads(h) + BodyReads(ts, LitLens(h), DistLens(h))
  }

  /** A well-formed block that comes next gives what it stands for exactly if there is enough input. */
  lemma BlockContentExact(b: Block, s: Src, out: seq<byte>, cap: nat, x: seq<bool>)
    requires |s.buf| < 32 && |out| <= cap && BlockOk(b) && (b.Stored? ==> |b.pad| == |s.buf| % 8)
    requires BlockOut(b, out).Some? && |BlockOut(b, out).value| <= cap
    requires Shows(s, ContentBits(b) + x)
    ensures var r := BlockContent(BlockType(b), s, out, cap);
      && (r.Some? ==> r.value.1 == BlockOut(b, out).value)
      && Exactly(s, ContentBits(b), ContentReads(b), x, LeftOf(r))
  {
    match b
    case Stored(_, _) =>
      StoredBlockExact(s, b, out, cap, x);
    case Fixed(ts) =>
      FixedBlockExact(ts, s, out, cap, x);
    case Dynamic(h, ts) =>
      DynamicBlockExact(h, ts, s, out, cap, x);
  }

  lemma FixedBlockExact(ts: seq<Token>, s: Src, out: seq<byte>, cap: nat, x: seq<bool>)
    requires |s.buf| < 32 && |out| <= cap && BodyOk(ts, FixedLit(), FixedDist())
    requires TokensOut(ts, out).Some? && |TokensOut(ts, out).value| <= cap
    requires Shows(s, BodyBits(ts, FixedLit(), FixedDist()) + x)
    ensures var r := BlockContent(1, s, out, cap);
      && (r.Some? ==> r.value.1 == TokensOut(ts, out).value)
      && Exactly(s, BodyBits(ts, FixedLit(), FixedDist()), BodyReads(ts, FixedLit(), FixedDist()), x, LeftOf(r))
  {
    FixedAreCodes();
    TokensGrow(ts, out);
    HuffmanBlockExact(s, FixedLit(), FixedDist(), out, cap, ts, x);
    var w, rs := BodyBits(ts, FixedLit(), FixedDist()), BodyReads(ts, FixedLit(), FixedDist());
    ExactlySame(s, w, rs, x, LeftOf(HuffmanBlock(s, FixedLit(), FixedDist(), out, cap)),
      w, rs, LeftOf(BlockContent(1, s, out, cap)));
  }

  lemma DynamicBlockExact(h: Header, ts: seq<Token>, s: Src, out: seq<byte>, cap: nat, x: seq<bool>)
    requires |s.buf| < 32 && |out| <= cap && HeaderOk(h) && BodyOk(ts, LitLens(h), DistLens(h))
    requires TokensOut(ts, out).Some? && |TokensOut(ts, out).value| <= cap
    requires Shows(s, HeaderBits(h) + BodyBits(ts, LitLens(h), DistLens(h)) + x)
    ensures var r := BlockContent(2, s, out, cap);
      && (r.Some? ==> r.value.1 == TokensOut(ts, out).value)
      && Exactly(s, HeaderBits(h) + BodyBits(ts, LitLens(h), DistLens(h)),
           HeaderReads(h) + BodyReads(ts, LitLens(h), DistLens(h)), x, LeftOf(r))
  {
    var ll, dl := LitLens(h), DistLens(h);
    var w := BodyBits(ts, ll, dl);
    Assoc(HeaderBits(h), w, x);
    DynamicTablesExact(s, h, w + x);
    TokensGrow(ts, out);
    var d := DynamicTables(s);
    if d.Some? {
      HuffmanBlockExact(d.value.0, ll, dl, out, cap, ts, x);
    }
    ExactlyBoth(s, HeaderBits(h), HeaderReads(h), LeftOfTables(d), w, BodyReads(ts, ll, dl), x,
      LeftOf(BlockContent(2, s, out, cap)));
  }

  lemma BlockContentCap(kind: nat, s: Src, out: seq<byte>, small: nat, large: nat)
    requires |s.buf| < 32 && |out| <= small <= large
    ensures var a, b := BlockContent(kind, s, out, small), BlockContent(kind, s, out, large);
      a == if b.Some? && |b.value.1| <= small then b else None
  {
    if kind == 1 {
      FixedAreCodes();
      HuffmanBlockCap(s, FixedLit(), FixedDist(), out, small, large);
    } else if kind == 2 {
      var d := DynamicTables(s);
      if d.Some? {
        HuffmanBlockCap(d.value.0, d.value.1, d.value.2, out, small, large);
      }
    }
  }
}
