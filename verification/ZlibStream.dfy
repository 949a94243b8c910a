/** Whole zlib streams: the round trip, and what happens to a stream that is cut off. */
module ZlibStream {
  import opened Bits
  import opened Options
  import opened Source
  import opened Deflate
  import opened InflateStream
  import opened Inflate

  function Zeros(n: nat): (r: seq<bool>)
    ensures |r| == n
    ensures forall i :: 0 <= i < n ==> !r[i]
  {
    if n == 0 then [] else [false] + Zeros(n - 1)
  }

  /** The bits that fill up the last byte. */
  function FillBits(n: nat): (r: seq<bool>)
    ensures (n + |r|) % 8 == 0 && |r| < 8
  {
    Zeros((8 - n % 8) % 8)
  }

  function Packed(w: seq<bool>): seq<byte> {
    var b := w + FillBits(|w|);
    BitsBytes(b)
  }

  lemma PackedBits(w: seq<bool>, trailer: seq<byte>)
    ensures BytesBits(Packed(w) + trailer) == w + (FillBits(|w|) + BytesBits(trailer))
  {
    BytesOfBits(w + FillBits(|w|));
    BytesBitsAppend(Packed(w), trailer);
    Assoc(w, FillBits(|w|), BytesBits(trailer));
  }

  /** A zlib stream around `bs`: a header, the packed blocks, and a trailer. */
  function ZlibBytes(bs: seq<Block>, trailer: seq<byte>): seq<byte>
    requires BlocksOk(bs)
  {
    [0x78, 0x9c] + (Packed(BlocksBits(bs)) + trailer)
  }

  lemma StreamHeader(body: seq<byte>)
    requires |body| > 0
    ensures GoodHeader([0x78, 0x9c] + body) && ([0x78, 0x9c] + body)[2..] == body
  {
  }

  /** Round trip: packing any well-formed blocks and adding a checksum (four bytes in section
      2.2 of RFC 1950; two are enough here) gives a zlib stream that decodes to what the
      blocks stand for. */
  lemma RoundTrip(bs: seq<Block>, trailer: seq<byte>, cap: nat)
    requires BlocksOk(bs) && BlocksAligned(bs, 0) && |trailer| >= 2
    requires BlocksOut(bs, []).Some? && |BlocksOut(bs, []).value| <= cap
    ensures Decoded(ZlibBytes(bs, trailer), cap, true) == BlocksOut(bs, [])
  {
    var w := BlocksBits(bs);
    var body := Packed(w) + trailer;
    StreamHeader(body);
    PackedBits(w, trailer);
    DecodeComplete(ZlibBytes(bs, trailer), cap, true, bs, FillBits(|w|) + BytesBits(trailer));
  }

  // ----- streams that are cut off

  lemma ShowsPacked(w: seq<bool>, trailer: seq<byte>)
    ensures Shows(Src([], Packed(w) + trailer), w)
  {
    PackedBits(w, trailer);
    assert Stream(Src([], Packed(w) + trailer)) == w + (FillBits(|w|) + BytesBits(trailer));
  }

  lemma CutBits(data: seq<byte>, n: nat)
    requires n <= |data|
    ensures Stream(Src([], data[..n])) == BytesBits(data)[..8 * n]
  {
    BytesBitsAppend(data[..n], data[n..]);
    assert data == data[..n] + data[n..];
    FirstPart(BytesBits(data[..n]), BytesBits(data[n..]));
  }

  lemma FirstPart(a: seq<bool>, b: seq<bool>)
    ensures (a + b)[..|a|] == a == [] + a
  {
  }

  /** The bits of `w` from the first `n` bytes on are all zero. */
  predicate ZerosFrom(w: seq<bool>, n: nat) {
    forall i :: 8 * n <= i < |w| ==> !w[i]
  }

  /** A well-formed stream with anything behind it is cut off after `n` bytes.  It is still read as
      itself exactly if the bits it lost are all zero and `n` bytes are enough for its reads; if
      the lost bits are zero and `n` bytes are not enough, it is refused. */
  lemma CutStream(input: seq<byte>, cap: nat, parseHeader: bool, bs: seq<Block>, trailer: seq<byte>, n: nat)
    requires BlocksOk(bs) && BlocksAligned(bs, 0) && BlocksOut(bs, []).Some?
    requires |BlocksOut(bs, []).value| <= cap && n <= |Packed(BlocksBits(bs)) + trailer|
    requires parseHeader ==> GoodHeader(input)
    requires Payload(input, parseHeader) == (Packed(BlocksBits(bs)) + trailer)[..n]
    ensures ReadAs(Payload(input, parseHeader), bs, BlocksOut(bs, []).value) <==>
      ZerosFrom(BlocksBits(bs), n) && Fed(n, bs)
    ensures ZerosFrom(BlocksBits(bs), n) ==>
      Decoded(input, cap, parseHeader) == if Fed(n, bs) then BlocksOut(bs, []) else None
  {
    var w, data := BlocksBits(bs), Packed(BlocksBits(bs)) + trailer;
    CutShows(w, trailer, n);
    if Shows(Src([], data[..n]), w) {
      DecodeExact(input, cap, parseHeader, bs);
    }
  }

  lemma CutShows(w: seq<bool>, trailer: seq<byte>, n: nat)
    requires n <= |Packed(w) + trailer|
    ensures Shows(Src([], (Packed(w) + trailer)[..n]), w) <==> ZerosFrom(w, n)
  {
    var data := Packed(w) + trailer;
    ShowsPacked(w, trailer);
    CutBits(data, n);
    var s := Src([], data[..n]);
    forall i | 0 <= i < |w|
      ensures w[i] == BitAt(Stream(s), i) <==> i < 8 * n || !w[i]
    {
      assert w[i] == BitAt(BytesBits(data), i);
    }
  }
}
