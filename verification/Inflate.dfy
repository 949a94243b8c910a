/** The whole decoder on values: it terminates, accepts exactly the (zero-extended) DEFLATE streams
    for which there is enough input, and its output limit only cuts off results that are too long.

    Soundness goes from the reads of a decoder that succeeds to the grammar of `Deflate`;
    completeness goes from the bits of a stream to the reads, and says which of them starve. */
module Inflate {
  import opened Bits
  import opened Options
  import opened Source
  import opened Deflate
  import opened InflateBlock
  import opened InflateStream

  // ----- termination: the last 1 bit of the input

  /** One past the last 1 bit.  Zero padding does not change it. */
  function Significant(b: seq<bool>): (r: nat)
    ensures r <= |b|
    ensures r > 0 ==> b[r - 1]
    ensures forall i :: r <= i < |b| ==> !b[i]
  {
    if b == [] then 0
    else if b[|b| - 1] then |b|
    else Significant(b[..|b| - 1])
  }

  lemma SignificantZeroExt(a: seq<bool>, b: seq<bool>)
    requires ZeroExt(a, b)
    ensures Significant(a) == Significant(b)
  {
    SignificantUnique(b, Significant(a));
  }

  lemma SignificantUnique(b: seq<bool>, r: nat)
    requires r <= |b| && (r > 0 ==> b[r - 1])
    requires forall i :: r <= i < |b| ==> !b[i]
    ensures Significant(b) == r
  {
  }

  /** Consuming bits that are not all zero moves strictly closer to the last 1 bit. */
  lemma SignificantDrops(s: Src, w: seq<bool>, t: Src, i: nat)
    requires Consumes(s, w, t) && i < |w| && w[i]
    ensures Significant(Stream(t)) < Significant(Stream(s))
  {
    var y := w + Stream(t);
    SignificantZeroExt(Stream(s), y);
    var k := Significant(Stream(t));
    assert y[i];
    if k > 0 {
      assert y[|w| + k - 1] == Stream(t)[k - 1];
    }
  }

  lemma {:induction false} NonZeroHasBit(v: nat, n: nat) returns (i: nat)
    requires 0 < v < Pow2(n)
    ensures i < n && ToBits(v, n)[i]
  {
    if v % 2 == 1 {
      i := 0;
    } else {
      var j := NonZeroHasBit(v / 2, n - 1);
      i := j + 1;
    }
  }

  /** The bits of a block are never all zero: the type is 1 or 2, or LEN and NLEN differ. */
  lemma BlockBitsHasOne(b: Block, last: bool) returns (i: nat)
    requires BlockOk(b)
    ensures i < |BlockBits(b, last)| && BlockBits(b, last)[i]
  {
    var j := PartsHaveOne(b, last);
    i := PlaceInAppend([last] + ToBits(BlockType(b), 2), ContentBits(b), j);
  }

  lemma PartsHaveOne(b: Block, last: bool) returns (i: nat)
    requires BlockOk(b)
    ensures var head := [last] + ToBits(BlockType(b), 2);
      i < |head| + |ContentBits(b)| && if i < |head| then head[i] else ContentBits(b)[i - |head|]
  {
    if b.Stored? {
      var j := ContentHasOne(b);
      i := 3 + j;
    } else {
      i := TypeHasOne(BlockType(b), last);
    }
  }

  lemma TypeHasOne(kind: nat, last: bool) returns (i: nat)
    requires 0 < kind < 4
    ensures i < 3 && ([last] + ToBits(kind, 2))[i]
  {
    assert Pow2(2) == 4;
    var j := NonZeroHasBit(kind, 2);
    i := 1 + j;
  }

  lemma PlaceInAppend(a: seq<bool>, b: seq<bool>, i: nat) returns (k: nat)
    requires i < |a| + |b|
    ensures k == i && (a + b)[k] == if i < |a| then a[i] else b[i - |a|]
  {
    k := i;
  }

  lemma ContentHasOne(b: Block) returns (i: nat)
    requires b.Stored? && BlockOk(b)
    ensures i < |ContentBits(b)| && ContentBits(b)[i]
  {
    var j := StoredHeaderHasOne(|b.data|);
    i := |b.pad| + j;
    Assoc(b.pad, BytesBits(StoredHeader(|b.data|)), BytesBits(b.data));
  }

  lemma StoredHeaderHasOne(len: nat) returns (i: nat)
    requires len < 0x1_0000
    ensures i < 32 && BytesBits(StoredHeader(len))[i]
  {
    var h := StoredHeader(len);
    var a, b := h[..2], h[2..];
    BytesBitsAppend(a, b);
    assert h == a + b;
    Pow2Small();
    if h[0] > 0 {
      i := NonZeroHasBit(h[0], 8);
    } else {
      assert b[0] > 0;
      var j := NonZeroHasBit(b[0], 8);
      i := 16 + j;
    }
  }

  // ----- one block with its three header bits

  function Flag(v: nat): bool {
    v == 1
  }

  lemma FlagBits(v: nat)
    requires v < 2
    ensures ToBits(v, 1) == [Flag(v)]
  {
  }

  lemma BlockHead(s: Src)
    requires |s.buf| <= 32
    ensures var (final, s1) := Receive(s, 1);
      var (kind, s2) := Receive(s1, 2);
      Consumes(s, [Flag(final)] + ToBits(kind, 2), s2) && |s2.buf| < 32
  {
    var (final, s1) := Receive(s, 1);
    var (kind, s2) := Receive(s1, 2);
    ReceiveConsumes(s, 1);
    ReceiveConsumes(s1, 2);
    assert Pow2(1) == 2;
    FlagBits(final);
    ConsumesTrans(s, [Flag(final)], s1, ToBits(kind, 2), s2);
  }

  /** How many bits past a byte boundary the reader stands: the input ends on a byte
      boundary, whether or not it has been extended by zero bytes. */
  function Phase(s: Src): (r: nat)
    ensures r < 8
  {
    (-|Stream(s)|) % 8
  }

  lemma PhaseAdvances(s: Src, w: seq<bool>, t: Src)
    requires Consumes(s, w, t)
    ensures Phase(t) == NextPhase(Phase(s), w)
  {
    AdvanceModulo(|Stream(s)|, |w|, |Stream(t)|);
  }

  lemma AdvanceModulo(a: int, w: int, b: int)
    requires (w + b - a) % 8 == 0
    ensures (-b) % 8 == ((-a) % 8 + w) % 8
  {
  }

  /** After the three header bits, the bits left before the byte boundary are the padding. */
  lemma PaddingLength(s: Src, w: seq<bool>, t: Src)
    requires Consumes(s, w, t) && |w| == 3
    ensures |t.buf| % 8 == PadLen(Phase(s))
  {
    PadModulo(|Stream(s)|, |Stream(t)|);
    TailModulo(|t.buf|, |t.rest|);
  }

  lemma PaddingAfterHead(s: Src)
    requires |s.buf| <= 32
    ensures var s2 := Receive(Receive(s, 1).1, 2).1;
      |s2.buf| < 32 && |s2.buf| % 8 == PadLen(Phase(s))
  {
    BlockHead(s);
    var (f, s1) := Receive(s, 1);
    var (kind, s2) := Receive(s1, 2);
    PaddingLength(s, [Flag(f)] + ToBits(kind, 2), s2);
  }

  lemma PadModulo(a: int, b: int)
    requires (3 + b - a) % 8 == 0
    ensures b % 8 == PadLen((-a) % 8)
  {
  }

  lemma TailModulo(a: nat, b: nat)
    ensures (a + 8 * b) % 8 == a % 8
  {
  }

  lemma OneBlockSound(s: Src, out: seq<byte>, cap: nat) returns (b: Block)
    requires |s.buf| <= 32 && |out| <= cap && OneBlock(s, out, cap).Some?
    ensures BlockOk(b) && Aligned(b, Phase(s))
    ensures BlockOut(b, out) == Some(OneBlock(s, out, cap).value.2)
    ensures Consumes(s, BlockBits(b, OneBlock(s, out, cap).value.0), OneBlock(s, out, cap).value.1)
  {
    var (f, s1) := Receive(s, 1);
    var (kind, s2) := Receive(s1, 2);
    var head := [Flag(f)] + ToBits(kind, 2);
    BlockHead(s);
    PaddingLength(s, head, s2);
    b := BlockContentSound(kind, s2, out, cap);
    ConsumesTrans(s, head, s2, ContentBits(b), BlockContent(kind, s2, out, cap).value.0);
  }

  /** Every accepted block brings the reader closer to the last 1 bit of the input; once only
      zeros are left, no block is accepted. */
  lemma OneBlockProgress(s: Src, out: seq<byte>, cap: nat)
    requires |s.buf| <= 32 && |out| <= cap && OneBlock(s, out, cap).Some?
    ensures Significant(Stream(OneBlock(s, out, cap).value.1)) < Significant(Stream(s))
  {
    var b := OneBlockSound(s, out, cap);
    var (final, t, r) := OneBlock(s, out, cap).value;
    var i := BlockBitsHasOne(b, final);
    SignificantDrops(s, BlockBits(b, final), t, i);
  }

  // ----- the whole stream

  /** The loop of `stbi__parse_zlib`, from any reader state and output. */
  ghost function Blocks(s: Src, out: seq<byte>, cap: nat): (r: Option<(Src, seq<byte>)>)
    requires |s.buf| <= 32 && |out| <= cap
    ensures r.Some? ==> |r.value.0.buf| <= 32 && |out| <= |r.value.1| <= cap
    decreases Significant(Stream(s))
  {
    var b := OneBlock(s, out, cap);
    if b.None? then None
    else
      var (final, t, r) := b.value;
      if final then Some((t, r))
      else
        OneBlockProgress(s, out, cap);
        Blocks(t, r, cap)
  }

  lemma BlocksStep(s: Src, out: seq<byte>, cap: nat, t: Src, r: seq<byte>)
    requires |s.buf| <= 32 && |out| <= cap && OneBlock(s, out, cap) == Some((false, t, r))
    ensures Blocks(s, out, cap) == Blocks(t, r, cap)
  {
    OneBlockProgress(s, out, cap);
  }

  lemma BlocksCons(b: Block, bs: seq<Block>, out: seq<byte>)
    requires BlockOk(b) && BlocksOk(bs) && BlockOut(b, out).Some?
    ensures BlocksOk([b] + bs)
    ensures BlocksBits([b] + bs) == BlockBits(b, false) + BlocksBits(bs)
    ensures BlocksOut([b] + bs, out) == BlocksOut(bs, BlockOut(b, out).value)
  {
    assert ([b] + bs)[1..] == bs;
  }

  lemma AlignedCons(b: Block, bs: seq<Block>, p: nat, q: nat)
    requires BlockOk(b) && BlocksOk(bs) && p < 8 && q == NextPhase(p, BlockBits(b, false))
    requires Aligned(b, p) && BlocksAligned(bs, q)
    ensures BlocksOk([b] + bs) && BlocksAligned([b] + bs, p)
  {
    var all := [b] + bs;
    assert all[1..] == bs && all[0] == b && |all| > 1;
  }

  /** Adding an accepted block in front of a stream that is sound from where it ends. */
  lemma BlocksSoundStep(s: Src, b: Block, t: Src, rest: seq<Block>, u: Src, out: seq<byte>)
    requires BlockOk(b) && BlocksOk(rest) && BlockOut(b, out).Some?
    requires Aligned(b, Phase(s)) && BlocksAligned(rest, Phase(t))
    requires Consumes(s, BlockBits(b, false), t) && Consumes(t, BlocksBits(rest), u)
    ensures BlocksOk([b] + rest) && BlocksAligned([b] + rest, Phase(s))
    ensures BlocksOut([b] + rest, out) == BlocksOut(rest, BlockOut(b, out).value)
    ensures Consumes(s, BlocksBits([b] + rest), u)
  {
    PhaseAdvances(s, BlockBits(b, false), t);
    BlocksCons(b, rest, out);
    AlignedCons(b, rest, Phase(s), Phase(t));
    ConsumesTrans(s, BlockBits(b, false), t, BlocksBits(rest), u);
  }

  lemma BlocksSingle(b: Block, p: nat, out: seq<byte>)
    requires BlockOk(b) && p < 8 && Aligned(b, p)
    ensures BlocksOk([b]) && BlocksAligned([b], p)
    ensures BlocksBits([b]) == BlockBits(b, true) && BlocksOut([b], out) == BlockOut(b, out)
  {
  }

  lemma {:induction false} BlocksSound(s: Src, out: seq<byte>, cap: nat) returns (bs: seq<Block>)
    requires |s.buf| <= 32 && |out| <= cap && Blocks(s, out, cap).Some?
    ensures BlocksOk(bs) && BlocksAligned(bs, Phase(s))
    ensures BlocksOut(bs, out) == Some(Blocks(s, out, cap).value.1)
    ensures Consumes(s, BlocksBits(bs), Blocks(s, out, cap).value.0)
    decreases Significant(Stream(s))
  {
    var (final, t, r) := OneBlock(s, out, cap).value;
    var b := OneBlockSound(s, out, cap);
    if final {
      BlocksSingle(b, Phase(s), out);
      bs := [b];
    } else {
      OneBlockProgress(s, out, cap);
      var rest := BlocksSound(t, r, cap);
      BlocksSoundStep(s, b, t, rest, Blocks(t, r, cap).value.0, out);
      bs := [b] + rest;
    }
  }

  lemma BlockGrows(b: Block, out: seq<byte>)
    requires BlockOk(b)
    ensures BlockOut(b, out).Some? ==> |BlockOut(b, out).value| >= |out|
  {
    match b
    case Stored(_, _) =>
    case Fixed(ts) => TokensGrow(ts, out);
    case Dynamic(_, ts) => TokensGrow(ts, out);
  }

  lemma {:induction false} BlocksGrow(bs: seq<Block>, out: seq<byte>)
    requires BlocksOk(bs)
    ensures BlocksOut(bs, out).Some? ==> |BlocksOut(bs, out).value| >= |out|
    decreases |bs|
  {
    BlockGrows(bs[0], out);
    if BlockOut(bs[0], out).Some? && |bs| > 1 {
      BlocksGrow(bs[1..], BlockOut(bs[0], out).value);
    }
  }

  lemma BlocksUncons(bs: seq<Block>, p: nat, out: seq<byte>)
    requires BlocksOk(bs) && |bs| > 1 && p < 8 && BlocksAligned(bs, p)
    ensures Aligned(bs[0], p) && BlocksOk(bs[1..])
    ensures BlocksAligned(bs[1..], NextPhase(p, BlockBits(bs[0], false)))
    ensures BlocksBits(bs) == BlockBits(bs[0], false) + BlocksBits(bs[1..])
  {
  }

  lemma BlocksOutUncons(bs: seq<Block>, out: seq<byte>)
    requires BlocksOk(bs) && |bs| > 1 && BlocksOut(bs, out).Some?
    ensures BlockOut(bs[0], out).Some?
    ensures BlocksOut(bs, out) == BlocksOut(bs[1..], BlockOut(bs[0], out).value)
    ensures |out| <= |BlockOut(bs[0], out).value| <= |BlocksOut(bs, out).value|
  {
    BlockGrows(bs[0], out);
    BlocksGrow(bs[1..], BlockOut(bs[0], out).value);
  }

  // ----- a stream that comes next is read exactly if there is enough input

  const HEAD_READS: seq<Read> := [Number(1)] + [Number(2)]

  /** The reads of one block, and of a whole stream. */
  function BlockReads(b: Block): seq<Read>
    requires BlockOk(b)
  {
    HEAD_READS + ContentReads(b)
  }

  function BlocksReads(bs: seq<Block>): seq<Read>
    requires BlocksOk(bs)
  {
    if |bs| == 1 then BlockReads(bs[0]) else BlockReads(bs[0]) + BlocksReads(bs[1..])
  }

  lemma BlockHeadReads(s: Src, last: bool, kind: nat, x: seq<bool>)
    requires |s.buf| <= 32 && kind < 4
    requires Shows(s, [last] + ToBits(kind, 2) + x)
    ensures var (f, s1) := Receive(s, 1);
      var (k, s2) := Receive(s1, 2);
      Flag(f) == last && k == kind && Exactly(s, [last] + ToBits(kind, 2), HEAD_READS, x, Some(s2))
  {
    assert Pow2(1) == 2 && Pow2(2) == 4;
    FlagBits(Bit(last));
    Assoc([last], ToBits(kind, 2), x);
    ReceiveReads(s, 1, Bit(last), ToBits(kind, 2) + x);
    var s1 := Receive(s, 1).1;
    ReceiveReads(s1, 2, kind, x);
    ExactlyBoth(s, [last], [Number(1)], Some(s1), ToBits(kind, 2), [Number(2)], x, Some(Receive(s1, 2).1));
  }

  function LeftOfBlock(r: Option<(bool, Src, seq<byte>)>): Option<Src> {
    if r.None? then None else Some(r.value.1)
  }

  lemma OneBlockIs(s: Src, out: seq<byte>, cap: nat)
    requires |s.buf| <= 32 && |out| <= cap
    ensures var (f, s1) := Receive(s, 1);
      var (kind, s2) := Receive(s1, 2);
      var r := OneBlock(s, out, cap);
      && |s2.buf| < 32 && LeftOfBlock(r) == LeftOf(BlockContent(kind, s2, out, cap))
      && (r.Some? ==> r.value.0 == Flag(f) && r.value.2 == BlockContent(kind, s2, out, cap).value.1)
  {
  }

  lemma OneBlockExact(b: Block, last: bool, s: Src, out: seq<byte>, cap: nat, x: seq<bool>)
    requires |s.buf| <= 32 && |out| <= cap && BlockOk(b) && Aligned(b, Phase(s))
    requires BlockOut(b, out).Some? && |BlockOut(b, out).value| <= cap
    requires Shows(s, BlockBits(b, last) + x)
    ensures var r := OneBlock(s, out, cap);
      && (r.Some? ==> r.value.0 == last && r.value.2 == BlockOut(b, out).value)
      && Exactly(s, BlockBits(b, last), BlockReads(b), x, LeftOfBlock(r))
  {
    var (f, s1) := Receive(s, 1);
    var (kind, s2) := Receive(s1, 2);
    var head := [last] + ToBits(BlockType(b), 2);
    Assoc(head, ContentBits(b), x);
    BlockHeadReads(s, last, BlockType(b), ContentBits(b) + x);
    PaddingAfterHead(s);
    BlockContentExact(b, s2, out, cap, x);
    ExactlyWhole(s, head, HEAD_READS, Some(s2), ContentBits(b), ContentReads(b), x,
      LeftOf(BlockContent(BlockType(b), s2, out, cap)), BlockBits(b, last), BlockReads(b));
    OneBlockIs(s, out, cap);
  }

  /** A block that is not the last: where it ends, if there is enough input for it. */
  lemma HeadExact(b: Block, s: Src, out: seq<byte>, cap: nat, y: seq<bool>) returns (t: Option<Src>)
    requires |s.buf| <= 32 && |out| <= cap && BlockOk(b) && Aligned(b, Phase(s))
    requires BlockOut(b, out).Some? && |out| <= |BlockOut(b, out).value| <= cap
    requires Shows(s, BlockBits(b, false) + y)
    ensures Exactly(s, BlockBits(b, false), BlockReads(b), y, t)
    ensures t.None? ==> Blocks(s, out, cap).None?
    ensures t.Some? ==>
      && |t.value.buf| <= 32 && Phase(t.value) == NextPhase(Phase(s), BlockBits(b, false))
      && Blocks(s, out, cap) == Blocks(t.value, BlockOut(b, out).value, cap)
  {
    OneBlockExact(b, false, s, out, cap, y);
    t := LeftOfBlock(OneBlock(s, out, cap));
    if t.Some? {
      PhaseAdvances(s, BlockBits(b, false), t.value);
      BlocksStep(s, out, cap, t.value, BlockOut(b, out).value);
    }
  }

  lemma LastExact(bs: seq<Block>, s: Src, out: seq<byte>, cap: nat, x: seq<bool>)
    requires |s.buf| <= 32 && |out| <= cap && BlocksOk(bs) && |bs| == 1 && Aligned(bs[0], Phase(s))
    requires BlocksOut(bs, out).Some? && |BlocksOut(bs, out).value| <= cap
    requires Shows(s, BlocksBits(bs) + x)
    ensures Blocks(s, out, cap).Some? ==> Blocks(s, out, cap).value.1 == BlocksOut(bs, out).value
    ensures Exactly(s, BlocksBits(bs), BlocksReads(bs), x, LeftOf(Blocks(s, out, cap)))
  {
    OneBlockExact(bs[0], true, s, out, cap, x);
    assert LeftOfBlock(OneBlock(s, out, cap)) == LeftOf(Blocks(s, out, cap));
  }

  lemma ReadsUncons(bs: seq<Block>)
    requires BlocksOk(bs) && |bs| > 1
    ensures BlocksReads(bs) == BlockReads(bs[0]) + BlocksReads(bs[1..])
  {
  }

  /** Completeness, exactly: a well-formed stream that comes next is decoded to what it stands for
      if there is enough input, and refused if not. */
  lemma {:induction false} BlocksExact(bs: seq<Block>, s: Src, out: seq<byte>, cap: nat, x: seq<bool>)
    requires |s.buf| <= 32 && |out| <= cap && BlocksOk(bs) && BlocksAligned(bs, Phase(s))
    requires BlocksOut(bs, out).Some? && |BlocksOut(bs, out).value| <= cap
    requires Shows(s, BlocksBits(bs) + x)
    ensures Blocks(s, out, cap).Some? ==> Blocks(s, out, cap).value.1 == BlocksOut(bs, out).value
    ensures Exactly(s, BlocksBits(bs), BlocksReads(bs), x, LeftOf(Blocks(s, out, cap)))
    decreases |bs|
  {
    if |bs| == 1 {
      LastExact(bs, s, out, cap, x);
    } else {
      var t := FirstExact(bs, s, out, cap, x);
      if t.Some? {
        BlocksExact(bs[1..], t.value, BlockOut(bs[0], out).value, cap, x);
      }
      ReadsUncons(bs);
      ExactlyWhole(s, BlockBits(bs[0], false), BlockReads(bs[0]), t, BlocksBits(bs[1..]), BlocksReads(bs[1..]), x,
        LeftOf(Blocks(s, out, cap)), BlocksBits(bs), BlocksReads(bs));
    }
  }

  /** A stream of several blocks: where the first ends, with the others behind it. */
  lemma FirstExact(bs: seq<Block>, s: Src, out: seq<byte>, cap: nat, x: seq<bool>) returns (t: Option<Src>)
    requires |s.buf| <= 32 && |out| <= cap && BlocksOk(bs) && |bs| > 1 && BlocksAligned(bs, Phase(s))
    requires BlocksOut(bs, out).Some? && |BlocksOut(bs, out).value| <= cap
    requires Shows(s, BlocksBits(bs) + x)
    ensures BlocksOk(bs[1..]) && BlocksBits(bs) == BlockBits(bs[0], false) + BlocksBits(bs[1..])
    ensures Exactly(s, BlockBits(bs[0], false), BlockReads(bs[0]), BlocksBits(bs[1..]) + x, t)
    ensures BlockOut(bs[0], out).Some? && |BlockOut(bs[0], out).value| <= cap
    ensures BlocksOut(bs[1..], BlockOut(bs[0], out).value) == BlocksOut(bs, out)
    ensures t.None? ==> Blocks(s, out, cap).None?
    ensures t.Some? ==>
      && |t.value.buf| <= 32 && BlocksAligned(bs[1..], Phase(t.value))
      && Blocks(s, out, cap) == Blocks(t.value, BlockOut(bs[0], out).value, cap)
  {
    BlocksUncons(bs, Phase(s), out);
    Assoc(BlockBits(bs[0], false), BlocksBits(bs[1..]), x);
    BlocksOutUncons(bs, out);
    t := HeadExact(bs[0], s, out, cap, BlocksBits(bs[1..]) + x);
  }

  lemma OneBlockCap(s: Src, out: seq<byte>, small: nat, large: nat)
    requires |s.buf| <= 32 && |out| <= small <= large
    ensures var a, b := OneBlock(s, out, small), OneBlock(s, out, large);
      a == if b.Some? && |b.value.2| <= small then b else None
  {
    var s1 := Receive(s, 1).1;
    var (kind, s2) := Receive(s1, 2);
    BlockContentCap(kind, s2, out, small, large);
  }

  /** A smaller output limit gives the same result if the result fits, and failure if not. */
  lemma {:induction false} BlocksCap(s: Src, out: seq<byte>, small: nat, large: nat)
    requires |s.buf| <= 32 && |out| <= small <= large
    ensures var a, b := Blocks(s, out, small), Blocks(s, out, large);
      a == if b.Some? && |b.value.1| <= small then b else None
    decreases Significant(Stream(s))
  {
    OneBlockCap(s, out, small, large);
    var b := OneBlock(s, out, large);
    if b.Some? && !b.value.0 {
      OneBlockProgress(s, out, large);
      if |b.value.2| <= small {
        BlocksCap(b.value.1, b.value.2, small, large);
      }
    }
  }

  // ----- main theorems

  /** The zlib header test (RFC 1950, section 2.2): at least one more byte, check bits, no
      preset dictionary, method 8. */
  predicate GoodHeader(input: seq<byte>) {
    && |input| > 2
    && (input[0] as int * 256 + input[1] as int) % 31 == 0
    && input[1] / 32 % 2 == 0
    && input[0] % 16 == 8
  }

  /** The bytes behind the zlib header, if there is one. */
  function Payload(input: seq<byte>, parseHeader: bool): seq<byte>
    requires parseHeader ==> GoodHeader(input)
  {
    if parseHeader then input[2..] else input
  }

  /** `stbi__do_zlib` from a fresh state: the decoded bytes, if any. */
  ghost function Decoded(input: seq<byte>, cap: nat, parseHeader: bool): (r: Option<seq<byte>>)
    ensures r.Some? ==> |r.value| <= cap
  {
    if parseHeader && !GoodHeader(input) then None
    else
      var r := Blocks(Src([], Payload(input, parseHeader)), [], cap);
      if r.None? then None else Some(r.value.1)
  }

  lemma FreshSource(data: seq<byte>)
    ensures Stream(Src([], data)) == BytesBits(data) && Phase(Src([], data)) == 0
  {
  }

  /** Soundness: whatever the decoder accepts begins with the bits of a DEFLATE stream (if need
      be, after adding zeros at its end), and the result is what that stream stands for. */
  lemma DecodeSound(input: seq<byte>, cap: nat, parseHeader: bool) returns (bs: seq<Block>, x: seq<bool>)
    requires Decoded(input, cap, parseHeader).Some?
    ensures parseHeader ==> GoodHeader(input)
    ensures BlocksOk(bs) && BlocksAligned(bs, 0)
    ensures BlocksOut(bs, []) == Some(Decoded(input, cap, parseHeader).value)
    ensures ZeroExt(BytesBits(Payload(input, parseHeader)), BlocksBits(bs) + x)
  {
    var data := Payload(input, parseHeader);
    FreshSource(data);
    bs := BlocksSound(Src([], data), [], cap);
    x := Stream(Blocks(Src([], data), [], cap).value.0);
  }

  /** The output limit never changes the bytes: decoding under a limit succeeds exactly when
      decoding under a larger one succeeds with a result that fits. */
  lemma DecodeCap(input: seq<byte>, parseHeader: bool, small: nat, large: nat)
    requires small <= large
    ensures var a, b := Decoded(input, small, parseHeader), Decoded(input, large, parseHeader);
      a == if b.Some? && |b.value| <= small then b else None
  {
    if !parseHeader || GoodHeader(input) {
      BlocksCap(Src([], Payload(input, parseHeader)), [], small, large);
    }
  }

  /** `n` bytes of input are enough for the stream `bs`, decided from the sizes of its reads: no
      symbol is asked for with fewer than 16 bits buffered and no byte left, and no stored data
      is missing. */
  predicate Fed(n: nat, bs: seq<Block>)
    requires BlocksOk(bs)
  {
    TakeAll(Shape(0, n), BlocksReads(bs)).Some?
  }

  /** Completeness, exactly: if the input, read with zeros past its end, begins with the bits of a
      DEFLATE stream, then it decodes to what the stream stands for if it is long enough for its
      reads and the result fits, and is refused otherwise. */
  lemma DecodeExact(input: seq<byte>, cap: nat, parseHeader: bool, bs: seq<Block>)
    requires parseHeader ==> GoodHeader(input)
    requires BlocksOk(bs) && BlocksAligned(bs, 0) && BlocksOut(bs, []).Some?
    requires Shows(Src([], Payload(input, parseHeader)), BlocksBits(bs))
    ensures var data := Payload(input, parseHeader);
      && Decoded(input, cap, parseHeader)
           == (if Fed(|data|, bs) && |BlocksOut(bs, []).value| <= cap then BlocksOut(bs, []) else None)
      && (|BlocksBits(bs)| + 16 <= 8 * |data| ==> Fed(|data|, bs))
  {
    var data := Payload(input, parseHeader);
    var r := BlocksOut(bs, []).value;
    FreshSource(data);
    assert BlocksBits(bs) + [] == BlocksBits(bs);
    BlocksExact(bs, Src([], data), [], |r|, []);
    if cap <= |r| {
      DecodeCap(input, parseHeader, cap, |r|);
    } else {
      DecodeCap(input, parseHeader, |r|, cap);
      BlocksExact(bs, Src([], data), [], cap, []);
    }
  }

  /** `data` is read as the stream `bs`, which stands for `r`: its bits, with zeros past their
      end, begin with those of `bs`, and it is long enough for the reads of `bs`. */
  ghost predicate ReadAs(data: seq<byte>, bs: seq<Block>, r: seq<byte>) {
    && BlocksOk(bs) && BlocksAligned(bs, 0) && BlocksOut(bs, []) == Some(r)
    && Shows(Src([], data), BlocksBits(bs)) && Fed(|data|, bs)
  }

  /** What the decoder accepts, exactly. */
  lemma AcceptedExactly(input: seq<byte>, cap: nat, parseHeader: bool, r: seq<byte>)
    ensures Decoded(input, cap, parseHeader) == Some(r) <==>
      && (parseHeader ==> GoodHeader(input)) && |r| <= cap
      && exists bs :: ReadAs(Payload(input, parseHeader), bs, r)
  {
    if !parseHeader || GoodHeader(input) {
      var data := Payload(input, parseHeader);
      if Decoded(input, cap, parseHeader) == Some(r) {
        var bs, x := DecodeSound(input, cap, parseHeader);
        FreshSource(data);
        ShowsZeroExt(Src([], data), BlocksBits(bs), x);
        DecodeExact(input, cap, parseHeader, bs);
        assert ReadAs(data, bs, r);
      }
      if bs :| ReadAs(data, bs, r) {
        DecodeExact(input, cap, parseHeader, bs);
      }
    }
  }

  lemma ShowsZeroExt(s: Src, w: seq<bool>, x: seq<bool>)
    requires ZeroExt(Stream(s), w + x)
    ensures Shows(s, w)
  {
    forall i | 0 <= i < |w|
      ensures w[i] == BitAt(Stream(s), i)
    {
      BitAtZeroExt(Stream(s), w + x, i);
    }
  }

  /** Completeness: every DEFLATE stream with at least two bytes of anything behind it, as the
      checksum of a zlib stream is, decodes to what it stands for, if that fits. */
  lemma DecodeComplete(input: seq<byte>, cap: nat, parseHeader: bool, bs: seq<Block>, x: seq<bool>)
    requires parseHeader ==> GoodHeader(input)
    requires BlocksOk(bs) && BlocksAligned(bs, 0)
    requires BytesBits(Payload(input, parseHeader)) == BlocksBits(bs) + x && |x| >= 16
    requires BlocksOut(bs, []).Some? && |BlocksOut(bs, []).value| <= cap
    ensures Decoded(input, cap, parseHeader) == BlocksOut(bs, [])
  {
    FreshSource(Payload(input, parseHeader));
    DecodeExact(input, cap, parseHeader, bs);
  }
}
