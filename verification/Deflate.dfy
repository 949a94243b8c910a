/** The DEFLATE format of RFC 1951 as a syntax: what streams contain, their bits, and the bytes they stand for. */
module Deflate {
  import opened Bits
  import opened BitNumbers
  import opened Canonical
  import opened Options

  // ----- length and distance codes (section 3.2.5)

  const LENGTH_BASE: seq<nat> := [
    3, 4, 5, 6, 7, 8, 9, 10, 11, 13, 15, 17, 19, 23, 27, 31, 35, 43, 51, 59,
    67, 83, 99, 115, 131, 163, 195, 227, 258]
  const LENGTH_EXTRA: seq<nat> := [
    0, 0, 0, 0, 0, 0, 0, 0, 1, 1, 1, 1, 2, 2, 2, 2, 3, 3, 3, 3, 4, 4, 4, 4, 5, 5, 5, 5, 0]
  const DIST_BASE: seq<nat> := [
    1, 2, 3, 4, 5, 7, 9, 13, 17, 25, 33, 49, 65, 97, 129, 193, 257, 385, 513, 769,
    1025, 1537, 2049, 3073, 4097, 6145, 8193, 12289, 16385, 24577]
  const DIST_EXTRA: seq<nat> := [
    0, 0, 0, 0, 1, 1, 2, 2, 3, 3, 4, 4, 5, 5, 6, 6, 7, 7, 8, 8, 9, 9, 10, 10,
    11, 11, 12, 12, 13, 13]

  const END_OF_BLOCK: nat := 256

  function LengthBase(z: nat): (r: nat)
    requires z < 29
    ensures 3 <= r <= 258
  {
    LENGTH_BASE[z]
  }

  function LengthExtra(z: nat): (r: nat)
    requires z < 29
    ensures r <= 5
  {
    LENGTH_EXTRA[z]
  }

  function DistBase(z: nat): (r: nat)
    requires z < 30
    ensures 1 <= r <= 24577
  {
    DIST_BASE[z]
  }

  function DistExtra(z: nat): (r: nat)
    requires z < 30
    ensures r <= 13
  {
    DIST_EXTRA[z]
  }

  /** A code with its extra bits covers the values up to the next code's base (the last length
      code, for 258 alone, doubles the last value of the code before it). */
  lemma LengthTiles(z: nat)
    requires z < 27
    ensures LengthBase(z + 1) == LengthBase(z) + Pow2(LengthExtra(z))
  {
    Pow2Small();
    assert Pow2(0) == 1;
  }

  lemma DistTiles(z: nat)
    requires z < 29
    ensures DistBase(z + 1) == DistBase(z) + Pow2(DistExtra(z))
  {
    Pow2Small();
    assert Pow2(0) == 1 && Pow2(10) == 1024 && Pow2(11) == 2048 && Pow2(12) == 4096;
  }

  /** Every length from 3 to 258 has a length code and extra bits. */
  lemma {:induction false} LengthCovered(len: nat, z: nat) returns (c: nat, x: nat)
    requires 3 <= len <= 258 && z < 28 && len >= LengthBase(z)
    ensures c < 29 && x < Pow2(LengthExtra(c)) && LengthBase(c) + x == len
    decreases 28 - z
  {
    Pow2Small();
    if len < LengthBase(z) + Pow2(LengthExtra(z)) {
      c, x := z, len - LengthBase(z);
    } else {
      LengthTiles(z);
      c, x := LengthCovered(len, z + 1);
    }
  }

  /** Every distance from 1 to 32768 has a distance code and extra bits. */
  lemma {:induction false} DistCovered(dist: nat, z: nat) returns (c: nat, x: nat)
    requires 1 <= dist <= 32768 && z < 30 && dist >= DistBase(z)
    ensures c < 30 && x < Pow2(DistExtra(c)) && DistBase(c) + x == dist
    decreases 30 - z
  {
    Pow2Small();
    if dist < DistBase(z) + Pow2(DistExtra(z)) {
      c, x := z, dist - DistBase(z);
    } else {
      DistTiles(z);
      c, x := DistCovered(dist, z + 1);
    }
  }

  lemma LengthLast()
    ensures LengthBase(27) + 31 == LengthBase(28) && Pow2(LengthExtra(27)) == 32
  {
    Pow2Small();
  }

  lemma {:induction false} LengthBefore(c: nat, d: nat)
    requires c < 27 && c < d < 29
    ensures LengthBase(c) + Pow2(LengthExtra(c)) <= LengthBase(d)
    decreases d
  {
    LengthTiles(c);
    if c + 1 < d {
      LengthBefore(c, d - 1);
      if d < 28 {
        LengthTiles(d - 1);
      } else {
        LengthLast();
      }
    }
  }

  /** A length is written in one way only, but for 258: beside its own symbol 285 it has symbol 284
      with extra value 31, which RFC 1951 does not allow and the decoder accepts. */
  lemma LengthUnique(c: nat, x: nat, d: nat, y: nat)
    requires c <= d < 29 && x < Pow2(LengthExtra(c)) && y < Pow2(LengthExtra(d))
    ensures LengthBase(c) + x == LengthBase(d) + y <==>
      (c == d && x == y) || (c == 284 - 257 && x == 31 && d == 285 - 257)
  {
    LengthLast();
    if c < d && c < 27 {
      LengthBefore(c, d);
    }
    assert d == 28 ==> Pow2(LengthExtra(d)) == 1;
  }

  lemma {:induction false} DistBefore(c: nat, d: nat)
    requires c < d < 30
    ensures DistBase(c) + Pow2(DistExtra(c)) <= DistBase(d)
    decreases d
  {
    DistTiles(c);
    if c + 1 < d {
      DistBefore(c, d - 1);
      DistTiles(d - 1);
    }
  }

  /** A distance is written in one way only. */
  lemma DistUnique(c: nat, x: nat, d: nat, y: nat)
    requires c < 30 && d < 30 && x < Pow2(DistExtra(c)) && y < Pow2(DistExtra(d))
    requires DistBase(c) + x == DistBase(d) + y
    ensures c == d && x == y
  {
    if c < d {
      DistBefore(c, d);
    } else if d < c {
      DistBefore(d, c);
    }
  }

  // ----- literals and matches

  /** A literal byte, or a match given by its length and distance symbols and extra bits. */
  datatype Token =
    | Literal(b: byte)
    | Match(lsym: nat, lextra: nat, dsym: nat, dextra: nat)

  predicate Used(lens: seq<nat>, i: nat) {
    i < |lens| && lens[i] > 0
  }

  /** The two codes have a codeword for every symbol of `t`. */
  predicate TokenOk(t: Token, ll: seq<nat>, dl: seq<nat>) {
    match t
    case Literal(b) => Used(ll, b)
    case Match(lsym, lextra, dsym, dextra) =>
      && 257 <= lsym < 286 && Used(ll, lsym) && lextra < Pow2(LengthExtra(lsym - 257))
      && dsym < 30 && Used(dl, dsym) && dextra < Pow2(DistExtra(dsym))
  }

  predicate TokensOk(ts: seq<Token>, ll: seq<nat>, dl: seq<nat>) {
    forall i :: 0 <= i < |ts| ==> TokenOk(ts[i], ll, dl)
  }

  function TokenBits(t: Token, ll: seq<nat>, dl: seq<nat>): seq<bool>
    requires TokenOk(t, ll, dl)
  {
    match t
    case Literal(b) => Codeword(ll, b)
    case Match(lsym, lextra, dsym, dextra) =>
      Codeword(ll, lsym) + ToBits(lextra, LengthExtra(lsym - 257))
      + Codeword(dl, dsym) + ToBits(dextra, DistExtra(dsym))
  }

  function TokensBits(ts: seq<Token>, ll: seq<nat>, dl: seq<nat>): seq<bool>
    requires TokensOk(ts, ll, dl)
  {
    if ts == [] then [] else TokenBits(ts[0], ll, dl) + TokensBits(ts[1..], ll, dl)
  }

  /** Append `len` bytes, each a copy of the byte `dist` back from the end as it then is. */
  function Copy(out: seq<byte>, dist: nat, len: nat): (r: seq<byte>)
    requires 1 <= dist <= |out|
    ensures |r| == |out| + len
    decreases len
  {
    if len == 0 then out else Copy(out + [out[|out| - dist]], dist, len - 1)
  }

  /** What `t` appends to the output; nothing if it reaches back before the start. */
  function TokenOut(t: Token, out: seq<byte>): Option<seq<byte>>
    requires t.Match? ==> 257 <= t.lsym < 286 && t.dsym < 30
  {
    match t
    case Literal(b) => Some(out + [b])
    case Match(lsym, lextra, dsym, dextra) =>
      var dist := DistBase(dsym) + dextra;
      if dist > |out| then None
      else Some(Copy(out, dist, LengthBase(lsym - 257) + lextra))
  }

  function TokensOut(ts: seq<Token>, out: seq<byte>): Option<seq<byte>>
    requires forall i :: 0 <= i < |ts| && ts[i].Match? ==> 257 <= ts[i].lsym < 286 && ts[i].dsym < 30
  {
    if ts == [] then Some(out)
    else
      var r := TokenOut(ts[0], out);
      if r.None? then None else TokensOut(ts[1..], r.value)
  }

  /** The LZ77 equation: what was there stays, and every new byte equals the byte `dist`
      before it, whether that one is old or itself part of the copy. */
  lemma {:induction false} CopyEquation(out: seq<byte>, dist: nat, len: nat)
    requires 1 <= dist <= |out|
    ensures out <= Copy(out, dist, len)
    ensures forall k :: |out| <= k < |out| + len ==> Copy(out, dist, len)[k] == Copy(out, dist, len)[k - dist]
    decreases len
  {
    if len > 0 {
      CopyEquation(out + [out[|out| - dist]], dist, len - 1);
    }
  }

  /** So a match longer than its distance repeats the last `dist` bytes. */
  lemma {:induction false} CopyPeriodic(out: seq<byte>, dist: nat, len: nat, k: nat)
    requires 1 <= dist <= |out| && k < len
    ensures Copy(out, dist, len)[|out| + k] == out[|out| - dist + k % dist]
  {
    CopyEquation(out, dist, len);
    if k < dist {
      ModUnique(k, dist, 0, k);
    } else {
      CopyPeriodic(out, dist, len, k - dist);
      ModUnique(k, dist, (k - dist) / dist + 1, (k - dist) % dist);
    }
  }

  // ----- code lengths of dynamic blocks (section 3.2.7)

  datatype ClOp =
    | ClLen(v: nat)        // a code length 0..15
    | ClRepeat(x: nat)     // 16: the previous length, 3 + x times
    | ClZeros3(x: nat)     // 17: length 0, 3 + x times
    | ClZeros7(x: nat)     // 18: length 0, 11 + x times

  function ClSym(op: ClOp): nat {
    match op
    case ClLen(v) => v
    case ClRepeat(_) => 16
    case ClZeros3(_) => 17
    case ClZeros7(_) => 18
  }

  function ClExtra(op: ClOp): nat {
    match op
    case ClLen(_) => 0
    case ClRepeat(x) => x
    case ClZeros3(x) => x
    case ClZeros7(x) => x
  }

  function ClExtraBits(op: ClOp): (r: nat)
    ensures r <= 7
  {
    match op
    case ClLen(_) => 0
    case ClRepeat(_) => 2
    case ClZeros3(_) => 3
    case ClZeros7(_) => 7
  }

  predicate ClOpOk(op: ClOp, cl: seq<nat>) {
    (op.ClLen? ==> op.v <= MAX_LEN) && Used(cl, ClSym(op)) && ClExtra(op) < Pow2(ClExtraBits(op))
  }

  predicate ClOpsOk(ops: seq<ClOp>, cl: seq<nat>) {
    forall i :: 0 <= i < |ops| ==> ClOpOk(ops[i], cl)
  }

  function ClOpBits(op: ClOp, cl: seq<nat>): seq<bool>
    requires ClOpOk(op, cl)
  {
    Codeword(cl, ClSym(op)) + ToBits(ClExtra(op), ClExtraBits(op))
  }

  function ClOpsBits(ops: seq<ClOp>, cl: seq<nat>): seq<bool>
    requires ClOpsOk(ops, cl)
  {
    if ops == [] then [] else ClOpBits(ops[0], cl) + ClOpsBits(ops[1..], cl)
  }

  function ClOpOut(op: ClOp, lens: seq<nat>): Option<seq<nat>> {
    match op
    case ClLen(v) => Some(lens + [v])
    case ClRepeat(x) => if lens == [] then None else Some(lens + Repeat(lens[|lens| - 1], 3 + x))
    case ClZeros3(x) => Some(lens + Repeat(0, 3 + x))
    case ClZeros7(x) => Some(lens + Repeat(0, 11 + x))
  }

  function ClOpsOut(ops: seq<ClOp>, lens: seq<nat>): Option<seq<nat>> {
    if ops == [] then Some(lens)
    else
      var r := ClOpOut(ops[0], lens);
      if r.None? then None else ClOpsOut(ops[1..], r.value)
  }

  const CL_ORDER: seq<nat> := [16, 17, 18, 0, 8, 7, 9, 6, 10, 5, 11, 4, 12, 3, 13, 2, 14, 1, 15]
  const CL_PLACE: seq<nat> := [3, 17, 15, 13, 11, 9, 7, 5, 4, 6, 8, 10, 12, 14, 16, 18, 0, 1, 2]

  /** The code lengths of the code length code, from the order they are written in. */
  function Dezigzag(vals: seq<nat>): (r: seq<nat>)
    ensures |r| == 19
  {
    seq(19, i requires 0 <= i < 19 => if CL_PLACE[i] < |vals| then vals[CL_PLACE[i]] else 0)
  }

  datatype Header = Header(hlit: nat, hdist: nat, clvals: seq<nat>, ops: seq<ClOp>)

  predicate HeaderOk(h: Header) {
    && 257 <= h.hlit <= 288 && 1 <= h.hdist <= 32 && 4 <= |h.clvals| <= 19
    && (forall i :: 0 <= i < |h.clvals| ==> h.clvals[i] < 8)
    && IsCode(Dezigzag(h.clvals)) && ClOpsOk(h.ops, Dezigzag(h.clvals))
    && var r := ClOpsOut(h.ops, []);
       r.Some? && |r.value| == h.hlit + h.hdist
       && IsCode(r.value[..h.hlit]) && IsCode(r.value[h.hlit..])
  }

  /** The literal/length code and the distance code that `h` describes. */
  function LitLens(h: Header): (r: seq<nat>)
    requires HeaderOk(h)
    ensures IsCode(r)
  {
    ClOpsOut(h.ops, []).value[..h.hlit]
  }

  function DistLens(h: Header): (r: seq<nat>)
    requires HeaderOk(h)
    ensures IsCode(r)
  {
    ClOpsOut(h.ops, []).value[h.hlit..]
  }

  function ValuesBits(vals: seq<nat>): seq<bool> {
    if vals == [] then [] else ToBits(vals[0], 3) + ValuesBits(vals[1..])
  }

  /** HLIT, HDIST, HCLEN and the code lengths of the code length code. */
  function PreambleBits(hlit: nat, hdist: nat, vals: seq<nat>): seq<bool>
    requires hlit >= 257 && hdist >= 1 && |vals| >= 4
  {
    ToBits(hlit - 257, 5) + ToBits(hdist - 1, 5) + ToBits(|vals| - 4, 4) + ValuesBits(vals)
  }

  function HeaderBits(h: Header): seq<bool>
    requires HeaderOk(h)
  {
    PreambleBits(h.hlit, h.hdist, h.clvals) + ClOpsBits(h.ops, Dezigzag(h.clvals))
  }

  // ----- fixed codes (section 3.2.6)

  function FixedLit(): seq<nat> {
    Repeat(8, 144) + Repeat(9, 112) + Repeat(7, 24) + Repeat(8, 8)
  }

  function FixedDist(): seq<nat> {
    Repeat(5, 32)
  }

  lemma {:induction false} KraftOfRun(lens: seq<nat>, v: nat, n: nat, w: nat)
    requires ValidLens(lens) && 1 <= v <= MAX_LEN && w == Pow2(MAX_LEN - v)
    ensures ValidLens(lens + Repeat(v, n))
    ensures KraftSum(lens + Repeat(v, n)) == KraftSum(lens) + n * w
  {
    if n == 0 {
      assert lens + Repeat(v, 0) == lens;
    } else {
      KraftOfRun(lens, v, n - 1, w);
      KraftOfLast(lens, v, n);
      MulStep(n, w);
    }
  }

  lemma KraftOfLast(lens: seq<nat>, v: nat, n: nat)
    requires ValidLens(lens) && 1 <= v <= MAX_LEN && n > 0
    ensures ValidLens(lens + Repeat(v, n)) && ValidLens(lens + Repeat(v, n - 1))
    ensures KraftSum(lens + Repeat(v, n)) == KraftSum(lens + Repeat(v, n - 1)) + Pow2(MAX_LEN - v)
  {
    var l := lens + Repeat(v, n);
    assert l[..|l| - 1] == lens + Repeat(v, n - 1);
  }

  lemma MulStep(n: nat, w: nat)
    requires n > 0
    ensures n * w == (n - 1) * w + w
  {
  }

  /** The fixed codes are codes, and the literal/length one uses the whole code space. */
  lemma FixedAreCodes()
    ensures IsCode(FixedLit()) && |FixedLit()| == 288
    ensures KraftSum(FixedLit()) == Pow2(MAX_LEN)
    ensures IsCode(FixedDist()) && |FixedDist()| == 32
  {
    Pow2Small();
    FixedLitKraft();
    KraftOfRun([], 5, 32, 1024) by { assert Pow2(10) == 1024; }
    assert [] + Repeat(5, 32) == Repeat(5, 32);
  }

  lemma FixedLitKraft()
    ensures ValidLens(FixedLit()) && KraftSum(FixedLit()) == 32768
  {
    var a := Repeat(8, 144);
    var b := a + Repeat(9, 112);
    var c := b + Repeat(7, 24);
    Pow2Small();
    KraftOfRun([], 8, 144, 128);
    assert [] + a == a;
    KraftOfRun(a, 9, 112, 64);
    KraftOfRun(b, 7, 24, 256);
    KraftOfRun(c, 8, 8, 128);
  }

  // ----- blocks (section 3.2.3)

  datatype Block =
    | Stored(pad: seq<bool>, data: seq<byte>)
    | Fixed(ftokens: seq<Token>)
    | Dynamic(header: Header, dtokens: seq<Token>)

  /** `toks` and the end-of-block symbol can be written with the two codes. */
  predicate BodyOk(toks: seq<Token>, ll: seq<nat>, dl: seq<nat>) {
    TokensOk(toks, ll, dl) && Used(ll, END_OF_BLOCK)
  }

  function BodyBits(toks: seq<Token>, ll: seq<nat>, dl: seq<nat>): seq<bool>
    requires BodyOk(toks, ll, dl)
  {
    TokensBits(toks, ll, dl) + Codeword(ll, END_OF_BLOCK)
  }

  predicate BlockOk(b: Block) {
    match b
    case Stored(_, data) => |data| < 0x1_0000
    case Fixed(toks) => BodyOk(toks, FixedLit(), FixedDist())
    case Dynamic(h, toks) => HeaderOk(h) && BodyOk(toks, LitLens(h), DistLens(h))
  }

  /** LEN and its one's complement NLEN, low byte first (section 3.2.4). */
  function StoredHeader(len: nat): (r: seq<byte>)
    requires len < 0x1_0000
    ensures |r| == 4
  {
    [len % 256, len / 256, (0xffff - len) % 256, (0xffff - len) / 256]
  }

  function BlockType(b: Block): nat {
    match b
    case Stored(_, _) => 0
    case Fixed(_) => 1
    case Dynamic(_, _) => 2
  }

  function ContentBits(b: Block): seq<bool>
    requires BlockOk(b)
  {
    match b
    case Stored(pad, data) => pad + BytesBits(StoredHeader(|data|)) + BytesBits(data)
    case Fixed(toks) => BodyBits(toks, FixedLit(), FixedDist())
    case Dynamic(h, toks) => HeaderBits(h) + BodyBits(toks, LitLens(h), DistLens(h))
  }

  function BlockBits(b: Block, last: bool): seq<bool>
    requires BlockOk(b)
  {
    [last] + ToBits(BlockType(b), 2) + ContentBits(b)
  }

  /** The bytes a block stands for, appended to `out`. */
  function BlockOut(b: Block, out: seq<byte>): Option<seq<byte>>
    requires BlockOk(b)
  {
    match b
    case Stored(_, data) => Some(out + data)
    case Fixed(toks) => TokensOut(toks, out)
    case Dynamic(_, toks) => TokensOut(toks, out)
  }

  predicate BlocksOk(bs: seq<Block>) {
    bs != [] && forall i :: 0 <= i < |bs| ==> BlockOk(bs[i])
  }

  /** A whole stream: one or more blocks, the last one marked. */
  function BlocksBits(bs: seq<Block>): seq<bool>
    requires BlocksOk(bs)
  {
    var w := BlockBits(bs[0], |bs| == 1);
    if |bs| == 1 then w else w + BlocksBits(bs[1..])
  }

  function BlocksOut(bs: seq<Block>, out: seq<byte>): Option<seq<byte>>
    requires BlocksOk(bs)
  {
    var r := BlockOut(bs[0], out);
    if r.None? || |bs| == 1 then r else BlocksOut(bs[1..], r.value)
  }

  /** A stored block that starts `p` bits after a byte boundary skips to the next boundary
      after its three header bits. */
  function PadLen(p: nat): nat
    requires p < 8
  {
    if p <= 5 then 5 - p else 13 - p
  }

  predicate Aligned(b: Block, p: nat)
    requires p < 8
  {
    b.Stored? ==> |b.pad| == PadLen(p)
  }

  /** Where a part of a stream that starts at `p` and is written as `w` ends. */
  function NextPhase(p: nat, w: seq<bool>): (r: nat)
    ensures r < 8
  {
    (p + |w|) % 8
  }

  predicate BlocksAligned(bs: seq<Block>, p: nat)
    requires BlocksOk(bs) && p < 8
  {
    Aligned(bs[0], p) && (|bs| > 1 ==> BlocksAligned(bs[1..], NextPhase(p, BlockBits(bs[0], false))))
  }
}
