/** Samples of 1, 2 or 4 bits (section 7.2 of the W3C PNG Specification, Second Edition): a packed
    row is unpacked forwards inside the output row whose right end it fills, and then alpha bytes
    are inserted backwards.

    In both directions a byte that is still to be read is never written; the methods are proved
    to leave the pure unpacking of the row they started from. */
module PngUnpack {
  import opened Bits
  import opened PngUnfilter

  predicate Small(depth: nat) {
    depth == 1 || depth == 2 || depth == 4
  }

  /** Samples in a byte. */
  function Per(depth: nat): (r: nat)
    requires Small(depth)
    ensures r >= 2 && depth * r == 8
  {
    if depth == 1 then 8 else if depth == 2 then 4 else 2
  }

  /** Bytes that hold `n` samples. */
  function PackedBytes(n: nat, depth: nat): nat
    requires Small(depth)
  {
    if depth == 1 then (n + 7) / 8 else if depth == 2 then (n + 3) / 4 else (n + 1) / 2
  }

  lemma PackedBytesIs(n: nat, depth: nat)
    requires Small(depth)
    ensures (n * depth + 7) / 8 == PackedBytes(n, depth)
  {
  }

  /** Sample `r` of a byte: the leftmost sample is in the high-order bits. */
  function Piece(b: byte, depth: nat, r: nat): (v: nat)
    requires Small(depth) && r < Per(depth)
    ensures v < Pow2(depth)
  {
    PieceInByte(depth, r);
    Low(Shr(b, 8 - depth * (r + 1)), depth)
  }

  lemma PieceInByte(depth: nat, r: nat)
    requires Small(depth) && r < Per(depth)
    ensures depth * r + depth == depth * (r + 1) <= 8
  {
  }

  /** The first sample of byte `m`. */
  function FirstOf(m: nat, depth: nat): nat
    requires Small(depth)
  {
    if depth == 1 then 8 * m else if depth == 2 then 4 * m else 2 * m
  }

  function ByteOf(t: nat, depth: nat): nat
    requires Small(depth)
  {
    if depth == 1 then t / 8 else if depth == 2 then t / 4 else t / 2
  }

  lemma SamplePlace(t: nat, depth: nat, n: nat)
    requires Small(depth) && t < n
    ensures FirstOf(ByteOf(t, depth), depth) <= t < FirstOf(ByteOf(t, depth), depth) + Per(depth)
    ensures ByteOf(t, depth) < PackedBytes(n, depth)
  {
  }

  /** Sample `t` of a packed row. */
  function Packed(packed: seq<byte>, depth: nat, t: nat): (v: nat)
    requires Small(depth) && ByteOf(t, depth) < |packed|
    ensures v < Pow2(depth)
  {
    SamplePlace(t, depth, t + 1);
    Piece(packed[ByteOf(t, depth)], depth, t - FirstOf(ByteOf(t, depth), depth))
  }

  // ----- the bits of a row

  lemma {:induction false} MsbSplit(v: nat, a: nat, b: nat)
    ensures MsbBits(v, a + b) == MsbBits(Shr(v, b), a) + MsbBits(v, b)
  {
    if b > 0 {
      MsbSplit(v / 2, a, b - 1);
      Assoc(MsbBits(Shr(v, b), a), MsbBits(v / 2, b - 1), [v % 2 == 1]);
    }
  }

  /** The bits of sample `r` are the next `depth` bits of the byte, from the left. */
  lemma PieceBits(b: byte, depth: nat, r: nat)
    requires Small(depth) && r < Per(depth)
    ensures depth * r + depth <= 8
    ensures MsbBits(b, 8)[depth * r..depth * r + depth] == MsbBits(Piece(b, depth, r), depth)
  {
    PieceInByte(depth, r);
    var k := 8 - depth * (r + 1);
    MsbSplit(b, 8 - k, k);
    MsbSplit(Shr(b, k), depth * r, depth);
    MsbOfLow(Shr(b, k), depth);
  }

  // ----- the encoder

  function SampleOrZero(samples: seq<nat>, t: nat): nat {
    if t < |samples| then samples[t] else 0
  }

  /** The bits of `r` samples from `t` on. */
  function PackBits(samples: seq<nat>, depth: nat, t: nat, r: nat): (b: seq<bool>)
    ensures |b| == depth * r
  {
    if r == 0 then [] else PackBits(samples, depth, t, r - 1) + MsbBits(SampleOrZero(samples, t + r - 1), depth)
  }

  /** A byte of samples from `t` on. */
  function PackByte(samples: seq<nat>, depth: nat, t: nat): byte
    requires Small(depth)
  {
    Pow2Small();
    FromMsb(PackBits(samples, depth, t, Per(depth)))
  }

  function PackRow(samples: seq<nat>, depth: nat): (packed: seq<byte>)
    requires Small(depth)
    ensures |packed| == PackedBytes(|samples|, depth)
  {
    seq(PackedBytes(|samples|, depth), m requires 0 <= m => PackByte(samples, depth, FirstOf(m, depth)))
  }

  lemma {:induction false} PackBitsAt(samples: seq<nat>, depth: nat, t: nat, n: nat, r: nat)
    requires r < n
    ensures depth * r + depth <= depth * n
    ensures PackBits(samples, depth, t, n)[depth * r..depth * r + depth] == MsbBits(SampleOrZero(samples, t + r), depth)
  {
    var before, last := PackBits(samples, depth, t, n - 1), MsbBits(SampleOrZero(samples, t + n - 1), depth);
    assert depth * n == depth * (n - 1) + depth;
    if r < n - 1 {
      PackBitsAt(samples, depth, t, n - 1, r);
      PieceOfFirst(before, last, depth * r, depth * r + depth);
    } else {
      PieceOfSecond(before, last);
    }
  }

  lemma PieceOfFirst(a: seq<bool>, b: seq<bool>, i: nat, j: nat)
    requires i <= j <= |a|
    ensures (a + b)[i..j] == a[i..j]
  {
  }

  lemma PieceOfSecond(a: seq<bool>, b: seq<bool>)
    ensures (a + b)[|a|..|a| + |b|] == b
  {
  }

  lemma PieceOfBits(bits: seq<bool>, depth: nat, r: nat, v: nat)
    requires Small(depth) && r < Per(depth) && |bits| == 8 && v < Pow2(depth)
    requires depth * r + depth <= 8 && bits[depth * r..depth * r + depth] == MsbBits(v, depth)
    ensures FromMsb(bits) < 256 && Piece(FromMsb(bits), depth, r) == v
  {
    Pow2Small();
    MsbOfFromMsb(bits);
    PieceBits(FromMsb(bits), depth, r);
    FromMsbOfMsb(v, depth);
    FromMsbOfMsb(Piece(FromMsb(bits), depth, r), depth);
  }

  lemma UnpackByteOf(samples: seq<nat>, depth: nat, t: nat, r: nat)
    requires Small(depth) && r < Per(depth) && t + r < |samples| && samples[t + r] < Pow2(depth)
    ensures Piece(PackByte(samples, depth, t), depth, r) == samples[t + r]
  {
    PackBitsAt(samples, depth, t, Per(depth), r);
    PieceInByte(depth, r);
    PieceOfBits(PackBits(samples, depth, t, Per(depth)), depth, r, samples[t + r]);
  }

  /** Unpacking a packed row gives its samples back. */
  lemma UnpackPacked(samples: seq<nat>, depth: nat, t: nat)
    requires Small(depth) && t < |samples| && samples[t] < Pow2(depth)
    ensures ByteOf(t, depth) < |PackRow(samples, depth)|
    ensures Packed(PackRow(samples, depth), depth, t) == samples[t]
  {
    SamplePlace(t, depth, |samples|);
    var first := FirstOf(ByteOf(t, depth), depth);
    UnpackByteOf(samples, depth, first, t - first);
  }

  // ----- unpacking in place

  /** What a grey sample is multiplied with: `stbi__depth_scale_table`. */
  function DepthScale(depth: nat): nat
    requires Small(depth)
  {
    if depth == 1 then 0xff else if depth == 2 then 0x55 else 0x11
  }

  /** Grey samples are spread over 0..255; palette indices stay as they are. */
  function Scale(depth: nat, color: nat): nat
    requires Small(depth)
  {
    if color == 0 then DepthScale(depth) else 1
  }

  function Scaled(v: nat, depth: nat, color: nat): byte
    requires Small(depth) && v < Pow2(depth)
  {
    Pow2Small();
    Scale(depth, color) * v
  }

  /** The brightest grey sample of a depth becomes 255 and the others are in proportion; samples of other
      colour types stay as they are.  No two samples become one. */
  lemma ScaledIs(v: nat, w: nat, depth: nat, color: nat)
    requires Small(depth) && v < Pow2(depth) && w < Pow2(depth)
    ensures color == 0 ==> Scaled(v, depth, color) * (Pow2(depth) - 1) == 255 * v
    ensures color != 0 ==> Scaled(v, depth, color) == v
    ensures v < w ==> Scaled(v, depth, color) < Scaled(w, depth, color)
  {
    Pow2Small();
  }

  /** The row of 8-bit samples. */
  function Unpacked(packed: seq<byte>, depth: nat, color: nat, n: nat): (r: seq<byte>)
    requires Small(depth) && PackedBytes(n, depth) <= |packed|
    ensures |r| == n
  {
    seq(n, t requires 0 <= t < n => SamplePlace(t, depth, n); Scaled(Packed(packed, depth, t), depth, color))
  }

  function Pieces(b: byte, depth: nat, color: nat, count: nat): (r: seq<byte>)
    requires Small(depth) && count <= Per(depth)
    ensures |r| == count
  {
    seq(count, r requires 0 <= r < count => Scaled(Piece(b, depth, r), depth, color))
  }

  /** The steps for one packed byte, each of which reads it again; the source writes them out. */
  method UnpackByte(out: array<byte>, cur: nat, inp: nat, depth: nat, color: nat, count: nat)
    requires Small(depth) && count <= Per(depth) && 0 < count && cur + count - 1 <= inp < out.Length
    modifies out
    ensures Flat(out[..], cur, Pieces(old(out[inp]), depth, color, count))
    ensures forall p :: 0 <= p < out.Length && !(cur <= p < cur + count) ==> out[p] == old(out[p])
  {
    ghost var b := out[inp];
    for r := 0 to count
      invariant r < count ==> out[inp] == b
      invariant Flat(out[..], cur, Pieces(b, depth, color, r))
      invariant forall p :: 0 <= p < out.Length && !(cur <= p < cur + r) ==> out[p] == old(out[p])
    {
      ghost var before, px := out[..], Pieces(b, depth, color, r);
      out[cur + r] := Scaled(Piece(out[inp], depth, r), depth, color);
      FlatExtend(before, out[..], cur, px, out[cur + r]);
      assert Pieces(b, depth, color, r + 1) == px + [out[cur + r]];
    }
  }

  /** With `k` samples left, the next one is the first of the next byte, and what is written for
      that byte ends at or before it. */
  lemma RoomToUnpack(n: nat, k: nat, depth: nat, count: nat)
    requires Small(depth) && 0 < k <= n && FirstOf(PackedBytes(n, depth) - PackedBytes(k, depth), depth) == n - k
    requires count == if k < Per(depth) then k else Per(depth)
    ensures PackedBytes(k, depth) == PackedBytes(k - count, depth) + 1 && PackedBytes(k, depth) + count <= k + 1
    ensures PackedBytes(k, depth) <= PackedBytes(n, depth) <= n
    ensures k - count > 0 ==> FirstOf(PackedBytes(n, depth) - PackedBytes(k - count, depth), depth) == n - (k - count)
  {
    if depth == 1 {
      assert PackedBytes(k, depth) == (k + 7) / 8;
    } else if depth == 2 {
      assert PackedBytes(k, depth) == (k + 3) / 4;
    } else {
      assert PackedBytes(k, depth) == (k + 1) / 2;
    }
  }

  lemma ByteOfGroup(t: nat, m: nat, depth: nat)
    requires Small(depth) && FirstOf(m, depth) <= t < FirstOf(m, depth) + Per(depth)
    ensures ByteOf(t, depth) == m
  {
  }

  ghost predicate UnpackedSoFar(o: seq<byte>, base: nat, stride: nat, packed: seq<byte>, depth: nat, color: nat,
      n: nat, k: nat) {
    && Small(depth) && k <= n <= stride && base + stride <= |o| && |packed| == PackedBytes(n, depth)
    && PackedBytes(k, depth) <= PackedBytes(n, depth) <= n
    && (k > 0 ==> FirstOf(PackedBytes(n, depth) - PackedBytes(k, depth), depth) == n - k)
    && Flat(o, base + stride - PackedBytes(k, depth), packed[PackedBytes(n, depth) - PackedBytes(k, depth)..])
    && Flat(o, base, Unpacked(packed, depth, color, n)[..n - k])
  }

  method UnpackGroup(out: array<byte>, base: nat, stride: nat, ghost packed: seq<byte>, depth: nat, color: nat,
      n: nat, k: nat,
      count: nat)
    requires UnpackedSoFar(out[..], base, stride, packed, depth, color, n, k) && k > 0
    requires count == if k < Per(depth) then k else Per(depth)
    modifies out
    ensures UnpackedSoFar(out[..], base, stride, packed, depth, color, n, k - count)
    ensures forall p :: 0 <= p < out.Length && !(base <= p < base + n) ==> out[p] == old(out[p])
  {
    RoomToUnpack(n, k, depth, count);
    ghost var before := out[..];
    UnpackByte(out, base + n - k, base + stride - PackedBytes(k, depth), depth, color, count);
    GroupDone(before, out[..], base, stride, packed, depth, color, n, k, count);
  }

  lemma GroupDone(o: seq<byte>, o2: seq<byte>, base: nat, stride: nat, packed: seq<byte>, depth: nat, color: nat,
      n: nat,
    k: nat, count: nat)
    requires UnpackedSoFar(o, base, stride, packed, depth, color, n, k) && k > 0 && |o2| == |o|
    requires count == if k < Per(depth) then k else Per(depth)
    requires Flat(o2, base + n - k, Pieces(o[base + stride - PackedBytes(k, depth)], depth, color, count))
    requires forall p :: 0 <= p < |o| && !(base + n - k <= p < base + n - k + count) ==> o2[p] == o[p]
    ensures UnpackedSoFar(o2, base, stride, packed, depth, color, n, k - count)
  {
    RoomToUnpack(n, k, depth, count);
    var m := PackedBytes(n, depth) - PackedBytes(k, depth);
    var row := Unpacked(packed, depth, color, n);
    PackedTail(o, o2, base + stride - PackedBytes(k, depth), packed, m);
    assert o[base + stride - PackedBytes(k, depth)] == packed[m..][0];
    forall t | 0 <= t < n - k + count
      ensures o2[base + t] == row[t]
    {
      if t < n - k {
        assert o[base + t] == row[..n - k][t];
      } else {
        var px := Pieces(o[base + stride - PackedBytes(k, depth)], depth, color, count);
        assert o2[base + n - k + (t - (n - k))] == px[t - (n - k)];
        ByteOfGroup(t, m, depth);
        SamplePlace(t, depth, n);
      }
    }
  }

  lemma PackedTail(o: seq<byte>, o2: seq<byte>, inp: nat, packed: seq<byte>, m: nat)
    requires m < |packed| && Flat(o, inp, packed[m..]) && |o2| == |o|
    requires forall p :: inp < p < |o| ==> o2[p] == o[p]
    ensures Flat(o2, inp + 1, packed[m + 1..])
  {
    var tail := packed[m + 1..];
    forall q | 0 <= q < |tail|
      ensures o2[inp + 1 + q] == tail[q]
    {
      assert o[inp + (q + 1)] == packed[m..][q + 1];
    }
  }

  /** Unpacking a row forwards never overwrites a packed byte before it has been read for the
      last time. */
  method UnpackRow(out: array<byte>, base: nat, stride: nat, ghost packed: seq<byte>, depth: nat, color: nat, n: nat)
    requires Small(depth) && n <= stride && base + stride <= out.Length && |packed| == PackedBytes(n, depth) <= n
    requires Flat(out[..], base + stride - PackedBytes(n, depth), packed)
    modifies out
    ensures Flat(out[..], base, Unpacked(packed, depth, color, n))
    ensures forall p :: 0 <= p < out.Length && !(base <= p < base + n) ==> out[p] == old(out[p])
  {
    var k := n;
    assert packed[0..] == packed;
    while k >= Per(depth)
      invariant 0 <= k <= n && UnpackedSoFar(out[..], base, stride, packed, depth, color, n, k)
      invariant forall p :: 0 <= p < out.Length && !(base <= p < base + n) ==> out[p] == old(out[p])
    {
      UnpackGroup(out, base, stride, packed, depth, color, n, k, Per(depth));
      k := k - Per(depth);
    }
    if k > 0 {
      UnpackGroup(out, base, stride, packed, depth, color, n, k, k);
    }
    ghost var row := Unpacked(packed, depth, color, n);
    assert row[..n] == row;
  }

  // ----- alpha, backwards

  /** Alpha has been inserted after the pixels from `d` on, up to place `n`; the samples before
      are still packed. */
  ghost predicate Spread(o: seq<byte>, base: nat, row: seq<byte>, fb: nat, ob: nat, n: nat, d: nat, c: nat, s: nat) {
    && 0 < fb && ob == fb + 1 && AtPixel(d, c, s, fb, ob) && s <= |row| && s <= c <= n && base + n <= |o|
    && Flat(o, base, row[..s])
    && forall q: nat :: c <= q < n ==> ShownAt(o, base, q, row, fb, ob, true)
  }

  /** Moving pixel `d` and setting its alpha byte. */
  lemma SpreadStep(o: seq<byte>, o2: seq<byte>, base: nat, row: seq<byte>, fb: nat, ob: nat, n: nat, d: nat, c: nat,
      s: nat)
    requires Spread(o, base, row, fb, ob, n, d + 1, c + ob, s + fb) && |o2| == |o| && s <= c
    requires Flat(o2, base + c, row[s..s + fb]) && o2[base + c + fb] == 255
    requires forall p :: 0 <= p < |o| && !(base + c <= p < base + c + ob) ==> o2[p] == o[p]
    ensures Spread(o2, base, row, fb, ob, n, d, c, s)
  {
    forall q: nat | c <= q < n
      ensures ShownAt(o2, base, q, row, fb, ob, true)
    {
      if q >= c + ob {
        assert ShownAt(o, base, q, row, fb, ob, true);
        assert o2[base + q] == o[base + q];
      } else {
        SampleAt(d, c, s, q - c, fb, ob);
        assert q - c < fb ==> o2[base + c + (q - c)] == row[s..s + fb][q - c];
      }
    }
    assert row[..s + fb][..s] == row[..s];
    FlatStays(o, o2, base, row[..s + fb][..s]);
  }

  lemma SpreadAll(o: seq<byte>, base: nat, row: seq<byte>, fb: nat, ob: nat, n: nat, x: nat)
    requires 0 < fb && ob == fb + 1 && AtPixel(x, n, |row|, fb, ob) && |row| <= n && base + n <= |o|
    requires Flat(o, base, row)
    ensures Spread(o, base, row, fb, ob, n, x, n, |row|)
  {
    assert row[..|row|] == row;
  }

  lemma SpreadDone(o: seq<byte>, base: nat, row: seq<byte>, fb: nat, ob: nat, n: nat)
    requires Spread(o, base, row, fb, ob, n, 0, 0, 0)
    ensures Shown(o, base, n, row, fb, ob, true)
  {
  }

  /** Samples of one channel. */
  method AlphaAfterOne(out: array<byte>, base: nat, x: nat, ghost row: seq<byte>)
    requires |row| == x && base + 2 * x <= out.Length && Flat(out[..], base, row)
    modifies out
    ensures Shown(out[..], base, 2 * x, row, 1, 2, true)
    ensures forall p :: 0 <= p < out.Length && !(base <= p < base + 2 * x) ==> out[p] == old(out[p])
  {
    AtPixelTimes(x, 1, 2);
    SpreadAll(out[..], base, row, 1, 2, 2 * x, x);
    var q: int := x - 1;
    while q >= 0
      invariant -1 <= q < x && Spread(out[..], base, row, 1, 2, 2 * x, q + 1, 2 * (q + 1), q + 1)
      invariant forall p :: 0 <= p < out.Length && !(base <= p < base + 2 * x) ==> out[p] == old(out[p])
    {
      ghost var before := out[..];
      assert before[base + q] == row[..q + 1][q];
      out[base + q * 2 + 1] := 255;
      out[base + q * 2] := out[base + q];
      assert row[q..q + 1] == [row[q]];
      SpreadStep(before, out[..], base, row, 1, 2, 2 * x, q, 2 * q, q);
      q := q - 1;
    }
    SpreadDone(out[..], base, row, 1, 2, 2 * x);
  }

  /** Samples of three channels. */
  method AlphaAfterThree(out: array<byte>, base: nat, x: nat, ghost row: seq<byte>)
    requires |row| == 3 * x && base + 4 * x <= out.Length && Flat(out[..], base, row)
    modifies out
    ensures Shown(out[..], base, 4 * x, row, 3, 4, true)
    ensures forall p :: 0 <= p < out.Length && !(base <= p < base + 4 * x) ==> out[p] == old(out[p])
  {
    AtPixelTimes(x, 3, 4);
    SpreadAll(out[..], base, row, 3, 4, 4 * x, x);
    var q: int := x - 1;
    while q >= 0
      invariant -1 <= q < x && Spread(out[..], base, row, 3, 4, 4 * x, q + 1, 4 * (q + 1), 3 * (q + 1))
      invariant forall p :: 0 <= p < out.Length && !(base <= p < base + 4 * x) ==> out[p] == old(out[p])
    {
      ghost var before := out[..];
      MovePixel(out, base, q);
      ThreeBytes(before, out[..], base, row, q);
      SpreadStep(before, out[..], base, row, 3, 4, 4 * x, q, 4 * q, 3 * q);
      q := q - 1;
    }
    SpreadDone(out[..], base, row, 3, 4, 4 * x);
  }

  method MovePixel(out: array<byte>, base: nat, q: nat)
    requires base + 4 * q + 4 <= out.Length
    modifies out
    ensures out[base + 4 * q + 3] == 255 && out[base + 4 * q + 2] == old(out[base + 3 * q + 2])
    ensures out[base + 4 * q + 1] == old(out[base + 3 * q + 1]) && out[base + 4 * q] == old(out[base + 3 * q])
    ensures forall p :: 0 <= p < out.Length && !(base + 4 * q <= p < base + 4 * q + 4) ==> out[p] == old(out[p])
  {
    out[base + q * 4 + 3] := 255;
    out[base + q * 4 + 2] := out[base + q * 3 + 2];
    out[base + q * 4 + 1] := out[base + q * 3 + 1];
    out[base + q * 4] := out[base + q * 3];
  }

  lemma ThreeBytes(o: seq<byte>, o2: seq<byte>, base: nat, row: seq<byte>, q: nat)
    requires 3 * q + 3 <= |row| && base + 4 * q + 4 <= |o| == |o2| && Flat(o, base, row[..3 * (q + 1)])
    requires o2[base + 4 * q + 2] == o[base + 3 * q + 2] && o2[base + 4 * q + 1] == o[base + 3 * q + 1]
    requires o2[base + 4 * q] == o[base + 3 * q]
    ensures Flat(o2, base + 4 * q, row[3 * q..3 * q + 3])
  {
    var first := row[..3 * (q + 1)];
    assert o[base + (3 * q)] == first[3 * q] && o[base + (3 * q + 1)] == first[3 * q + 1];
    assert o[base + (3 * q + 2)] == first[3 * q + 2];
  }
}
