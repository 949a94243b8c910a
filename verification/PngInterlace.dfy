/** `stbi__create_png_image`: the passes of an interlaced image are decoded one after the other and
    their pixels are copied to their places.

    Copying one pixel disturbs no other, so that what a pass has placed stays until the end, and
    the next pass begins right behind the bytes of this one. */
module PngInterlace {
  import opened Bits
  import opened PngImage
  import opened Adam7

  /** A pass is an image of its own. */
  function PassFormat(t: Format, p: Pass): Format {
    t.(x := PassX(p, t.x))
  }

  predicate EmptyPass(t: Format, h: nat, p: Pass) {
    PassX(p, t.x) == 0 || PassY(p, h) == 0
  }

  function PassLength(t: Format, h: nat, p: Pass): nat {
    if EmptyPass(t, h, p) then 0 else (Width(PassFormat(t, p)) + 1) * PassY(p, h)
  }

  /** What is left of data that is cut into pieces of the lengths `lens`, before piece `p`. */
  function RestOf(raw: seq<byte>, lens: seq<nat>, p: nat): seq<byte>
    requires p <= |lens|
  {
    if p == 0 then raw
    else
      var r := RestOf(raw, lens, p - 1);
      if lens[p - 1] <= |r| then r[lens[p - 1]..] else []
  }

  function PassLengths(t: Format, h: nat): (lens: seq<nat>)
    ensures |lens| == 7
  {
    seq(7, p requires 0 <= p < 7 => PassLength(t, h, p))
  }

  /** What is left of the data before pass `p`. */
  function Rest(raw: seq<byte>, t: Format, h: nat, p: nat): seq<byte>
    requires p <= 7
  {
    RestOf(raw, PassLengths(t, h), p)
  }

  predicate PassOk(raw: seq<byte>, t: Format, h: nat, p: Pass) {
    EmptyPass(t, h, p) || Decodable(Rest(raw, t, h, p), PassFormat(t, p), PassY(p, h))
  }

  // ----- places of pixels

  /** The first byte of the pixel in column `x` of row `y`. */
  function Place(t: Format, x: nat, y: nat): nat {
    RowBase(t, y) + x * PixelOut(t)
  }

  lemma StrideIsPixels(t: Format)
    ensures Stride(t) == t.x * PixelOut(t)
  {
    if t.depth == 16 {
      assert t.x * (2 * t.out_n) == 2 * (t.x * t.out_n);
    }
  }

  /** The index expressions of the source: `(y * x_size + x) * out_bytes` and
      `y * x_size * out_bytes + x * out_bytes`. */
  lemma PlaceIs(t: Format, x: nat, y: nat)
    ensures (y * t.x + x) * PixelOut(t) == Place(t, x, y) == y * t.x * PixelOut(t) + x * PixelOut(t)
  {
    StrideIsPixels(t);
    assert y * t.x * PixelOut(t) == t.x * PixelOut(t) * y;
    assert (y * t.x + x) * PixelOut(t) == y * t.x * PixelOut(t) + x * PixelOut(t);
  }

  lemma PlaceInRow(t: Format, x: nat, y: nat)
    requires x < t.x
    ensures RowBase(t, y) <= Place(t, x, y) && Place(t, x, y) + PixelOut(t) <= RowBase(t, y) + Stride(t)
  {
    StrideIsPixels(t);
    TimesApart(x, t.x, PixelOut(t));
  }

  lemma PlaceInImage(t: Format, x: nat, y: nat, h: nat)
    requires x < t.x && y < h
    ensures Place(t, x, y) + PixelOut(t) <= RowBase(t, h)
  {
    PlaceInRow(t, x, y);
    TimesApart(y, h, Stride(t));
  }

  /** Different pixels do not overlap. */
  lemma PlacesApart(t: Format, x: nat, y: nat, x2: nat, y2: nat)
    requires x < t.x && x2 < t.x && (x != x2 || y != y2)
    ensures Place(t, x, y) + PixelOut(t) <= Place(t, x2, y2) || Place(t, x2, y2) + PixelOut(t) <= Place(t, x, y)
  {
    PlaceInRow(t, x, y);
    PlaceInRow(t, x2, y2);
    if y < y2 {
      TimesApart(y, y2, Stride(t));
    } else if y2 < y {
      TimesApart(y2, y, Stride(t));
    } else if x < x2 {
      TimesApart(x, x2, PixelOut(t));
    } else {
      TimesApart(x2, x, PixelOut(t));
    }
  }

  // ----- copying

  /** The pixel at `i`, `j` of pass `p` has arrived. */
  ghost predicate Placed(o: seq<byte>, t: Format, out: seq<byte>, p: Pass, i: nat, j: nat) {
    var ob, dst, src := PixelOut(t), Place(t, Column(p, i), Row(p, j)), Place(PassFormat(t, p), i, j);
    dst + ob <= |o| && src + ob <= |out| && o[dst..dst + ob] == out[src..src + ob]
  }

  /** Whether the loops visit `p`, `i`, `j` before `n`, `m`, `l`. */
  predicate Before(p: nat, i: nat, j: nat, n: nat, m: nat, l: nat) {
    p < n || (p == n && (j < l || (j == l && i < m)))
  }

  ghost predicate AllPlaced(o: seq<byte>, t: Format, h: nat, outs: seq<seq<byte>>, n: nat, m: nat, l: nat) {
    forall p: Pass, i: nat, j: nat ::
      p < |outs| && i < PassX(p, t.x) && j < PassY(p, h) && Before(p, i, j, n, m, l) ==> Placed(o, t, outs[p], p, i, j)
  }

  lemma PlacedStays(o: seq<byte>, o2: seq<byte>, t: Format, h: nat, out: seq<byte>, p: Pass, i: nat, j: nat, q: Pass,
      m: nat, l: nat)
    requires i < PassX(p, t.x) && j < PassY(p, h) && m < PassX(q, t.x) && l < PassY(q, h) &&
      (p != q || i != m || j != l)
    requires Placed(o, t, out, p, i, j) && |o2| == |o|
    requires var dst := Place(t, Column(q, m), Row(q, l));
      forall b :: 0 <= b < |o| && !(dst <= b < dst + PixelOut(t)) ==> o2[b] == o[b]
    ensures Placed(o2, t, out, p, i, j)
  {
    PassUnique(p, i, j, t.x, h);
    PassUnique(q, m, l, t.x, h);
    PlacesApart(t, Column(p, i), Row(p, j), Column(q, m), Row(q, l));
    var dst := Place(t, Column(p, i), Row(p, j));
    assert o2[dst..dst + PixelOut(t)] == o[dst..dst + PixelOut(t)];
  }

  /** `memcpy`. */
  method CopyBytes(to: array<byte>, dst: nat, from: array<byte>, src: nat, n: nat)
    requires to != from && dst + n <= to.Length && src + n <= from.Length
    modifies to
    ensures to[dst..dst + n] == from[src..src + n]
    ensures forall b :: 0 <= b < to.Length && !(dst <= b < dst + n) ==> to[b] == old(to[b])
  {
    for k := 0 to n
      invariant to[dst..dst + k] == from[src..src + k]
      invariant forall b :: 0 <= b < to.Length && !(dst <= b < dst + k) ==> to[b] == old(to[b])
    {
      to[dst + k] := from[src + k];
    }
  }

  lemma PlacedNext(o: seq<byte>, o2: seq<byte>, t: Format, h: nat, outs: seq<seq<byte>>, q: Pass, m: nat, l: nat)
    requires AllPlaced(o, t, h, outs, q, m, l) && |o2| == |o| && |outs| == q + 1 && m < PassX(q, t.x) && l < PassY(q, h)
    requires Placed(o2, t, outs[q], q, m, l)
    requires var dst := Place(t, Column(q, m), Row(q, l));
      forall b :: 0 <= b < |o| && !(dst <= b < dst + PixelOut(t)) ==> o2[b] == o[b]
    ensures AllPlaced(o2, t, h, outs, q, m + 1, l)
  {
    forall p: Pass, i: nat, j: nat |
      p < |outs| && i < PassX(p, t.x) && j < PassY(p, h) && Before(p, i, j, q, m + 1, l)
      ensures Placed(o2, t, outs[p], p, i, j)
    {
      if p != q || i != m || j != l {
        PlacedStays(o, o2, t, h, outs[p], p, i, j, q, m, l);
      }
    }
  }

  lemma RowPlaced(o: seq<byte>, t: Format, h: nat, outs: seq<seq<byte>>, q: Pass, l: nat)
    requires AllPlaced(o, t, h, outs, q, PassX(q, t.x), l)
    ensures AllPlaced(o, t, h, outs, q, 0, l + 1)
  {
  }

  lemma PassPlaced(o: seq<byte>, t: Format, h: nat, outs: seq<seq<byte>>, q: Pass)
    requires AllPlaced(o, t, h, outs, q, 0, PassY(q, h))
    ensures AllPlaced(o, t, h, outs, q + 1, 0, 0)
  {
  }

  lemma PassStarts(o: seq<byte>, t: Format, h: nat, outs: seq<seq<byte>>, out: seq<byte>)
    requires AllPlaced(o, t, h, outs, |outs|, 0, 0)
    ensures AllPlaced(o, t, h, outs + [out], |outs|, 0, 0)
  {
    forall p: Pass, i: nat, j: nat |
      p < |outs| + 1 && i < PassX(p, t.x) && j < PassY(p, h) && Before(p, i, j, |outs|, 0, 0)
      ensures Placed(o, t, (outs + [out])[p], p, i, j)
    {
      assert Placed(o, t, outs[p], p, i, j);
    }
  }

  /** One turn of the copying loops. */
  method CopyPixel(final: array<byte>, out: array<byte>, t: Format, h: nat, q: Pass, i: nat, j: nat,
      ghost outs: seq<seq<byte>>)
    requires final != out && final.Length == RowBase(t, h) && out.Length == RowBase(PassFormat(t, q), PassY(q, h))
    requires i < PassX(q, t.x) && j < PassY(q, h) && |outs| == q + 1 && outs[q] == out[..]
    requires AllPlaced(final[..], t, h, outs, q, i, j)
    modifies final
    ensures AllPlaced(final[..], t, h, outs, q, i + 1, j) && outs[q] == out[..]
  {
    ghost var before := final[..];
    var pt := PassFormat(t, q);
    var out_bytes, x := PixelOut(t), PassX(q, t.x);
    var out_y, out_x := j * YSpc(q) + YOrig(q), i * XSpc(q) + XOrig(q);
    PassSizes(q, t.x, h, i, j);
    PlaceIs(t, out_x, out_y);
    PlaceIs(pt, i, j);
    PlaceInImage(t, out_x, out_y, h);
    PlaceInImage(pt, i, j, PassY(q, h));
    CopyBytes(final, out_y * t.x * out_bytes + out_x * out_bytes, out, (j * x + i) * out_bytes, out_bytes);
    PixelArrived(final[..], out[..], t, q, i, j);
    PlacedNext(before, final[..], t, h, outs, q, i, j);
  }

  lemma PixelArrived(o: seq<byte>, out: seq<byte>, t: Format, q: Pass, i: nat, j: nat)
    requires var ob, dst, src := PixelOut(t), Place(t, Column(q, i), Row(q, j)), Place(PassFormat(t, q), i, j);
      dst + ob <= |o| && src + ob <= |out| && o[dst..dst + ob] == out[src..src + ob]
    ensures Placed(o, t, out, q, i, j)
  {
  }

  method CopyPass(final: array<byte>, out: array<byte>, t: Format, h: nat, q: Pass, ghost outs: seq<seq<byte>>)
    requires final != out && final.Length == RowBase(t, h) && out.Length == RowBase(PassFormat(t, q), PassY(q, h))
    requires |outs| == q + 1 && outs[q] == out[..] && AllPlaced(final[..], t, h, outs, q, 0, 0)
    modifies final
    ensures AllPlaced(final[..], t, h, outs, q + 1, 0, 0)
  {
    for j := 0 to PassY(q, h)
      invariant outs[q] == out[..] && AllPlaced(final[..], t, h, outs, q, 0, j)
    {
      for i := 0 to PassX(q, t.x)
        invariant outs[q] == out[..] && AllPlaced(final[..], t, h, outs, q, i, j)
      {
        CopyPixel(final, out, t, h, q, i, j, outs);
      }
      RowPlaced(final[..], t, h, outs, q, j);
    }
    PassPlaced(final[..], t, h, outs, q);
  }

  // ----- the whole image

  /** What the passes before `n` decoded to. */
  ghost predicate PassesDecoded(outs: seq<seq<byte>>, raw: seq<byte>, t: Format, h: nat) {
    |outs| <= 7 && forall p: Pass :: p < |outs| ==> PassDecoded(outs[p], raw, t, h, p)
  }

  ghost predicate PassDecoded(out: seq<byte>, raw: seq<byte>, t: Format, h: nat, p: Pass) {
    EmptyPass(t, h, p) ||
    (PassOk(raw, t, h, p) && (t.depth == 16 ==> |out| % 2 == 0)
     && FinalRows(InPngOrder(out, t.depth), Rest(raw, t, h, p), PassFormat(t, p), PassY(p, h)))
  }

  lemma AnyPlacedEmpty(o: seq<byte>, t: Format, h: nat, outs: seq<seq<byte>>, q: Pass)
    requires EmptyPass(t, h, q) && |outs| == q && AllPlaced(o, t, h, outs, q, 0, 0)
    ensures AllPlaced(o, t, h, outs + [[]], q + 1, 0, 0)
  {
    forall p: Pass, i: nat, j: nat |
      p < q + 1 && i < PassX(p, t.x) && j < PassY(p, h) && Before(p, i, j, q + 1, 0, 0)
      ensures Placed(o, t, (outs + [[]])[p], p, i, j)
    {
      assert p < q;
      assert Placed(o, t, outs[p], p, i, j);
    }
  }

  lemma RestNext(raw: seq<byte>, t: Format, h: nat, p: Pass)
    requires PassOk(raw, t, h, p)
    ensures PassLength(t, h, p) <= |Rest(raw, t, h, p)|
    ensures Rest(raw, t, h, p + 1) == Rest(raw, t, h, p)[PassLength(t, h, p)..]
  {
  }

  lemma PassGood(t: Format, h: nat, p: Pass)
    requires Good(t) && !EmptyPass(t, h, p)
    ensures Good(PassFormat(t, p))
  {
  }

  ghost predicate PassState(final: seq<byte>, raw: seq<byte>, t: Format, h: nat, outs: seq<seq<byte>>,
      data: seq<byte>, p: nat) {
    && p <= 7 && |outs| == p && PassesDecoded(outs, raw, t, h) && data == Rest(raw, t, h, p)
    && (forall q: Pass :: q < p ==> PassOk(raw, t, h, q)) && AllPlaced(final, t, h, outs, p, 0, 0)
  }

  lemma PassDone(final: seq<byte>, raw: seq<byte>, t: Format, h: nat, outs: seq<seq<byte>>, data: seq<byte>, p: Pass,
    before: seq<byte>, out: seq<byte>)
    requires PassState(before, raw, t, h, outs, data, p) && PassDecoded(out, raw, t, h, p) && PassOk(raw, t, h, p)
    requires AllPlaced(final, t, h, outs + [out], p + 1, 0, 0)
    ensures PassLength(t, h, p) <= |data|
    ensures PassState(final, raw, t, h, outs + [out], data[PassLength(t, h, p)..], p + 1)
  {
    RestNext(raw, t, h, p);
  }

  /** One turn of the pass loop. */
  method DecodePass(final: array<byte>, ghost raw: seq<byte>, t: Format, h: nat, p: Pass, data: seq<byte>,
      ghost outs: seq<seq<byte>>)
    returns (good: bool, image_data: seq<byte>, ghost outs2: seq<seq<byte>>)
    requires Good(t) && final.Length == RowBase(t, h) && PassState(final[..], raw, t, h, outs, data, p)
    modifies final
    ensures good <==> PassOk(raw, t, h, p)
    ensures good ==> PassState(final[..], raw, t, h, outs2, image_data, p + 1)
  {
    var x, y := PassX(p, t.x), PassY(p, h);
    ghost var before := final[..];
    good, image_data, outs2 := true, data, outs + [[]];
    if x > 0 && y > 0 {
      PassGood(t, h, p);
      var out;
      good, out := CreatePngImageRaw(data, PassFormat(t, p), y);
      if good {
        outs2 := outs + [out[..]];
        PassStarts(before, t, h, outs, out[..]);
        CopyPass(final, out, t, h, p, outs2);
        PassDone(final[..], raw, t, h, outs, data, p, before, out[..]);
        image_data := data[(Width(PassFormat(t, p)) + 1) * y..];
      }
    } else {
      AnyPlacedEmpty(before, t, h, outs, p);
      PassDone(before, raw, t, h, outs, data, p, before, []);
    }
  }

  /** An interlaced image is decoded exactly when each of its non-empty passes is, from the data
      that the passes before have left; then every pixel is the pixel of its pass. */
  method CreatePngImage(raw: seq<byte>, t: Format, h: nat) returns (ok: bool, final: array<byte>,
      ghost outs: seq<seq<byte>>)
    requires Good(t)
    ensures fresh(final) && final.Length == RowBase(t, h)
    ensures ok <==> forall p: Pass :: PassOk(raw, t, h, p)
    ensures ok ==> |outs| == 7 && PassesDecoded(outs, raw, t, h) && AllPlaced(final[..], t, h, outs, 7, 0, 0)
  {
    final := new byte[RowBase(t, h)];
    outs := [];
    var image_data := raw;
    for p := 0 to 7
      invariant PassState(final[..], raw, t, h, outs, image_data, p)
    {
      ok, image_data, outs := DecodePass(final, raw, t, h, p, image_data, outs);
      if !ok {
        return;
      }
    }
    ok := true;
  }
}
