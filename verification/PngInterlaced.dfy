/** What `stbi__create_png_image` makes of an interlaced image: every pixel of the output is the
    pixel an encoder had at that place.

    The encoder takes the pixels of each pass out of the image, packs small samples, and filters
    the rows of each pass in any way it likes.  This holds at every depth. */
module PngInterlaced {
  import opened Bits
  import opened PngFilter
  import opened PngUnfilter
  import opened PngRows
  import opened PngImage
  import opened Adam7
  import opened PngInterlace

  /** The pixel at `place` has the samples `px`, and opaque alpha if it is larger. */
  ghost predicate PixelIs(o: seq<byte>, place: nat, px: seq<byte>, ob: nat) {
    place + ob <= |o| && Flat(o, place, px) && forall b :: place + |px| <= b < place + ob ==> o[b] == 255
  }

  lemma PixelOfRow(o: seq<byte>, start: nat, n: nat, row: seq<byte>, fb: nat, ob: nat, d: nat, c: nat, s: nat)
    requires 0 < fb <= ob && Shown(o, start, n, row, fb, ob, true) && AtPixel(d, c, s, fb, ob)
    requires c + ob <= n && s + fb <= |row| && start + n <= |o|
    ensures PixelIs(o, start + c, row[s..s + fb], ob)
  {
    ShownPixel(o, start, n, row, fb, ob, true, d, c, s);
    forall b | start + c + fb <= b < start + c + ob
      ensures o[b] == 255
    {
      SampleAt(d, c, s, b - start - c, fb, ob);
      assert ShownAt(o, start, b - start, row, fb, ob, true);
    }
  }

  lemma PixelStays(o: seq<byte>, o2: seq<byte>, place: nat, place2: nat, px: seq<byte>, ob: nat)
    requires PixelIs(o, place, px, ob) && |px| <= ob && place2 + ob <= |o2|
    requires o2[place2..place2 + ob] == o[place..place + ob]
    ensures PixelIs(o2, place2, px, ob)
  {
    var a, b := o[place..place + ob], o2[place2..place2 + ob];
    forall q | 0 <= q < |px|
      ensures o2[place2 + q] == px[q]
    {
      assert o[place + q] == px[q];
      assert b[q] == a[q];
    }
    forall q | place2 + |px| <= q < place2 + ob
      ensures o2[q] == 255
    {
      assert o[place + (q - place2)] == 255;
      assert b[q - place2] == a[q - place2];
    }
  }

  lemma NativeSlice(o: seq<byte>, o2: seq<byte>, a: nat, b: nat, n: nat)
    requires |o| % 2 == |o2| % 2 == 0 && a % 2 == b % 2 == n % 2 == 0 && a + n <= |o| && b + n <= |o2|
    requires o[a..a + n] == o2[b..b + n]
    ensures Native(o)[a..a + n] == Native(o2)[b..b + n]
  {
    var r, r2 := Native(o)[a..a + n], Native(o2)[b..b + n];
    forall q | 0 <= q < n
      ensures r[q] == r2[q]
    {
      NativeAt(o, a, n, q);
      NativeAt(o2, b, n, q);
    }
  }

  lemma NativeAt(o: seq<byte>, a: nat, n: nat, q: nat)
    requires |o| % 2 == 0 && a % 2 == n % 2 == 0 && a + n <= |o| && q < n
    ensures Native(o)[a..a + n][q] == o[a..a + n][if q % 2 == 0 then q + 1 else q - 1]
  {
    assert (a + q) % 2 == q % 2;
    assert Native(o)[a..a + n][q] == Native(o)[a + q];
  }

  lemma PlacesEven(t: Format, x: nat, y: nat)
    requires t.depth == 16
    ensures RowBase(t, y) % 2 == 0 && Place(t, x, y) % 2 == 0 && PixelOut(t) % 2 == 0
  {
    OutputEven(t, y);
    assert x * (2 * t.out_n) == 2 * (x * t.out_n);
  }

  lemma InOrderSlice(o: seq<byte>, out: seq<byte>, t: Format, h: nat, p: Pass, i: nat, j: nat)
    requires Placed(o, t, out, p, i, j) && |o| == RowBase(t, h)
    requires t.depth == 16 ==> |out| % 2 == 0 && |o| % 2 == 0
    ensures var ob, dst, src := PixelOut(t), Place(t, Column(p, i), Row(p, j)), Place(PassFormat(t, p), i, j);
      dst + ob <= |o| && src + ob <= |out|
      && InPngOrder(o, t.depth)[dst..dst + ob] == InPngOrder(out, t.depth)[src..src + ob]
  {
    if t.depth == 16 {
      PlacesEven(t, Column(p, i), Row(p, j));
      PlacesEven(PassFormat(t, p), i, j);
      NativeSlice(o, out, Place(t, Column(p, i), Row(p, j)), Place(PassFormat(t, p), i, j), PixelOut(t));
    }
  }

  /** The samples of a pixel in a row. */
  function SamplesOf(row: seq<byte>, i: nat, fb: nat): (px: seq<byte>)
    requires (i + 1) * fb <= |row|
    ensures |px| == fb
  {
    assert (i + 1) * fb == i * fb + fb;
    row[i * fb..(i + 1) * fb]
  }

  lemma SampleRowLength(raw: seq<byte>, t: Format, j: nat)
    requires RowDecodable(raw, t, j)
    ensures |SampleRow(raw, t, j)| == t.x * PixelIn(t) && 0 < PixelIn(t) <= PixelOut(t)
  {
    WidthIs(t.x, t.img_n, t.depth);
    RowBytes(t.x, t.img_n, t.depth);
  }

  /** Pixel `i` of row `j` of a decoded image. */
  lemma DecodedPixel(o: seq<byte>, raw: seq<byte>, t: Format, i: nat, j: nat)
    requires FinalRow(o, raw, t, j) && i < t.x
    ensures (i + 1) * PixelIn(t) <= |SampleRow(raw, t, j)|
    ensures PixelIs(o, Place(t, i, j), SamplesOf(SampleRow(raw, t, j), i, PixelIn(t)), PixelOut(t))
  {
    var fb, ob, row := PixelIn(t), PixelOut(t), SampleRow(raw, t, j);
    SampleRowLength(raw, t, j);
    AtPixelTimes(i, fb, ob);
    TimesApart(i, t.x, fb);
    PlaceInRow(t, i, j);
    assert (i + 1) * fb == i * fb + fb;
    PixelOfRow(o, RowBase(t, j), Stride(t), row, fb, ob, i, i * ob, i * fb);
  }

  /** Pixel `x`, `y` of the output has the samples that stand at its place in its pass. */
  ghost predicate FromPass(o: seq<byte>, raw: seq<byte>, t: Format, h: nat, x: nat, y: nat) {
    var p := PassOf(x, y);
    var i, j, pt, data := InPassX(p, x), InPassY(p, y), PassFormat(t, p), Rest(raw, t, h, p);
    && RowDecodable(data, pt, j) && (i + 1) * PixelIn(t) <= |SampleRow(data, pt, j)|
    && PixelIs(o, Place(t, x, y), SamplesOf(SampleRow(data, pt, j), i, PixelIn(t)), PixelOut(t))
  }

  lemma InterlacedPixel(final: seq<byte>, raw: seq<byte>, t: Format, h: nat, outs: seq<seq<byte>>, x: nat, y: nat)
    requires Good(t) && |final| == RowBase(t, h) && x < t.x && y < h
    requires |outs| == 7 && PassesDecoded(outs, raw, t, h) && AllPlaced(final, t, h, outs, 7, 0, 0)
    ensures t.depth == 16 ==> |final| % 2 == 0
    ensures FromPass(InPngOrder(final, t.depth), raw, t, h, x, y)
  {
    if t.depth == 16 {
      OutputEven(t, h);
    }
    PassCovers(x, y, t.x, h);
    var p := PassOf(x, y);
    var i, j := InPassX(p, x), InPassY(p, y);
    PlacedAt(final, raw, t, h, outs, p, i, j);
    PixelFromPass(final, outs[p], raw, t, h, p, i, j);
  }

  lemma PlacedAt(o: seq<byte>, raw: seq<byte>, t: Format, h: nat, outs: seq<seq<byte>>, p: Pass, i: nat, j: nat)
    requires |outs| == 7 && AllPlaced(o, t, h, outs, 7, 0, 0) && PassesDecoded(outs, raw, t, h)
    requires i < PassX(p, t.x) && j < PassY(p, h)
    ensures Placed(o, t, outs[p], p, i, j) && PassDecoded(outs[p], raw, t, h, p)
  {
  }

  lemma PixelFromPass(final: seq<byte>, out: seq<byte>, raw: seq<byte>, t: Format, h: nat, p: Pass, i: nat, j: nat)
    requires Good(t) && |final| == RowBase(t, h) && i < PassX(p, t.x) && j < PassY(p, h)
    requires Placed(final, t, out, p, i, j) && PassDecoded(out, raw, t, h, p) && (t.depth == 16 ==> |final| % 2 == 0)
    ensures RowDecodable(Rest(raw, t, h, p), PassFormat(t, p), j)
    ensures (i + 1) * PixelIn(t) <= |SampleRow(Rest(raw, t, h, p), PassFormat(t, p), j)|
    ensures PixelIs(InPngOrder(final, t.depth), Place(t, Column(p, i), Row(p, j)),
      SamplesOf(SampleRow(Rest(raw, t, h, p), PassFormat(t, p), j), i, PixelIn(t)), PixelOut(t))
  {
    var pt, data := PassFormat(t, p), Rest(raw, t, h, p);
    assert FinalRow(InPngOrder(out, t.depth), data, pt, j);
    DecodedPixel(InPngOrder(out, t.depth), data, pt, i, j);
    MovedPixel(final, out, t, h, p, i, j, SamplesOf(SampleRow(data, pt, j), i, PixelIn(t)));
  }

  lemma MovedPixel(final: seq<byte>, out: seq<byte>, t: Format, h: nat, p: Pass, i: nat, j: nat, px: seq<byte>)
    requires Good(t) && |final| == RowBase(t, h) && Placed(final, t, out, p, i, j) && |px| == PixelIn(t)
    requires t.depth == 16 ==> |final| % 2 == |out| % 2 == 0
    requires PixelIs(InPngOrder(out, t.depth), Place(PassFormat(t, p), i, j), px, PixelOut(t))
    ensures PixelIs(InPngOrder(final, t.depth), Place(t, Column(p, i), Row(p, j)), px, PixelOut(t))
  {
    InOrderSlice(final, out, t, h, p, i, j);
    PixelStays(InPngOrder(out, t.depth), InPngOrder(final, t.depth), Place(PassFormat(t, p), i, j),
      Place(t, Column(p, i), Row(p, j)), px, PixelOut(t));
  }

  // ----- an encoder

  /** Rows of pixels of `fb` bytes. */
  predicate IsPixels(img: seq<seq<seq<byte>>>, w: nat, fb: nat) {
    forall y :: 0 <= y < |img| ==> IsPixelRow(img[y], w, fb)
  }

  predicate IsPixelRow(row: seq<seq<byte>>, w: nat, fb: nat) {
    |row| == w && forall x :: 0 <= x < w ==> |row[x]| == fb
  }

  /** The bytes of the first `n` pixels of a row of pass `p`. */
  function PassBytes(row: seq<seq<byte>>, w: nat, fb: nat, p: Pass, n: nat): (r: seq<byte>)
    requires IsPixelRow(row, w, fb) && n <= PassX(p, w)
    ensures |r| == n * fb
  {
    if n == 0 then []
    else
      ColumnBound(XOrig(p), XSpc(p), w, n - 1);
      assert n * fb == (n - 1) * fb + fb;
      PassBytes(row, w, fb, p, n - 1) + row[Column(p, n - 1)]
  }

  lemma {:induction false} PassBytesAt(row: seq<seq<byte>>, w: nat, fb: nat, p: Pass, n: nat, i: nat)
    requires IsPixelRow(row, w, fb) && i < n <= PassX(p, w)
    ensures Column(p, i) < w && (i + 1) * fb <= n * fb
    ensures SamplesOf(PassBytes(row, w, fb, p, n), i, fb) == row[Column(p, i)]
    decreases n
  {
    ColumnBound(XOrig(p), XSpc(p), w, i);
    ColumnBound(XOrig(p), XSpc(p), w, n - 1);
    PixelEnds(i, n, fb);
    var before, last := PassBytes(row, w, fb, p, n - 1), row[Column(p, n - 1)];
    assert PassBytes(row, w, fb, p, n) == before + last;
    if i < n - 1 {
      PassBytesAt(row, w, fb, p, n - 1, i);
      EarlierPart(before, last, i * fb, (i + 1) * fb);
    } else {
      LastPart(before, last);
    }
  }

  lemma PixelEnds(i: nat, n: nat, fb: nat)
    requires i < n
    ensures (i + 1) * fb == i * fb + fb <= n * fb == (n - 1) * fb + fb
    ensures i < n - 1 ==> (i + 1) * fb <= (n - 1) * fb
  {
    TimesApart(i, n, fb);
    if i < n - 1 {
      TimesApart(i, n - 1, fb);
    }
  }

  lemma EarlierPart(a: seq<byte>, b: seq<byte>, lo: nat, hi: nat)
    requires lo <= hi <= |a|
    ensures (a + b)[lo..hi] == a[lo..hi]
  {
  }

  lemma LastPart(a: seq<byte>, b: seq<byte>)
    ensures (a + b)[|a|..|a| + |b|] == b
  {
  }

  /** The rows of a pass. */
  function PassRows(img: seq<seq<seq<byte>>>, w: nat, fb: nat, p: Pass, n: nat): (rows: seq<seq<byte>>)
    requires IsPixels(img, w, fb) && n <= PassY(p, |img|)
    ensures |rows| == n && IsImage(rows, PassX(p, w) * fb)
  {
    if n == 0 then []
    else
      ColumnBound(YOrig(p), YSpc(p), |img|, n - 1);
      var line := PassBytes(img[Row(p, n - 1)], w, fb, p, PassX(p, w));
      assert |line| == PassX(p, w) * fb;
      PassRows(img, w, fb, p, n - 1) + [line]
  }

  lemma {:induction false} PassRowsAt(img: seq<seq<seq<byte>>>, w: nat, fb: nat, p: Pass, n: nat, j: nat)
    requires IsPixels(img, w, fb) && j < n <= PassY(p, |img|)
    ensures Row(p, j) < |img| && IsPixelRow(img[Row(p, j)], w, fb)
    ensures PassRows(img, w, fb, p, n)[j] == PassBytes(img[Row(p, j)], w, fb, p, PassX(p, w))
    decreases n
  {
    ColumnBound(YOrig(p), YSpc(p), |img|, j);
    if j < n - 1 {
      PassRowsAt(img, w, fb, p, n - 1, j);
    }
  }

  /** The filter types an encoder may choose. */
  predicate FilterChoice(filters: seq<seq<FilterType>>, h: nat) {
    |filters| == 7 && forall p: Pass :: |filters[p]| == PassY(p, h)
  }

  /** An image of any depth.  For samples of 1, 2 or 4 bits every sample stands for itself, and a
      pixel has at most eight bits, as all of PNG's formats of these depths have. */
  predicate IsEncodable(img: seq<seq<seq<byte>>>, t: Format, filters: seq<seq<FilterType>>) {
    && Good(t) && PixelIn(t) > 0 && IsPixels(img, t.x, PixelIn(t)) && FilterChoice(filters, |img|)
    && (t.depth < 8 ==> t.img_n * t.depth <= 8 && AreSmall(img, t.depth))
  }

  predicate AreSmall(img: seq<seq<seq<byte>>>, depth: nat) {
    forall y :: 0 <= y < |img| ==> IsSmallRow(img[y], depth)
  }

  predicate IsSmallRow(row: seq<seq<byte>>, depth: nat) {
    forall x :: 0 <= x < |row| ==> IsSmall(row[x], depth)
  }

  predicate IsSmall(samples: seq<byte>, depth: nat) {
    forall k :: 0 <= k < |samples| ==> samples[k] < Pow2(depth)
  }

  /** Packed rows fit the place of a row exactly if a pixel has at most eight bits. */
  lemma PackedFits(t: Format)
    requires Good(t) && t.depth < 8
    ensures Width(t) <= t.x <==> t.img_n * t.depth <= 8
  {
    var k := t.img_n * t.depth;
    assert t.img_n * t.x * t.depth == k * t.x;
    if k <= 8 {
      assert k * t.x <= 8 * t.x;
    } else {
      assert k * t.x >= 9 * t.x;
    }
  }

  function Samples(row: seq<byte>): (r: seq<nat>)
    ensures |r| == |row|
  {
    seq(|row|, k requires 0 <= k < |row| => row[k])
  }

  function SampleRows(rows: seq<seq<byte>>): (r: seq<seq<nat>>)
    ensures |r| == |rows|
  {
    seq(|rows|, j requires 0 <= j < |rows| => Samples(rows[j]))
  }

  lemma {:induction false} PassBytesSmall(row: seq<seq<byte>>, w: nat, fb: nat, p: Pass, n: nat, depth: nat)
    requires IsPixelRow(row, w, fb) && n <= PassX(p, w) && IsSmallRow(row, depth)
    ensures IsSmall(PassBytes(row, w, fb, p, n), depth)
  {
    if n > 0 {
      PassBytesSmall(row, w, fb, p, n - 1, depth);
      ColumnBound(XOrig(p), XSpc(p), w, n - 1);
      assert IsSmall(row[Column(p, n - 1)], depth);
    }
  }

  /** The samples of the rows of a pass. */
  function PassSamples(img: seq<seq<seq<byte>>>, t: Format, p: Pass): (r: seq<seq<nat>>)
    requires Good(t) && IsPixels(img, t.x, PixelIn(t))
    ensures |r| == PassY(p, |img|)
  {
    SampleRows(PassRows(img, t.x, PixelIn(t), p, PassY(p, |img|)))
  }

  lemma PassSamplesOk(img: seq<seq<seq<byte>>>, t: Format, p: Pass, n: nat)
    requires Good(t) && t.depth < 8 && IsPixels(img, t.x, PixelIn(t)) && AreSmall(img, t.depth)
    requires n == t.img_n * PassX(p, t.x)
    ensures AreSamples(PassSamples(img, t, p), n, t.depth)
  {
    var rows := PassRows(img, t.x, PixelIn(t), p, PassY(p, |img|));
    RowBytes(PassX(p, t.x), t.img_n, t.depth);
    forall j | 0 <= j < |rows|
      ensures |Samples(rows[j])| == n && Below(Samples(rows[j]), Pow2(t.depth))
    {
      PassRowsAt(img, t.x, PixelIn(t), p, PassY(p, |img|), j);
      PassBytesSmall(img[Row(p, j)], t.x, PixelIn(t), p, PassX(p, t.x), t.depth);
    }
  }

  lemma SmallFormat(t: Format, h: nat, p: Pass)
    requires Good(t) && t.depth < 8 && t.img_n * t.depth <= 8 && !EmptyPass(t, h, p)
    ensures Good(PassFormat(t, p)) && Width(PassFormat(t, p)) <= PassX(p, t.x)
  {
    PassGood(t, h, p);
    PackedFits(PassFormat(t, p));
  }

  function EncodedPass(img: seq<seq<seq<byte>>>, t: Format, filters: seq<seq<FilterType>>, p: Pass): (r: seq<byte>)
    requires IsEncodable(img, t, filters)
    ensures |r| == PassLength(t, |img|, p)
  {
    if EmptyPass(t, |img|, p) then []
    else if t.depth < 8 then SmallEncoded(img, t, filters, p)
    else LargeEncoded(img, t, filters, p)
  }

  lemma SmallReady(img: seq<seq<seq<byte>>>, t: Format, filters: seq<seq<FilterType>>, p: Pass)
    requires IsEncodable(img, t, filters) && t.depth < 8 && !EmptyPass(t, |img|, p)
    ensures var pt := PassFormat(t, p);
      && Good(pt) && Width(pt) <= pt.x && AreSamples(PassSamples(img, t, p), pt.img_n * pt.x, pt.depth)
    ensures |filters[p]| == |PassSamples(img, t, p)| == PassY(p, |img|)
  {
    SmallFormat(t, |img|, p);
    PassSamplesOk(img, t, p, t.img_n * PassX(p, t.x));
  }

  function SmallEncoded(img: seq<seq<seq<byte>>>, t: Format, filters: seq<seq<FilterType>>, p: Pass): (r: seq<byte>)
    requires IsEncodable(img, t, filters) && t.depth < 8 && !EmptyPass(t, |img|, p)
    ensures |r| == (Width(PassFormat(t, p)) + 1) * PassY(p, |img|)
  {
    SmallReady(img, t, filters, p);
    EncodedSmall(PassFormat(t, p), PassSamples(img, t, p), filters[p])
  }

  function LargeEncoded(img: seq<seq<seq<byte>>>, t: Format, filters: seq<seq<FilterType>>, p: Pass): (r: seq<byte>)
    requires IsEncodable(img, t, filters) && t.depth >= 8 && !EmptyPass(t, |img|, p)
    ensures |r| == PassLength(t, |img|, p)
  {
    PassWidth(t, p);
    Encoded(PassRows(img, t.x, PixelIn(t), p, PassY(p, |img|)), Width(PassFormat(t, p)), PixelIn(t), filters[p])
  }

  lemma PassWidth(t: Format, p: Pass)
    requires Good(t) && t.depth >= 8
    ensures Width(PassFormat(t, p)) == PassX(p, t.x) * PixelIn(t)
  {
    var x := PassX(p, t.x);
    RowBytes(x, t.img_n, t.depth);
    WidthOf(x, t.img_n, t.depth);
  }

  lemma WidthOf(x: nat, n: nat, depth: nat)
    requires depth == 8 || depth == 16
    ensures WidthBytes(x, n, depth) == InBytes(n * x, depth)
  {
  }

  /** What the decoder shows for the samples of a pixel: small samples are scaled. */
  function Displayed(px: seq<byte>, t: Format): (r: seq<byte>)
    requires Good(t) && (t.depth < 8 ==> IsSmall(px, t.depth))
    ensures |r| == |px| && if t.depth < 8 then ShowsSamples(r, Samples(px), t.depth, t.color) else r == px
  {
    if t.depth < 8 then ScaledShows(Samples(px), t.depth, t.color); ScaledRow(Samples(px), t.depth, t.color) else px
  }

  function Concat(pieces: seq<seq<byte>>, p: nat): seq<byte>
    requires p <= |pieces|
    decreases |pieces| - p
  {
    if p == |pieces| then [] else pieces[p] + Concat(pieces, p + 1)
  }

  lemma DropFirst(piece: seq<byte>, rest: seq<byte>, more: seq<byte>)
    ensures piece + rest + more == piece + (rest + more) && (piece + (rest + more))[|piece|..] == rest + more
  {
  }

  lemma {:induction false} RestOfConcat(pieces: seq<seq<byte>>, lens: seq<nat>, more: seq<byte>, p: nat)
    requires |pieces| == |lens| && p < |lens| && forall q :: 0 <= q < |lens| ==> |pieces[q]| == lens[q]
    ensures RestOf(Concat(pieces, 0) + more, lens, p) == pieces[p] + (Concat(pieces, p + 1) + more)
  {
    DropFirst(pieces[p], Concat(pieces, p + 1), more);
    if p > 0 {
      RestOfConcat(pieces, lens, more, p - 1);
      DropFirst(pieces[p - 1], Concat(pieces, p), more);
    }
  }

  /** The data an encoder makes: the passes one after the other. */
  function EncodedPasses(img: seq<seq<seq<byte>>>, t: Format, filters: seq<seq<FilterType>>): (pieces: seq<seq<byte>>)
    requires IsEncodable(img, t, filters)
    ensures |pieces| == 7
  {
    seq(7, p requires 0 <= p < 7 => EncodedPass(img, t, filters, p))
  }

  function EncodedImage(img: seq<seq<seq<byte>>>, t: Format, filters: seq<seq<FilterType>>): seq<byte>
    requires IsEncodable(img, t, filters)
  {
    Concat(EncodedPasses(img, t, filters), 0)
  }

  /** What follows the data of pass `p`. */
  function AfterPass(img: seq<seq<seq<byte>>>, t: Format, filters: seq<seq<FilterType>>, more: seq<byte>,
      p: Pass): seq<byte>
    requires IsEncodable(img, t, filters)
  {
    Concat(EncodedPasses(img, t, filters), p + 1) + more
  }

  /** Each pass finds its own data. */
  lemma RestOfEncoded(img: seq<seq<seq<byte>>>, t: Format, filters: seq<seq<FilterType>>, more: seq<byte>,
      raw: seq<byte>, p: Pass)
    requires IsEncodable(img, t, filters) && raw == EncodedImage(img, t, filters) + more
    ensures Rest(raw, t, |img|, p) == EncodedPass(img, t, filters, p) + AfterPass(img, t, filters, more, p)
  {
    var pieces, lens := EncodedPasses(img, t, filters), PassLengths(t, |img|);
    forall q | 0 <= q < 7
      ensures |pieces[q]| == lens[q]
    {
      assert pieces[q] == EncodedPass(img, t, filters, q);
    }
    RestOfConcat(pieces, lens, more, p);
  }

  /** A pass of an encoded image decodes to the pixels of the image. */
  lemma EncodedPassDecodes(img: seq<seq<seq<byte>>>, t: Format, filters: seq<seq<FilterType>>, more: seq<byte>,
      p: Pass, i: nat, j: nat)
    requires IsEncodable(img, t, filters) && i < PassX(p, t.x) && j < PassY(p, |img|)
    ensures var raw, pt := EncodedPass(img, t, filters, p) + more, PassFormat(t, p);
      && Column(p, i) < t.x && Row(p, j) < |img| && IsPixelRow(img[Row(p, j)], t.x, PixelIn(t))
      && Decodable(raw, pt, PassY(p, |img|)) && RowDecodable(raw, pt, j)
      && (i + 1) * PixelIn(t) <= |SampleRow(raw, pt, j)|
      && (t.depth < 8 ==> IsSmall(img[Row(p, j)][Column(p, i)], t.depth))
      && SamplesOf(SampleRow(raw, pt, j), i, PixelIn(t)) == Displayed(img[Row(p, j)][Column(p, i)], t)
  {
    var n := PassY(p, |img|);
    PassRowsAt(img, t.x, PixelIn(t), p, n, j);
    PassBytesAt(img[Row(p, j)], t.x, PixelIn(t), p, PassX(p, t.x), i);
    if t.depth < 8 {
      SmallPassDecodes(img, t, filters, more, p, i, j);
    } else {
      PassGood(t, |img|, p);
      PassWidth(t, p);
      LargeRoundTrip(PassFormat(t, p), PassRows(img, t.x, PixelIn(t), p, n), filters[p], more,
        EncodedPass(img, t, filters, p) + more, j);
    }
  }

  lemma SmallPassDecodes(img: seq<seq<seq<byte>>>, t: Format, filters: seq<seq<FilterType>>, more: seq<byte>, p: Pass,
      i: nat, j: nat)
    requires IsEncodable(img, t, filters) && t.depth < 8 && i < PassX(p, t.x) && j < PassY(p, |img|)
    requires Column(p, i) < t.x && Row(p, j) < |img| && IsPixelRow(img[Row(p, j)], t.x, PixelIn(t))
    ensures var raw, pt := EncodedPass(img, t, filters, p) + more, PassFormat(t, p);
      && Decodable(raw, pt, PassY(p, |img|)) && RowDecodable(raw, pt, j)
      && (i + 1) * PixelIn(t) <= |SampleRow(raw, pt, j)|
      && IsSmall(img[Row(p, j)][Column(p, i)], t.depth)
      && SamplesOf(SampleRow(raw, pt, j), i, PixelIn(t)) == Displayed(img[Row(p, j)][Column(p, i)], t)
  {
    var raw := EncodedPass(img, t, filters, p) + more;
    SmallReady(img, t, filters, p);
    SmallRoundTrip(PassFormat(t, p), PassSamples(img, t, p), filters[p], more, raw, j);
    SmallPixel(img, t, p, i, j);
  }

  /** The pixel in the samples of a row of a pass. */
  lemma SmallPixel(img: seq<seq<seq<byte>>>, t: Format, p: Pass, i: nat, j: nat)
    requires Good(t) && t.depth < 8 && IsPixels(img, t.x, PixelIn(t)) && AreSmall(img, t.depth)
    requires i < PassX(p, t.x) && j < PassY(p, |img|)
    requires Column(p, i) < t.x && Row(p, j) < |img| && IsPixelRow(img[Row(p, j)], t.x, PixelIn(t))
    requires Below(PassSamples(img, t, p)[j], Pow2(t.depth))
    ensures (i + 1) * PixelIn(t) <= |PassSamples(img, t, p)[j]|
    ensures IsSmall(img[Row(p, j)][Column(p, i)], t.depth)
    ensures SamplesOf(ScaledRow(PassSamples(img, t, p)[j], t.depth, t.color), i, PixelIn(t))
      == Displayed(img[Row(p, j)][Column(p, i)], t)
  {
    var fb, n := PixelIn(t), PassY(p, |img|);
    PassRowsAt(img, t.x, fb, p, n, j);
    PassBytesAt(img[Row(p, j)], t.x, fb, p, PassX(p, t.x), i);
    assert IsSmallRow(img[Row(p, j)], t.depth) && IsSmall(img[Row(p, j)][Column(p, i)], t.depth);
    ScaledSamples(PassRows(img, t.x, fb, p, n)[j], i, fb, t);
  }

  /** Scaling a row scales each of its pixels. */
  lemma ScaledSamples(row: seq<byte>, i: nat, fb: nat, t: Format)
    requires Good(t) && t.depth < 8 && (i + 1) * fb <= |row| && Below(Samples(row), Pow2(t.depth))
    ensures IsSmall(SamplesOf(row, i, fb), t.depth)
    ensures SamplesOf(ScaledRow(Samples(row), t.depth, t.color), i, fb) == Displayed(SamplesOf(row, i, fb), t)
  {
    assert (i + 1) * fb == i * fb + fb;
    var px := SamplesOf(row, i, fb);
    forall k | 0 <= k < fb
      ensures px[k] < Pow2(t.depth)
    {
      assert px[k] == Samples(row)[i * fb + k];
    }
    var a, b := SamplesOf(ScaledRow(Samples(row), t.depth, t.color), i, fb), Displayed(px, t);
    forall k | 0 <= k < fb
      ensures a[k] == b[k]
    {
      assert px[k] == Samples(row)[i * fb + k];
    }
  }

  lemma EncodedPassOk(img: seq<seq<seq<byte>>>, t: Format, filters: seq<seq<FilterType>>, more: seq<byte>, p: Pass)
    requires IsEncodable(img, t, filters)
    ensures PassOk(EncodedImage(img, t, filters) + more, t, |img|, p)
  {
    if !EmptyPass(t, |img|, p) {
      RestOfEncoded(img, t, filters, more, EncodedImage(img, t, filters) + more, p);
      EncodedPassDecodes(img, t, filters, AfterPass(img, t, filters, more, p), p, 0, 0);
    }
  }

  lemma RoundTripAt(img: seq<seq<seq<byte>>>, t: Format, filters: seq<seq<FilterType>>, more: seq<byte>, raw: seq<byte>,
    final: seq<byte>, out: seq<byte>, p: Pass, i: nat, j: nat)
    requires IsEncodable(img, t, filters) && raw == EncodedImage(img, t, filters) + more
    requires |final| == RowBase(t, |img|) && (t.depth == 16 ==> |final| % 2 == 0)
    requires i < PassX(p, t.x) && j < PassY(p, |img|)
    requires PassDecoded(out, raw, t, |img|, p) && Placed(final, t, out, p, i, j)
    ensures Column(p, i) < t.x && Row(p, j) < |img| && IsPixelRow(img[Row(p, j)], t.x, PixelIn(t))
    ensures t.depth < 8 ==> IsSmall(img[Row(p, j)][Column(p, i)], t.depth)
    ensures PixelIs(InPngOrder(final, t.depth), Place(t, Column(p, i), Row(p, j)),
      Displayed(img[Row(p, j)][Column(p, i)], t), PixelOut(t))
  {
    RestOfEncoded(img, t, filters, more, raw, p);
    EncodedPassDecodes(img, t, filters, AfterPass(img, t, filters, more, p), p, i, j);
    PixelFromPass(final, out, raw, t, |img|, p, i, j);
  }

  /** The pixel in column `x` of row `y` of the output is that of the image. */
  ghost predicate ShowsPixel(final: seq<byte>, img: seq<seq<seq<byte>>>, t: Format, x: nat, y: nat)
    requires Good(t) && (t.depth == 16 ==> |final| % 2 == 0) && x < t.x && y < |img|
  {
    && IsPixelRow(img[y], t.x, PixelIn(t)) && (t.depth < 8 ==> IsSmall(img[y][x], t.depth))
    && PixelIs(InPngOrder(final, t.depth), Place(t, x, y), Displayed(img[y][x], t), PixelOut(t))
  }

  /** If the passes an encoder makes of any image of any depth, filtered in any way, are decoded,
      every output pixel is the pixel of the image, small samples scaled, followed by opaque alpha
      if it is asked for. */
  lemma InterlacedRoundTrip(img: seq<seq<seq<byte>>>, t: Format, filters: seq<seq<FilterType>>, more: seq<byte>,
      raw: seq<byte>, final: seq<byte>, outs: seq<seq<byte>>, x: nat, y: nat)
    requires IsEncodable(img, t, filters) && raw == EncodedImage(img, t, filters) + more && x < t.x && y < |img|
    requires |final| == RowBase(t, |img|) && |outs| == 7
    requires PassesDecoded(outs, raw, t, |img|) && AllPlaced(final, t, |img|, outs, 7, 0, 0)
    ensures t.depth == 16 ==> |final| % 2 == 0
    ensures ShowsPixel(final, img, t, x, y)
  {
    if t.depth == 16 {
      OutputEven(t, |img|);
    }
    PassCovers(x, y, t.x, |img|);
    var p := PassOf(x, y);
    var i, j := InPassX(p, x), InPassY(p, y);
    PlacedAt(final, raw, t, |img|, outs, p, i, j);
    RoundTripAt(img, t, filters, more, raw, final, outs[p], p, i, j);
  }

  /** What an encoder makes of an image is accepted, and every pixel of the output is that of the
      image: the round trip through `stbi__create_png_image`. */
  method CreateEncoded(raw: seq<byte>, t: Format, h: nat, ghost img: seq<seq<seq<byte>>>,
      ghost filters: seq<seq<FilterType>>, ghost more: seq<byte>) returns (ok: bool, final: array<byte>)
    requires IsEncodable(img, t, filters) && h == |img| && raw == EncodedImage(img, t, filters) + more
    ensures ok && fresh(final) && final.Length == RowBase(t, h) && (t.depth == 16 ==> final.Length % 2 == 0)
    ensures forall x, y :: 0 <= x < t.x && 0 <= y < h ==> ShowsPixel(final[..], img, t, x, y)
  {
    ghost var outs;
    ok, final, outs := CreatePngImage(raw, t, h);
    forall p: Pass
      ensures PassOk(raw, t, h, p)
    {
      EncodedPassOk(img, t, filters, more, p);
    }
    if t.depth == 16 {
      OutputEven(t, h);
    }
    forall x, y | 0 <= x < t.x && 0 <= y < h
      ensures ShowsPixel(final[..], img, t, x, y)
    {
      InterlacedRoundTrip(img, t, filters, more, raw, final[..], outs, x, y);
    }
  }
}
