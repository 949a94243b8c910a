/** `stbi__create_png_image_raw` as a whole: unfiltering, then unpacking of small samples or the
    byte order of 16-bit samples.

    Each pass over the buffer is proved to leave what the passes before it made of other rows,
    and the round trips say that an encoder's image comes back. */
module PngImage {
  import opened Bits
  import opened PngFilter
  import opened PngUnfilter
  import opened PngRows
  import opened PngUnpack

  /** The size, sample format and colour type of an image. */
  datatype Format = Format(x: nat, img_n: nat, out_n: nat, depth: nat, color: nat)

  predicate Good(t: Format) {
    GoodFormat(t.x, t.img_n, t.out_n, t.depth)
  }

  function Width(t: Format): nat {
    WidthBytes(t.x, t.img_n, t.depth)
  }

  function Stride(t: Format): nat {
    InBytes(t.x * t.out_n, t.depth)
  }

  function RowBase(t: Format, j: nat): nat {
    Stride(t) * j
  }

  /** Bytes of a pixel in the data and in the output. */
  function PixelIn(t: Format): nat {
    InBytes(t.img_n, t.depth)
  }

  function PixelOut(t: Format): nat {
    InBytes(t.out_n, t.depth)
  }

  /** The distance that filters look back. */
  function FilterBytes(t: Format): nat {
    if t.depth < 8 then 1 else PixelIn(t)
  }

  /** The data is long enough and every filter type is known; packed rows fit. */
  predicate Decodable(raw: seq<byte>, t: Format, y: nat) {
    GoodFilters(raw, Width(t), y) && (y > 0 && t.depth < 8 ==> Width(t) <= t.x)
  }

  predicate RowDecodable(raw: seq<byte>, t: Format, j: nat) {
    Good(t) && GoodFilters(raw, Width(t), j + 1)
  }

  /** The samples of row `j`: PNG's reconstruction, and for small samples its unpacking. */
  function SampleRow(raw: seq<byte>, t: Format, j: nat): seq<byte>
    requires RowDecodable(raw, t, j)
  {
    var row := ImageRow(raw, Width(t), FilterBytes(t), j);
    if t.depth < 8 then
      PackedBytesIs(t.img_n * t.x, t.depth);
      Unpacked(row, t.depth, t.color, t.img_n * t.x)
    else row
  }

  /** Row `j` of the output shows the samples, every pixel followed by opaque alpha if asked for. */
  ghost predicate FinalRow(o: seq<byte>, raw: seq<byte>, t: Format, j: nat) {
    && RowDecodable(raw, t, j) && RowBase(t, j) + Stride(t) <= |o|
    && Shown(o, RowBase(t, j), Stride(t), SampleRow(raw, t, j), PixelIn(t), PixelOut(t), true)
  }

  ghost predicate FinalRows(o: seq<byte>, raw: seq<byte>, t: Format, y: nat) {
    forall j: nat :: j < y ==> FinalRow(o, raw, t, j)
  }

  // ----- samples of 8 or 16 bits

  lemma LargeRow(o: seq<byte>, raw: seq<byte>, t: Format, j: nat)
    requires Good(t) && t.depth >= 8 && RowShown(o, raw, LayoutOf(t.x, t.img_n, t.out_n, t.depth), j)
    requires RowBase(t, j) + Stride(t) <= |o|
    ensures FinalRow(o, raw, t, j)
  {
    WidthIs(t.x, t.img_n, t.depth);
  }

  // ----- samples of 1, 2 or 4 bits

  lemma StrideSmall(t: Format)
    requires Good(t) && t.depth < 8
    ensures Stride(t) == t.x * t.out_n && PixelIn(t) == t.img_n && PixelOut(t) == t.out_n
    ensures t.out_n == t.img_n ==> Stride(t) == t.img_n * t.x
    ensures t.out_n != t.img_n && t.img_n == 1 ==> Stride(t) == 2 * t.x && t.img_n * t.x == t.x
    ensures t.out_n != t.img_n && t.img_n == 3 ==> Stride(t) == 4 * t.x && t.img_n * t.x == 3 * t.x
    ensures t.img_n * t.x <= Stride(t)
    ensures Width(t) == PackedBytes(t.img_n * t.x, t.depth) <= t.img_n * t.x
  {
    SmallProducts(t.x, t.img_n, t.out_n);
    PackedBytesIs(t.img_n * t.x, t.depth);
  }

  lemma SmallProducts(x: nat, img_n: nat, out_n: nat)
    requires 0 < x && 0 < img_n && (out_n == img_n || out_n == img_n + 1)
    ensures 0 < img_n * x <= x * out_n
    ensures out_n == img_n ==> x * out_n == img_n * x
    ensures img_n == 1 ==> img_n * x == x && (out_n == 2 ==> x * out_n == 2 * x)
    ensures img_n == 3 ==> img_n * x == 3 * x && (out_n == 4 ==> x * out_n == 4 * x)
  {
    if out_n == img_n + 1 {
      assert x * out_n == x * img_n + x;
    }
  }

  /** The row at `base`: unpack its `n` samples, and insert alpha if it is asked for. */
  method ExpandAt(out: array<byte>, base: nat, stride: nat, x: nat, n: nat, img_n: nat, out_n: nat, depth: nat,
      color: nat,
      ghost packed: seq<byte>)
    requires Small(depth) && 0 < img_n && base + stride <= out.Length && |packed| == PackedBytes(n, depth) <= n
    requires if out_n == img_n then stride == n
      else
        && out_n == img_n + 1
        && ((img_n == 1 && n == x && stride == 2 * x) || (img_n == 3 && n == 3 * x && stride == 4 * x))
    requires Flat(out[..], base + stride - |packed|, packed)
    modifies out
    ensures Shown(out[..], base, stride, Unpacked(packed, depth, color, n), img_n, out_n, true)
    ensures forall p :: 0 <= p < out.Length && !(base <= p < base + stride) ==> out[p] == old(out[p])
  {
    UnpackRow(out, base, stride, packed, depth, color, n);
    if img_n != out_n {
      if img_n == 1 {
        AlphaAfterOne(out, base, x, Unpacked(packed, depth, color, n));
      } else {
        AlphaAfterThree(out, base, x, Unpacked(packed, depth, color, n));
      }
    } else {
      FlatIsShown(out[..], base, Unpacked(packed, depth, color, n), img_n);
    }
  }

  lemma PackedInPlace(o: seq<byte>, raw: seq<byte>, t: Format, j: nat)
    requires Good(t) && t.depth < 8 && Width(t) <= t.x
    requires RowShown(o, raw, LayoutOf(t.x, t.img_n, t.out_n, t.depth), j)
    ensures Width(t) <= Stride(t) && RowDecodable(raw, t, j)
    ensures Flat(o, RowBase(t, j) + Stride(t) - Width(t), ImageRow(raw, Width(t), 1, j))
  {
    StrideSmall(t);
    var start := RowBase(t, j) + Stride(t) - Width(t);
    assert RowStart(LayoutOf(t.x, t.img_n, t.out_n, t.depth), j) == start;
    FlatIsShown(o, start, ImageRow(raw, Width(t), 1, j), 1);
  }

  lemma SmallRow(o: seq<byte>, raw: seq<byte>, t: Format, j: nat)
    requires Good(t) && t.depth < 8 && RowDecodable(raw, t, j) && RowBase(t, j) + Stride(t) <= |o|
    requires PackedBytes(t.img_n * t.x, t.depth) == Width(t)
    requires Shown(o, RowBase(t, j), Stride(t),
      Unpacked(ImageRow(raw, Width(t), 1, j), t.depth, t.color, t.img_n * t.x), t.img_n, t.out_n, true)
    ensures FinalRow(o, raw, t, j)
  {
    StrideSmall(t);
  }

  /** One turn of the expansion pass. */
  method ExpandRow(out: array<byte>, ghost raw: seq<byte>, t: Format, j: nat)
    requires Good(t) && t.depth < 8 && Width(t) <= t.x && RowBase(t, j) + Stride(t) <= out.Length
    requires RowShown(out[..], raw, LayoutOf(t.x, t.img_n, t.out_n, t.depth), j)
    modifies out
    ensures FinalRow(out[..], raw, t, j)
    ensures forall p :: 0 <= p < out.Length && !(RowBase(t, j) <= p < RowBase(t, j) + Stride(t)) ==>
      out[p] == old(out[p])
  {
    StrideSmall(t);
    var base := RowBase(t, j);
    PackedInPlace(out[..], raw, t, j);
    ghost var packed := ImageRow(raw, Width(t), 1, j);
    ExpandAt(out, base, Stride(t), t.x, t.img_n * t.x, t.img_n, t.out_n, t.depth, t.color, packed);
    SmallRow(out[..], raw, t, j);
  }

  /** Rows before `j` are final, and rows from `j` on are as unfiltering left them. */
  ghost predicate Expanded(o: seq<byte>, raw: seq<byte>, t: Format, y: nat, j: nat) {
    && Good(t) && t.depth < 8 && Width(t) <= t.x && |o| == RowBase(t, y) && FinalRows(o, raw, t, j)
    && forall i: nat :: j <= i < y ==> RowShown(o, raw, LayoutOf(t.x, t.img_n, t.out_n, t.depth), i)
  }

  lemma ExpandedStep(o: seq<byte>, o2: seq<byte>, raw: seq<byte>, t: Format, y: nat, j: nat)
    requires j < y && Expanded(o, raw, t, y, j) && |o2| == |o| && FinalRow(o2, raw, t, j)
    requires forall p :: 0 <= p < |o| && !(RowBase(t, j) <= p < RowBase(t, j) + Stride(t)) ==> o2[p] == o[p]
    ensures Expanded(o2, raw, t, y, j + 1)
  {
    forall i: nat | i < j + 1
      ensures FinalRow(o2, raw, t, i)
    {
      if i < j {
        EarlierRowStays(o, o2, raw, t, j, i);
      }
    }
    forall i: nat | j + 1 <= i < y
      ensures RowShown(o2, raw, LayoutOf(t.x, t.img_n, t.out_n, t.depth), i)
    {
      LaterRowStays(o, o2, raw, t, j, i);
    }
  }

  lemma EarlierRowStays(o: seq<byte>, o2: seq<byte>, raw: seq<byte>, t: Format, j: nat, i: nat)
    requires i < j && FinalRow(o, raw, t, i) && |o2| == |o|
    requires forall p :: 0 <= p < |o| && !(RowBase(t, j) <= p < RowBase(t, j) + Stride(t)) ==> o2[p] == o[p]
    ensures FinalRow(o2, raw, t, i)
  {
    TimesApart(i, j, Stride(t));
    ShownStays(o, o2, RowBase(t, i), Stride(t), SampleRow(raw, t, i), PixelIn(t), PixelOut(t), true);
  }

  lemma LaterRowStays(o: seq<byte>, o2: seq<byte>, raw: seq<byte>, t: Format, j: nat, i: nat)
    requires Good(t) && t.depth < 8 && Width(t) <= t.x && j < i && |o2| == |o|
    requires RowShown(o, raw, LayoutOf(t.x, t.img_n, t.out_n, t.depth), i)
    requires forall p :: 0 <= p < |o| && !(RowBase(t, j) <= p < RowBase(t, j) + Stride(t)) ==> o2[p] == o[p]
    ensures RowShown(o2, raw, LayoutOf(t.x, t.img_n, t.out_n, t.depth), i)
  {
    var l := LayoutOf(t.x, t.img_n, t.out_n, t.depth);
    StrideSmall(t);
    TimesApart(j, i, Stride(t));
    assert RowStart(l, i) == RowBase(t, i) + l.shift;
    ShownStays(o, o2, RowStart(l, i), l.n, ImageRow(raw, l.w, l.fb, i), l.fb, l.ob, true);
  }

  /** The separate pass that expands bits to samples. */
  method ExpandRows(out: array<byte>, ghost raw: seq<byte>, t: Format, y: nat)
    requires Expanded(out[..], raw, t, y, 0)
    modifies out
    ensures FinalRows(out[..], raw, t, y)
  {
    for j := 0 to y
      invariant Expanded(out[..], raw, t, y, j)
    {
      ghost var before := out[..];
      TimesApart(j, y, Stride(t));
      assert RowShown(before, raw, LayoutOf(t.x, t.img_n, t.out_n, t.depth), j);
      ExpandRow(out, raw, t, j);
      ExpandedStep(before, out[..], raw, t, y, j);
    }
  }

  // ----- the byte order of 16-bit samples

  /** PNG's big-endian samples as a little-endian machine stores them, and back. */
  function Native(o: seq<byte>): (r: seq<byte>)
    requires |o| % 2 == 0
    ensures |r| == |o|
  {
    seq(|o|, p requires 0 <= p < |o| => if p % 2 == 0 then o[p + 1] else o[p - 1])
  }

  lemma NativeTwice(o: seq<byte>)
    requires |o| % 2 == 0
    ensures Native(Native(o)) == o
  {
  }

  function BigEndian(a: int, b: int): int {
    a * 0x100 + b
  }

  method SwapBytes(out: array<byte>, n: nat)
    requires out.Length == 2 * n
    modifies out
    ensures out[..] == Native(old(out[..]))
  {
    ghost var was, target := out[..], Native(out[..]);
    for i := 0 to n
      invariant forall p :: 0 <= p < 2 * i ==> out[p] == target[p]
      invariant forall p :: 2 * i <= p < 2 * n ==> out[p] == was[p]
    {
      NativePair(was, i);
      var cur16 := BigEndian(out[2 * i], out[2 * i + 1]);
      out[2 * i], out[2 * i + 1] := cur16 % 0x100, cur16 / 0x100;
    }
  }

  lemma NativePair(o: seq<byte>, i: nat)
    requires |o| % 2 == 0 && 2 * i + 1 < |o|
    ensures Native(o)[2 * i] == o[2 * i + 1] && Native(o)[2 * i + 1] == o[2 * i]
  {
    assert (2 * i) % 2 == 0 && (2 * i + 1) % 2 == 1;
  }

  // ----- the whole image

  /** The output in PNG's byte order. */
  function InPngOrder(o: seq<byte>, depth: nat): seq<byte>
    requires depth == 16 ==> |o| % 2 == 0
  {
    if depth == 16 then Native(o) else o
  }

  lemma OutputEven(t: Format, y: nat)
    requires t.depth == 16
    ensures RowBase(t, y) % 2 == 0 && RowBase(t, y) == 2 * (t.x * t.out_n * y)
  {
    assert Stride(t) == 2 * (t.x * t.out_n);
    assert 2 * (t.x * t.out_n) * y == 2 * (t.x * t.out_n * y);
  }

  /** `stbi__create_png_image_raw`: it succeeds exactly when the data is long enough, every filter
      type is known and packed rows fit, and then every output row is the reconstructed row. */
  method CreatePngImageRaw(raw: seq<byte>, t: Format, y: nat) returns (ok: bool, out: array<byte>)
    requires Good(t)
    ensures fresh(out) && out.Length == RowBase(t, y) && (t.depth == 16 ==> out.Length % 2 == 0)
    ensures ok <==> Decodable(raw, t, y)
    ensures ok ==> FinalRows(InPngOrder(out[..], t.depth), raw, t, y)
  {
    out := new byte[RowBase(t, y)];
    if t.depth == 16 {
      OutputEven(t, y);
    }
    var img_len := (Width(t) + 1) * y;
    if |raw| < img_len {
      return false, out;
    }
    ok := UnfilterRows(out, raw, t.x, y, t.img_n, t.out_n, t.depth);
    if !ok || y == 0 {
      return;
    }
    if t.depth < 8 {
      NothingExpanded(out[..], raw, t, y);
      ExpandRows(out, raw, t, y);
    } else {
      AllLarge(out[..], raw, t, y);
      if t.depth == 16 {
        NativeTwice(out[..]);
        SwapBytes(out, t.x * t.out_n * y);
      }
    }
  }

  lemma NothingExpanded(o: seq<byte>, raw: seq<byte>, t: Format, y: nat)
    requires Good(t) && t.depth < 8 && Width(t) <= t.x && |o| == RowBase(t, y)
    requires RowsShown(o, raw, LayoutOf(t.x, t.img_n, t.out_n, t.depth), y)
    ensures Expanded(o, raw, t, y, 0)
  {
  }

  lemma AllLarge(o: seq<byte>, raw: seq<byte>, t: Format, y: nat)
    requires Good(t) && t.depth >= 8 && |o| == RowBase(t, y)
    requires RowsShown(o, raw, LayoutOf(t.x, t.img_n, t.out_n, t.depth), y)
    ensures FinalRows(o, raw, t, y)
  {
    forall j: nat | j < y
      ensures FinalRow(o, raw, t, j)
    {
      TimesApart(j, y, Stride(t));
      LargeRow(o, raw, t, j);
    }
  }

  // ----- what an encoder wrote is what is shown

  /** Rows of 8-bit or 16-bit samples, filtered in any way, possibly followed by more data. */
  lemma LargeRoundTrip(t: Format, rows: seq<seq<byte>>, filters: seq<FilterType>, more: seq<byte>, raw: seq<byte>,
      j: nat)
    requires Good(t) && t.depth >= 8 && IsImage(rows, Width(t)) && |filters| == |rows| && j < |rows|
    requires raw == Encoded(rows, Width(t), FilterBytes(t), filters) + more
    ensures Decodable(raw, t, |rows|) && RowDecodable(raw, t, j) && SampleRow(raw, t, j) == rows[j]
  {
    DecodeEncodedImage(rows, Width(t), FilterBytes(t), filters, more, raw, j);
    var row := ImageRow(raw, Width(t), FilterBytes(t), j);
    assert SampleRow(raw, t, j) == row;
  }

  /** Rows of samples that fit `depth` bits. */
  predicate AreSamples(pixels: seq<seq<nat>>, n: nat, depth: nat) {
    forall j :: 0 <= j < |pixels| ==> |pixels[j]| == n && Below(pixels[j], Pow2(depth))
  }

  predicate Below(row: seq<nat>, bound: nat) {
    forall k :: 0 <= k < |row| ==> row[k] < bound
  }

  function PackRows(pixels: seq<seq<nat>>, depth: nat): (rows: seq<seq<byte>>)
    requires Small(depth)
    ensures |rows| == |pixels|
  {
    seq(|pixels|, j requires 0 <= j < |pixels| => PackRow(pixels[j], depth))
  }

  function ScaledRow(row: seq<nat>, depth: nat, color: nat): (r: seq<byte>)
    requires Small(depth) && Below(row, Pow2(depth))
    ensures |r| == |row|
  {
    seq(|row|, k requires 0 <= k < |row| => Scaled(row[k], depth, color))
  }

  /** `shown` are the samples of `row`: grey ones in proportion, so that the brightest is 255, and palette
      indices and others unchanged. */
  predicate ShowsSamples(shown: seq<byte>, row: seq<nat>, depth: nat, color: nat) {
    |shown| == |row| && forall k :: 0 <= k < |row| ==>
      if color == 0 then shown[k] * (Pow2(depth) - 1) == 255 * row[k] else shown[k] == row[k]
  }

  lemma ScaledShows(row: seq<nat>, depth: nat, color: nat)
    requires Small(depth) && Below(row, Pow2(depth))
    ensures ShowsSamples(ScaledRow(row, depth, color), row, depth, color)
  {
    forall k | 0 <= k < |row|
      ensures ScaledRow(row, depth, color)[k] == Scaled(row[k], depth, color)
      ensures color == 0 ==> Scaled(row[k], depth, color) * (Pow2(depth) - 1) == 255 * row[k]
      ensures color != 0 ==> Scaled(row[k], depth, color) == row[k]
    {
      ScaledIs(row[k], row[k], depth, color);
    }
  }

  /** Packing any row of samples and unpacking it shows the samples. */
  lemma UnpackPackedRow(row: seq<nat>, depth: nat, color: nat)
    requires Small(depth) && Below(row, Pow2(depth))
    ensures Unpacked(PackRow(row, depth), depth, color, |row|) == ScaledRow(row, depth, color)
    ensures ShowsSamples(Unpacked(PackRow(row, depth), depth, color, |row|), row, depth, color)
  {
    ScaledShows(row, depth, color);
    var r := Unpacked(PackRow(row, depth), depth, color, |row|);
    forall k | 0 <= k < |row|
      ensures r[k] == Scaled(row[k], depth, color)
    {
      UnpackPacked(row, depth, k);
    }
  }

  lemma PackedRowsFit(t: Format, pixels: seq<seq<nat>>)
    requires Good(t) && t.depth < 8 && AreSamples(pixels, t.img_n * t.x, t.depth)
    ensures IsImage(PackRows(pixels, t.depth), Width(t))
  {
    PackedBytesIs(t.img_n * t.x, t.depth);
  }

  /** The encoder for samples of 1, 2 or 4 bits: rows are packed and then filtered in any way. */
  function EncodedSmall(t: Format, pixels: seq<seq<nat>>, filters: seq<FilterType>): (raw: seq<byte>)
    requires Good(t) && t.depth < 8 && AreSamples(pixels, t.img_n * t.x, t.depth) && |filters| == |pixels|
    ensures |raw| == (Width(t) + 1) * |pixels|
  {
    PackedRowsFit(t, pixels);
    Encoded(PackRows(pixels, t.depth), Width(t), 1, filters)
  }

  /** Rows of 1-bit, 2-bit or 4-bit samples, possibly followed by more data. */
  lemma SmallRoundTrip(t: Format, pixels: seq<seq<nat>>, filters: seq<FilterType>, more: seq<byte>, raw: seq<byte>,
      j: nat)
    requires Good(t) && t.depth < 8 && Width(t) <= t.x && AreSamples(pixels, t.img_n * t.x, t.depth)
    requires |filters| == |pixels| && j < |pixels| && raw == EncodedSmall(t, pixels, filters) + more
    ensures Decodable(raw, t, |pixels|) && RowDecodable(raw, t, j)
    ensures SampleRow(raw, t, j) == ScaledRow(pixels[j], t.depth, t.color)
    ensures ShowsSamples(SampleRow(raw, t, j), pixels[j], t.depth, t.color)
  {
    ScaledShows(pixels[j], t.depth, t.color);
    PackedRowsFit(t, pixels);
    DecodeEncodedImage(PackRows(pixels, t.depth), Width(t), 1, filters, more, raw, j);
    UnpackPackedRow(pixels[j], t.depth, t.color);
  }
}
