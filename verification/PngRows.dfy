/** All rows of an image: the row loop of `stbi__create_png_image_raw`.

    A row is shown either packed at the right end of its place or with room for alpha; the loop is
    proved to leave every row as the reconstruction of `PngFilter` gives it. */
module PngRows {
  import opened Bits
  import opened PngFilter
  import opened PngUnfilter

  predicate GoodDepth(depth: nat) {
    depth == 1 || depth == 2 || depth == 4 || depth == 8 || depth == 16
  }

  /** A format the source's assertions admit: `img_n` channels, and `out_n` the same or one more;
      for packed samples it adds a channel only to grey or RGB. */
  predicate GoodFormat(x: nat, img_n: nat, out_n: nat, depth: nat) {
    && 0 < x && GoodDepth(depth) && 1 <= img_n <= 4
    && (out_n == img_n || (out_n == img_n + 1 && (depth < 8 ==> img_n == 1 || img_n == 3)))
  }

  /** `img_width_bytes`. */
  function WidthBytes(x: nat, img_n: nat, depth: nat): nat {
    (img_n * x * depth + 7) / 8
  }

  /** `n * bytes`: the bytes of `n` unpacked samples. */
  function InBytes(n: nat, depth: nat): nat {
    if depth == 16 then 2 * n else n
  }

  /** Where the rows go: `w` filtered bytes of a row, pixels of `fb` bytes that take `ob` places,
      of the `stride` places of a row the `n` from `shift` on. */
  datatype Layout = Layout(x: nat, w: nat, fb: nat, ob: nat, stride: nat, shift: nat, n: nat)

  predicate GoodLayout(l: Layout) {
    && 0 < l.fb <= l.ob <= l.fb + 2 && 0 < l.x && l.fb <= l.w && l.shift + l.n <= l.stride
    && (if l.fb == l.ob then l.n == l.w else l.n == l.stride && l.shift == 0 && AtPixel(l.x, l.stride, l.w, l.fb, l.ob))
  }

  /** Rows of less than 8 bits a sample are kept packed, at the right end of their place. */
  function LayoutOf(x: nat, img_n: nat, out_n: nat, depth: nat): Layout
    requires GoodFormat(x, img_n, out_n, depth) && (depth < 8 ==> WidthBytes(x, img_n, depth) <= x)
  {
    var w := WidthBytes(x, img_n, depth);
    if depth < 8 then assert x <= x * out_n; Layout(x, w, 1, 1, x * out_n, x * out_n - w, w)
    else
      var stride := InBytes(x * out_n, depth);
      Layout(x, w, InBytes(img_n, depth), InBytes(out_n, depth), stride, 0, stride)
  }

  lemma LayoutIsGood(x: nat, img_n: nat, out_n: nat, depth: nat)
    requires GoodFormat(x, img_n, out_n, depth) && (depth < 8 ==> WidthBytes(x, img_n, depth) <= x)
    ensures GoodLayout(LayoutOf(x, img_n, out_n, depth))
  {
    WidthIs(x, img_n, depth);
    if depth >= 8 {
      RowBytes(x, img_n, depth);
      RowBytes(x, out_n, depth);
      var l := LayoutOf(x, img_n, out_n, depth);
      LargeLayout(l, x * l.ob, x * l.fb);
    }
  }

  lemma LargeLayout(l: Layout, stride: nat, w: nat)
    requires 0 < l.fb <= l.ob <= l.fb + 2 && 0 < l.x && l.fb <= l.w && l.shift == 0
    requires stride == l.x * l.ob && w == l.x * l.fb && l.stride == l.n == stride && l.w == w
    ensures GoodLayout(l)
  {
    AtPixelTimes(l.x, l.fb, l.ob);
  }

  /** The bytes of a row of `x` pixels of `n` samples. */
  lemma RowBytes(x: nat, n: nat, depth: nat)
    ensures n * x == x * n && x * InBytes(n, depth) == InBytes(x * n, depth)
  {
    assert x * (2 * n) == 2 * (x * n);
  }

  lemma WidthIs(x: nat, img_n: nat, depth: nat)
    requires GoodDepth(depth) && 0 < x && 0 < img_n
    ensures depth >= 8 ==> WidthBytes(x, img_n, depth) == InBytes(x * img_n, depth) >= InBytes(img_n, depth)
    ensures WidthBytes(x, img_n, depth) > 0
  {
    assert img_n * x >= 1 * img_n;
    assert x * img_n == img_n * x;
  }

  // ----- one row

  method UnfilterRow(out: array<byte>, start: nat, line: seq<byte>, f: FilterType, first: bool, l: Layout,
      ghost prior: seq<byte>)
    requires GoodLayout(l) && |line| == |prior| == l.w && start + l.n <= out.Length
    requires Above(out[..], start, l.stride, first, prior, l.fb, l.ob, l.n)
    modifies out
    ensures Shown(out[..], start, l.n, Recon(f, l.fb, line, prior, l.w), l.fb, l.ob, true)
    ensures forall p :: 0 <= p < out.Length && !(start <= p < start + l.n) ==> out[p] == old(out[p])
  {
    if l.fb == l.ob {
      if !first {
        FlatIsShown(out[..], start - l.stride, prior, l.fb);
      }
      UnfilterFlat(out, start, line, f, first, l.fb, l.stride, prior);
      FlatIsShown(out[..], start, Recon(f, l.fb, line, prior, l.w), l.fb);
    } else {
      UnfilterAlpha(out, start, line, f, first, l.fb, l.ob, l.x, l.stride, prior);
    }
  }

  // ----- all rows

  function RowStart(l: Layout, j: nat): nat {
    l.stride * j + l.shift
  }

  /** Row `i` of the image stands where it belongs. */
  ghost predicate RowShown(o: seq<byte>, raw: seq<byte>, l: Layout, i: nat) {
    && GoodLayout(l) && GoodFilters(raw, l.w, i + 1) && RowStart(l, i) + l.n <= |o|
    && Shown(o, RowStart(l, i), l.n, ImageRow(raw, l.w, l.fb, i), l.fb, l.ob, true)
  }

  ghost predicate RowsShown(o: seq<byte>, raw: seq<byte>, l: Layout, y: nat) {
    forall i: nat :: i < y ==> RowShown(o, raw, l, i)
  }

  lemma AboveRow(o: seq<byte>, raw: seq<byte>, l: Layout, j: nat)
    requires GoodLayout(l) && GoodFilters(raw, l.w, j) && RowsShown(o, raw, l, j)
    ensures Above(o, RowStart(l, j), l.stride, j == 0, PriorRow(raw, l.w, l.fb, j), l.fb, l.ob, l.n)
  {
    if j > 0 {
      assert RowShown(o, raw, l, j - 1);
      assert RowStart(l, j) - l.stride == RowStart(l, j - 1) by {
        assert l.stride * j == l.stride * (j - 1) + l.stride;
      }
    }
  }

  /** Writing row `j` does not disturb the rows before it. */
  lemma RowsStay(o: seq<byte>, o2: seq<byte>, raw: seq<byte>, l: Layout, j: nat)
    requires GoodLayout(l) && RowsShown(o, raw, l, j) && |o2| == |o|
    requires forall p :: 0 <= p < |o| && !(RowStart(l, j) <= p < RowStart(l, j) + l.n) ==> o2[p] == o[p]
    ensures RowsShown(o2, raw, l, j)
  {
    forall i: nat | i < j
      ensures RowShown(o2, raw, l, i)
    {
      assert RowShown(o, raw, l, i);
      TimesApart(i, j, l.stride);
      ShownStays(o, o2, RowStart(l, i), l.n, ImageRow(raw, l.w, l.fb, i), l.fb, l.ob, true);
    }
  }

  /** The filter type in front of row `j` has been read. */
  method OneRow(out: array<byte>, raw: seq<byte>, l: Layout, j: nat)
    requires GoodLayout(l) && GoodFilters(raw, l.w, j + 1) && RowStart(l, j) + l.n <= out.Length
    requires GoodFilters(raw, l.w, j) && RowsShown(out[..], raw, l, j)
    modifies out
    ensures RowsShown(out[..], raw, l, j + 1)
  {
    assert GoodFilter(raw, l.w, j);
    ghost var before, prior := out[..], PriorRow(raw, l.w, l.fb, j);
    AboveRow(before, raw, l, j);
    UnfilterRow(out, RowStart(l, j), RawRow(raw, l.w, j), FilterByte(raw, l.w, j), j == 0, l, prior);
    assert RowShown(out[..], raw, l, j);
    RowsStay(before, out[..], raw, l, j);
  }

  lemma GoodFiltersStep(raw: seq<byte>, w: nat, j: nat, y: nat)
    requires j < y && (w + 1) * y <= |raw| && GoodFilters(raw, w, j)
    ensures (w + 1) * j < (w + 1) * (j + 1) <= (w + 1) * y
    ensures GoodFilters(raw, w, j + 1) <==> FilterByte(raw, w, j) <= 4
    ensures GoodFilters(raw, w, y) ==> GoodFilters(raw, w, j + 1)
  {
    GoodFiltersEnd(w, j + 1, y);
    assert (w + 1) * (j + 1) == (w + 1) * j + w + 1;
    if FilterByte(raw, w, j) <= 4 {
      assert GoodFilter(raw, w, j);
    }
    if GoodFilters(raw, w, j + 1) {
      assert GoodFilter(raw, w, j);
    }
  }

  lemma GoodFiltersEnd(w: nat, j: nat, y: nat)
    requires j <= y
    ensures (w + 1) * j <= (w + 1) * y
  {
  }

  /** The row loop: it stops with an error at a filter type above 4 or at packed rows that do not
      fit the place of a row. */
  method UnfilterRows(out: array<byte>, raw: seq<byte>, x: nat, y: nat, img_n: nat, out_n: nat,
      depth: nat) returns (ok: bool)
    requires GoodFormat(x, img_n, out_n, depth) && out.Length == InBytes(x * out_n, depth) * y
    requires (WidthBytes(x, img_n, depth) + 1) * y <= |raw|
    modifies out
    ensures ok <==>
      && GoodFilters(raw, WidthBytes(x, img_n, depth), y)
      && (y > 0 && depth < 8 ==> WidthBytes(x, img_n, depth) <= x)
    ensures ok && y > 0 ==> RowsShown(out[..], raw, LayoutOf(x, img_n, out_n, depth), y)
  {
    var w := WidthBytes(x, img_n, depth);
    for j := 0 to y
      invariant GoodFilters(raw, w, j) && (j > 0 && depth < 8 ==> w <= x)
      invariant j > 0 ==> RowsShown(out[..], raw, LayoutOf(x, img_n, out_n, depth), j)
    {
      GoodFiltersStep(raw, w, j, y);
      if raw[(w + 1) * j] > 4 {
        return false;
      }
      if depth < 8 && w > x {
        return false;
      }
      var l := LayoutOf(x, img_n, out_n, depth);
      LayoutIsGood(x, img_n, out_n, depth);
      TimesApart(j, y, l.stride);
      OneRow(out, raw, l, j);
    }
    ok := true;
  }
}
