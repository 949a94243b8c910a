/** The round trip of a GIF image: what an encoder wrote is drawn, all of it. */
module GifRoundTrip {
  import opened Bits
  import opened Lzw
  import opened GifRaster
  import opened GifPixels
  import opened Gif

  /** From `pos` on the file has the code size and, cut into blocks in any way, the codes an
      encoder chose for `indices`, with anything behind them. */
  ghost predicate IsRaster(src: seq<byte>, pos: nat, codes: seq<nat>, indices: seq<byte>, more: seq<bool>) {
    var cs := Get8(src, pos);
    && 0 < cs <= 12 && Encodes(cs, Start(cs), codes, indices)
    && BytesBits(BlockData(src, After(src, pos))) == Written(cs, Start(cs), codes) + more
  }

  /** Every index has coloured the pixel at its place in the order of the rows, once. */
  ghost predicate IsPicture(a: Area, colors: Palette, before: Canvas, after: Canvas, indices: seq<byte>)
    requires before.pen.step > 0
  {
    var places := Places(a, RowsOf(a, before.pen), a.startX);
    && |places| == |indices|
    && forall k :: 0 <= k < |indices| ==> Coloured(before, after, places[k], colors, indices[k])
  }

  /** `stbi__process_gif_raster` on the raster of as many indices as the rectangle has pixels
      succeeds and draws all of them: each pixel of the rectangle gets the color of its index. */
  method DrawRaster(g: Gif, src: seq<byte>, pos0: nat, ghost codes: seq<nat>, ghost indices: seq<byte>,
      ghost more: seq<bool>) returns (ok: bool, pos: nat)
    requires g.Wired() && g.Drawable() && Solid(g.area) && Starts(g.area, g.Picture().pen)
    requires IsRaster(src, pos0, codes, indices, more) && |indices| == Pixels(g.area)
    modifies g`cur_x, g`cur_y, g`step, g`parse, g`row, g`rowStep, g.out, g.history, g.prefix, g.first, g.suffix
    ensures ok && g.Drawable() && AtEnd(BlocksEnd(src, After(src, pos0)), pos)
    ensures |indices| > 0 ==> IsPicture(g.area, g.color_table, old(g.Picture()), g.Picture(), indices)
  {
    RasterRoundTrip(src, pos0, codes, indices, more);
    ghost var before := g.Picture();
    ok, pos := g.ProcessGifRaster(src, pos0);
    forall k | 0 <= k < |indices|
      ensures |Places(g.area, RowsOf(g.area, before.pen), g.area.startX)| == |indices|
      ensures Coloured(before, g.Picture(), Places(g.area, RowsOf(g.area, before.pen), g.area.startX)[k], g.color_table,
                indices[k])
    {
      WholePicture(g.area, g.color_table, before, indices, k);
    }
  }
}
