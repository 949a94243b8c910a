/** PNG in plain indices: rows, samples, pixels and sizes, and the Adam7 pattern as section 8.2 draws it. */
module PngNumbers {
  import opened Bits
  import opened BitNumbers
  import opened PngFilter
  import opened PngUnpack
  import opened PngImage
  import opened Adam7
  import opened PngInterlaced

  // ----- reconstruction

  /** Byte `s` of row `j` of the image, and 0 left of it and above it. */
  function At(raw: seq<byte>, w: nat, bpp: nat, j: int, s: int): byte
    requires bpp > 0 && 0 <= j + 1 && GoodFilters(raw, w, j + 1) && s < w
  {
    if j < 0 || s < 0 then 0 else ImageRow(raw, w, bpp, j)[s]
  }

  /** Recon(x) is Filt(x) plus the prediction from Recon(a), Recon(b) and Recon(c), modulo 256, where a is
      `bpp` bytes to the left of x, b above it and c above a, and where the filter type of a row is the byte
      in front of it. */
  lemma RowEquation(raw: seq<byte>, w: nat, bpp: nat, j: nat, s: nat)
    requires bpp > 0 && GoodFilters(raw, w, j + 1) && s < w
    ensures (w + 1) * j + 1 + s < |raw| && raw[(w + 1) * j] <= 4 && GoodFilters(raw, w, j)
    ensures At(raw, w, bpp, j, s) ==
      (raw[(w + 1) * j + 1 + s] + Predictor(raw[(w + 1) * j], At(raw, w, bpp, j, s - bpp), At(raw, w, bpp, j - 1, s),
        At(raw, w, bpp, j - 1, s - bpp))) % 256
  {
    RowFits(w, j, |raw|);
    assert GoodFilter(raw, w, j);
    assert (w + 1) * j <= (w + 1) * (j + 1);
    var f, line, prior := FilterByte(raw, w, j), RawRow(raw, w, j), PriorRow(raw, w, bpp, j);
    ReconAt(f, bpp, line, prior, w, s);
    assert ImageRow(raw, w, bpp, j) == Recon(f, bpp, line, prior, w);
  }

  lemma ReconAt(f: FilterType, bpp: nat, line: seq<byte>, prior: seq<byte>, w: nat, s: nat)
    requires bpp > 0 && s < w == |line| == |prior|
    ensures var row := Recon(f, bpp, line, prior, w);
      row[s] == (line[s] + Predictor(f, if s < bpp then 0 else row[s - bpp], prior[s],
        if s < bpp then 0 else prior[s - bpp])) % 256
  {
    ReconPrefix(f, bpp, line, prior, s, w);
    ReconPrefix(f, bpp, line, prior, s + 1, w);
    var row := Recon(f, bpp, line, prior, w);
    assert row[s] == row[..s + 1][s];
    if s >= bpp {
      assert row[s - bpp] == row[..s][s - bpp];
    }
  }

  // ----- sizes

  /** A filtered row has just the bytes that its bits need; filters look back by a whole pixel, or by one
      byte where a pixel is smaller; output samples have one byte, or two at depth 16. */
  lemma SizeNumbers(t: Format)
    requires Good(t)
    ensures 8 * Width(t) - 8 < t.img_n * t.x * t.depth <= 8 * Width(t)
    ensures 8 * FilterBytes(t) == if t.depth < 8 then 8 else t.img_n * t.depth
    ensures 8 * PixelOut(t) == t.out_n * if t.depth == 16 then 16 else 8
    ensures Stride(t) == t.x * PixelOut(t)
  {
    if t.depth == 16 {
      assert 2 * (t.x * t.out_n) == t.x * (2 * t.out_n);
    }
  }

  /** Data is refused only if rows are missing, if packed rows do not fit into the output rows, or for a row
      with a filter type above 4. */
  lemma RefusedBecause(raw: seq<byte>, t: Format, y: nat) returns (j: nat)
    requires !Decodable(raw, t, y)
    ensures (Width(t) + 1) * y > |raw| || (y > 0 && t.depth < 8 && Width(t) > t.x)
      || (j < y && (Width(t) + 1) * j < |raw| && raw[(Width(t) + 1) * j] > 4)
  {
    var w := Width(t);
    j := 0;
    if (w + 1) * y <= |raw| && !GoodFilters(raw, w, y) {
      j :| 0 <= j < y && !GoodFilter(raw, w, j);
      TimesApart(j, y, w + 1);
    }
  }

  /** And data that is not refused has none of these. */
  lemma AcceptedBecause(raw: seq<byte>, t: Format, y: nat, j: nat)
    requires Decodable(raw, t, y) && j < y
    ensures (Width(t) + 1) * y <= |raw| && (t.depth < 8 ==> Width(t) <= t.x)
    ensures (Width(t) + 1) * j < |raw| && raw[(Width(t) + 1) * j] <= 4
  {
    assert GoodFilter(raw, Width(t), j);
  }

  // ----- samples and pixels

  /** Packed samples are taken from the high bits of a byte on (section 7.2). */
  lemma SampleNumbers(packed: seq<byte>, depth: nat, k: nat)
    requires Small(depth) && ByteOf(k, depth) < |packed|
    ensures k * depth / 8 < |packed| && k * depth % 8 + depth <= 8
    ensures Packed(packed, depth, k) ==
      packed[k * depth / 8] as int / Pow2(8 - depth - k * depth % 8) % Pow2(depth)
  {
    SamplePlace(k, depth, k + 1);
    BitPlace(k, depth);
    PieceNumbers(packed[ByteOf(k, depth)], depth, k - FirstOf(ByteOf(k, depth), depth));
  }

  lemma PieceNumbers(b: byte, depth: nat, r: nat)
    requires Small(depth) && r < Per(depth)
    ensures depth + depth * r <= 8 && Piece(b, depth, r) == b as int / Pow2(8 - depth - depth * r) % Pow2(depth)
  {
    PieceInByte(depth, r);
    var s := 8 - depth * (r + 1);
    assert depth * (r + 1) == depth + depth * r;
    ShiftNumbers(b, s);
    ShiftNumbers(Shr(b, s), depth);
  }

  lemma BitPlace(k: nat, depth: nat)
    requires Small(depth)
    ensures k * depth / 8 == ByteOf(k, depth) && FirstOf(ByteOf(k, depth), depth) <= k
    ensures k * depth % 8 == depth * (k - FirstOf(ByteOf(k, depth), depth)) <= 8 - depth
  {
    if depth == 1 {
      assert k == 8 * (k / 8) + k % 8;
    } else if depth == 2 {
      Eighths(k / 4, 2 * (k % 4), 2 * k);
    } else {
      Eighths(k / 2, 4 * (k % 2), 4 * k);
    }
  }

  /** Pixel `i` of a row of the output is pixel `i` of the row of samples, followed by 255 where alpha is
      asked for and the data has none. */
  lemma PixelNumbers(o: seq<byte>, raw: seq<byte>, t: Format, j: nat, i: nat, b: nat)
    requires Good(t) && FinalRow(o, raw, t, j) && i < t.x && b < PixelOut(t)
    ensures Stride(t) * j + i * PixelOut(t) + b < |o|
    ensures b < PixelIn(t) ==> i * PixelIn(t) + b < |SampleRow(raw, t, j)|
    ensures o[Stride(t) * j + i * PixelOut(t) + b] ==
      if b < PixelIn(t) then SampleRow(raw, t, j)[i * PixelIn(t) + b] else 255
  {
    DecodedPixel(o, raw, t, i, j);
    PixelByte(o, Stride(t) * j + i * PixelOut(t), SamplesOf(SampleRow(raw, t, j), i, PixelIn(t)), PixelOut(t), b);
    SampleByte(SampleRow(raw, t, j), i, PixelIn(t), b);
  }

  lemma PixelByte(o: seq<byte>, place: nat, px: seq<byte>, ob: nat, b: nat)
    requires PixelIs(o, place, px, ob) && b < ob
    ensures place + b < |o| && o[place + b] == if b < |px| then px[b] else 255
  {
  }

  lemma SampleByte(row: seq<byte>, i: nat, fb: nat, b: nat)
    requires (i + 1) * fb <= |row|
    ensures b < fb ==> i * fb + b < |row| && SamplesOf(row, i, fb)[b] == row[i * fb + b]
  {
    assert (i + 1) * fb == i * fb + fb;
  }

  /** A 16-bit sample keeps its value: high byte first in the data, low byte first in the output. */
  lemma SampleBytes(o: seq<byte>, k: nat)
    requires |o| % 2 == 0 && 2 * k < |o|
    ensures Native(o)[2 * k] as int + 256 * Native(o)[2 * k + 1] as int == 256 * o[2 * k] as int + o[2 * k + 1] as int
  {
  }

  // ----- the Adam7 pattern

  const PATTERN: seq<seq<nat>> := [
    [1, 6, 4, 6, 2, 6, 4, 6],
    [7, 7, 7, 7, 7, 7, 7, 7],
    [5, 6, 5, 6, 5, 6, 5, 6],
    [7, 7, 7, 7, 7, 7, 7, 7],
    [3, 6, 4, 6, 3, 6, 4, 6],
    [7, 7, 7, 7, 7, 7, 7, 7],
    [5, 6, 5, 6, 5, 6, 5, 6],
    [7, 7, 7, 7, 7, 7, 7, 7]]

  /** The pass of a pixel, counted from 1, as the pattern shows it. */
  lemma PatternNumbers(x: nat, y: nat)
    ensures PassOf(x, y) + 1 == PATTERN[y % 8][x % 8]
  {
    OfFour(x);
    OfFour(y);
    OfEight(x);
    OfEight(y);
  }

  /** The pixels of a pass are the places of the pattern with its number, from left to right and from top
      to bottom. */
  lemma PassInOrder(p: Pass, i: nat, j: nat)
    ensures PATTERN[Row(p, j) % 8][Column(p, i) % 8] == p + 1
    ensures Column(p, i) < Column(p, i + 1) && Row(p, j) < Row(p, j + 1)
  {
    PassOfPlace(p, i, j);
    PatternNumbers(Column(p, i), Row(p, j));
  }
}
