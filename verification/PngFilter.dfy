/** PNG row filters (section 9 of the W3C PNG Specification, Second Edition) and their inverse. */
module PngFilter {
  import opened Bits

  type FilterType = f: nat | f <= 4

  function Abs(x: int): nat {
    if x < 0 then -x else x
  }

  /** `stbi__paeth`. */
  function Paeth(a: int, b: int, c: int): (r: int)
    ensures r == a || r == b || r == c
  {
    var p := a + b - c;
    var pa, pb, pc := Abs(p - a), Abs(p - b), Abs(p - c);
    if pa <= pb && pa <= pc then a
    else if pb <= pc then b
    else c
  }

  /** Section 9.4: the neighbour nearest to `a + b - c`, ties broken in the order a, b, c. */
  lemma PaethNearest(a: int, b: int, c: int)
    ensures var p, r := a + b - c, Paeth(a, b, c);
      && Abs(p - r) <= Abs(p - a) && Abs(p - r) <= Abs(p - b) && Abs(p - r) <= Abs(p - c)
      && (Abs(p - a) == Abs(p - r) ==> r == a)
      && (Abs(p - b) == Abs(p - r) && r != a ==> r == b)
  {
  }

  function Mean(a: int, b: int): int {
    (a + b) / 2
  }

  /** The byte a filter predicts from the bytes to the left, above, and above left. */
  function Predictor(f: FilterType, a: byte, b: byte, c: byte): byte {
    match f
    case 0 => 0
    case 1 => a
    case 2 => b
    case 3 => Mean(a, b)
    case _ => Paeth(a, b, c)
  }

  /** Section 9.2: what the filter types predict; for type 3, half the sum, rounded down. */
  lemma FilterNumbers(a: byte, b: byte, c: byte)
    ensures Predictor(0, a, b, c) == 0 && Predictor(1, a, b, c) == a && Predictor(2, a, b, c) == b
    ensures 2 * Predictor(3, a, b, c) as int <= a as int + b as int <= 2 * Predictor(3, a, b, c) as int + 1
    ensures var p, r := a as int + b as int - c as int, Predictor(4, a, b, c) as int;
      && (r == a || r == b || r == c)
      && Abs(p - r) <= Abs(p - a) && Abs(p - r) <= Abs(p - b) && Abs(p - r) <= Abs(p - c)
      && (Abs(p - a) == Abs(p - r) ==> r == a) && (Abs(p - b) == Abs(p - r) && r != a ==> r == b)
  {
    PaethNearest(a, b, c);
  }

  /** The byte `bpp` places before `s`; bytes before the row count as 0. */
  function Back(row: seq<byte>, s: int, bpp: nat): byte
    requires s - bpp < |row|
  {
    if s < bpp then 0 else row[s - bpp]
  }

  /** The encoder: subtract the predictor, modulo 256. */
  function Filtered(f: FilterType, bpp: nat, orig: seq<byte>, prior: seq<byte>): (r: seq<byte>)
    requires bpp > 0 && |prior| == |orig|
    ensures |r| == |orig|
  {
    seq(|orig|, s requires 0 <= s < |orig| =>
      (orig[s] - Predictor(f, Back(orig, s, bpp), prior[s], Back(prior, s, bpp))) % 256)
  }

  /** The decoder, on the first `n` bytes of a row: add the predictor of the bytes so far. */
  function Recon(f: FilterType, bpp: nat, raw: seq<byte>, prior: seq<byte>, n: nat): (r: seq<byte>)
    requires bpp > 0 && n <= |raw| && |prior| == |raw|
    ensures |r| == n
  {
    if n == 0 then []
    else
      var row := Recon(f, bpp, raw, prior, n - 1);
      row + [ReconByte(f, bpp, raw, prior, row)]
  }

  function ReconByte(f: FilterType, bpp: nat, raw: seq<byte>, prior: seq<byte>, row: seq<byte>): byte
    requires bpp > 0 && |row| < |raw| == |prior|
  {
    (raw[|row|] + Predictor(f, Back(row, |row|, bpp), prior[|row|], Back(prior, |row|, bpp))) % 256
  }

  lemma {:induction false} ReconPrefix(f: FilterType, bpp: nat, raw: seq<byte>, prior: seq<byte>, m: nat, n: nat)
    requires bpp > 0 && m <= n <= |raw| && |prior| == |raw|
    ensures Recon(f, bpp, raw, prior, n)[..m] == Recon(f, bpp, raw, prior, m)
  {
    if m < n {
      ReconPrefix(f, bpp, raw, prior, m, n - 1);
    }
  }

  /** Reconstruction undoes filtering, for every row, prior row, filter type and pixel size. */
  lemma {:induction false} ReconFiltered(f: FilterType, bpp: nat, orig: seq<byte>, prior: seq<byte>, n: nat)
    requires bpp > 0 && n <= |orig| && |prior| == |orig|
    ensures Recon(f, bpp, Filtered(f, bpp, orig, prior), prior, n) == orig[..n]
  {
    if n > 0 {
      ReconFiltered(f, bpp, orig, prior, n - 1);
      Undo(orig[n - 1], Predictor(f, Back(orig, n - 1, bpp), prior[n - 1], Back(prior, n - 1, bpp)));
      assert Back(orig[..n - 1], n - 1, bpp) == Back(orig, n - 1, bpp);
      assert orig[..n] == orig[..n - 1] + [orig[n - 1]];
    }
  }

  lemma Undo(v: byte, p: byte)
    ensures ((v - p) % 256 + p) % 256 == v
  {
  }

  // ----- whole images

  function Zeros(n: nat): (r: seq<byte>)
    ensures |r| == n
  {
    seq(n, _ => 0)
  }

  /** In front of every row of `w` bytes stands its filter type. */
  function FilterByte(raw: seq<byte>, w: nat, j: nat): byte
    requires (w + 1) * j < |raw|
  {
    raw[(w + 1) * j]
  }

  lemma RowFits(w: nat, j: nat, len: nat)
    requires (w + 1) * (j + 1) <= len
    ensures (w + 1) * j + 1 + w <= len
  {
  }

  function RawRow(raw: seq<byte>, w: nat, j: nat): (r: seq<byte>)
    requires (w + 1) * (j + 1) <= |raw|
    ensures |r| == w
  {
    RowFits(w, j, |raw|);
    raw[(w + 1) * j + 1..(w + 1) * j + 1 + w]
  }

  predicate GoodFilters(raw: seq<byte>, w: nat, n: nat) {
    (w + 1) * n <= |raw| && forall j :: 0 <= j < n ==> GoodFilter(raw, w, j)
  }

  predicate GoodFilter(raw: seq<byte>, w: nat, j: nat) {
    (w + 1) * j < |raw| && FilterByte(raw, w, j) <= 4
  }

  /** The row before row `j`, after reconstruction; before the first row, zeros. */
  function PriorRow(raw: seq<byte>, w: nat, bpp: nat, j: nat): (r: seq<byte>)
    requires bpp > 0 && GoodFilters(raw, w, j)
    ensures |r| == w
  {
    if j == 0 then Zeros(w)
    else
      assert (w + 1) * (j - 1) <= (w + 1) * j;
      assert GoodFilter(raw, w, j - 1);
      Recon(FilterByte(raw, w, j - 1), bpp, RawRow(raw, w, j - 1), PriorRow(raw, w, bpp, j - 1), w)
  }

  /** Row `j` of the image that `raw` stands for. */
  function ImageRow(raw: seq<byte>, w: nat, bpp: nat, j: nat): (r: seq<byte>)
    requires bpp > 0 && GoodFilters(raw, w, j + 1)
    ensures |r| == w
  {
    PriorRow(raw, w, bpp, j + 1)
  }

  predicate IsImage(rows: seq<seq<byte>>, w: nat) {
    forall j :: 0 <= j < |rows| ==> |rows[j]| == w
  }

  function RowBefore(rows: seq<seq<byte>>, n: nat, w: nat): seq<byte>
    requires n <= |rows|
  {
    if n == 0 then Zeros(w) else rows[n - 1]
  }

  function Line(f: FilterType, bpp: nat, orig: seq<byte>, prior: seq<byte>): (r: seq<byte>)
    requires bpp > 0 && |prior| == |orig|
    ensures |r| == 1 + |orig|
  {
    [f] + Filtered(f, bpp, orig, prior)
  }

  /** The encoder of a whole image, with any choice of filters. */
  function Encoded(rows: seq<seq<byte>>, w: nat, bpp: nat, filters: seq<FilterType>): (raw: seq<byte>)
    requires bpp > 0 && IsImage(rows, w) && |filters| == |rows|
    ensures |raw| == (w + 1) * |rows|
  {
    if rows == [] then []
    else
      var n := |rows| - 1;
      Encoded(rows[..n], w, bpp, filters[..n]) + Line(filters[n], bpp, rows[n], RowBefore(rows, n, w))
  }

  /** Only the first rows of the data matter to the rows before row `j`. */
  lemma {:induction false} PriorRowOfPrefix(raw: seq<byte>, more: seq<byte>, w: nat, bpp: nat, j: nat)
    requires bpp > 0 && GoodFilters(raw, w, j)
    ensures GoodFilters(raw + more, w, j) && PriorRow(raw + more, w, bpp, j) == PriorRow(raw, w, bpp, j)
  {
    forall i | 0 <= i < j
      ensures GoodFilter(raw + more, w, i)
    {
      assert GoodFilter(raw, w, i);
    }
    if j > 0 {
      assert (w + 1) * (j - 1) + w + 1 == (w + 1) * j;
      PriorRowOfPrefix(raw, more, w, bpp, j - 1);
      assert RawRow(raw + more, w, j - 1) == RawRow(raw, w, j - 1);
    }
  }

  /** Adding one encoded row adds that row to the image. */
  lemma AppendRow(before: seq<byte>, w: nat, bpp: nat, f: FilterType, n: nat, row: seq<byte>, prior: seq<byte>)
    requires bpp > 0 && |before| == (w + 1) * n && GoodFilters(before, w, n) && |row| == w
    requires prior == PriorRow(before, w, bpp, n)
    ensures var raw := before + Line(f, bpp, row, prior);
      GoodFilters(raw, w, n + 1) && ImageRow(raw, w, bpp, n) == row
  {
    var last := Line(f, bpp, row, prior);
    var raw := before + last;
    PriorRowOfPrefix(before, last, w, bpp, n);
    assert |raw| == (w + 1) * (n + 1);
    assert RawRow(raw, w, n) == Filtered(f, bpp, row, prior);
    assert GoodFilter(raw, w, n);
    ReconFiltered(f, bpp, row, prior, w);
    assert row[..w] == row;
  }

  lemma {:induction false} DecodeEncodedRows(rows: seq<seq<byte>>, w: nat, bpp: nat, filters: seq<FilterType>,
      raw: seq<byte>)
    requires bpp > 0 && IsImage(rows, w) && |filters| == |rows| && raw == Encoded(rows, w, bpp, filters)
    ensures GoodFilters(raw, w, |rows|)
    ensures PriorRow(raw, w, bpp, |rows|) == RowBefore(rows, |rows|, w)
    decreases |rows|
  {
    if rows != [] {
      var n := |rows| - 1;
      var before := Encoded(rows[..n], w, bpp, filters[..n]);
      DecodeEncodedRows(rows[..n], w, bpp, filters[..n], before);
      AppendRow(before, w, bpp, filters[n], n, rows[n], RowBefore(rows, n, w));
    }
  }

  lemma {:induction false} EncodedPrefix(rows: seq<seq<byte>>, w: nat, bpp: nat, filters: seq<FilterType>, m: nat)
    requires bpp > 0 && IsImage(rows, w) && |filters| == |rows| && m <= |rows|
    ensures Encoded(rows[..m], w, bpp, filters[..m]) <= Encoded(rows, w, bpp, filters)
    decreases |rows|
  {
    if m < |rows| {
      var n := |rows| - 1;
      EncodedPrefix(rows[..n], w, bpp, filters[..n], m);
      assert rows[..n][..m] == rows[..m] && filters[..n][..m] == filters[..m];
    } else {
      assert rows[..m] == rows && filters[..m] == filters;
    }
  }

  lemma SplitAt(part: seq<byte>, enc: seq<byte>, more: seq<byte>)
    requires part <= enc
    ensures part + (enc[|part|..] + more) == enc + more
  {
  }

  /** Decoding an encoded image gives its rows back, whatever filters were chosen, and ignores
      what follows the last row. */
  lemma DecodeEncoded(rows: seq<seq<byte>>, w: nat, bpp: nat, filters: seq<FilterType>, more: seq<byte>,
      raw: seq<byte>, j: nat)
    requires bpp > 0 && IsImage(rows, w) && |filters| == |rows| && j < |rows|
    requires raw == Encoded(rows, w, bpp, filters) + more
    ensures GoodFilters(raw, w, j + 1) && ImageRow(raw, w, bpp, j) == rows[j]
  {
    var first := rows[..j + 1];
    var part := Encoded(first, w, bpp, filters[..j + 1]);
    EncodedPrefix(rows, w, bpp, filters, j + 1);
    DecodeEncodedRows(first, w, bpp, filters[..j + 1], part);
    var rest := Encoded(rows, w, bpp, filters)[|part|..] + more;
    SplitAt(part, Encoded(rows, w, bpp, filters), more);
    PriorRowOfPrefix(part, rest, w, bpp, j + 1);
  }

  lemma DecodeEncodedImage(rows: seq<seq<byte>>, w: nat, bpp: nat, filters: seq<FilterType>, more: seq<byte>,
      raw: seq<byte>, j: nat)
    requires bpp > 0 && IsImage(rows, w) && |filters| == |rows| && j < |rows|
    requires raw == Encoded(rows, w, bpp, filters) + more
    ensures GoodFilters(raw, w, |rows|) && GoodFilters(raw, w, j + 1) && ImageRow(raw, w, bpp, j) == rows[j]
  {
    DecodeEncoded(rows, w, bpp, filters, more, raw, |rows| - 1);
    DecodeEncoded(rows, w, bpp, filters, more, raw, j);
  }
}
