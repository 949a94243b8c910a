/** Unfiltering in place: the row loop of `stbi__create_png_image_raw`.  A row is reconstructed in
    the output buffer, either packed or with room for an alpha byte or two after every pixel.

    The first pixel of a row has no left neighbour and the first row none above; the source
    handles them by separate code.  The methods of this module are proved to compute what the
    ordinary filters of `PngFilter` compute with zeroes in place of the missing neighbours. */
module PngUnfilter {
  import opened Bits
  import opened PngFilter

  /** The filters of the source: the five of PNG and two synthetic ones for the first row. */
  datatype Kernel = FNone | FSub | FUp | FAvg | FPaeth | FAvgFirst | FPaethFirst

  function RowKernel(f: FilterType, first: bool): Kernel {
    if first then
      match f
      case 0 => FNone
      case 1 => FSub
      case 2 => FNone
      case 3 => FAvgFirst
      case _ => FPaethFirst
    else
      match f
      case 0 => FNone
      case 1 => FSub
      case 2 => FUp
      case 3 => FAvg
      case _ => FPaeth
  }

  /** Above the first row there is no memory to read. */
  predicate ReadsPrior(kern: Kernel) {
    kern.FUp? || kern.FAvg? || kern.FPaeth?
  }

  /** The first pixel of a row. */
  function FirstValue(out: array<byte>, pos: nat, r: byte, kern: Kernel, stride: nat): byte
    requires pos < out.Length && (ReadsPrior(kern) ==> 0 < stride <= pos)
    reads out
  {
    match kern
    case FNone => r
    case FSub => r
    case FUp => (r + out[pos - stride]) % 256
    case FAvg => (r + Mean(out[pos - stride], 0)) % 256
    case FPaeth => (r + Paeth(0, out[pos - stride], 0)) % 256
    case FAvgFirst => r
    case FPaethFirst => r
  }

  /** Every later pixel. */
  function NextValue(out: array<byte>, pos: nat, r: byte, kern: Kernel, ob: nat, stride: nat): byte
    requires ob <= pos < out.Length && (ReadsPrior(kern) ==> 0 < stride && stride + ob <= pos)
    reads out
  {
    match kern
    case FNone => r
    case FSub => (r + out[pos - ob]) % 256
    case FUp => (r + out[pos - stride]) % 256
    case FAvg => (r + Mean(out[pos - stride], out[pos - ob])) % 256
    case FPaeth => (r + Paeth(out[pos - ob], out[pos - stride], out[pos - stride - ob])) % 256
    case FAvgFirst => (r + Mean(out[pos - ob], 0)) % 256
    case FPaethFirst => (r + Paeth(out[pos - ob], 0, 0)) % 256
  }

  /** The first-row filters are the ordinary ones over a row of zeros. */
  lemma FirstValueIs(out: array<byte>, pos: nat, r: byte, f: FilterType, first: bool, stride: nat, up: byte)
    requires pos < out.Length
    requires if first then up == 0 else 0 < stride <= pos && out[pos - stride] == up
    ensures FirstValue(out, pos, r, RowKernel(f, first), stride) == (r + Predictor(f, 0, up, 0)) % 256
  {
  }

  lemma NextValueIs(out: array<byte>, pos: nat, r: byte, f: FilterType, first: bool, ob: nat, stride: nat, up: byte,
      upLeft: byte)
    requires ob <= pos < out.Length
    requires if first then up == 0 && upLeft == 0
      else 0 < stride && stride + ob <= pos && out[pos - stride] == up && out[pos - stride - ob] == upLeft
    ensures NextValue(out, pos, r, RowKernel(f, first), ob, stride) ==
      (r + Predictor(f, out[pos - ob], up, upLeft)) % 256
  {
  }

  // ----- where a byte of a row is in the output

  /** The byte of the row that is shown at place `q` of the output, where a pixel of `fb` bytes
      takes `ob` places; -1 and -2 for the first and the second alpha byte. */
  function Sample(q: nat, fb: nat, ob: nat): int
    requires 0 < fb <= ob
  {
    if q < fb then q
    else if q < ob then if q == fb then -1 else -2
    else
      var s := Sample(q - ob, fb, ob);
      if s < 0 then s else s + fb
  }

  /** `c` and `s` are `d` pixels into an output row and into the row. */
  predicate AtPixel(d: nat, c: int, s: int, fb: nat, ob: nat) {
    if d == 0 then c == 0 && s == 0 else AtPixel(d - 1, c - ob, s - fb, fb, ob)
  }

  lemma {:induction false} AtPixelTimes(d: nat, fb: nat, ob: nat)
    ensures AtPixel(d, d * ob, d * fb, fb, ob)
  {
    if d > 0 {
      AtPixelTimes(d - 1, fb, ob);
      assert d * ob - ob == (d - 1) * ob && d * fb - fb == (d - 1) * fb;
    }
  }

  lemma {:induction false} PixelBounds(d: nat, c: int, s: int, x: nat, width: int, len: int, fb: nat, ob: nat)
    requires d < x && AtPixel(d, c, s, fb, ob) && AtPixel(x, width, len, fb, ob)
    ensures 0 <= c && c + ob <= width && 0 <= s && s + fb <= len
    decreases x
  {
    if d < x - 1 {
      PixelBounds(d, c, s, x - 1, width - ob, len - fb, fb, ob);
    } else {
      PixelExact(d, c, s, width - ob, len - fb, fb, ob);
    }
  }

  lemma {:induction false} PixelExact(d: nat, c: int, s: int, c2: int, s2: int, fb: nat, ob: nat)
    requires AtPixel(d, c, s, fb, ob) && AtPixel(d, c2, s2, fb, ob)
    ensures 0 <= c == c2 && 0 <= s == s2
  {
    if d > 0 {
      PixelExact(d - 1, c - ob, s - fb, c2 - ob, s2 - fb, fb, ob);
    }
  }

  lemma {:induction false} SampleAt(d: nat, c: nat, s: nat, k: nat, fb: nat, ob: nat)
    requires 0 < fb <= ob && k < ob && AtPixel(d, c, s, fb, ob)
    ensures Sample(c + k, fb, ob) == if k < fb then s + k else if k == fb then -1 else -2
  {
    if d > 0 {
      PixelExact(d - 1, c - ob, s - fb, c - ob, s - fb, fb, ob);
      SampleAt(d - 1, c - ob, s - fb, k, fb, ob);
    }
  }

  lemma {:induction false} SampleFlat(q: nat, fb: nat)
    requires 0 < fb
    ensures Sample(q, fb, fb) == q
  {
    if q >= fb {
      SampleFlat(q - fb, fb);
    }
  }

  /** Place `q` of an output row. */
  predicate ShownAt(o: seq<byte>, start: nat, q: nat, row: seq<byte>, fb: nat, ob: nat, low: bool)
    requires 0 < fb <= ob
  {
    && start + q < |o|
    && (Sample(q, fb, ob) >= 0 ==> Sample(q, fb, ob) < |row| && o[start + q] == row[Sample(q, fb, ob)])
    && (Sample(q, fb, ob) == -1 ==> o[start + q] == 255)
    && (Sample(q, fb, ob) == -2 && low ==> o[start + q] == 255)
  }

  /** The first `n` places from `start` show `row`, every pixel followed by opaque alpha; without
      `low` the second alpha bytes are not yet set. */
  ghost predicate Shown(o: seq<byte>, start: nat, n: nat, row: seq<byte>, fb: nat, ob: nat, low: bool)
    requires 0 < fb <= ob
  {
    forall q: nat :: q < n ==> ShownAt(o, start, q, row, fb, ob, low)
  }

  // ----- a packed row

  ghost predicate Above(o: seq<byte>, start: nat, stride: nat, first: bool, prior: seq<byte>, fb: nat, ob: nat, n: nat)
    requires 0 < fb <= ob
  {
    if first then prior == Zeros(|prior|) else stride <= start && Shown(o, start - stride, n, prior, fb, ob, true)
  }

  ghost predicate Flat(o: seq<byte>, start: nat, row: seq<byte>) {
    start + |row| <= |o| && forall q :: 0 <= q < |row| ==> o[start + q] == row[q]
  }

  ghost predicate FlatAbove(o: seq<byte>, start: nat, stride: nat, first: bool, prior: seq<byte>) {
    if first then prior == Zeros(|prior|) else |prior| <= stride <= start && Flat(o, start - stride, prior)
  }

  lemma FlatIsShown(o: seq<byte>, start: nat, row: seq<byte>, fb: nat)
    requires 0 < fb
    ensures Flat(o, start, row) <==> Shown(o, start, |row|, row, fb, fb, true) && start + |row| <= |o|
  {
    forall q: nat | q < |row|
      ensures ShownAt(o, start, q, row, fb, fb, true) <==> start + q < |o| && o[start + q] == row[q]
    {
      SampleFlat(q, fb);
    }
  }

  /** One byte of the first pixel. */
  method PutFirst(out: array<byte>, start: nat, line: seq<byte>, f: FilterType, first: bool, fb: nat, stride: nat,
      ghost prior: seq<byte>, k: nat)
    requires 0 < fb && k < fb <= |line| == |prior| && start + fb <= out.Length
    requires if first then prior[k] == 0 else 0 < stride <= start && out[start - stride + k] == prior[k]
    requires Flat(out[..], start, Recon(f, fb, line, prior, k))
    modifies out
    ensures Flat(out[..], start, Recon(f, fb, line, prior, k + 1))
    ensures forall p :: 0 <= p < out.Length && p != start + k ==> out[p] == old(out[p])
  {
    ghost var row := Recon(f, fb, line, prior, k);
    FirstValueIs(out, start + k, line[k], f, first, stride, prior[k]);
    var v := FirstValue(out, start + k, line[k], RowKernel(f, first), stride);
    assert v == ReconByte(f, fb, line, prior, row);
    out[start + k] := v;
  }

  /** One byte of a later pixel, where pixels are `ob` places apart. */
  method PutNext(out: array<byte>, pos: nat, line: seq<byte>, f: FilterType, first: bool, fb: nat, ob: nat, stride: nat,
      ghost prior: seq<byte>, k: nat, ghost row: seq<byte>)
    requires 0 < fb <= k < |line| == |prior| && ob <= pos < out.Length
    requires |row| == k && out[pos - ob] == row[k - fb]
    requires if first then prior[k] == prior[k - fb] == 0
      else 0 < stride && stride + ob <= pos && out[pos - stride] == prior[k] && out[pos - stride - ob] == prior[k - fb]
    modifies out
    ensures out[pos] == ReconByte(f, fb, line, prior, row)
    ensures forall p :: 0 <= p < out.Length && p != pos ==> out[p] == old(out[p])
  {
    NextValueIs(out, pos, line[k], f, first, ob, stride, prior[k], prior[k - fb]);
    out[pos] := NextValue(out, pos, line[k], RowKernel(f, first), ob, stride);
  }

  lemma FlatExtend(o: seq<byte>, o2: seq<byte>, start: nat, row: seq<byte>, v: byte)
    requires Flat(o, start, row) && |o2| == |o| && start + |row| < |o| && o2[start + |row|] == v
    requires forall p :: 0 <= p < |o| && p != start + |row| ==> o2[p] == o[p]
    ensures Flat(o2, start, row + [v])
  {
  }

  lemma FlatStays(o: seq<byte>, o2: seq<byte>, start: nat, row: seq<byte>)
    requires Flat(o, start, row) && |o2| == |o| && forall p :: start <= p < start + |row| ==> o2[p] == o[p]
    ensures Flat(o2, start, row)
  {
  }

  /** The row above lies before `start` and is not disturbed. */
  lemma FlatAboveStays(o: seq<byte>, o2: seq<byte>, start: nat, stride: nat, first: bool, prior: seq<byte>)
    requires FlatAbove(o, start, stride, first, prior)
    requires |o2| == |o| && forall p :: 0 <= p < start && p < |o| ==> o2[p] == o[p]
    ensures FlatAbove(o2, start, stride, first, prior)
  {
    if !first {
      FlatStays(o, o2, start - stride, prior);
    }
  }

  /** Byte `k` of a row whose bytes so far are `row`. */
  method PutFlat(out: array<byte>, start: nat, line: seq<byte>, f: FilterType, first: bool, fb: nat, stride: nat,
      ghost prior: seq<byte>, k: nat, ghost row: seq<byte>)
    requires 0 < fb <= k < |line| == |prior| <= stride && start + |line| <= out.Length
    requires row == Recon(f, fb, line, prior, k)
    requires FlatAbove(out[..], start, stride, first, prior) && Flat(out[..], start, row)
    modifies out
    ensures Flat(out[..], start, row + [ReconByte(f, fb, line, prior, row)])
    ensures FlatAbove(out[..], start, stride, first, prior)
    ensures forall p :: 0 <= p < out.Length && p != start + k ==> out[p] == old(out[p])
  {
    ghost var before := out[..];
    FlatBytes(before, start, stride, first, prior, fb, row, k);
    PutNext(out, start + k, line, f, first, fb, fb, stride, prior, k, row);
    FlatExtend(before, out[..], start, row, out[start + k]);
    FlatAboveStays(before, out[..], start, stride, first, prior);
  }

  lemma FlatBytes(o: seq<byte>, start: nat, stride: nat, first: bool, prior: seq<byte>, fb: nat, row: seq<byte>, k: nat)
    requires 0 < fb <= k == |row| < |prior| <= stride
    requires FlatAbove(o, start, stride, first, prior) && Flat(o, start, row)
    ensures o[start + k - fb] == row[k - fb]
    ensures if first then prior[k] == prior[k - fb] == 0
      else stride <= start && o[start + k - stride] == prior[k] && o[start + k - stride - fb] == prior[k - fb]
  {
    assert o[start + (k - fb)] == row[k - fb];
    if !first {
      assert o[start - stride + k] == prior[k];
      assert o[start - stride + (k - fb)] == prior[k - fb];
    }
  }

  method UnfilterFlat(out: array<byte>, start: nat, line: seq<byte>, f: FilterType, first: bool, fb: nat, stride: nat,
      ghost prior: seq<byte>)
    requires 0 < fb <= |line| <= stride && start + |line| <= out.Length && |prior| == |line|
    requires FlatAbove(out[..], start, stride, first, prior)
    modifies out
    ensures Flat(out[..], start, Recon(f, fb, line, prior, |line|))
    ensures forall p :: 0 <= p < out.Length && !(start <= p < start + |line|) ==> out[p] == old(out[p])
  {
    for k := 0 to fb
      invariant Flat(out[..], start, Recon(f, fb, line, prior, k))
      invariant FlatAbove(out[..], start, stride, first, prior)
      invariant forall p :: 0 <= p < out.Length && !(start <= p < start + k) ==> out[p] == old(out[p])
    {
      ghost var before := out[..];
      PutFirst(out, start, line, f, first, fb, stride, prior, k);
      FlatAboveStays(before, out[..], start, stride, first, prior);
    }
    for k := fb to |line|
      invariant Flat(out[..], start, Recon(f, fb, line, prior, k))
      invariant FlatAbove(out[..], start, stride, first, prior)
      invariant forall p :: 0 <= p < out.Length && !(start <= p < start + k) ==> out[p] == old(out[p])
    {
      PutFlat(out, start, line, f, first, fb, stride, prior, k, Recon(f, fb, line, prior, k));
    }
  }

  // ----- a row with alpha

  /** What a pixel after the first one finds around it. */
  ghost predicate Around(o: seq<byte>, cur: nat, s: nat, row: seq<byte>, first: bool, fb: nat, ob: nat, stride: nat,
    prior: seq<byte>)
  {
    && fb <= s == |row| && s + fb <= |prior| && fb < ob <= cur && cur + ob <= |o| && ob <= stride
    && Flat(o, cur - ob, row[s - fb..])
    && if first then prior == Zeros(|prior|)
       else
         && stride + ob <= cur && Flat(o, cur - stride, prior[s..s + fb])
         && Flat(o, cur - stride - ob, prior[s - fb..s])
  }

  /** Byte `k` of a pixel whose bytes so far are `px`. */
  method PutPixelByte(out: array<byte>, cur: nat, line: seq<byte>, s: nat, f: FilterType, first: bool, fb: nat, ob: nat,
      stride: nat, ghost prior: seq<byte>, ghost row: seq<byte>, ghost px: seq<byte>, k: nat)
    requires 0 < fb && |line| == |prior| && k < fb && |px| == k
    requires Around(out[..], cur, s, row, first, fb, ob, stride, prior) && Flat(out[..], cur, px)
    modifies out
    ensures Flat(out[..], cur, px + [ReconByte(f, fb, line, prior, row + px)])
    ensures Around(out[..], cur, s, row, first, fb, ob, stride, prior)
    ensures forall p :: 0 <= p < out.Length && p != cur + k ==> out[p] == old(out[p])
  {
    ghost var before := out[..];
    AroundByte(before, cur, s, row, first, fb, ob, stride, prior, k);
    PutNext(out, cur + k, line, f, first, fb, ob, stride, prior, s + k, row + px);
    FlatExtend(before, out[..], cur, px, out[cur + k]);
    AroundStays(before, out[..], cur, s, row, first, fb, ob, stride, prior);
  }

  lemma AroundStays(o: seq<byte>, o2: seq<byte>, cur: nat, s: nat, row: seq<byte>, first: bool, fb: nat, ob: nat,
    stride: nat, prior: seq<byte>)
    requires Around(o, cur, s, row, first, fb, ob, stride, prior)
    requires |o2| == |o| && forall p :: 0 <= p < cur ==> o2[p] == o[p]
    ensures Around(o2, cur, s, row, first, fb, ob, stride, prior)
  {
    FlatStays(o, o2, cur - ob, row[s - fb..]);
    if !first {
      FlatStays(o, o2, cur - stride, prior[s..s + fb]);
      FlatStays(o, o2, cur - stride - ob, prior[s - fb..s]);
    }
  }

  /** The first `k` bytes of the pixel after `row`. */
  function PixelBytes(f: FilterType, fb: nat, line: seq<byte>, prior: seq<byte>, row: seq<byte>,
      k: nat): (px: seq<byte>)
    requires 0 < fb && |row| + k <= |line| == |prior|
    ensures |px| == k
  {
    if k == 0 then []
    else
      var px := PixelBytes(f, fb, line, prior, row, k - 1);
      px + [ReconByte(f, fb, line, prior, row + px)]
  }

  lemma {:induction false} ReconPixel(f: FilterType, fb: nat, line: seq<byte>, prior: seq<byte>, s: nat, k: nat)
    requires 0 < fb && s + k <= |line| == |prior|
    ensures Recon(f, fb, line, prior, s + k) ==
      Recon(f, fb, line, prior, s) + PixelBytes(f, fb, line, prior, Recon(f, fb, line, prior, s), k)
  {
    if k > 0 {
      ReconPixel(f, fb, line, prior, s, k - 1);
      var row := Recon(f, fb, line, prior, s);
      var px := PixelBytes(f, fb, line, prior, row, k - 1);
      Assoc(row, px, [ReconByte(f, fb, line, prior, row + px)]);
    }
  }

  /** A pixel after the first one, and the alpha byte that is set when the loop moves on. */
  method UnfilterPixel(out: array<byte>, cur: nat, line: seq<byte>, s: nat, f: FilterType, first: bool, fb: nat,
      ob: nat,
      stride: nat, ghost prior: seq<byte>, ghost row: seq<byte>)
    requires 0 < fb && |line| == |prior| && s + fb <= |line|
    requires Around(out[..], cur, s, row, first, fb, ob, stride, prior)
    modifies out
    ensures Flat(out[..], cur, PixelBytes(f, fb, line, prior, row, fb)) && out[cur + fb] == 255
    ensures forall p :: 0 <= p < out.Length && !(cur <= p <= cur + fb) ==> out[p] == old(out[p])
  {
    for k := 0 to fb
      invariant Flat(out[..], cur, PixelBytes(f, fb, line, prior, row, k))
      invariant Around(out[..], cur, s, row, first, fb, ob, stride, prior)
      invariant forall p :: 0 <= p < out.Length && !(cur <= p < cur + k) ==> out[p] == old(out[p])
    {
      PutPixelByte(out, cur, line, s, f, first, fb, ob, stride, prior, row, PixelBytes(f, fb, line, prior, row, k), k);
    }
    ghost var before := out[..];
    out[cur + fb] := 255;
    FlatStays(before, out[..], cur, PixelBytes(f, fb, line, prior, row, fb));
  }

  lemma AroundByte(o: seq<byte>, cur: nat, s: nat, row: seq<byte>, first: bool, fb: nat, ob: nat, stride: nat,
    prior: seq<byte>, k: nat)
    requires Around(o, cur, s, row, first, fb, ob, stride, prior) && k < fb
    ensures o[cur + k - ob] == row[s + k - fb]
    ensures if first then prior[s + k] == prior[s + k - fb] == 0
      else o[cur + k - stride] == prior[s + k] && o[cur + k - stride - ob] == prior[s + k - fb]
  {
    assert o[cur - ob + k] == row[s - fb..][k];
    if !first {
      assert o[cur - stride + k] == prior[s..s + fb][k];
      assert o[cur - stride - ob + k] == prior[s - fb..s][k];
    }
  }

  /** Pixel `d` of a row that is shown, `c` places and `s` bytes into the row. */
  lemma ShownPixel(o: seq<byte>, start: nat, n: nat, row: seq<byte>, fb: nat, ob: nat, low: bool, d: nat, c: nat,
      s: nat)
    requires 0 < fb <= ob && Shown(o, start, n, row, fb, ob, low) && AtPixel(d, c, s, fb, ob)
    requires c + ob <= n && s + fb <= |row| && start + n <= |o|
    ensures Flat(o, start + c, row[s..s + fb])
  {
    var px := row[s..s + fb];
    forall k | 0 <= k < |px|
      ensures o[start + c + k] == px[k]
    {
      SampleAt(d, c, s, k, fb, ob);
      assert ShownAt(o, start, c + k, row, fb, ob, low);
    }
  }

  /** The place after the last pixel. */
  lemma PixelAround(o: seq<byte>, start: nat, row: seq<byte>, first: bool, fb: nat, ob: nat, stride: nat,
    prior: seq<byte>, d: nat, c: nat, s: nat)
    requires 0 < fb < ob && 0 < d && AtPixel(d, c, s, fb, ob) && s == |row| && s + fb <= |prior| && c + ob <= stride
    requires start + stride <= |o| && Shown(o, start, c, row, fb, ob, false)
    requires Above(o, start, stride, first, prior, fb, ob, stride)
    ensures Around(o, start + c, s, row, first, fb, ob, stride, prior)
  {
    PixelExact(d - 1, c - ob, s - fb, c - ob, s - fb, fb, ob);
    ShownPixel(o, start, c, row, fb, ob, false, d - 1, c - ob, s - fb);
    assert row[s - fb..s] == row[s - fb..];
    if !first {
      ShownPixel(o, start - stride, stride, prior, fb, ob, true, d - 1, c - ob, s - fb);
      ShownPixel(o, start - stride, stride, prior, fb, ob, true, d, c, s);
    }
  }

  lemma ShownAtStays(o: seq<byte>, o2: seq<byte>, start: nat, q: nat, row: seq<byte>, px: seq<byte>, fb: nat, ob: nat,
      low: bool)
    requires 0 < fb <= ob && ShownAt(o, start, q, row, fb, ob, low)
    requires |o2| == |o| && o2[start + q] == o[start + q]
    ensures ShownAt(o2, start, q, row + px, fb, ob, low)
  {
  }

  /** One more pixel is shown. */
  lemma ShownExtend(o: seq<byte>, o2: seq<byte>, start: nat, row: seq<byte>, px: seq<byte>, fb: nat, ob: nat, d: nat,
      c: nat)
    requires 0 < fb < ob && AtPixel(d, c, |row|, fb, ob) && |px| == fb && |o2| == |o| && start + c + ob <= |o|
    requires Shown(o, start, c, row, fb, ob, false) && Flat(o2, start + c, px) && o2[start + c + fb] == 255
    requires forall p :: start <= p < start + c ==> o2[p] == o[p]
    ensures Shown(o2, start, c + ob, row + px, fb, ob, false)
  {
    forall q: nat | q < c + ob
      ensures ShownAt(o2, start, q, row + px, fb, ob, false)
    {
      if q < c {
        assert ShownAt(o, start, q, row, fb, ob, false);
        ShownAtStays(o, o2, start, q, row, px, fb, ob, false);
      } else {
        SampleAt(d, c, |row|, q - c, fb, ob);
        assert q - c < fb ==> o2[start + c + (q - c)] == px[q - c];
      }
    }
  }

  lemma ShownStays(o: seq<byte>, o2: seq<byte>, start: nat, n: nat, row: seq<byte>, fb: nat, ob: nat, low: bool)
    requires 0 < fb <= ob && Shown(o, start, n, row, fb, ob, low) && start + n <= |o|
    requires |o2| == |o| && forall p :: start <= p < start + n ==> o2[p] == o[p]
    ensures Shown(o2, start, n, row, fb, ob, low)
  {
    forall q: nat | q < n
      ensures ShownAt(o2, start, q, row, fb, ob, low)
    {
      assert ShownAt(o, start, q, row, fb, ob, low);
      assert o2[start + q] == o[start + q];
    }
  }

  lemma AboveStays(o: seq<byte>, o2: seq<byte>, start: nat, stride: nat, first: bool, prior: seq<byte>, fb: nat,
      ob: nat)
    requires 0 < fb <= ob && Above(o, start, stride, first, prior, fb, ob, stride) && start <= |o|
    requires |o2| == |o| && forall p :: 0 <= p < start ==> o2[p] == o[p]
    ensures Above(o2, start, stride, first, prior, fb, ob, stride)
  {
    if !first {
      ShownStays(o, o2, start - stride, stride, prior, fb, ob, true);
    }
  }

  /** The first pixel, with all its alpha bytes. */
  method UnfilterFirst(out: array<byte>, start: nat, line: seq<byte>, f: FilterType, first: bool, fb: nat, ob: nat,
      stride: nat, ghost prior: seq<byte>)
    requires 0 < fb < ob <= fb + 2 && ob <= stride && fb <= |line| == |prior|
    requires start + ob <= out.Length && Above(out[..], start, stride, first, prior, fb, ob, stride)
    modifies out
    ensures Shown(out[..], start, ob, Recon(f, fb, line, prior, fb), fb, ob, false)
    ensures forall p :: 0 <= p < out.Length && !(start <= p < start + ob) ==> out[p] == old(out[p])
  {
    for k := 0 to fb
      invariant Flat(out[..], start, Recon(f, fb, line, prior, k))
      invariant forall p :: 0 <= p < out.Length && !(start <= p < start + k) ==> out[p] == old(out[p])
    {
      AboveFirst(old(out[..]), start, stride, first, prior, fb, ob, k);
      PutFirst(out, start, line, f, first, fb, stride, prior, k);
    }
    out[start + fb] := 255;
    if ob == fb + 2 {
      out[start + fb + 1] := 255;
    }
    FirstShown(out[..], start, Recon(f, fb, line, prior, fb), fb, ob);
  }

  lemma AboveFirst(o: seq<byte>, start: nat, stride: nat, first: bool, prior: seq<byte>, fb: nat, ob: nat, k: nat)
    requires 0 < fb < ob <= stride && k < fb <= |prior| && start <= |o|
    requires Above(o, start, stride, first, prior, fb, ob, stride)
    ensures if first then prior[k] == 0 else stride <= start && o[start - stride + k] == prior[k]
  {
    if !first {
      assert ShownAt(o, start - stride, k, prior, fb, ob, true);
    }
  }

  lemma FirstShown(o: seq<byte>, start: nat, row: seq<byte>, fb: nat, ob: nat)
    requires 0 < fb < ob && |row| == fb && start + ob <= |o| && Flat(o, start, row) && o[start + fb] == 255
    ensures Shown(o, start, ob, row, fb, ob, false)
  {
    forall q: nat | q < ob
      ensures ShownAt(o, start, q, row, fb, ob, false)
    {
      assert q < fb ==> o[start + q] == row[q];
    }
  }

  /** `d` pixels of a row are done. */
  ghost predicate RowSoFar(o: seq<byte>, start: nat, line: seq<byte>, f: FilterType, first: bool, fb: nat, ob: nat,
    stride: nat, prior: seq<byte>, d: nat, c: nat, s: nat)
  {
    && 0 < fb < ob && |line| == |prior| && start + stride <= |o| && s <= |line| && AtPixel(d, c, s, fb, ob)
    && Above(o, start, stride, first, prior, fb, ob, stride)
    && Shown(o, start, c, Recon(f, fb, line, prior, s), fb, ob, false)
  }

  method NextPixel(out: array<byte>, start: nat, line: seq<byte>, f: FilterType, first: bool, fb: nat, ob: nat,
      stride: nat, ghost prior: seq<byte>, ghost d: nat, c: nat, s: nat)
    requires RowSoFar(out[..], start, line, f, first, fb, ob, stride, prior, d, c, s)
    requires 0 < d && c + ob <= stride && s + fb <= |line|
    modifies out
    ensures RowSoFar(out[..], start, line, f, first, fb, ob, stride, prior, d + 1, c + ob, s + fb)
    ensures forall p :: 0 <= p < out.Length && !(start <= p < start + stride) ==> out[p] == old(out[p])
  {
    ghost var before, row := out[..], Recon(f, fb, line, prior, s);
    PixelAround(before, start, row, first, fb, ob, stride, prior, d, c, s);
    UnfilterPixel(out, start + c, line, s, f, first, fb, ob, stride, prior, row);
    ReconPixel(f, fb, line, prior, s, fb);
    ghost var px := PixelBytes(f, fb, line, prior, row, fb);
    ShownExtend(before, out[..], start, row, px, fb, ob, d, c);
    AboveStays(before, out[..], start, stride, first, prior, fb, ob);
  }

  /** Every later pixel. */
  method UnfilterRest(out: array<byte>, start: nat, line: seq<byte>, f: FilterType, first: bool, fb: nat, ob: nat,
      x: nat,
      stride: nat, ghost prior: seq<byte>)
    requires 0 < x && AtPixel(x, stride, |line|, fb, ob) && fb <= |line|
    requires RowSoFar(out[..], start, line, f, first, fb, ob, stride, prior, 1, ob, fb)
    modifies out
    ensures RowSoFar(out[..], start, line, f, first, fb, ob, stride, prior, x, stride, |line|)
    ensures forall p :: 0 <= p < out.Length && !(start <= p < start + stride) ==> out[p] == old(out[p])
  {
    var c, s, i := ob, fb, x - 1;
    while i >= 1
      invariant 0 <= i < x && 0 <= c && 0 <= s <= |line|
      invariant RowSoFar(out[..], start, line, f, first, fb, ob, stride, prior, x - i, c, s)
      invariant forall p :: 0 <= p < out.Length && !(start <= p < start + stride) ==> out[p] == old(out[p])
    {
      PixelBounds(x - i, c, s, x, stride, |line|, fb, ob);
      NextPixel(out, start, line, f, first, fb, ob, stride, prior, x - i, c, s);
      c, s, i := c + ob, s + fb, i - 1;
    }
    PixelExact(x, c, s, stride, |line|, fb, ob);
  }

  /** The second alpha bytes of 16-bit pixels. */
  method SetLowAlpha(out: array<byte>, start: nat, fb: nat, ob: nat, x: nat, stride: nat, ghost row: seq<byte>)
    requires 0 < fb && ob == fb + 2 && AtPixel(x, stride, |row|, fb, ob) && start + stride <= out.Length
    requires Shown(out[..], start, stride, row, fb, ob, false)
    modifies out
    ensures Shown(out[..], start, stride, row, fb, ob, true)
    ensures forall p :: 0 <= p < out.Length && !(start <= p < start + stride) ==> out[p] == old(out[p])
  {
    var c := 0;
    ghost var s := 0;
    for i := 0 to x
      invariant AtPixel(i, c, s, fb, ob) && 0 <= s
      invariant Shown(out[..], start, stride, row, fb, ob, false) && Shown(out[..], start, c, row, fb, ob, true)
      invariant forall p :: 0 <= p < out.Length && !(start <= p < start + stride) ==> out[p] == old(out[p])
    {
      PixelBounds(i, c, s, x, stride, |row|, fb, ob);
      ghost var before := out[..];
      out[start + c + fb + 1] := 255;
      LowAlphaStep(before, out[..], start, stride, row, fb, ob, i, c, s);
      c, s := c + ob, s + fb;
    }
    PixelExact(x, c, s, stride, |row|, fb, ob);
  }

  lemma LowAlphaStep(o: seq<byte>, o2: seq<byte>, start: nat, n: nat, row: seq<byte>, fb: nat, ob: nat, d: nat,
      c: nat, s: nat)
    requires 0 < fb && ob == fb + 2 && AtPixel(d, c, s, fb, ob) && c + ob <= n && start + n <= |o|
    requires Shown(o, start, n, row, fb, ob, false) && Shown(o, start, c, row, fb, ob, true)
    requires o2 == o[start + c + fb + 1 := 255]
    ensures Shown(o2, start, n, row, fb, ob, false) && Shown(o2, start, c + ob, row, fb, ob, true)
  {
    SampleAt(d, c, s, fb + 1, fb, ob);
    forall q: nat | q < n
      ensures ShownAt(o2, start, q, row, fb, ob, false)
    {
      assert ShownAt(o, start, q, row, fb, ob, false);
    }
    forall q: nat | q < c + ob
      ensures ShownAt(o2, start, q, row, fb, ob, true)
    {
      if q < c {
        assert ShownAt(o, start, q, row, fb, ob, true);
      } else {
        assert ShownAt(o, start, q, row, fb, ob, false);
        SampleAt(d, c, s, q - c, fb, ob);
      }
    }
  }

  /** A row with one alpha byte after every pixel, or two. */
  method UnfilterAlpha(out: array<byte>, start: nat, line: seq<byte>, f: FilterType, first: bool, fb: nat, ob: nat,
      x: nat,
      stride: nat, ghost prior: seq<byte>)
    requires 0 < fb < ob <= fb + 2 && 0 < x && |line| == |prior| && AtPixel(x, stride, |line|, fb, ob)
    requires start + stride <= out.Length && Above(out[..], start, stride, first, prior, fb, ob, stride)
    modifies out
    ensures Shown(out[..], start, stride, Recon(f, fb, line, prior, |line|), fb, ob, true)
    ensures forall p :: 0 <= p < out.Length && !(start <= p < start + stride) ==> out[p] == old(out[p])
  {
    PixelBounds(0, 0, 0, x, stride, |line|, fb, ob);
    ghost var before := out[..];
    UnfilterFirst(out, start, line, f, first, fb, ob, stride, prior);
    AboveStays(before, out[..], start, stride, first, prior, fb, ob);
    assert AtPixel(1, ob, fb, fb, ob);
    UnfilterRest(out, start, line, f, first, fb, ob, x, stride, prior);
    ghost var row := Recon(f, fb, line, prior, |line|);
    if ob == fb + 2 {
      SetLowAlpha(out, start, fb, ob, x, stride, row);
    } else {
      OneAlpha(out[..], start, stride, row, fb, ob);
    }
  }

  lemma {:induction false} NoLow(q: nat, fb: nat, ob: nat)
    requires 0 < fb && ob == fb + 1
    ensures Sample(q, fb, ob) >= -1
  {
    if q >= ob {
      NoLow(q - ob, fb, ob);
    }
  }

  lemma OneAlpha(o: seq<byte>, start: nat, n: nat, row: seq<byte>, fb: nat, ob: nat)
    requires 0 < fb && ob == fb + 1 && Shown(o, start, n, row, fb, ob, false)
    ensures Shown(o, start, n, row, fb, ob, true)
  {
    forall q: nat | q < n
      ensures ShownAt(o, start, q, row, fb, ob, true)
    {
      assert ShownAt(o, start, q, row, fb, ob, false);
      NoLow(q, fb, ob);
    }
  }
}
