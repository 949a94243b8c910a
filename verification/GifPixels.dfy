/** Which pixels of a GIF image the colour indices draw: every pixel of the rectangle exactly once,
    row by row in the order of the passes.

    Counting says so: a row has a place for each of its columns, the rows come once each, and
    different places are whole pixels apart. */
module GifPixels {
  import opened Bits
  import opened GifRaster

  /** Where row `row` begins, if it began at byte 0 of its line. */
  function LineOf(a: Area, row: nat): nat {
    a.startY + row * a.line
  }

  /** The place of the pixel at byte `x` of row `row`. */
  function PlaceOf(a: Area, x: nat, row: nat): nat {
    x + LineOf(a, row)
  }

  /** The places of the row at `base` from byte `x` to byte `maxX`. */
  function RowPlaces(maxX: nat, base: nat, x: nat): seq<nat>
    decreases if x < maxX then maxX - x else 0
  {
    if x >= maxX then [] else [x + base] + RowPlaces(maxX, base, x + 4)
  }

  /** The places of the rows `rows`, of the first one only those from byte `x` on. */
  function Places(a: Area, rows: seq<nat>, x: nat): seq<nat> {
    if rows == [] then [] else RowPlaces(a.maxX, LineOf(a, rows[0]), x) + Places(a, rows[1..], a.startX)
  }

  /** The places that the next `n` indices draw. */
  function Visited(a: Area, p: Pen, n: nat): seq<nat>
    decreases n
  {
    if n == 0 || p.row >= a.h then [] else [ByteOf(a, p)] + Visited(a, Advance(a, p), n - 1)
  }

  /** A pen between two indices: on a row, or behind the last one. */
  predicate Settled(a: Area, p: Pen) {
    p.step > 0 && (p.row >= a.h ==> p.parse == 0)
  }

  predicate Solid(a: Area) {
    a.startX < a.maxX <= a.line && a.startX % 4 == a.maxX % 4 == a.line % 4 == 0
  }

  function RowsOf(a: Area, p: Pen): seq<nat>
    requires p.step > 0
  {
    Rows(a.h, p.row, p.step, p.parse)
  }

  lemma {:induction false} SettleEnds(h: nat, row: nat, step: nat, parse: nat)
    requires step > 0
    ensures var (r, s, p) := Settle(h, row, step, parse); s > 0 && (r >= h ==> p == 0)
    decreases parse
  {
    if row >= h && parse > 0 {
      SettleEnds(h, Pow2(parse - 1), Pow2(parse), parse - 1);
    }
  }

  lemma AdvanceSettled(a: Area, p: Pen)
    requires Solid(a) && GoodPen(a, p) && Settled(a, p) && p.row < a.h
    ensures GoodPen(a, Advance(a, p)) && Settled(a, Advance(a, p))
  {
    AdvanceGood(a, p);
    SettleEnds(a.h, p.row + p.step, p.step, p.parse);
  }

  /** One index takes the first place, and the others are left. */
  lemma PlacesAdvance(a: Area, p: Pen)
    requires Solid(a) && GoodPen(a, p) && Settled(a, p) && p.row < a.h
    ensures Settled(a, Advance(a, p))
    ensures Places(a, RowsOf(a, p), p.x) == [ByteOf(a, p)] + Places(a, RowsOf(a, Advance(a, p)), Advance(a, p).x)
  {
    AdvanceSettled(a, p);
    var rows := RowsOf(a, p);
    assert rows[0] == p.row;
    var base, rest := LineOf(a, p.row), Places(a, rows[1..], a.startX);
    assert ByteOf(a, p) == p.x + base;
    assert RowPlaces(a.maxX, base, p.x) == [p.x + base] + RowPlaces(a.maxX, base, p.x + 4);
    if p.x + 4 < a.maxX {
      Assoc([p.x + base], RowPlaces(a.maxX, base, p.x + 4), rest);
    } else {
      NextRow(a, p);
      assert rows[1..] == RowsOf(a, Advance(a, p));
      assert RowPlaces(a.maxX, base, p.x) == [p.x + base];
    }
  }

  /** The indices draw the places of the rows to come, in that order. */
  lemma {:induction false} VisitedIs(a: Area, p: Pen, n: nat)
    requires Solid(a) && GoodPen(a, p) && Settled(a, p) && n <= |Places(a, RowsOf(a, p), p.x)|
    ensures Visited(a, p, n) == Places(a, RowsOf(a, p), p.x)[..n]
    decreases n
  {
    if n > 0 {
      PlacesAdvance(a, p);
      AdvanceSettled(a, p);
      VisitedIs(a, Advance(a, p), n - 1);
    }
  }

  // ----- every place once

  lemma ConsTimes<T>(all: seq<T>, x: T, s: seq<T>, y: T)
    requires all == [x] + s
    ensures multiset(all)[y] == (if x == y then 1 else 0) + multiset(s)[y]
  {
  }

  /** Is `d` the column of a pixel from `from` on? */
  predicate IsColumn(from: nat, maxX: nat, d: int) {
    from <= d < maxX && d % 4 == 0
  }

  /** How often place `q` appears in the row at `base`, from byte `from` on. */
  function InRow(maxX: nat, base: nat, from: nat, q: nat): nat {
    multiset(RowPlaces(maxX, base, from))[q]
  }

  /** A place appears once in a row if it is that of one of its columns, and not at all otherwise. */
  lemma {:induction false} RowOnce(maxX: nat, base: nat, from: nat, q: nat)
    requires from % 4 == 0
    ensures InRow(maxX, base, from, q) == if IsColumn(from, maxX, q - base) then 1 else 0
    decreases maxX - from
  {
    if from < maxX {
      RowOnce(maxX, base, from + 4, q);
      FirstPlace(maxX, base, from, q);
      NextColumn(from, maxX, q - base);
    }
  }

  lemma FirstPlace(maxX: nat, base: nat, from: nat, q: nat)
    requires from < maxX
    ensures InRow(maxX, base, from, q) == (if from + base == q then 1 else 0) + InRow(maxX, base, from + 4, q)
  {
    ConsTimes(RowPlaces(maxX, base, from), from + base, RowPlaces(maxX, base, from + 4), q);
  }

  lemma NextColumn(from: nat, maxX: nat, d: int)
    requires from % 4 == 0 && from < maxX
    ensures IsColumn(from, maxX, d) <==> d == from || IsColumn(from + 4, maxX, d)
    ensures !IsColumn(from + 4, maxX, from)
  {
  }

  lemma RowOfPlace(a: Area, row: nat, x: nat, y: nat)
    requires Solid(a) && x % 4 == 0 && a.startX <= x < a.maxX
    ensures InRow(a.maxX, LineOf(a, row), a.startX, PlaceOf(a, x, y)) == if row == y then 1 else 0
  {
    if row < y {
      TimesApart(row, y, a.line);
    } else if y < row {
      TimesApart(y, row, a.line);
    }
    RowOnce(a.maxX, LineOf(a, row), a.startX, PlaceOf(a, x, y));
  }

  /** A place appears as often as its row. */
  lemma {:induction false} PlaceCount(a: Area, rows: seq<nat>, x: nat, y: nat)
    requires Solid(a) && x % 4 == 0 && a.startX <= x < a.maxX
    ensures multiset(Places(a, rows, a.startX))[PlaceOf(a, x, y)] == Count(rows, y)
  {
    if rows != [] {
      PlaceCount(a, rows[1..], x, y);
      RowOfPlace(a, rows[0], x, y);
      SumTimes(RowPlaces(a.maxX, LineOf(a, rows[0]), a.startX), Places(a, rows[1..], a.startX), PlaceOf(a, x, y));
    }
  }

  lemma {:induction false} RowLength(maxX: nat, base: nat, x: nat)
    requires x % 4 == maxX % 4 == 0 && x <= maxX
    ensures |RowPlaces(maxX, base, x)| == (maxX - x) / 4
    decreases maxX - x
  {
    if x < maxX {
      RowLength(maxX, base, x + 4);
    }
  }

  lemma {:induction false} PlacesLength(a: Area, rows: seq<nat>, w: nat)
    requires Solid(a) && w == (a.maxX - a.startX) / 4
    ensures |Places(a, rows, a.startX)| == w * |rows|
  {
    if rows != [] {
      RowLength(a.maxX, LineOf(a, rows[0]), a.startX);
      PlacesLength(a, rows[1..], w);
      OneMore(w, |rows|);
    }
  }

  lemma OneMore(w: nat, n: nat)
    requires n > 0
    ensures w * n == w + w * (n - 1)
  {
  }

  // ----- there are as many rows as the rectangle has

  function SumCounts(s: seq<nat>, h: nat): nat {
    if h == 0 then 0 else SumCounts(s, h - 1) + Count(s, h - 1)
  }

  lemma {:induction false} SumCons(x: nat, s: seq<nat>, h: nat)
    ensures SumCounts([x] + s, h) == SumCounts(s, h) + if x < h then 1 else 0
  {
    if h > 0 {
      SumCons(x, s, h - 1);
      ConsCount(x, s, h - 1);
    }
  }

  lemma {:induction false} SumEmpty(h: nat)
    ensures SumCounts([], h) == 0
  {
    if h > 0 {
      SumEmpty(h - 1);
    }
  }

  lemma {:induction false} SumIsLength(s: seq<nat>, h: nat)
    requires forall i :: 0 <= i < |s| ==> s[i] < h
    ensures SumCounts(s, h) == |s|
  {
    if s == [] {
      SumEmpty(h);
    } else {
      SumIsLength(s[1..], h);
      SumCons(s[0], s[1..], h);
      assert s == [s[0]] + s[1..];
    }
  }

  lemma {:induction false} RowsInside(h: nat, row: nat, step: nat, parse: nat)
    requires step > 0
    ensures forall i :: 0 <= i < |Rows(h, row, step, parse)| ==> Rows(h, row, step, parse)[i] < h
    decreases parse, if row < h then h - row else 0
  {
    if row < h {
      RowsInside(h, row + step, step, parse);
    } else if parse > 0 {
      RowsInside(h, Pow2(parse - 1), Pow2(parse), parse - 1);
    }
  }

  /** The start of a picture, interlaced or not. */
  predicate Starts(a: Area, p: Pen) {
    p.x == a.startX && p.row == 0 && ((p.step == 1 && p.parse == 0) || (p.step == 8 && p.parse == 3))
  }

  lemma {:induction false} OnesSum(s: seq<nat>, h: nat)
    requires forall y :: 0 <= y < h ==> Count(s, y) == 1
    ensures SumCounts(s, h) == h
  {
    if h > 0 {
      OnesSum(s, h - 1);
    }
  }

  lemma AllRows(a: Area, p: Pen)
    requires Starts(a, p)
    ensures |RowsOf(a, p)| == a.h && forall y :: 0 <= y < a.h ==> Count(RowsOf(a, p), y) == 1
  {
    forall y | 0 <= y < a.h
      ensures Count(RowsOf(a, p), y) == 1
    {
      EveryRowOnce(a.h, y);
    }
    RowsInside(a.h, p.row, p.step, p.parse);
    SumIsLength(RowsOf(a, p), a.h);
    OnesSum(RowsOf(a, p), a.h);
  }

  /** The number of pixels of the rectangle. */
  function Pixels(a: Area): nat
    requires Solid(a)
  {
    (a.maxX - a.startX) / 4 * a.h
  }

  lemma AllPlaces(a: Area, p: Pen)
    requires Solid(a) && a.h > 0 && Starts(a, p)
    ensures |Places(a, RowsOf(a, p), a.startX)| == Pixels(a)
    ensures Visited(a, p, Pixels(a)) == Places(a, RowsOf(a, p), a.startX)
  {
    AllRows(a, p);
    PlacesLength(a, RowsOf(a, p), (a.maxX - a.startX) / 4);
    var places := Places(a, RowsOf(a, p), a.startX);
    VisitedIs(a, p, |places|);
    assert places[..|places|] == places;
  }

  /** As many indices as the rectangle has pixels visit each of them exactly once, in the order of
      the rows. */
  lemma EveryPixelOnce(a: Area, p: Pen, x: nat, y: nat)
    requires Solid(a) && Starts(a, p) && x % 4 == 0 && a.startX <= x < a.maxX && y < a.h
    ensures Visited(a, p, Pixels(a)) == Places(a, RowsOf(a, p), a.startX)
    ensures multiset(Visited(a, p, Pixels(a)))[PlaceOf(a, x, y)] == 1
  {
    AllRows(a, p);
    AllPlaces(a, p);
    PlaceCount(a, RowsOf(a, p), x, y);
  }

  // ----- the picture

  /** The pen after `n` indices. */
  function PenAfter(a: Area, p: Pen, n: nat): Pen
    decreases n
  {
    if n == 0 || p.row >= a.h then p else PenAfter(a, Advance(a, p), n - 1)
  }

  lemma {:induction false} PenStep(a: Area, p: Pen, n: nat)
    ensures var q := PenAfter(a, p, n); PenAfter(a, p, n + 1) == if q.row >= a.h then q else Advance(a, q)
    decreases n
  {
    if n > 0 && p.row < a.h {
      PenStep(a, Advance(a, p), n - 1);
    }
  }

  lemma {:induction false} VisitedAt(a: Area, p: Pen, n: nat, k: nat)
    requires k < |Visited(a, p, n)|
    ensures k < n && PenAfter(a, p, k).row < a.h && Visited(a, p, n)[k] == ByteOf(a, PenAfter(a, p, k))
    decreases n
  {
    if k > 0 {
      VisitedAt(a, Advance(a, p), n - 1, k - 1);
    }
  }

  lemma {:induction false} PlotPen(a: Area, colors: Palette, c: Canvas, indices: seq<byte>)
    requires GoodCanvas(a, c)
    ensures PlotAll(a, colors, c, indices).pen == PenAfter(a, c.pen, |indices|)
    decreases |indices|
  {
    if indices != [] {
      PlotPen(a, colors, c, indices[..|indices| - 1]);
      PenStep(a, c.pen, |indices| - 1);
    }
  }

  /** All places of a picture are whole pixels apart. */
  predicate Apart(places: seq<nat>) {
    forall j, k :: 0 <= j < k < |places| ==> places[j] + 4 <= places[k] || places[k] + 4 <= places[j]
  }

  /** The last index of `indices` is drawn at the last place visited. */
  lemma LastPlot(a: Area, colors: Palette, c: Canvas, indices: seq<byte>, places: seq<nat>)
    requires GoodCanvas(a, c) && indices != [] && places == Visited(a, c.pen, |places|) && |indices| <= |places|
    ensures var n := |indices| - 1;
      var before, q := PlotAll(a, colors, c, indices[..n]), places[n];
      && before.pen.row < a.h && q == ByteOf(a, before.pen) && q + 4 <= |before.out| && q / 4 < |before.history|
      && PlotAll(a, colors, c, indices).out == Paint(before.out, q, colors, indices[n])
      && PlotAll(a, colors, c, indices).history == before.history[q / 4 := 1]
  {
    var n := |indices| - 1;
    PlotPen(a, colors, c, indices[..n]);
    VisitedAt(a, c.pen, |places|, n);
    PenInside(a, PlotAll(a, colors, c, indices[..n]).pen, |c.out|);
  }

  /** What is not visited stays as it was. */
  lemma {:induction false} Untouched(a: Area, colors: Palette, c: Canvas, indices: seq<byte>, places: seq<nat>, q: nat)
    requires GoodCanvas(a, c) && places == Visited(a, c.pen, |places|) && |indices| <= |places| && q + 4 <= |c.out|
    requires forall k :: 0 <= k < |indices| ==> places[k] + 4 <= q || q + 4 <= places[k]
    ensures PlotAll(a, colors, c, indices).out[q..q + 4] == c.out[q..q + 4]
    decreases |indices|
  {
    if indices != [] {
      Untouched(a, colors, c, indices[..|indices| - 1], places, q);
      LastPlot(a, colors, c, indices, places);
    }
  }

  /** The pixel at `q` of `d` has been coloured by `index` over what `c` showed there. */
  predicate Coloured(c: Canvas, d: Canvas, q: nat, colors: Palette, index: byte) {
    && q + 4 <= |c.out| == |d.out| && q / 4 < |d.history| && d.history[q / 4] == 1
    && d.out[q..q + 4] == Paint(c.out, q, colors, index)[q..q + 4]
  }

  lemma StaysColoured(c: Canvas, before: Canvas, d: Canvas, q: nat, r: nat, colors: Palette, index: byte, other: byte)
    requires Coloured(c, before, q, colors, index) && r + 4 <= |before.out| && r / 4 < |before.history|
    requires d.out == Paint(before.out, r, colors, other) && d.history == before.history[r / 4 := 1]
    requires q + 4 <= r || r + 4 <= q
    ensures Coloured(c, d, q, colors, index)
  {
    assert d.out[q..q + 4] == before.out[q..q + 4];
  }

  lemma PaintSame(o: seq<byte>, o2: seq<byte>, q: nat, colors: Palette, index: byte)
    requires q + 4 <= |o| == |o2| && o[q..q + 4] == o2[q..q + 4]
    ensures Paint(o, q, colors, index)[q..q + 4] == Paint(o2, q, colors, index)[q..q + 4]
  {
    forall i | q <= i < q + 4
      ensures o[i] == o2[i]
    {
      assert o[q..q + 4][i - q] == o2[q..q + 4][i - q];
    }
  }

  lemma JustColoured(c: Canvas, before: Canvas, d: Canvas, q: nat, colors: Palette, index: byte)
    requires q + 4 <= |c.out| == |before.out| && q / 4 < |before.history| && before.out[q..q + 4] == c.out[q..q + 4]
    requires d.out == Paint(before.out, q, colors, index) && d.history == before.history[q / 4 := 1]
    ensures Coloured(c, d, q, colors, index)
  {
    PaintSame(before.out, c.out, q, colors, index);
  }

  /** The picture: every index colours the pixel at its place, once, over what was there. */
  lemma {:induction false} PixelDrawn(a: Area, colors: Palette, c: Canvas, indices: seq<byte>, places: seq<nat>, k: nat)
    requires GoodCanvas(a, c) && places == Visited(a, c.pen, |places|) && Apart(places)
    requires k < |indices| <= |places|
    ensures Coloured(c, PlotAll(a, colors, c, indices), places[k], colors, indices[k])
    decreases |indices|
  {
    var n := |indices| - 1;
    if k < n {
      PixelDrawn(a, colors, c, indices[..n], places, k);
      LastPlot(a, colors, c, indices, places);
      StaysColoured(c, PlotAll(a, colors, c, indices[..n]), PlotAll(a, colors, c, indices), places[k], places[n],
        colors, indices[k], indices[n]);
    } else {
      OthersApart(places, n);
      LastDrawn(a, colors, c, indices, places, places[n]);
    }
  }

  lemma OthersApart(places: seq<nat>, n: nat)
    requires Apart(places) && n < |places|
    ensures forall k :: 0 <= k < n ==> places[k] + 4 <= places[n] || places[n] + 4 <= places[k]
  {
  }

  lemma LastDrawn(a: Area, colors: Palette, c: Canvas, indices: seq<byte>, places: seq<nat>, q: nat)
    requires GoodCanvas(a, c) && places == Visited(a, c.pen, |places|) && 0 < |indices| <= |places|
    requires q == places[|indices| - 1]
    requires forall k :: 0 <= k < |indices| - 1 ==> places[k] + 4 <= q || q + 4 <= places[k]
    ensures Coloured(c, PlotAll(a, colors, c, indices), q, colors, indices[|indices| - 1])
  {
    var first := indices[..|indices| - 1];
    LastPlot(a, colors, c, indices, places);
    var before, d := PlotAll(a, colors, c, first), PlotAll(a, colors, c, indices);
    assert before.out[q..q + 4] == c.out[q..q + 4] by {
      Untouched(a, colors, c, first, places, q);
    }
    JustColoured(c, before, d, q, colors, indices[|indices| - 1]);
  }

  lemma TwiceCounts<T>(s: seq<T>, j: nat, k: nat)
    requires j < k < |s| && s[j] == s[k]
    ensures multiset(s)[s[j]] >= 2
  {
    assert s == s[..k] + s[k..];
    assert s[j] in s[..k] && s[k] in s[k..];
    assert multiset(s) == multiset(s[..k]) + multiset(s[k..]);
  }

  lemma {:induction false} RowPlaceIs(maxX: nat, base: nat, x: nat, k: nat) returns (z: nat)
    requires x % 4 == 0 && k < |RowPlaces(maxX, base, x)|
    ensures x <= z < maxX && z % 4 == 0 && RowPlaces(maxX, base, x)[k] == z + base
    decreases k
  {
    if k > 0 {
      z := RowPlaceIs(maxX, base, x + 4, k - 1);
    } else {
      z := x;
    }
  }

  /** Every place is that of a pixel of one of the rows. */
  lemma {:induction false} PlaceIs(a: Area, rows: seq<nat>, k: nat) returns (x: nat, y: nat)
    requires Solid(a) && k < |Places(a, rows, a.startX)|
    ensures a.startX <= x < a.maxX && x % 4 == 0 && y in rows && Places(a, rows, a.startX)[k] == PlaceOf(a, x, y)
    decreases |rows|
  {
    var first := RowPlaces(a.maxX, LineOf(a, rows[0]), a.startX);
    if k < |first| {
      x := RowPlaceIs(a.maxX, LineOf(a, rows[0]), a.startX, k);
      y := rows[0];
    } else {
      x, y := PlaceIs(a, rows[1..], k - |first|);
    }
  }

  lemma FourApart(p: nat, q: nat)
    requires p != q && p % 4 == q % 4
    ensures p + 4 <= q || q + 4 <= p
  {
  }

  lemma PlaceModulo(a: Area, x: nat, y: nat)
    requires x % 4 == 0 && a.line % 4 == 0
    ensures PlaceOf(a, x, y) % 4 == a.startY % 4
  {
    var l := a.line / 4;
    assert y * a.line == 4 * (y * l) by {
      assert a.line == 4 * l;
      assert y * (4 * l) == 4 * (y * l);
    }
    assert PlaceOf(a, x, y) == a.startY + 4 * (y * l + x / 4);
  }

  lemma PlacesAreApart(a: Area, p: Pen)
    requires Solid(a) && Starts(a, p)
    ensures Apart(Places(a, RowsOf(a, p), a.startX))
  {
    var places := Places(a, RowsOf(a, p), a.startX);
    forall j, k | 0 <= j < k < |places|
      ensures places[j] + 4 <= places[k] || places[k] + 4 <= places[j]
    {
      var x, y := PlaceIs(a, RowsOf(a, p), j);
      var x2, y2 := PlaceIs(a, RowsOf(a, p), k);
      RowsInside(a.h, p.row, p.step, p.parse);
      EveryPixelOnce(a, p, x, y);
      if places[j] == places[k] {
        TwiceCounts(places, j, k);
      }
      PlaceModulo(a, x, y);
      PlaceModulo(a, x2, y2);
      FourApart(places[j], places[k]);
    }
  }

  /** A whole picture: as many indices as the rectangle has pixels colour each of them once, the
      `k`-th index the `k`-th place in the order of the rows. */
  lemma WholePicture(a: Area, colors: Palette, c: Canvas, indices: seq<byte>, k: nat)
    requires GoodCanvas(a, c) && Solid(a) && Starts(a, c.pen)
    requires |indices| == Pixels(a) && k < |indices|
    ensures |Places(a, RowsOf(a, c.pen), a.startX)| == |indices|
    ensures Coloured(c, PlotAll(a, colors, c, indices), Places(a, RowsOf(a, c.pen), a.startX)[k], colors, indices[k])
  {
    AllPlaces(a, c.pen);
    PlacesAreApart(a, c.pen);
    PixelDrawn(a, colors, c, indices, Places(a, RowsOf(a, c.pen), a.startX), k);
  }
}
