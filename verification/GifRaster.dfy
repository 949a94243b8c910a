/** Where colour indices go: `stbi__out_gif_code` and the four passes of Appendix E of the GIF89a specification. */
module GifRaster {
  import opened Bits

  /** A rectangle of `h` rows in an output of lines of `line` bytes; columns in bytes. */
  datatype Area = Area(line: nat, startX: nat, maxX: nat, startY: nat, h: nat)

  /** The place of the next pixel: a byte in a row of the rectangle, the distance of rows in this
      pass, and how many passes follow. */
  datatype Pen = Pen(x: nat, row: nat, step: nat, parse: nat)

  predicate GoodArea(a: Area, size: nat) {
    a.startX <= a.maxX <= a.line && a.startX % 4 == a.maxX % 4 == a.line % 4 == 0 && a.startY + a.h * a.line <= size
  }

  predicate GoodPen(a: Area, p: Pen) {
    p.row < a.h ==> a.startX <= p.x < a.maxX && p.x % 4 == 0
  }

  /** Below the last row the next pass starts, as long as there is one. */
  function Settle(h: nat, row: nat, step: nat, parse: nat): (nat, nat, nat)
    decreases parse
  {
    if row >= h && parse > 0 then Settle(h, Pow2(parse - 1), Pow2(parse), parse - 1) else (row, step, parse)
  }

  function Advance(a: Area, p: Pen): Pen {
    if p.x + 4 < a.maxX then p.(x := p.x + 4)
    else
      var (row, step, parse) := Settle(a.h, p.row + p.step, p.step, p.parse);
      Pen(a.startX, row, step, parse)
  }

  function ByteOf(a: Area, p: Pen): nat {
    p.x + (a.startY + p.row * a.line)
  }

  /** The picture, which pixels were drawn, and the pen. */
  datatype Canvas = Canvas(out: seq<byte>, history: seq<byte>, pen: Pen)

  predicate GoodCanvas(a: Area, c: Canvas) {
    GoodArea(a, |c.out|) && GoodPen(a, c.pen) && |c.out| == 4 * |c.history|
  }

  lemma PenInside(a: Area, p: Pen, size: nat)
    requires GoodArea(a, size) && GoodPen(a, p) && p.row < a.h
    ensures ByteOf(a, p) + 4 <= size
    ensures size % 4 == 0 ==> ByteOf(a, p) / 4 < size / 4
  {
    TimesApart(p.row, a.h, a.line);
  }

  type Palette = p: seq<byte> | |p| == 1024 witness seq(1024, _ => 0)

  /** One pixel: transparent ones are skipped, blue and red change places. */
  function Paint(out: seq<byte>, i: nat, colors: Palette, index: byte): (r: seq<byte>)
    requires i + 4 <= |out|
    ensures |r| == |out|
  {
    var k := index * 4;
    if colors[k + 3] > 128 then
      out[i := colors[k + 2]][i + 1 := colors[k + 1]][i + 2 := colors[k]][i + 3 := colors[k + 3]]
    else out
  }

  function Plot(a: Area, colors: Palette, c: Canvas, index: byte): (d: Canvas)
    requires GoodCanvas(a, c)
    ensures GoodCanvas(a, d) && |d.out| == |c.out|
  {
    if c.pen.row >= a.h then c
    else
      PenInside(a, c.pen, |c.out|);
      var i := ByteOf(a, c.pen);
      AdvanceGood(a, c.pen);
      Canvas(Paint(c.out, i, colors, index), c.history[i / 4 := 1], Advance(a, c.pen))
  }

  lemma AdvanceGood(a: Area, p: Pen)
    requires a.startX < a.maxX && a.startX % 4 == a.maxX % 4 == 0 && p.x % 4 == 0 && a.startX <= p.x
    ensures GoodPen(a, Advance(a, p))
  {
  }

  function PlotAll(a: Area, colors: Palette, c: Canvas, indices: seq<byte>): (d: Canvas)
    requires GoodCanvas(a, c)
    ensures GoodCanvas(a, d) && |d.out| == |c.out|
    decreases |indices|
  {
    if indices == [] then c
    else Plot(a, colors, PlotAll(a, colors, c, indices[..|indices| - 1]), indices[|indices| - 1])
  }

  lemma {:induction false} PlotAppend(a: Area, colors: Palette, c: Canvas, s: seq<byte>, t: seq<byte>)
    requires GoodCanvas(a, c)
    ensures PlotAll(a, colors, c, s + t) == PlotAll(a, colors, PlotAll(a, colors, c, s), t)
    decreases |t|
  {
    if t == [] {
      assert s + t == s;
    } else {
      assert (s + t)[..|s + t| - 1] == s + t[..|t| - 1];
      PlotAppend(a, colors, c, s, t[..|t| - 1]);
    }
  }

  // ----- every row once

  /** The rows from `row` on, as the pen visits them. */
  function Rows(h: nat, row: nat, step: nat, parse: nat): seq<nat>
    requires step > 0
    decreases parse, if row < h then h - row else 0
  {
    if row < h then [row] + Rows(h, row + step, step, parse)
    else if parse > 0 then Rows(h, Pow2(parse - 1), Pow2(parse), parse - 1)
    else []
  }

  lemma {:induction false} SettledRows(h: nat, row: nat, step: nat, parse: nat)
    requires step > 0
    ensures var (r, s, p) := Settle(h, row, step, parse); s > 0 && Rows(h, r, s, p) == Rows(h, row, step, parse)
    decreases parse
  {
    if row >= h && parse > 0 {
      SettledRows(h, Pow2(parse - 1), Pow2(parse), parse - 1);
    }
  }

  /** After the last pixel of a row the pen goes to the next of these rows. */
  lemma NextRow(a: Area, p: Pen)
    requires p.step > 0 && p.row < a.h && p.x + 4 >= a.maxX
    ensures Advance(a, p).step > 0 && Advance(a, p).x == a.startX
    ensures Rows(a.h, p.row, p.step, p.parse) ==
      [p.row] + Rows(a.h, Advance(a, p).row, Advance(a, p).step, Advance(a, p).parse)
  {
    SettledRows(a.h, p.row + p.step, p.step, p.parse);
  }

  predicate InPass(y: nat, row: nat, step: nat)
    requires step > 0
    decreases if row <= y then y - row + 1 else 0
  {
    row <= y && (y == row || InPass(y, row + step, step))
  }

  /** How often row `y` is still to come. */
  function ToCome(y: nat, row: nat, step: nat, parse: nat): nat
    requires step > 0
    decreases parse
  {
    (if InPass(y, row, step) then 1 else 0)
    + (if parse > 0 then ToCome(y, Pow2(parse - 1), Pow2(parse), parse - 1) else 0)
  }

  lemma ToComeNext(y: nat, row: nat, step: nat, parse: nat)
    requires step > 0
    ensures ToCome(y, row, step, parse) == (if y == row then 1 else 0) + ToCome(y, row + step, step, parse)
  {
    assert InPass(y, row, step) == (y == row || InPass(y, row + step, step));
    assert !InPass(row, row + step, step);
  }

  function Count(s: seq<nat>, y: nat): nat {
    if s == [] then 0 else (if s[0] == y then 1 else 0) + Count(s[1..], y)
  }

  lemma ConsCount(x: nat, s: seq<nat>, y: nat)
    ensures Count([x] + s, y) == (if y == x then 1 else 0) + Count(s, y)
  {
    assert ([x] + s)[1..] == s;
  }

  lemma {:induction false} RowsCount(h: nat, row: nat, step: nat, parse: nat, y: nat)
    requires step > 0 && y < h
    ensures Count(Rows(h, row, step, parse), y) == ToCome(y, row, step, parse)
    decreases parse, if row < h then h - row else 0
  {
    if row < h {
      RowsCount(h, row + step, step, parse, y);
      ConsCount(row, Rows(h, row + step, step, parse), y);
      ToComeNext(y, row, step, parse);
    } else {
      if parse > 0 {
        RowsCount(h, Pow2(parse - 1), Pow2(parse), parse - 1, y);
      }
    }
  }

  lemma {:induction false} InPassIs(y: nat, row: nat, step: nat)
    requires step == 1 || step == 2 || step == 4 || step == 8
    ensures InPass(y, row, step) <==> y >= row && (y - row) % step == 0
    decreases if row <= y then y - row + 1 else 0
  {
    if y > row {
      InPassIs(y, row + step, step);
      SubtractStep(y - row, step);
    }
  }

  lemma SubtractStep(d: nat, step: nat)
    requires 0 < d && (step == 1 || step == 2 || step == 4 || step == 8)
    ensures d % step == 0 <==> d >= step && (d - step) % step == 0
  {
  }

  /** Interlaced or not, the pen visits every row of the rectangle exactly once. */
  lemma EveryRowOnce(h: nat, y: nat)
    requires y < h
    ensures Count(Rows(h, 0, 1, 0), y) == 1 && Count(Rows(h, 0, 8, 3), y) == 1
  {
    Pow2Small();
    RowsCount(h, 0, 1, 0, y);
    RowsCount(h, 0, 8, 3, y);
    InPassIs(y, 0, 1);
    InPassIs(y, 0, 8);
    InPassIs(y, 4, 8);
    InPassIs(y, 2, 4);
    InPassIs(y, 1, 2);
    ToComeInterlaced(y);
    OnePass(y);
  }

  lemma ToComeInterlaced(y: nat)
    ensures ToCome(y, 0, 8, 3) == (if InPass(y, 0, 8) then 1 else 0) + (if InPass(y, 4, 8) then 1 else 0)
      + (if InPass(y, 2, 4) then 1 else 0) + (if InPass(y, 1, 2) then 1 else 0)
  {
    Pow2Small();
    assert ToCome(y, 1, 2, 0) == if InPass(y, 1, 2) then 1 else 0;
    assert ToCome(y, 2, 4, 1) == (if InPass(y, 2, 4) then 1 else 0) + ToCome(y, 1, 2, 0);
    assert ToCome(y, 4, 8, 2) == (if InPass(y, 4, 8) then 1 else 0) + ToCome(y, 2, 4, 1);
  }

  lemma OnePass(y: nat)
    ensures (if y % 8 == 0 then 1 else 0) + (if y >= 4 && (y - 4) % 8 == 0 then 1 else 0)
      + (if y >= 2 && (y - 2) % 4 == 0 then 1 else 0) + (if y >= 1 && (y - 1) % 2 == 0 then 1 else 0) == 1
  {
  }
}
