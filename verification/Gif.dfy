/** `stbi__gif`: the prefix table and the two functions that decode and draw an image,
    `stbi__out_gif_code` and `stbi__process_gif_raster`. */
module Gif {
  import opened Bits
  import opened Lzw
  import opened GifRaster

  /** Entry `c` of the prefix table stands for the string `table[c]`. */
  ghost predicate EntryIs(cs: CodeSize, table: seq<seq<byte>>, c: nat, prefix: int, first: byte, suffix: byte) {
    && c < |table| && table[c] != [] && first == table[c][0] && suffix == table[c][|table[c]| - 1]
    && (prefix == -1 || (IsData(cs, prefix) && prefix < c))
    && table[c] == (if prefix == -1 then [suffix] else table[prefix] + [suffix])
  }

  /** A new entry leaves the others as they are. */
  lemma EntryKept(cs: CodeSize, table: seq<seq<byte>>, x: seq<byte>, c: nat, prefix: int, first: byte, suffix: byte)
    requires EntryIs(cs, table, c, prefix, first, suffix)
    ensures EntryIs(cs, table + [x], c, prefix, first, suffix)
  {
  }

  /** The new entry: the previous string and the first index of the code, which is that of the
      previous string if the code is the new one. */
  lemma NewEntryIs(cs: CodeSize, s: Lzw, code: nat, first: byte, suffix: byte)
    requires Ok(cs, s) && s.prev >= 0 && IsData(cs, code) && code <= |s.table|
    requires s.table[s.prev] != [] && (code < |s.table| ==> s.table[code] != [])
    requires first == s.table[s.prev][0] && suffix == if code == |s.table| then first else s.table[code][0]
    ensures EntryIs(cs, s.table + [NewEntry(s, code)], |s.table|, s.prev, first, suffix)
  {
  }

  class Gif {
    const area: Area
    const color_table: Palette
    const out: array<byte>
    const history: array<byte>
    var cur_x: nat
    var cur_y: nat
    var step: nat
    var parse: nat
    ghost var row: nat
    ghost var rowStep: nat
    const prefix: array<int>
    const first: array<byte>
    const suffix: array<byte>

    // ----- drawing

    ghost predicate Wired() {
      && prefix.Length == LIMIT && first.Length == LIMIT && suffix.Length == LIMIT
      && out != history && out != first && out != suffix && history != first && history != suffix && first != suffix
    }

    /** The byte positions of the fields are those of the row numbers of the pen. */
    ghost predicate Drawable()
      reads this, out, history
    {
      PenIs() && GoodCanvas(area, Picture())
    }

    ghost predicate PenIs()
      reads this
    {
      cur_y == area.startY + row * area.line && step == rowStep * area.line && 0 < area.line
    }

    ghost function Picture(): Canvas
      reads this, out, history
    {
      Canvas(out[..], history[..], Pen(cur_x, row, rowStep, parse))
    }

    constructor (a: Area, colors: Palette, w: nat, h: nat, pen: Pen)
      requires GoodArea(a, 4 * (w * h)) && GoodPen(a, pen) && 0 < a.line
      ensures Wired() && Drawable() && fresh(out) && fresh(history) && fresh(prefix) && fresh(first) && fresh(suffix)
      ensures area == a && color_table == colors && Picture().pen == pen
      ensures out[..] == seq(4 * (w * h), _ => 0) && history[..] == seq(w * h, _ => 0)
    {
      area, color_table := a, colors;
      out := new byte[4 * (w * h)](_ => 0);
      history := new byte[w * h](_ => 0);
      cur_x, cur_y, step, parse := pen.x, a.startY + pen.row * a.line, pen.step * a.line, pen.parse;
      row, rowStep := pen.row, pen.step;
      prefix := new int[LIMIT](_ => 0);
      first := new byte[LIMIT](_ => 0);
      suffix := new byte[LIMIT](_ => 0);
    }

    /** The loop that looks for a pass with a row inside the rectangle. */
    method SettleRow(max_y: nat)
      requires max_y == area.startY + area.h * area.line && 0 < area.line
      requires cur_y == area.startY + row * area.line && step == rowStep * area.line
      modifies this`cur_y, this`step, this`parse, this`row, this`rowStep
      ensures cur_y == area.startY + row * area.line && step == rowStep * area.line
      ensures (row, rowStep, parse) == old(Settle(area.h, row, rowStep, parse))
    {
      while cur_y >= max_y && parse > 0
        invariant cur_y == area.startY + row * area.line && step == rowStep * area.line
        invariant Settle(area.h, row, rowStep, parse) == old(Settle(area.h, row, rowStep, parse))
        decreases parse
      {
        RowsCompare(row, area.h, area.line);
        PassStep(area.line, parse);
        step := Shl(area.line, parse);
        cur_y := area.startY + Shr(step, 1);
        parse := parse - 1;
        row, rowStep := Pow2(parse), Pow2(parse + 1);
      }
      RowsCompare(row, area.h, area.line);
    }

    /** The color of the current pixel. */
    method PaintPixel(idx: nat, index: byte)
      requires Wired() && idx + 4 <= out.Length && idx / 4 < history.Length
      modifies out, history
      ensures out[..] == Paint(old(out[..]), idx, color_table, index) && history[..] == old(history[..])[idx / 4 := 1]
    {
      history[idx / 4] := 1;
      var c := index * 4;
      if color_table[c + 3] > 128 {
        out[idx], out[idx + 1], out[idx + 2], out[idx + 3] :=
          color_table[c + 2], color_table[c + 1], color_table[c], color_table[c + 3];
      }
    }

    /** On to the next pixel. */
    method MovePen(max_y: nat)
      requires max_y == area.startY + area.h * area.line && PenIs()
      modifies this`cur_x, this`cur_y, this`step, this`parse, this`row, this`rowStep
      ensures PenIs() && Pen(cur_x, row, rowStep, parse) == Advance(area, old(Pen(cur_x, row, rowStep, parse)))
    {
      cur_x := cur_x + 4;
      if cur_x >= area.maxX {
        cur_x := area.startX;
        NextRowPlace(row, rowStep, area.line);
        cur_y := cur_y + step;
        row := row + rowStep;
        SettleRow(max_y);
      }
    }

    /** The rest of `stbi__out_gif_code`, after the prefix has been put out. */
    method OutPixel(index: byte)
      requires Wired() && Drawable()
      modifies this`cur_x, this`cur_y, this`step, this`parse, this`row, this`rowStep, out, history
      ensures Drawable() && Picture() == Plot(area, color_table, old(Picture()), index)
    {
      ghost var before := Picture();
      var max_y := area.startY + area.h * area.line;
      RowsCompare(row, area.h, area.line);
      if cur_y >= max_y {
        return;
      }
      PenInside(area, before.pen, |before.out|);
      PaintPixel(cur_x + cur_y, index);
      MovePen(max_y);
      assert Picture() == Plot(area, color_table, before, index);
    }

    // ----- the prefix table

    /** The live entries of the prefix table stand for the strings of `table`. */
    ghost predicate TableIs(cs: CodeSize, table: seq<seq<byte>>)
      reads prefix, first, suffix
    {
      && Wired() && |table| <= LIMIT
      && forall c: nat :: IsData(cs, c) && c < |table| ==> EntryIs(cs, table, c, prefix[c], first[c], suffix[c])
    }

    /** `stbi__out_gif_code`: the string of a code is drawn, its prefix first.  A prefix is always
        an earlier entry, so the recursion ends. */
    method OutGifCode(code: nat, ghost cs: CodeSize, ghost table: seq<seq<byte>>)
      requires TableIs(cs, table) && Drawable() && IsData(cs, code) && code < |table|
      modifies this`cur_x, this`cur_y, this`step, this`parse, this`row, this`rowStep, out, history
      ensures Drawable() && Picture() == PlotAll(area, color_table, old(Picture()), table[code])
      decreases code
    {
      assert EntryIs(cs, table, code, prefix[code], first[code], suffix[code]);
      ghost var before := Picture();
      if prefix[code] >= 0 {
        OutGifCode(prefix[code], cs, table);
        PlotLast(area, color_table, before, table[prefix[code]], suffix[code]);
      } else {
        PlotLast(area, color_table, before, [], suffix[code]);
        assert [] + [suffix[code]] == table[code];
      }
      OutPixel(suffix[code]);
    }

    /** The codes below `Clear` stand for themselves. */
    method InitTable(cs: CodeSize)
      requires Wired()
      modifies prefix, first, suffix
      ensures TableIs(cs, Initial(cs))
    {
      ClearIs(cs);
      var clear := Clear(cs);
      for init_code := 0 to clear
        invariant forall c: nat :: c < init_code ==> prefix[c] == -1 && first[c] == suffix[c] == c % 256
      {
        prefix[init_code], first[init_code], suffix[init_code] := -1, init_code % 256, init_code % 256;
      }
    }

    /** The entry made when `code` follows `oldcode`.  When `code` is this entry, its first index
        has just been set.  The source asks `code == avail` after `avail` has been increased, which
        never holds, so `first` of the code is used in every case. */
    method AddEntry(cs: CodeSize, ghost s: Lzw, avail: nat, oldcode: nat, code: nat)
      requires Ok(cs, s) && TableIs(cs, s.table) && avail == |s.table| < LIMIT && oldcode == s.prev
      requires IsData(cs, code) && code <= avail
      modifies prefix, first, suffix
      ensures s.table[oldcode] != [] && (code < avail ==> s.table[code] != [])
      ensures TableIs(cs, s.table + [NewEntry(s, code)])
    {
      assert EntryIs(cs, s.table, oldcode, prefix[oldcode], first[oldcode], suffix[oldcode]);
      assert code < avail ==> EntryIs(cs, s.table, code, prefix[code], first[code], suffix[code]);
      ghost var table := s.table + [NewEntry(s, code)];
      label before:
      prefix[avail] := oldcode;
      first[avail] := first[oldcode];
      suffix[avail] := first[code];
      forall c: nat | IsData(cs, c) && c < |table|
        ensures EntryIs(cs, table, c, prefix[c], first[c], suffix[c])
      {
        if c < avail {
          assert EntryIs(cs, s.table, c, old@before(prefix[c]), old@before(first[c]), old@before(suffix[c]));
          EntryKept(cs, s.table, NewEntry(s, code), c, prefix[c], first[c], suffix[c]);
        } else {
          NewEntryIs(cs, s, code, first[c], suffix[c]);
        }
      }
    }

    /** A code that is not a control code. */
    method DataCode(cs: CodeSize, ghost s: Lzw, code: nat, avail: nat, oldcode: int, codesize: nat, wait: bool)
      returns (ok: bool, avail2: nat, codesize2: nat)
      requires Ok(cs, s) && TableIs(cs, s.table) && Drawable() && IsData(cs, code)
      requires avail == |s.table| && oldcode == s.prev && codesize == s.width && wait == s.first
      modifies this`cur_x, this`cur_y, this`step, this`parse, this`row, this`rowStep
      modifies out, history, prefix, first, suffix
      ensures ok <==> Step(cs, s, code).Go?
      ensures Wired() && Drawable()
      ensures ok ==> TableIs(cs, Step(cs, s, code).s.table)
      ensures ok ==> avail2 == |Step(cs, s, code).s.table| && codesize2 == Step(cs, s, code).s.width
      ensures Picture() ==
        if ok then PlotAll(area, color_table, old(Picture()), Step(cs, s, code).emitted) else old(Picture())
    {
      avail2, codesize2 := avail, codesize;
      if code > avail || wait {
        return false, avail2, codesize2;
      }
      if oldcode >= 0 {
        avail2 := avail + 1;
        if avail2 > LIMIT {
          return false, avail2, codesize2;
        }
        AddEntry(cs, s, avail, oldcode, code);
      } else if code == avail {
        return false, avail2, codesize2;
      }
      OutGifCode(code, cs, Step(cs, s, code).s.table);
      if Low(avail2, codesize) == 0 && avail2 <= 0xFFF {
        codesize2 := codesize + 1;
      }
      ok := true;
    }

    /** Between two turns of the main loop, with `emitted` put out so far. */
    ghost predicate Between(cs: CodeSize, s: Lzw, all: seq<bool>, ahead: seq<bool>, start: Canvas, emitted: seq<byte>)
      reads this, out, history, prefix, first, suffix
    {
      && Ok(cs, s) && s.width > 0 && TableIs(cs, s.table) && Initial(cs) <= s.table && Drawable()
      && Decode(cs, Start(cs), all) == Prepend(emitted, Decode(cs, s, ahead))
      && GoodCanvas(area, start) && Picture() == PlotAll(area, color_table, start, emitted)
    }

    /** The clear code. */
    ghost method Cleared(cs: CodeSize, s: Lzw, all: seq<bool>, ahead: seq<bool>, rest: seq<bool>, start: Canvas,
        emitted: seq<byte>)
      requires Between(cs, s, all, ahead, start, emitted) && s.width <= |ahead| && rest == ahead[s.width..]
      requires FromBits(ahead[..s.width]) == Clear(cs)
      ensures Between(cs, Reset(cs), all, rest, start, emitted)
    {
      var table := Initial(cs);
      forall c: nat | IsData(cs, c) && c < |table|
        ensures EntryIs(cs, table, c, prefix[c], first[c], suffix[c])
      {
        assert EntryIs(cs, s.table, c, prefix[c], first[c], suffix[c]);
      }
    }

    /** A code that is not a control code, within the main loop. */
    method Coded(cs: CodeSize, ghost s: Lzw, ghost all: seq<bool>, ghost ahead: seq<bool>, ghost start: Canvas,
        ghost emitted: seq<byte>, code: nat, avail: nat, oldcode: int, codesize: nat, wait: bool)
      returns (ok: bool, avail2: nat, codesize2: nat, ghost emitted2: seq<byte>)
      requires Between(cs, s, all, ahead, start, emitted) && IsData(cs, code)
      requires s.width <= |ahead| && FromBits(ahead[..s.width]) == code
      requires avail == |s.table| && oldcode == s.prev && codesize == s.width && wait == s.first
      modifies this`cur_x, this`cur_y, this`step, this`parse, this`row, this`rowStep
      modifies out, history, prefix, first, suffix
      ensures ok <==> Step(cs, s, code).Go?
      ensures ok ==> var t := Step(cs, s, code).s;
        Between(cs, t, all, ahead[s.width..], start, emitted2) && avail2 == |t.table| && codesize2 == t.width
      ensures !ok ==> Drawable() && Decode(cs, Start(cs), all) == Result(false, emitted) && emitted2 == emitted
      ensures !ok ==> Picture() == PlotAll(area, color_table, start, emitted)
    {
      emitted2 := emitted;
      ok, avail2, codesize2 := DataCode(cs, s, code, avail, oldcode, codesize, wait);
      if ok {
        ghost var go := Step(cs, s, code);
        StepOk(cs, s, code);
        emitted2 := emitted + go.emitted;
        Assoc(emitted, go.emitted, Decode(cs, go.s, ahead[s.width..]).indices);
        PlotAppend(area, color_table, start, emitted, go.emitted);
      }
    }

    /** A turn of the main loop with a whole code in the reservoir.  `more` says that the loop goes on. */
    method TakeCode(cs: CodeSize, ghost s: Lzw, ghost all: seq<bool>, src: seq<byte>, inp: Input, ghost start: Canvas,
        ghost emitted: seq<byte>, v: Vars)
      returns (more: bool, ok: bool, inp2: Input, v2: Vars, ghost s2: Lzw, ghost emitted2: seq<byte>)
      requires inp.bits < Pow2(inp.valid_bits) && v.codesize <= inp.valid_bits && Match(v, s)
      requires Between(cs, s, all, Ahead(src, inp), start, emitted)
      modifies this`cur_x, this`cur_y, this`step, this`parse, this`row, this`rowStep
      modifies out, history, prefix, first, suffix
      ensures inp2 == Taken(inp, v.codesize) && inp2.bits < Pow2(inp2.valid_bits)
      ensures more ==> Between(cs, s2, all, Ahead(src, inp2), start, emitted2) && Match(v2, s2)
      ensures !more ==> Finished(cs, all, start, emitted2, ok)
    {
      ghost var ahead := Ahead(src, inp);
      CodeLeaves(src, inp, v.codesize);
      var code := Low(inp.bits, v.codesize);
      inp2 := Taken(inp, v.codesize);
      more, ok, v2, s2, emitted2 := true, true, v, s, emitted;
      if code == Clear(cs) {
        Cleared(cs, s, all, ahead, ahead[v.codesize..], start, emitted);
        v2, s2 := Vars(Clear(cs) + 2, -1, cs + 1, false), Reset(cs);
      } else if code == Clear(cs) + 1 {
        more := false;
        EndCode(cs, s, ahead, Decode(cs, Start(cs), all), emitted);
      } else {
        var avail, codesize;
        ok, avail, codesize, emitted2 :=
          Coded(cs, s, all, ahead, start, emitted, code, v.avail, v.oldcode, v.codesize, v.wait);
        more := ok;
        if ok {
          v2, s2 := Vars(avail, code, codesize, false), Step(cs, s, code).s;
        }
      }
    }

    /** The main loop goes on. */
    ghost predicate Going(cs: CodeSize, s: Lzw, all: seq<bool>, src: seq<byte>, inp: Input, start: Canvas,
        emitted: seq<byte>, v: Vars, end: int)
      reads this, out, history, prefix, first, suffix
    {
      Readable(src, end, inp) && Match(v, s) && Between(cs, s, all, Ahead(src, inp), start, emitted)
    }

    /** It has ended with the result `ok`. */
    ghost predicate Finished(cs: CodeSize, all: seq<bool>, start: Canvas, emitted: seq<byte>, ok: bool)
      reads this, out, history
    {
      && Drawable() && Decode(cs, Start(cs), all) == Result(ok, emitted)
      && GoodCanvas(area, start) && Picture() == PlotAll(area, color_table, start, emitted)
    }

    /** A turn of the main loop that reads a byte, or finds no more. */
    method ByteTurn(cs: CodeSize, ghost s: Lzw, ghost all: seq<bool>, src: seq<byte>, inp: Input, ghost start: Canvas,
        ghost emitted: seq<byte>, v: Vars, ghost end: int) returns (more: bool, inp2: Input)
      requires Going(cs, s, all, src, inp, start, emitted, v, end) && inp.valid_bits < v.codesize
      ensures more ==> Less(src, inp2, inp) && Going(cs, s, all, src, inp2, start, emitted, v, end)
      ensures !more ==> Finished(cs, all, start, emitted, true) && AtEnd(end, inp2.pos)
    {
      var done;
      done, inp2 := NextInput(src, inp, end);
      if done {
        OutOfData(cs, s, Ahead(src, inp), Decode(cs, Start(cs), all), emitted);
      }
      more := !done;
    }

    /** A turn of the main loop: a byte is read, or a code is taken. */
    method Turn(cs: CodeSize, ghost s: Lzw, ghost all: seq<bool>, src: seq<byte>, inp: Input, ghost start: Canvas,
        ghost emitted: seq<byte>, v: Vars, ghost end: int)
      returns (more: bool, ok: bool, pos: nat, inp2: Input, v2: Vars, ghost s2: Lzw, ghost emitted2: seq<byte>)
      requires Going(cs, s, all, src, inp, start, emitted, v, end)
      modifies this`cur_x, this`cur_y, this`step, this`parse, this`row, this`rowStep
      modifies out, history, prefix, first, suffix
      ensures more ==> Less(src, inp2, inp) && Going(cs, s2, all, src, inp2, start, emitted2, v2, end)
      ensures !more ==> Finished(cs, all, start, emitted2, ok) && (ok ==> AtEnd(end, pos))
    {
      if inp.valid_bits < v.codesize {
        more, inp2 := ByteTurn(cs, s, all, src, inp, start, emitted, v, end);
        return more, true, inp2.pos, inp2, v, s, emitted;
      }
      more, ok, pos, inp2, v2, s2, emitted2 := CodeTurn(cs, s, all, src, inp, start, emitted, v, end);
    }

    /** A turn of the main loop that takes a code. */
    method CodeTurn(cs: CodeSize, ghost s: Lzw, ghost all: seq<bool>, src: seq<byte>, inp: Input, ghost start: Canvas,
        ghost emitted: seq<byte>, v: Vars, ghost end: int)
      returns (more: bool, ok: bool, pos: nat, inp2: Input, v2: Vars, ghost s2: Lzw, ghost emitted2: seq<byte>)
      requires Going(cs, s, all, src, inp, start, emitted, v, end) && inp.valid_bits >= v.codesize
      modifies this`cur_x, this`cur_y, this`step, this`parse, this`row, this`rowStep
      modifies out, history, prefix, first, suffix
      ensures more ==> Less(src, inp2, inp) && Going(cs, s2, all, src, inp2, start, emitted2, v2, end)
      ensures !more ==> Finished(cs, all, start, emitted2, ok) && (ok ==> AtEnd(end, pos))
    {
      more, ok, inp2, v2, s2, emitted2 := TakeCode(cs, s, all, src, inp, start, emitted, v);
      TakenReadable(src, end, inp, inp2, v.codesize);
      pos := RestOfBlocks(src, inp2, end, !more && ok);
    }

    /** After the end code, the rest of the blocks is skipped. */
    method RestOfBlocks(src: seq<byte>, inp: Input, ghost end: int, skip: bool) returns (pos: nat)
      requires Readable(src, end, inp)
      ensures skip ==> AtEnd(end, pos)
    {
      pos := inp.pos;
      if skip {
        pos := SkipBlocks(src, inp.pos, inp.len, end);
      }
    }

    /** The main loop. */
    method DecodeLoop(cs: CodeSize, src: seq<byte>, p0: nat) returns (ok: bool, pos: nat)
      requires Drawable() && TableIs(cs, Initial(cs))
      modifies this`cur_x, this`cur_y, this`step, this`parse, this`row, this`rowStep
      modifies out, history, prefix, first, suffix
      ensures Drawable()
      ensures var r := Decode(cs, Start(cs), BytesBits(BlockData(src, p0)));
        ok == r.ok && Picture() == PlotAll(area, color_table, old(Picture()), r.indices)
      ensures ok ==> AtEnd(BlocksEnd(src, p0), pos)
    {
      ghost var end := BlocksEnd(src, p0);
      var inp, v := Input(p0, 0, 0, 0), Vars(Clear(cs) + 2, -1, cs + 1, true);
      ghost var s, emitted, start, all := Start(cs), [], Picture(), BytesBits(BlockData(src, p0));
      FirstBlock(src, p0);
      var more := true;
      ok, pos := false, p0;
      while more
        invariant more ==> Going(cs, s, all, src, inp, start, emitted, v, end)
        invariant !more ==> Finished(cs, all, start, emitted, ok) && (ok ==> AtEnd(end, pos))
        decreases more, Remaining(src, inp.pos), inp.len, inp.valid_bits
      {
        more, ok, pos, inp, v, s, emitted := Turn(cs, s, all, src, inp, start, emitted, v, end);
      }
    }

    /** `stbi__process_gif_raster`: the picture becomes what the decoded indices draw, also when
        the data turns out to be bad, and on success the reader ends after the last block. */
    method ProcessGifRaster(src: seq<byte>, pos0: nat) returns (ok: bool, pos: nat)
      requires Wired() && Drawable()
      modifies this`cur_x, this`cur_y, this`step, this`parse, this`row, this`rowStep
      modifies out, history, prefix, first, suffix
      ensures Drawable()
      ensures Get8(src, pos0) > 12 ==> !ok && Picture() == old(Picture())
      ensures Get8(src, pos0) <= 12 ==>
        var r := DecodeBlocks(src, pos0);
        ok == r.ok && Picture() == PlotAll(area, color_table, old(Picture()), r.indices)
      ensures ok ==> AtEnd(BlocksEnd(src, After(src, pos0)), pos)
    {
      var lzw_cs := Get8(src, pos0);
      pos := After(src, pos0);
      if lzw_cs > 12 {
        return false, pos;
      }
      InitTable(lzw_cs);
      ok, pos := DecodeLoop(lzw_cs, src, pos);
    }
  }

  // ----- data in blocks

  /** `n` bytes of the file from `pos` on; past its end, zeros. */
  function Padded(src: seq<byte>, pos: nat, n: nat): (r: seq<byte>)
    ensures |r| == n
  {
    seq(n, i requires 0 <= i => if pos + i < |src| then src[pos + i] else 0)
  }

  /** The data of the blocks from `pos` on: a length and that many bytes, up to an empty block or
      the end of the file. */
  function BlockData(src: seq<byte>, pos: nat): seq<byte>
    decreases |src| - pos
  {
    if pos >= |src| || src[pos] == 0 then [] else Padded(src, pos + 1, src[pos]) + BlockData(src, pos + 1 + src[pos])
  }

  /** What is still to be read when `len` bytes of the current block are left. */
  function Left(src: seq<byte>, pos: nat, len: nat): seq<byte> {
    Padded(src, pos, len) + BlockData(src, pos + len)
  }

  function Get8(src: seq<byte>, pos: nat): byte {
    if pos < |src| then src[pos] else 0
  }

  function After(src: seq<byte>, pos: nat): nat {
    if pos < |src| then pos + 1 else pos
  }

  lemma NoneLeft(src: seq<byte>, pos: nat)
    requires Get8(src, pos) == 0
    ensures Left(src, pos, 0) == []
  {
  }

  lemma NextBlock(src: seq<byte>, pos: nat)
    requires Get8(src, pos) != 0
    ensures Left(src, pos, 0) == Left(src, After(src, pos), Get8(src, pos))
  {
    assert Padded(src, pos, 0) + BlockData(src, pos) == BlockData(src, pos);
  }

  lemma NextByteLeft(src: seq<byte>, pos: nat, len: nat)
    requires len > 0
    ensures Left(src, pos, len) == [Get8(src, pos)] + Left(src, After(src, pos), len - 1)
  {
    var p := Padded(src, pos, len);
    assert p == [Get8(src, pos)] + Padded(src, After(src, pos), len - 1);
    assert BlockData(src, pos + len) == BlockData(src, After(src, pos) + (len - 1));
    Assoc([Get8(src, pos)], Padded(src, After(src, pos), len - 1), BlockData(src, pos + len));
  }

  /** The local variables of the reader: the position, the bytes left of the block, and the
      reservoir of bits. */
  datatype Input = Input(pos: nat, len: nat, bits: nat, valid_bits: nat)

  /** Those of the decoder. */
  datatype Vars = Vars(avail: nat, oldcode: int, codesize: nat, wait: bool)

  predicate Match(v: Vars, s: Lzw) {
    v.avail == |s.table| && v.oldcode == s.prev && v.codesize == s.width && v.wait == s.first
  }

  /** The bits still to be decoded: those in the reservoir and those of the bytes to be read. */
  function Ahead(src: seq<byte>, inp: Input): seq<bool> {
    ToBits(inp.bits, inp.valid_bits) + BytesBits(Left(src, inp.pos, inp.len))
  }

  /** One byte of a block has come in. */
  function ByteRead(src: seq<byte>, inp: Input): Input
    requires inp.len > 0
  {
    Input(After(src, inp.pos), inp.len - 1, inp.bits + Shl(Get8(src, inp.pos), inp.valid_bits), inp.valid_bits + 8)
  }

  lemma ByteArrives(src: seq<byte>, inp: Input)
    requires inp.len > 0 && inp.bits < Pow2(inp.valid_bits)
    ensures var more := ByteRead(src, inp);
      more.bits < Pow2(more.valid_bits) && Ahead(src, more) == Ahead(src, inp)
  {
    NextByteLeft(src, inp.pos, inp.len);
    BitsArrive(inp.bits, inp.valid_bits, Get8(src, inp.pos), Left(src, After(src, inp.pos), inp.len - 1));
  }

  lemma BitsArrive(bits: nat, n: nat, b: byte, rest: seq<byte>)
    requires bits < Pow2(n)
    ensures bits + Shl(b, n) < Pow2(n + 8)
    ensures ToBits(bits + Shl(b, n), n + 8) + BytesBits(rest) == ToBits(bits, n) + BytesBits([b] + rest)
  {
    Pow2Small();
    ShlAppends(bits, n, b, 8);
    ByteFirst(b, rest);
    Assoc(ToBits(bits, n), ToBits(b, 8), BytesBits(rest));
  }

  lemma ByteFirst(b: byte, rest: seq<byte>)
    ensures BytesBits([b] + rest) == ToBits(b, 8) + BytesBits(rest)
  {
    assert ([b] + rest)[1..] == rest;
  }

  /** A code has been taken out. */
  function Taken(inp: Input, codesize: nat): Input
    requires codesize <= inp.valid_bits
  {
    inp.(bits := Shr(inp.bits, codesize), valid_bits := inp.valid_bits - codesize)
  }

  lemma TakenReadable(src: seq<byte>, end: int, inp: Input, inp2: Input, codesize: nat)
    requires Readable(src, end, inp) && 0 < codesize <= inp.valid_bits
    requires inp2 == Taken(inp, codesize) && inp2.bits < Pow2(inp2.valid_bits)
    ensures Readable(src, end, inp2) && Less(src, inp2, inp)
  {
  }

  lemma CodeLeaves(src: seq<byte>, inp: Input, codesize: nat)
    requires codesize <= inp.valid_bits && inp.bits < Pow2(inp.valid_bits)
    ensures var ahead, rest := Ahead(src, inp), Taken(inp, codesize);
      && codesize <= |ahead| && FromBits(ahead[..codesize]) == Low(inp.bits, codesize)
      && rest.bits < Pow2(rest.valid_bits) && Ahead(src, rest) == ahead[codesize..]
  {
    var a, b := ToBits(inp.bits, inp.valid_bits), BytesBits(Left(src, inp.pos, inp.len));
    LowIsPrefix(inp.bits, inp.valid_bits, codesize);
    ShrDrops(inp.bits, inp.valid_bits, codesize);
    ShrBelow(inp.bits, inp.valid_bits, codesize);
    assert (a + b)[..codesize] == a[..codesize] && (a + b)[codesize..] == a[codesize..] + b;
  }

  lemma EndCode(cs: CodeSize, s: Lzw, ahead: seq<bool>, all: Result, emitted: seq<byte>)
    requires Ok(cs, s) && s.width > 0 && s.width <= |ahead| && FromBits(ahead[..s.width]) == Clear(cs) + 1
    requires all == Prepend(emitted, Decode(cs, s, ahead))
    ensures all == Result(true, emitted)
  {
    assert emitted + [] == emitted;
  }

  lemma OutOfData(cs: CodeSize, s: Lzw, ahead: seq<bool>, all: Result, emitted: seq<byte>)
    requires Ok(cs, s) && s.width > 0 && |ahead| < s.width && all == Prepend(emitted, Decode(cs, s, ahead))
    ensures all == Result(true, emitted)
  {
    assert emitted + [] == emitted;
  }

  /** The position after the empty block; -1 if the file ends before. */
  function BlocksEnd(src: seq<byte>, pos: nat): int
    decreases |src| - pos
  {
    if pos >= |src| then -1 else if src[pos] == 0 then pos + 1 else BlocksEnd(src, pos + 1 + src[pos])
  }

  /** If the blocks are complete and end at `end`, so do those from `pos` on. */
  predicate EndsAt(src: seq<byte>, end: int, pos: nat) {
    end < 0 || BlocksEnd(src, pos) == end
  }

  lemma BlockStart(src: seq<byte>, end: int, pos: nat)
    requires Get8(src, pos) != 0 && EndsAt(src, end, pos)
    ensures EndsAt(src, end, After(src, pos) + Get8(src, pos))
  {
  }

  lemma BlockByte(src: seq<byte>, end: int, pos: nat, len: nat)
    requires len > 0 && EndsAt(src, end, pos + len)
    ensures EndsAt(src, end, After(src, pos) + (len - 1))
  {
  }

  function DecodeBlocks(src: seq<byte>, pos: nat): Result
    requires Get8(src, pos) <= 12
  {
    Decode(Get8(src, pos), Start(Get8(src, pos)), BytesBits(BlockData(src, After(src, pos))))
  }

  function Remaining(src: seq<byte>, pos: nat): nat {
    if pos < |src| then |src| - pos else 0
  }

  lemma FirstBlock(src: seq<byte>, pos: nat)
    ensures Ahead(src, Input(pos, 0, 0, 0)) == BytesBits(BlockData(src, pos))
  {
    assert Left(src, pos, 0) == BlockData(src, pos);
  }

  predicate Readable(src: seq<byte>, end: int, inp: Input) {
    inp.bits < Pow2(inp.valid_bits) && EndsAt(src, end, inp.pos + inp.len)
  }

  /** The measure of the main loop. */
  predicate Less(src: seq<byte>, a: Input, b: Input) {
    || Remaining(src, a.pos) < Remaining(src, b.pos)
    || (Remaining(src, a.pos) == Remaining(src, b.pos)
        && (a.len < b.len || (a.len == b.len && a.valid_bits < b.valid_bits)))
  }

  predicate AtEnd(end: int, pos: nat) {
    end < 0 || pos == end
  }

  /** The next byte of data comes into the reservoir, unless there is none. */
  method NextInput(src: seq<byte>, inp: Input, ghost end: int) returns (done: bool, inp2: Input)
    requires Readable(src, end, inp)
    ensures done ==> |Ahead(src, inp)| == inp.valid_bits && AtEnd(end, inp2.pos)
    ensures !done ==> Readable(src, end, inp2) && Ahead(src, inp2) == Ahead(src, inp)
    ensures !done ==>
      Remaining(src, inp2.pos) < Remaining(src, inp.pos)
      || (Remaining(src, inp2.pos) == Remaining(src, inp.pos) && inp2.len < inp.len)
  {
    inp2 := inp;
    if inp2.len == 0 {
      var len := Get8(src, inp2.pos);
      inp2 := inp2.(pos := After(src, inp2.pos), len := len);
      if len == 0 {
        NoneLeft(src, inp.pos);
        return true, inp2;
      }
      NextBlock(src, inp.pos);
      BlockStart(src, end, inp.pos);
    }
    BlockByte(src, end, inp2.pos, inp2.len);
    ByteArrives(src, inp2);
    inp2 := ByteRead(src, inp2);
    done := false;
  }

  /** The blocks after the end code are skipped. */
  method SkipBlocks(src: seq<byte>, pos: nat, len: nat, ghost end: int) returns (after: nat)
    requires EndsAt(src, end, pos + len)
    ensures AtEnd(end, after)
  {
    after := pos + len;
    var n := Get8(src, after);
    after := After(src, after);
    ghost var at: nat := pos + len;
    while n > 0
      invariant n == Get8(src, at) && after == After(src, at) && EndsAt(src, end, at)
      decreases Remaining(src, at)
    {
      at := after + n;
      after := after + n;
      n := Get8(src, after);
      after := After(src, after);
    }
  }

  /** Whatever codes an encoder chose for the colour indices, whatever filled the last byte, and
      however the bytes were cut into blocks: the indices come out again. */
  lemma RasterRoundTrip(src: seq<byte>, pos: nat, codes: seq<nat>, indices: seq<byte>, more: seq<bool>)
    requires 0 < Get8(src, pos) <= 12 && Encodes(Get8(src, pos), Start(Get8(src, pos)), codes, indices)
    requires BytesBits(BlockData(src, After(src, pos))) == Written(Get8(src, pos), Start(Get8(src, pos)), codes) + more
    ensures DecodeBlocks(src, pos) == Result(true, indices)
  {
    DecodeEncoded(Get8(src, pos), Start(Get8(src, pos)), codes, indices, more);
  }

  lemma PlotLast(a: Area, colors: Palette, c: Canvas, s: seq<byte>, x: byte)
    requires GoodCanvas(a, c)
    ensures PlotAll(a, colors, c, s + [x]) == Plot(a, colors, PlotAll(a, colors, c, s), x)
  {
    assert (s + [x])[..|s|] == s;
  }

  lemma NextRowPlace(row: nat, rowStep: nat, line: nat)
    ensures (row + rowStep) * line == row * line + rowStep * line
  {
  }

  lemma RowsCompare(row: nat, h: nat, line: nat)
    requires 0 < line
    ensures row * line >= h * line <==> row >= h
  {
    if row < h {
      TimesApart(row, h, line);
    }
  }

  lemma {:induction false} ShlTimes(v: nat, k: nat)
    ensures Shl(v, k) == Pow2(k) * v
  {
    if k > 0 {
      ShlTimes(v, k - 1);
    }
  }

  lemma PassStep(line: nat, parse: nat)
    requires parse > 0
    ensures Shl(line, parse) == Pow2(parse) * line && Shr(Shl(line, parse), 1) == Pow2(parse - 1) * line
  {
    ShlTimes(line, parse);
    ShlTimes(line, parse - 1);
  }
}
