/** GIF by the numbers of the GIF89a specification: colours, order of rows, blocks, codes and their widths. */
module GifNumbers {
  import opened Bits
  import opened Lzw
  import opened GifRaster
  import opened Gif

  // ----- colour tables (section 19)

  /** Entry `k` of the table holds colour `k` of the file, a red, a green and a blue byte, and is opaque
      unless it is the transparent one. */
  predicate HoldsColor(pal: seq<byte>, src: seq<byte>, pos: nat, k: nat, transp: int)
    requires |pal| == 1024 && k < 256
  {
    && pal[4 * k + 2] == Get8(src, pos + 3 * k) && pal[4 * k + 1] == Get8(src, pos + 3 * k + 1)
    && pal[4 * k] == Get8(src, pos + 3 * k + 2) && pal[4 * k + 3] == if k == transp then 0 else 255
  }

  /** `stbi__gif_parse_colortable`, over the 1024 bytes of `pal[256][4]`. */
  method ParseColorTable(pal: array<byte>, src: seq<byte>, pos: nat, num_entries: nat, transp: int) returns (next: nat)
    requires pal.Length == 1024 && num_entries <= 256 && pos <= |src|
    modifies pal
    ensures next == if pos + 3 * num_entries <= |src| then pos + 3 * num_entries else |src|
    ensures forall k :: 0 <= k < num_entries ==> HoldsColor(pal[..], src, pos, k, transp)
    ensures forall i :: 4 * num_entries <= i < 1024 ==> pal[i] == old(pal[i])
  {
    next := pos;
    for i := 0 to num_entries
      invariant next == if pos + 3 * i <= |src| then pos + 3 * i else |src|
      invariant forall k :: 0 <= k < i ==> HoldsColor(pal[..], src, pos, k, transp)
      invariant forall k :: 4 * i <= k < 1024 ==> pal[k] == old(pal[k])
    {
      ghost var before := pal[..];
      pal[4 * i + 2], next := Get8(src, next), After(src, next);
      pal[4 * i + 1], next := Get8(src, next), After(src, next);
      pal[4 * i], next := Get8(src, next), After(src, next);
      pal[4 * i + 3] := if transp == i then 0 else 255;
      forall k | 0 <= k < i
        ensures HoldsColor(pal[..], src, pos, k, transp)
      {
        assert HoldsColor(before, src, pos, k, transp);
      }
    }
  }

  /** A pixel gets the red, green and blue byte of its colour in this order, and full opacity; one of the
      transparent colour stays as it was. */
  lemma ColorNumbers(out: seq<byte>, i: nat, pal: Palette, src: seq<byte>, pos: nat, index: byte, transp: int)
    requires i + 4 <= |out| && HoldsColor(pal, src, pos, index, transp)
    ensures Paint(out, i, pal, index)[..i] == out[..i] && Paint(out, i, pal, index)[i + 4..] == out[i + 4..]
    ensures var r := pos + 3 * index as int;
      Paint(out, i, pal, index)[i..i + 4] ==
        if index as int == transp then out[i..i + 4] else [Get8(src, r), Get8(src, r + 1), Get8(src, r + 2), 255]
  {
  }

  // ----- the order of the rows (Appendix E)

  /** Every `step`-th row from `row` on. */
  function Every(h: nat, row: nat, step: nat): seq<nat>
    requires step > 0
    decreases if row < h then h - row else 0
  {
    if row < h then [row] + Every(h, row + step, step) else []
  }

  lemma {:induction false} EveryIs(h: nat, row: nat, step: nat, k: nat)
    requires step > 0
    ensures k < |Every(h, row, step)| <==> row + k * step < h
    ensures k < |Every(h, row, step)| ==> Every(h, row, step)[k] == row + k * step
    decreases k
  {
    if k > 0 {
      assert k * step == (k - 1) * step + step;
      EveryIs(h, row + step, step, k - 1);
    }
  }

  /** An interlaced image has every eighth row from row 0, every eighth from row 4, every fourth from row 2
      and every second from row 1; any other has its rows from the top down. */
  lemma RowOrder(h: nat)
    ensures Rows(h, 0, 8, 3) == Every(h, 0, 8) + (Every(h, 4, 8) + (Every(h, 2, 4) + Every(h, 1, 2)))
    ensures Rows(h, 0, 1, 0) == Every(h, 0, 1)
  {
    Pow2Small();
    PassThenRest(h, 0, 8, 3);
    PassThenRest(h, 4, 8, 2);
    PassThenRest(h, 2, 4, 1);
    PassThenRest(h, 1, 2, 0);
    PassThenRest(h, 0, 1, 0);
    assert Pow2(0) == 1;
  }

  lemma {:induction false} PassThenRest(h: nat, row: nat, step: nat, parse: nat)
    requires step > 0
    ensures Rows(h, row, step, parse) ==
      Every(h, row, step) + if parse > 0 then Rows(h, Pow2(parse - 1), Pow2(parse), parse - 1) else []
    decreases if row < h then h - row else 0
  {
    if row < h {
      PassThenRest(h, row + step, step, parse);
    }
  }

  // ----- data sub-blocks (section 15)

  predicate Cuttable(chunks: seq<seq<byte>>) {
    forall i :: 0 <= i < |chunks| ==> 0 < |chunks[i]| < 256
  }

  /** Data cut into blocks: each has its size in front, and a block of size 0 ends them. */
  function Cut(chunks: seq<seq<byte>>): seq<byte>
    requires Cuttable(chunks)
  {
    if chunks == [] then [0] else [|chunks[0]| as byte] + chunks[0] + Cut(chunks[1..])
  }

  function Joined(chunks: seq<seq<byte>>): seq<byte> {
    if chunks == [] then [] else chunks[0] + Joined(chunks[1..])
  }

  /** However data is cut, reading the blocks gives it back, and ends behind the block of size 0. */
  lemma {:induction false} BlockNumbers(src: seq<byte>, pos: nat, chunks: seq<seq<byte>>)
    requires Cuttable(chunks) && pos <= |src| && Cut(chunks) <= src[pos..]
    ensures BlockData(src, pos) == Joined(chunks) && BlocksEnd(src, pos) == pos + |Cut(chunks)|
    decreases |chunks|
  {
    if chunks == [] {
      LastBlock(src, pos);
    } else {
      OneBlock(src, pos, chunks[0], Cut(chunks[1..]));
      BlockNumbers(src, pos + 1 + |chunks[0]|, chunks[1..]);
    }
  }

  lemma LastBlock(src: seq<byte>, pos: nat)
    requires pos <= |src| && [0] <= src[pos..]
    ensures BlockData(src, pos) == [] && BlocksEnd(src, pos) == pos + 1
  {
    assert src[pos..][0] == 0;
  }

  lemma OneBlock(src: seq<byte>, pos: nat, chunk: seq<byte>, rest: seq<byte>)
    requires 0 < |chunk| < 256 && pos <= |src| && [|chunk| as byte] + chunk + rest <= src[pos..]
    ensures var next := pos + 1 + |chunk|;
      && next <= |src| && rest <= src[next..]
      && BlockData(src, pos) == chunk + BlockData(src, next) && BlocksEnd(src, pos) == BlocksEnd(src, next)
  {
    var all := [|chunk| as byte] + chunk + rest;
    assert src[pos..][..|all|] == all;
    assert src[pos] == all[0];
    assert rest == all[1 + |chunk|..];
    assert src[pos + 1 + |chunk|..][..|rest|] == rest;
    assert Padded(src, pos + 1, |chunk|) == chunk;
  }

  /** A file that ends inside a block: what is missing is read as zeros, and no block follows. */
  lemma CutBlock(src: seq<byte>, pos: nat)
    requires pos < |src| && src[pos] > 0 && pos + 1 + src[pos] as int >= |src|
    ensures |BlockData(src, pos)| == src[pos] as int && BlockData(src, pos)[..|src| - pos - 1] == src[pos + 1..]
    ensures forall i :: |src| - pos - 1 <= i < src[pos] as int ==> BlockData(src, pos)[i] == 0
    ensures BlocksEnd(src, pos) == -1
  {
    assert BlockData(src, pos + 1 + src[pos]) == [];
    assert BlockData(src, pos) == Padded(src, pos + 1, src[pos]);
  }

  // ----- widths of codes (Appendix F)

  lemma WidthNumbers(width: nat, avail: nat)
    requires 0 < width <= 12 && Pow2(width - 1) <= avail <= Pow2(width)
    ensures Grown(width, avail) == if avail == Pow2(width) && width < 12 then width + 1 else width
  {
    Pow2Twelve();
    Pow2Mono(width, 12);
    if avail == Pow2(width) {
      LowPeriodic(0, width);
      LowAtMost(0, width);
    } else {
      LowAtMost(avail, width);
    }
    if width < 12 {
      Pow2Mono(width, 11);
    }
  }

  lemma Pow2Twelve()
    ensures Pow2(11) == 2048 && Pow2(12) == 4096
  {
    Pow2Small();
  }

  /** The width of the codes is that of the largest code that the table can hold once its next entry is made,
      and twelve once it holds 4096 entries or more. */
  predicate Tight(s: Lzw) {
    && 0 < s.width <= 12 && Pow2(s.width - 1) <= |s.table|
    && (|s.table| < 4096 ==> |s.table| < Pow2(s.width)) && (|s.table| >= 4096 ==> s.width == 12)
  }

  /** For code sizes from 2 to 11 that holds at the start and after every code that is accepted. */
  lemma WidthStep(cs: CodeSize, s: Lzw, code: nat)
    requires 2 <= cs <= 11 && Ok(cs, s) && Tight(s) && IsData(cs, code) && Step(cs, s, code).Go?
    ensures Tight(Step(cs, s, code).s)
  {
    Pow2Twelve();
    Pow2Mono(s.width, 12);
    var t := Step(cs, s, code).s;
    if |t.table| <= 4096 {
      WidthNumbers(s.width, |t.table|);
    }
    if s.width < 12 {
      Pow2Mono(s.width, 11);
    }
  }

  lemma WidthStart(cs: CodeSize)
    requires 2 <= cs <= 11
    ensures Tight(Reset(cs)) && Tight(Start(cs))
  {
    Pow2Twelve();
    Pow2Mono(2, cs);
    Pow2Mono(cs + 1, 12);
  }

  /** The codes of a size: `2^cs` literal ones, then the clear code and the end code. */
  lemma CodeNumbers(cs: CodeSize, c: nat)
    ensures |Reset(cs).table| == Pow2(cs) + 2 && Reset(cs).width == cs + 1 && Clear(cs) == Pow2(cs)
    ensures c < Pow2(cs) ==> IsData(cs, c) && c < |Reset(cs).table| && Reset(cs).table[c] == [c % 256]
    ensures !IsData(cs, c) <==> c == Pow2(cs) || c == Pow2(cs) + 1
  {
  }

  /** A data code is refused exactly right at the start, beyond the next entry, as the next entry while there
      is none to make, or with a full table; and the entry made is the previous string with the first index
      of the one that this code stands for. */
  lemma StepNumbers(cs: CodeSize, s: Lzw, code: nat)
    requires Ok(cs, s) && IsData(cs, code)
    ensures Step(cs, s, code).Bad? <==>
      s.first || code > |s.table| || (s.prev < 0 && code == |s.table|) || (s.prev >= 0 && |s.table| >= 8192)
    ensures Step(cs, s, code).Go? ==>
      var Go(t, e) := Step(cs, s, code);
      && code < |t.table| && e == t.table[code] && e != [] && t.prev == code && !t.first
      && t.table == s.table + if s.prev < 0 then [] else [s.table[s.prev] + [e[0]]]
  {
  }

  /** A data code that is accepted gives its indices and then what the rest of the bits gives. */
  lemma DecodeData(cs: CodeSize, s: Lzw, w: seq<bool>, rest: seq<bool>, code: nat, t: Lzw, e: seq<byte>)
    requires Ok(cs, s) && 0 < s.width == |w| && FromBits(w) == code && IsData(cs, code)
    requires Step(cs, s, code) == Go(t, e)
    ensures Ok(cs, t) && t.width > 0 && Decode(cs, s, w + rest) == Prepend(e, Decode(cs, t, rest))
  {
    StepOk(cs, s, code);
    assert (w + rest)[..s.width] == w && (w + rest)[s.width..] == rest;
  }

  /** The clear code empties the table, and the end code ends the raster, whatever is behind it. */
  lemma DecodeControl(cs: CodeSize, s: Lzw, w: seq<bool>, rest: seq<bool>)
    requires Ok(cs, s) && 0 < s.width == |w|
    ensures FromBits(w) == Clear(cs) ==> Decode(cs, s, w + rest) == Decode(cs, Reset(cs), rest)
    ensures FromBits(w) == Clear(cs) + 1 ==> Decode(cs, s, w + rest) == Result(true, [])
  {
    assert (w + rest)[..s.width] == w && (w + rest)[s.width..] == rest;
  }

  /** A data code that is refused ends the raster with an error; so does every data code at the very start, where
      a clear code has to be. */
  lemma DecodeRefused(cs: CodeSize, s: Lzw, w: seq<bool>, rest: seq<bool>)
    requires Ok(cs, s) && 0 < s.width == |w| && IsData(cs, FromBits(w))
    ensures Step(cs, s, FromBits(w)).Bad? || s == Start(cs) ==> Decode(cs, s, w + rest) == Result(false, [])
  {
    assert (w + rest)[..s.width] == w && (w + rest)[s.width..] == rest;
  }

  // ----- cut rasters

  /** Bits that end too early, even inside a code, are no error: the indices up to there come out. */
  lemma {:induction false} CutRaster(cs: CodeSize, s: Lzw, bits: seq<bool>, k: nat)
    requires Ok(cs, s) && s.width > 0 && k <= |bits| && Decode(cs, s, bits).ok
    ensures Decode(cs, s, bits[..k]).ok && Decode(cs, s, bits[..k]).indices <= Decode(cs, s, bits).indices
    decreases |bits|, 2
  {
    if s.width <= k {
      var w, rest := bits[..s.width], bits[s.width..];
      assert bits == w + rest && bits[..k] == w + rest[..k - s.width];
      CutBehind(cs, s, w, rest, k - s.width);
    }
  }

  lemma CutBehind(cs: CodeSize, s: Lzw, w: seq<bool>, rest: seq<bool>, k: nat)
    requires Ok(cs, s) && 0 < s.width == |w| && k <= |rest| && Decode(cs, s, w + rest).ok
    ensures Decode(cs, s, w + rest[..k]).ok
    ensures Decode(cs, s, w + rest[..k]).indices <= Decode(cs, s, w + rest).indices
    decreases |rest| + |w|, 1
  {
    DecodeControl(cs, s, w, rest);
    DecodeControl(cs, s, w, rest[..k]);
    if FromBits(w) == Clear(cs) {
      CutRaster(cs, Reset(cs), rest, k);
    } else if IsData(cs, FromBits(w)) {
      DecodeRefused(cs, s, w, rest);
      CutData(cs, s, w, rest, k, FromBits(w), Step(cs, s, FromBits(w)).s, Step(cs, s, FromBits(w)).emitted);
    }
  }

  lemma CutData(cs: CodeSize, s: Lzw, w: seq<bool>, rest: seq<bool>, k: nat, code: nat, t: Lzw, e: seq<byte>)
    requires Ok(cs, s) && 0 < s.width == |w| && k <= |rest| && Decode(cs, s, w + rest).ok
    requires FromBits(w) == code && IsData(cs, code) && Step(cs, s, code) == Go(t, e)
    ensures Decode(cs, s, w + rest[..k]).ok
    ensures Decode(cs, s, w + rest[..k]).indices <= Decode(cs, s, w + rest).indices
    decreases |rest| + |w|, 0
  {
    DecodeData(cs, s, w, rest, code, t, e);
    DecodeData(cs, s, w, rest[..k], code, t, e);
    CutRaster(cs, t, rest, k);
    PrependPrefix(e, Decode(cs, t, rest[..k]), Decode(cs, t, rest));
  }

  lemma PrependPrefix(e: seq<byte>, a: Result, b: Result)
    requires a.indices <= b.indices
    ensures Prepend(e, a).indices <= Prepend(e, b).indices && Prepend(e, a).ok == a.ok
  {
  }
}
