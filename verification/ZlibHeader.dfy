/** The loops of `stbi__compute_huffman_codes` that read code lengths.

    They write into `codelength_sizes` and `lencodes`; each is proved to leave there what the
    functions of `InflateHeader` give for the same bits, and nothing behind it. */
module ZlibHeader {
  import opened Bits
  import opened Canonical
  import opened HuffmanTable
  import opened Options
  import opened Source
  import opened BitReader
  import opened Deflate
  import opened InflateHeader

  const LENCODES: nat := 455   // 286 + 32 + 137

  /** `codelength_sizes`: the lengths of the code length code, put in symbol order. */
  method ReadSizes(reader: Reader, hclen: nat) returns (sizes: array<nat>, ghost vals: seq<nat>)
    requires reader.Valid() && hclen <= 19
    modifies reader
    ensures reader.Valid() && fresh(sizes)
    ensures (vals, reader.Unread()) == ReadValues(old(reader.Unread()), hclen)
    ensures sizes[..] == Dezigzag(vals)
  {
    sizes := new nat[19](_ => 0);
    vals := [];
    ghost var target := ReadValues(reader.Unread(), hclen);
    assert sizes[..] == Dezigzag([]);
    assert [] + target.0 == target.0;
    for i := 0 to hclen
      invariant reader.Valid() && fresh(sizes) && sizes.Length == 19 && |vals| == i
      invariant sizes[..] == Dezigzag(vals)
      invariant target == (vals + ReadValues(reader.Unread(), hclen - i).0, ReadValues(reader.Unread(), hclen - i).1)
    {
      ReadValuesStep(reader.Unread(), vals, hclen - i);
      var s := reader.Receive(3);
      DezigzagStep(vals, s);
      sizes[CL_ORDER[i]] := s;
      vals := vals + [s];
    }
    assert vals + [] == vals;
  }

  /** HLIT, HDIST and HCLEN, as written. */
  method ReadThree(reader: Reader) returns (a: nat, b: nat, c: nat)
    requires reader.Valid()
    modifies reader
    ensures reader.Valid()
    ensures a < 32 && b < 32 && c < 16 && ReadCounts(old(reader.Unread())) == (a, b, c, reader.Unread())
  {
    ghost var s0 := reader.Unread();
    a := reader.Receive(5);
    ghost var s1 := reader.Unread();
    b := reader.Receive(5);
    ghost var s2 := reader.Unread();
    c := reader.Receive(4);
    ReadCountsIs(s0, a, s1, b, s2, c, reader.Unread());
  }

  /** HLIT, HDIST, HCLEN and the lengths of the code length code. */
  method ReadStart(reader: Reader) returns (hlit: nat, hdist: nat, sizes: seq<nat>, ghost vals: seq<nat>)
    requires reader.Valid()
    modifies reader
    ensures reader.Valid()
    ensures ReadPreamble(old(reader.Unread())) == (hlit, hdist, vals, reader.Unread())
    ensures sizes == Dezigzag(vals)
  {
    ghost var s0 := reader.Unread();
    var a, b, c := ReadThree(reader);
    hlit, hdist := a + 257, b + 1;
    sizes, vals := ReadRestOfStart(reader, a, b, c, s0);
  }

  method ReadRestOfStart(reader: Reader, ghost a: nat, ghost b: nat, c: nat, ghost s0: Src)
    returns (sizes: seq<nat>, ghost vals: seq<nat>)
    requires reader.Valid() && |s0.buf| <= 32 && c < 16 && ReadCounts(s0) == (a, b, c, reader.Unread())
    modifies reader
    ensures reader.Valid()
    ensures ReadPreamble(s0) == (a + 257, b + 1, vals, reader.Unread())
    ensures sizes == Dezigzag(vals)
  {
    ghost var s3 := reader.Unread();
    sizes, vals := ReadClLens(reader, c + 4);
    ReadPreambleIs(s0, a, b, c, s3, vals, reader.Unread());
  }

  method ReadClLens(reader: Reader, hclen: nat) returns (sizes: seq<nat>, ghost vals: seq<nat>)
    requires reader.Valid() && hclen <= 19
    modifies reader
    ensures reader.Valid()
    ensures (vals, reader.Unread()) == ReadValues(old(reader.Unread()), hclen)
    ensures sizes == Dezigzag(vals)
  {
    var table;
    table, vals := ReadSizes(reader, hclen);
    sizes := table[..];
  }

  /** `memset(lencodes + n, fill, c)`. */
  method FillRun(lencodes: array<nat>, n: nat, fill: nat, c: nat)
    requires n + c <= lencodes.Length
    modifies lencodes
    ensures lencodes[..n + c] == old(lencodes[..n]) + Repeat(fill, c)
    ensures lencodes[n + c..] == old(lencodes[n + c..])
  {
    for i := 0 to c
      invariant lencodes[..n + i] == old(lencodes[..n]) + Repeat(fill, i)
      invariant lencodes[n + i..] == old(lencodes[n + i..])
    {
      lencodes[n + i] := fill;
      assert lencodes[..n + (i + 1)] == lencodes[..n + i] + [fill];
      Assoc(old(lencodes[..n]), Repeat(fill, i), [fill]);
    }
  }

  /** Decoding one symbol of the code length code with its extra bits. */
  method ReadOp(reader: Reader, z: ZHuffman) returns (c: int, x: nat, ghost op: ClOp)
    requires reader.Valid() && z.Ready() && |z.lens| == 19
    modifies reader
    ensures reader.Valid() && c < 19
    ensures c < 0 <==> ReadClOp(old(reader.Unread()), z.lens).None?
    ensures c >= 0 ==>
      && ReadClOp(old(reader.Unread()), z.lens) == Some((op, reader.Unread()))
      && c == ClSym(op) && (c >= 16 ==> x == ClExtra(op)) && (op.ClLen? <==> c < 16)
  {
    op, x := ClLen(0), 0;
    c := reader.Decode(z);
    if c >= 19 {
      assert false;
      return;
    }
    if c < 0 {
      return;
    }
    if c < 16 {
      op := ClLen(c);
    } else if c == 16 {
      x := reader.Receive(2);
      op := ClRepeat(x);
    } else if c == 17 {
      x := reader.Receive(3);
      op := ClZeros3(x);
    } else {
      x := reader.Receive(7);
      op := ClZeros7(x);
    }
  }

  /** Entering the lengths an operation stands for, unless there is nothing to repeat or they
      would go beyond `ntot`. */
  method StoreOp(lencodes: array<nat>, n: nat, ntot: nat, c: nat, x: nat, ghost op: ClOp)
    returns (ok: bool, next: nat)
    requires n < ntot <= lencodes.Length && c == ClSym(op) < 19
    requires (c >= 16 ==> x == ClExtra(op)) && (op.ClLen? <==> c < 16)
    modifies lencodes
    ensures next <= ntot
    ensures var o := ClOpOut(op, old(lencodes[..n]));
      if o.None? || |o.value| > ntot then !ok else ok && next == |o.value| && lencodes[..next] == o.value
    ensures lencodes[ntot..] == old(lencodes[ntot..])
  {
    next := n;
    if c < 16 {
      lencodes[n] := c;
      assert lencodes[..n + 1] == old(lencodes[..n]) + [c];
      return true, n + 1;
    }
    var fill, run := 0, 3 + x;
    if c == 16 {
      if n == 0 {
        return false, n;
      }
      fill := lencodes[n - 1];
    } else if c == 18 {
      run := 11 + x;
    }
    if ntot - n < run {
      return false, n;
    }
    FillRun(lencodes, n, fill, run);
    assert lencodes[ntot..] == lencodes[n + run..][ntot - (n + run)..];
    assert old(lencodes[ntot..]) == old(lencodes[n + run..])[ntot - (n + run)..];
    return true, n + run;
  }

  /** One turn of the loop over code lengths. */
  method LengthsTurn(reader: Reader, z: ZHuffman, lencodes: array<nat>, n: nat, ntot: nat) returns (ok: bool, next: nat)
    requires reader.Valid() && z.Ready() && |z.lens| == 19 && z.Apart(lencodes)
    requires n < ntot <= lencodes.Length
    modifies reader, lencodes
    ensures reader.Valid() && next <= ntot
    ensures OpResult(ReadClOp(old(reader.Unread()), z.lens), ntot, old(lencodes[..n]))
      == if ok then Some((reader.Unread(), lencodes[..next])) else None
    ensures lencodes[ntot..] == old(lencodes[ntot..])
  {
    var c, x, op := ReadOp(reader, z);
    if c < 0 {
      return false, n;
    }
    ok, next := StoreOp(lencodes, n, ntot, c, x, op);
  }

  /** The loop over code lengths.  It leaves exactly `ntot` of them, and the source's check
      that it did so is dead. */
  method ReadLens(reader: Reader, z: ZHuffman, lencodes: array<nat>, ntot: nat) returns (ok: bool)
    requires reader.Valid() && z.Ready() && |z.lens| == 19 && z.Apart(lencodes)
    requires ntot <= 320 && lencodes.Length == LENCODES
    modifies reader, lencodes
    ensures reader.Valid()
    ensures ReadLengths(old(reader.Unread()), z.lens, ntot, [])
      == if ok then Some((reader.Unread(), lencodes[..ntot])) else None
    ensures lencodes[ntot..] == old(lencodes[ntot..])
  {
    ghost var target := ReadLengths(reader.Unread(), z.lens, ntot, []);
    var n: nat := 0;
    assert lencodes[..0] == [];
    while n < ntot
      invariant reader.Valid() && n <= ntot && ValidLens(lencodes[..n])
      invariant target == ReadLengths(reader.Unread(), z.lens, ntot, lencodes[..n])
      invariant lencodes[ntot..] == old(lencodes[ntot..])
      decreases ntot - n
    {
      ReadLengthsStep(reader.Unread(), z.lens, ntot, lencodes[..n]);
      ghost var before := n;
      ok, n := LengthsTurn(reader, z, lencodes, n, ntot);
      if !ok {
        return;
      }
    }
    if n != ntot {
      assert false;
      return false;
    }
    ok := true;
  }

  /** The code lengths of both tables, read with the table `z` of the code length code. */
  method ReadBothLens(reader: Reader, z: ZHuffman, hlit: nat, hdist: nat)
    returns (ok: bool, ll: seq<nat>, dl: seq<nat>)
    requires reader.Valid() && z.Ready() && |z.lens| == 19 && hlit <= 288 && hdist <= 32
    modifies reader
    ensures reader.Valid()
    ensures ValidLens(ll) && ValidLens(dl) && |ll| <= hlit && |dl| <= hdist
    ensures ReadTables(old(reader.Unread()), hlit, hdist, z.lens)
      == if ok && Kraft(ll) && Kraft(dl) then Some((reader.Unread(), ll, dl)) else None
  {
    ll, dl := [], [];
    ghost var s, cl := reader.Unread(), z.lens;
    var lencodes := new nat[LENCODES](_ => 0);
    ok := ReadLens(reader, z, lencodes, hlit + hdist);
    if ok {
      ll, dl := lencodes[..hlit], lencodes[hlit..hlit + hdist];
      assert lencodes[..hlit + hdist] == ll + dl;
      ValidSplit(ll, dl);
      ReadTablesIs(s, hlit, hdist, cl, reader.Unread(), ll, dl);
    }
  }

  lemma ValidSplit(a: seq<nat>, b: seq<nat>)
    requires ValidLens(a + b)
    ensures ValidLens(a) && ValidLens(b)
  {
    assert forall i :: 0 <= i < |a| ==> a[i] == (a + b)[i];
    assert forall i :: 0 <= i < |b| ==> b[i] == (a + b)[|a| + i];
  }

  /** Everything `stbi__compute_huffman_codes` reads: the lengths of both codes. */
  method ReadCodes(reader: Reader) returns (ok: bool, ll: seq<nat>, dl: seq<nat>)
    requires reader.Valid()
    modifies reader
    ensures reader.Valid()
    ensures ValidLens(ll) && ValidLens(dl) && |ll| <= 288 && |dl| <= 32
    ensures DynamicTables(old(reader.Unread()))
      == if ok && Kraft(ll) && Kraft(dl) then Some((reader.Unread(), ll, dl)) else None
  {
    ghost var s := reader.Unread();
    var hlit, hdist, sizes, vals := ReadStart(reader);
    DezigzagValid(vals);
    DynamicTablesIs(s, hlit, hdist, vals, reader.Unread(), sizes);
    ghost var target := DynamicTables(s);
    ll, dl := [], [];
    var z_codelength := new ZHuffman();
    ok := z_codelength.Build(sizes);
    if ok {
      ok, ll, dl := ReadBothLens(reader, z_codelength, hlit, hdist);
    }
  }
}
