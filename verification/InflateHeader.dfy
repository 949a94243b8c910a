/** What `stbi__compute_huffman_codes` computes, on values: the header of a dynamic block.

    The code lengths of both alphabets are one list of operations, and an operation may cross from
    the first alphabet into the second (section 3.2.7 of RFC 1951).  The list is what the decoder
    reads, and what a stream has to contain. */
module InflateHeader {
  import opened Bits
  import opened Canonical
  import opened Options
  import opened Source
  import opened Deflate

  /** `k` numbers of three bits. */
  function ReadValues(s: Src, k: nat): (r: (seq<nat>, Src))
    requires |s.buf| <= 32
    ensures |r.0| == k && |r.1.buf| <= 32
    ensures forall i :: 0 <= i < k ==> r.0[i] < 8
    decreases k
  {
    if k == 0 then ([], s)
    else
      var (v, s1) := Receive(s, 3);
      var (vs, s2) := ReadValues(s1, k - 1);
      assert Pow2(3) == 8;
      ([v] + vs, s2)
  }

  lemma DezigzagValid(vals: seq<nat>)
    requires forall i :: 0 <= i < |vals| ==> vals[i] < 8
    ensures ValidLens(Dezigzag(vals))
  {
  }

  /** One symbol of the code length code with its extra bits. */
  ghost function ReadClOp(s: Src, cl: seq<nat>): (r: Option<(ClOp, Src)>)
    requires |s.buf| <= 32 && ValidLens(cl) && |cl| == 19
    ensures r.Some? ==> |r.value.1.buf| <= 32 && (r.value.0.ClLen? ==> r.value.0.v <= MAX_LEN)
  {
    var d := Decode(s, cl);
    if d.None? then None
    else
      var (c, s1) := d.value;
      if c < 16 then Some((ClLen(c), s1))
      else if c == 16 then var (x, s2) := Receive(s1, 2); Some((ClRepeat(x), s2))
      else if c == 17 then var (x, s2) := Receive(s1, 3); Some((ClZeros3(x), s2))
      else var (x, s2) := Receive(s1, 7); Some((ClZeros7(x), s2))
  }

  /** Code lengths until there are exactly `ntot` of them; a repeat that would go beyond, or
      that has nothing to repeat, is refused. */
  ghost function ReadLengths(s: Src, cl: seq<nat>, ntot: nat, acc: seq<nat>): (r: Option<(Src, seq<nat>)>)
    requires |s.buf| <= 32 && ValidLens(cl) && |cl| == 19 && |acc| <= ntot && ValidLens(acc)
    ensures r.Some? ==> |r.value.0.buf| <= 32 && |r.value.1| == ntot && ValidLens(r.value.1)
    decreases ntot - |acc|
  {
    if |acc| == ntot then Some((s, acc))
    else
      var i := ReadClOp(s, cl);
      if i.None? then None
      else
        var o := ClOpOut(i.value.0, acc);
        if o.None? || |o.value| > ntot then None
        else
          ClOpGrows(i.value.0, acc);
          ReadLengths(i.value.1, cl, ntot, o.value)
  }

  lemma ClOpGrows(op: ClOp, acc: seq<nat>)
    requires ValidLens(acc) && (op.ClLen? ==> op.v <= MAX_LEN)
    ensures ClOpOut(op, acc).Some? ==> |ClOpOut(op, acc).value| > |acc| && ValidLens(ClOpOut(op, acc).value)
  {
  }

  /** HLIT, HDIST and HCLEN. */
  function ReadCounts(s: Src): (r: (nat, nat, nat, Src))
    requires |s.buf| <= 32
    ensures r.0 < 32 && r.1 < 32 && r.2 < 16 && |r.3.buf| <= 32
  {
    Pow2Small();
    var (a, s1) := Receive(s, 5);
    var (b, s2) := Receive(s1, 5);
    var (c, s3) := Receive(s2, 4);
    (a, b, c, s3)
  }

  /** The two codes of a dynamic block. */
  ghost function DynamicTables(s: Src): (r: Option<(Src, seq<nat>, seq<nat>)>)
    requires |s.buf| <= 32
    ensures r.Some? ==> |r.value.0.buf| <= 32 && IsCode(r.value.1) && IsCode(r.value.2)
    ensures r.Some? ==> 257 <= |r.value.1| <= 288 && 1 <= |r.value.2| <= 32
  {
    var (hlit, hdist, vals, t) := ReadPreamble(s);
    DezigzagValid(vals);
    ReadTables(t, hlit, hdist, Dezigzag(vals))
  }

  /** The counts and the code lengths of the code length code. */
  function ReadPreamble(s: Src): (r: (nat, nat, seq<nat>, Src))
    requires |s.buf| <= 32
    ensures 257 <= r.0 <= 288 && 1 <= r.1 <= 32 && 4 <= |r.2| <= 19 && |r.3.buf| <= 32
    ensures forall i :: 0 <= i < |r.2| ==> r.2[i] < 8
  {
    var (a, b, c, s3) := ReadCounts(s);
    var (vals, s4) := ReadValues(s3, c + 4);
    (a + 257, b + 1, vals, s4)
  }

  /** All `n` lengths of a header. */
  ghost function AllLengths(s: Src, cl: seq<nat>, n: nat): (r: Option<(Src, seq<nat>)>)
    requires |s.buf| <= 32 && ValidLens(cl) && |cl| == 19
    ensures r.Some? ==> |r.value.0.buf| <= 32 && |r.value.1| == n && ValidLens(r.value.1)
  {
    ReadLengths(s, cl, n, [])
  }

  ghost function ReadTables(s: Src, hlit: nat, hdist: nat, cl: seq<nat>): (r: Option<(Src, seq<nat>, seq<nat>)>)
    requires |s.buf| <= 32 && ValidLens(cl) && |cl| == 19
    ensures r.Some? ==> |r.value.0.buf| <= 32 && IsCode(r.value.1) && IsCode(r.value.2)
    ensures r.Some? ==> |r.value.1| == hlit && |r.value.2| == hdist
  {
    if !Kraft(cl) then None
    else
      var l := AllLengths(s, cl, hlit + hdist);
      if l.None? then None else SplitTables(l.value.0, l.value.1, hlit)
  }

  /** The first `hlit` lengths are the literal/length code, the others the distance code. */
  ghost function SplitTables(t: Src, lens: seq<nat>, hlit: nat): (r: Option<(Src, seq<nat>, seq<nat>)>)
    requires hlit <= |lens| && ValidLens(lens)
    ensures r.Some? ==> r.value.0 == t && r.value.1 + r.value.2 == lens && |r.value.1| == hlit
    ensures r.Some? ==> IsCode(r.value.1) && IsCode(r.value.2)
  {
    var ll, dl := lens[..hlit], lens[hlit..];
    if !Kraft(ll) || !Kraft(dl) then None else Some((t, ll, dl))
  }

  lemma SplitTablesJoined(t: Src, ll: seq<nat>, dl: seq<nat>)
    requires IsCode(ll) && IsCode(dl)
    ensures ValidLens(ll + dl) && SplitTables(t, ll + dl, |ll|) == Some((t, ll, dl))
  {
    var lens := ll + dl;
    assert lens[..|ll|] == ll && lens[|ll|..] == dl;
  }

  // ----- one step of each loop

  lemma ReadValuesStep(s: Src, done: seq<nat>, k: nat)
    requires |s.buf| <= 32 && k > 0
    ensures var (v, s1) := Receive(s, 3);
      && v < 8
      && (done + ReadValues(s, k).0, ReadValues(s, k).1)
         == (done + [v] + ReadValues(s1, k - 1).0, ReadValues(s1, k - 1).1)
  {
    var (v, s1) := Receive(s, 3);
    assert Pow2(3) == 8;
    Assoc(done, [v], ReadValues(s1, k - 1).0);
  }

  /** Writing the next value in the order of section 3.2.7 updates one code length. */
  lemma DezigzagStep(vals: seq<nat>, v: nat)
    requires |vals| < 19
    ensures CL_ORDER[|vals|] < 19
    ensures Dezigzag(vals + [v]) == Dezigzag(vals)[CL_ORDER[|vals|] := v]
  {
    forall i | 0 <= i < 19
      ensures CL_PLACE[i] == |vals| <==> i == CL_ORDER[|vals|]
    {
      OrderInverse(i, |vals|);
    }
  }

  lemma OrderInverse(i: nat, j: nat)
    requires i < 19 && j < 19
    ensures CL_PLACE[i] == j <==> i == CL_ORDER[j]
  {
    assert CL_ORDER[CL_PLACE[i]] == i;
    assert CL_PLACE[CL_ORDER[j]] == j;
  }

  /** What is done with one code length operation that has been read. */
  function OpResult(i: Option<(ClOp, Src)>, ntot: nat, acc: seq<nat>): Option<(Src, seq<nat>)> {
    if i.None? then None
    else
      var o := ClOpOut(i.value.0, acc);
      if o.None? || |o.value| > ntot then None else Some((i.value.1, o.value))
  }

  lemma ReadLengthsStep(s: Src, cl: seq<nat>, ntot: nat, acc: seq<nat>)
    requires |s.buf| <= 32 && ValidLens(cl) && |cl| == 19 && |acc| < ntot && ValidLens(acc)
    ensures var r := OpResult(ReadClOp(s, cl), ntot, acc);
      && (r.None? ==> ReadLengths(s, cl, ntot, acc).None?)
      && (r.Some? ==>
            && |r.value.0.buf| <= 32 && |acc| < |r.value.1| <= ntot && ValidLens(r.value.1)
            && ReadLengths(s, cl, ntot, acc) == ReadLengths(r.value.0, cl, ntot, r.value.1))
  {
    var i := ReadClOp(s, cl);
    if i.Some? {
      ClOpGrows(i.value.0, acc);
    }
  }

  lemma ReadCountsIs(s: Src, a: nat, s1: Src, b: nat, s2: Src, c: nat, s3: Src)
    requires |s.buf| <= 32 && |s1.buf| <= 32 && |s2.buf| <= 32
    requires (a, s1) == Receive(s, 5) && (b, s2) == Receive(s1, 5) && (c, s3) == Receive(s2, 4)
    ensures ReadCounts(s) == (a, b, c, s3) && a < 32 && b < 32 && c < 16
  {
    Pow2Small();
  }

  lemma ReadPreambleIs(s: Src, a: nat, b: nat, c: nat, s3: Src, vals: seq<nat>, t: Src)
    requires |s.buf| <= 32 && |s3.buf| <= 32
    requires ReadCounts(s) == (a, b, c, s3) && ReadValues(s3, c + 4) == (vals, t)
    ensures ReadPreamble(s) == (a + 257, b + 1, vals, t)
  {
  }

  lemma DynamicTablesIs(s: Src, hlit: nat, hdist: nat, vals: seq<nat>, t: Src, cl: seq<nat>)
    requires |s.buf| <= 32 && |t.buf| <= 32 && ReadPreamble(s) == (hlit, hdist, vals, t)
    requires cl == Dezigzag(vals) && ValidLens(cl)
    ensures DynamicTables(s) == ReadTables(t, hlit, hdist, cl)
  {
  }

  lemma ReadTablesIs(s: Src, hlit: nat, hdist: nat, cl: seq<nat>, t: Src, ll: seq<nat>, dl: seq<nat>)
    requires |s.buf| <= 32 && IsCode(cl) && |cl| == 19 && |ll| == hlit && |dl| == hdist
    requires AllLengths(s, cl, hlit + hdist) == Some((t, ll + dl)) && ValidLens(ll) && ValidLens(dl)
    ensures ReadTables(s, hlit, hdist, cl) == if Kraft(ll) && Kraft(dl) then Some((t, ll, dl)) else None
  {
    var lens := ll + dl;
    assert lens[..hlit] == ll && lens[hlit..] == dl;
  }

  // ----- soundness and completeness, layer by layer

  lemma {:induction false} ReadValuesConsumes(s: Src, k: nat)
    requires |s.buf| <= 32
    ensures Consumes(s, ValuesBits(ReadValues(s, k).0), ReadValues(s, k).1)
    decreases k
  {
    if k == 0 {
      ConsumesNothing(s);
    } else {
      var (v, s1) := Receive(s, 3);
      var (vs, s2) := ReadValues(s1, k - 1);
      ReceiveConsumes(s, 3);
      ReadValuesConsumes(s1, k - 1);
      ConsumesTrans(s, ToBits(v, 3), s1, ValuesBits(vs), s2);
      assert ([v] + vs)[1..] == vs;
    }
  }

  lemma ReadClOpConsumes(s: Src, cl: seq<nat>)
    requires |s.buf| <= 32 && ValidLens(cl) && |cl| == 19
    ensures ReadClOp(s, cl).Some? ==>
      var (op, t) := ReadClOp(s, cl).value;
      ClOpOk(op, cl) && Consumes(s, ClOpBits(op, cl), t)
  {
    if ReadClOp(s, cl).Some? {
      var (op, t) := ReadClOp(s, cl).value;
      var (c, s1) := Decode(s, cl).value;
      var n := ClExtraBits(op);
      DecodeConsumes(s, cl);
      if n == 0 {
        assert Codeword(cl, c) + ToBits(0, 0) == Codeword(cl, c);
      } else {
        ReceiveConsumes(s1, n);
        ConsumesTrans(s, Codeword(cl, c), s1, ToBits(ClExtra(op), n), t);
      }
    }
  }

  lemma ClOpsCons(op: ClOp, ops: seq<ClOp>, cl: seq<nat>)
    requires ClOpOk(op, cl) && ClOpsOk(ops, cl)
    ensures ClOpsOk([op] + ops, cl)
    ensures ClOpsBits([op] + ops, cl) == ClOpBits(op, cl) + ClOpsBits(ops, cl)
  {
    assert ([op] + ops)[1..] == ops;
  }

  lemma ClOpsOutCons(op: ClOp, ops: seq<ClOp>, acc: seq<nat>)
    requires ClOpOut(op, acc).Some?
    ensures ClOpsOut([op] + ops, acc) == ClOpsOut(ops, ClOpOut(op, acc).value)
  {
    assert ([op] + ops)[1..] == ops;
  }

  lemma {:induction false} ReadLengthsSound(s: Src, cl: seq<nat>, ntot: nat, acc: seq<nat>) returns (ops: seq<ClOp>)
    requires |s.buf| <= 32 && ValidLens(cl) && |cl| == 19 && |acc| <= ntot && ValidLens(acc)
    requires ReadLengths(s, cl, ntot, acc).Some?
    ensures ClOpsOk(ops, cl)
    ensures var (t, lens) := ReadLengths(s, cl, ntot, acc).value;
      ClOpsOut(ops, acc) == Some(lens) && Consumes(s, ClOpsBits(ops, cl), t)
    decreases ntot - |acc|
  {
    if |acc| == ntot {
      ops := [];
      ConsumesNothing(s);
    } else {
      var (op, u) := ReadClOp(s, cl).value;
      ReadClOpConsumes(s, cl);
      ClOpGrows(op, acc);
      var acc' := ClOpOut(op, acc).value;
      var rest := ReadLengthsSound(u, cl, ntot, acc');
      ops := [op] + rest;
      ClOpsCons(op, rest, cl);
      ClOpsOutCons(op, rest, acc);
      ConsumesTrans(s, ClOpBits(op, cl), u, ClOpsBits(rest, cl), ReadLengths(u, cl, ntot, acc').value.0);
    }
  }

  lemma {:induction false} ClOpsGrow(ops: seq<ClOp>, cl: seq<nat>, acc: seq<nat>)
    requires ClOpsOk(ops, cl) && ValidLens(acc)
    ensures ClOpsOut(ops, acc).Some? ==> |ClOpsOut(ops, acc).value| >= |acc| + |ops|
    decreases |ops|
  {
    if ops != [] {
      var r := ClOpOut(ops[0], acc);
      ClOpGrows(ops[0], acc);
      if r.Some? {
        ClOpsGrow(ops[1..], cl, r.value);
      }
    }
  }

  lemma ReadCountsConsumes(s: Src)
    requires |s.buf| <= 32
    ensures var (a, b, c, t) := ReadCounts(s);
      Consumes(s, ToBits(a, 5) + ToBits(b, 5) + ToBits(c, 4), t)
  {
    var (a, s1) := Receive(s, 5);
    var (b, s2) := Receive(s1, 5);
    var (c, s3) := Receive(s2, 4);
    ReceiveConsumes(s, 5);
    ReceiveConsumes(s1, 5);
    ReceiveConsumes(s2, 4);
    ConsumesTrans(s, ToBits(a, 5), s1, ToBits(b, 5), s2);
    ConsumesTrans(s, ToBits(a, 5) + ToBits(b, 5), s2, ToBits(c, 4), s3);
  }

  lemma ReadPreambleConsumes(s: Src)
    requires |s.buf| <= 32
    ensures var (hlit, hdist, vals, t) := ReadPreamble(s);
      Consumes(s, PreambleBits(hlit, hdist, vals), t)
  {
    var (a, b, c, s3) := ReadCounts(s);
    var (vals, s4) := ReadValues(s3, c + 4);
    PreambleConsumes(s, a, b, c, s3, vals, s4);
    assert ReadPreamble(s) == (a + 257, b + 1, vals, s4);
  }

  lemma PreambleConsumes(s: Src, a: nat, b: nat, c: nat, s3: Src, vals: seq<nat>, s4: Src)
    requires |s.buf| <= 32 && ReadCounts(s) == (a, b, c, s3) && ReadValues(s3, c + 4) == (vals, s4)
    ensures a < 32 && b < 32 && c < 16 && |vals| == c + 4
    ensures Consumes(s, PreambleBits(a + 257, b + 1, vals), s4)
  {
    ReadCountsConsumes(s);
    ReadValuesConsumes(s3, c + 4);
    ConsumesTrans(s, ToBits(a, 5) + ToBits(b, 5) + ToBits(c, 4), s3, ValuesBits(vals), s4);
  }

  lemma ReadTablesSound(s: Src, hlit: nat, hdist: nat, cl: seq<nat>) returns (ops: seq<ClOp>)
    requires |s.buf| <= 32 && ValidLens(cl) && |cl| == 19 && ReadTables(s, hlit, hdist, cl).Some?
    ensures IsCode(cl) && ClOpsOk(ops, cl)
    ensures var (t, ll, dl) := ReadTables(s, hlit, hdist, cl).value;
      && ClOpsOut(ops, []) == Some(ll + dl)
      && Consumes(s, ClOpsBits(ops, cl), t)
  {
    ops := ReadTablesOps(s, cl, hlit + hdist);
  }

  lemma ReadTablesOps(s: Src, cl: seq<nat>, ntot: nat) returns (ops: seq<ClOp>)
    requires |s.buf| <= 32 && ValidLens(cl) && |cl| == 19 && ReadLengths(s, cl, ntot, []).Some?
    ensures ClOpsOk(ops, cl)
    ensures var (t, lens) := ReadLengths(s, cl, ntot, []).value;
      ClOpsOut(ops, []) == Some(lens) && Consumes(s, ClOpsBits(ops, cl), t)
  {
    ops := ReadLengthsSound(s, cl, ntot, []);
  }

  lemma HeaderCodes(h: Header)
    requires HeaderOk(h)
    ensures LitLens(h) + DistLens(h) == ClOpsOut(h.ops, []).value
    ensures |LitLens(h)| == h.hlit && |DistLens(h)| == h.hdist
  {
  }

  /** Soundness: an accepted header is a well-formed one, the tables are the codes it
      describes, and the bits used up are exactly its own. */
  lemma DynamicTablesSound(s: Src) returns (h: Header)
    requires |s.buf| <= 32 && DynamicTables(s).Some?
    ensures HeaderOk(h)
    ensures var (t, ll, dl) := DynamicTables(s).value;
      LitLens(h) == ll && DistLens(h) == dl && Consumes(s, HeaderBits(h), t)
  {
    var (hlit, hdist, vals, s4) := ReadPreamble(s);
    DezigzagValid(vals);
    var cl := Dezigzag(vals);
    var ops := ReadTablesSound(s4, hlit, hdist, cl);
    var (t, ll, dl) := ReadTables(s4, hlit, hdist, cl).value;
    h := Header(hlit, hdist, vals, ops);
    assert (ll + dl)[..hlit] == ll && (ll + dl)[hlit..] == dl;
    ReadPreambleConsumes(s);
    ConsumesTrans(s, PreambleBits(hlit, hdist, vals), s4, ClOpsBits(ops, cl), t);
  }

  // ----- a header that comes next is read exactly if there is enough input

  function ValuesReads(k: nat): seq<Read> {
    if k == 0 then [] else [Number(3)] + ValuesReads(k - 1)
  }

  const COUNTS_READS: seq<Read> := [Number(5)] + ([Number(5)] + [Number(4)])

  function ClOpReads(op: ClOp, cl: seq<nat>): seq<Read>
    requires ClOpOk(op, cl)
  {
    [Symbol(cl[ClSym(op)])] + [Number(ClExtraBits(op))]
  }

  function ClOpsReads(ops: seq<ClOp>, cl: seq<nat>): seq<Read>
    requires ClOpsOk(ops, cl)
  {
    if ops == [] then [] else ClOpReads(ops[0], cl) + ClOpsReads(ops[1..], cl)
  }

  /** The reads of the header of a dynamic block. */
  function HeaderReads(h: Header): seq<Read>
    requires HeaderOk(h)
  {
    COUNTS_READS + ValuesReads(|h.clvals|) + ClOpsReads(h.ops, Dezigzag(h.clvals))
  }

  lemma {:induction false} ReadValuesReads(s: Src, vals: seq<nat>, x: seq<bool>)
    requires |s.buf| <= 32 && Shows(s, ValuesBits(vals) + x)
    requires forall i :: 0 <= i < |vals| ==> vals[i] < 8
    ensures var (vs, t) := ReadValues(s, |vals|);
      vs == vals && Exactly(s, ValuesBits(vals), ValuesReads(|vals|), x, Some(t))
    decreases |vals|
  {
    if vals == [] {
      NothingRead(s, x);
    } else {
      var rest := ValuesBits(vals[1..]);
      Assoc(ToBits(vals[0], 3), rest, x);
      assert Pow2(3) == 8;
      ReceiveReads(s, 3, vals[0], rest + x);
      var t := Receive(s, 3).1;
      ReadValuesReads(t, vals[1..], x);
      ExactlyBoth(s, ToBits(vals[0], 3), [Number(3)], Some(t), rest, ValuesReads(|vals| - 1), x,
        Some(ReadValues(t, |vals| - 1).1));
    }
  }

  lemma NothingRead(s: Src, x: seq<bool>)
    requires Shows(s, [] + x)
    ensures Exactly(s, [], [], x, Some(s))
  {
    ConsumesNothing(s);
    assert [] + x == x;
  }

  lemma ReadClOpReads(s: Src, cl: seq<nat>, op: ClOp, x: seq<bool>)
    requires |s.buf| <= 32 && IsCode(cl) && |cl| == 19 && ClOpOk(op, cl)
    requires Shows(s, ClOpBits(op, cl) + x)
    ensures var r := ReadClOp(s, cl);
      (r.Some? ==> r.value.0 == op) && Exactly(s, ClOpBits(op, cl), ClOpReads(op, cl), x, Left(r))
  {
    var c, n, v := ClSym(op), ClExtraBits(op), ClExtra(op);
    Assoc(Codeword(cl, c), ToBits(v, n), x);
    DecodeReads(s, cl, c, ToBits(v, n) + x);
    var d := Decode(s, cl);
    if d.Some? {
      var s1 := d.value.1;
      ReceiveReads(s1, n, v, x);
      assert n == 0 ==> Receive(s1, n).1 == s1;
    }
    ExactlyBoth(s, Codeword(cl, c), [Symbol(cl[c])], Left(d), ToBits(v, n), [Number(n)], x, Left(ReadClOp(s, cl)));
  }

  /** Well-formed operations that come next are expanded exactly if there is enough input. */
  lemma {:induction false} ReadLengthsExact(s: Src, cl: seq<nat>, ntot: nat, acc: seq<nat>, ops: seq<ClOp>,
      x: seq<bool>)
    requires |s.buf| <= 32 && IsCode(cl) && |cl| == 19 && |acc| <= ntot && ValidLens(acc) && ClOpsOk(ops, cl)
    requires Shows(s, ClOpsBits(ops, cl) + x)
    requires ClOpsOut(ops, acc).Some? && |ClOpsOut(ops, acc).value| == ntot
    ensures var r := ReadLengths(s, cl, ntot, acc);
      && (r.Some? ==> r.value.1 == ClOpsOut(ops, acc).value)
      && Exactly(s, ClOpsBits(ops, cl), ClOpsReads(ops, cl), x, LeftOf(r))
    decreases |ops|
  {
    ClOpsGrow(ops, cl, acc);
    if ops == [] {
      NothingRead(s, x);
    } else {
      var v := ClOpsBits(ops[1..], cl);
      Assoc(ClOpBits(ops[0], cl), v, x);
      ReadClOpReads(s, cl, ops[0], v + x);
      ClOpGrows(ops[0], acc);
      var acc' := ClOpOut(ops[0], acc).value;
      ClOpsGrow(ops[1..], cl, acc');
      var r := ReadClOp(s, cl);
      if r.Some? {
        ReadLengthsExact(r.value.1, cl, ntot, acc', ops[1..], x);
      }
      ExactlyBoth(s, ClOpBits(ops[0], cl), ClOpReads(ops[0], cl), Left(r), v, ClOpsReads(ops[1..], cl), x,
        LeftOf(ReadLengths(s, cl, ntot, acc)));
    }
  }

  lemma ReadCountsReads(s: Src, a: nat, b: nat, c: nat, x: seq<bool>)
    requires |s.buf| <= 32 && a < 32 && b < 32 && c < 16
    requires Shows(s, ToBits(a, 5) + ToBits(b, 5) + ToBits(c, 4) + x)
    ensures var r := ReadCounts(s);
      && r.0 == a && r.1 == b && r.2 == c
      && Exactly(s, ToBits(a, 5) + ToBits(b, 5) + ToBits(c, 4), COUNTS_READS, x, Some(r.3))
  {
    var wa, wb, wc := ToBits(a, 5), ToBits(b, 5), ToBits(c, 4);
    Regroup(wa, wb, wc, x);
    Pow2Small();
    ReceiveReads(s, 5, a, wb + (wc + x));
    var s1 := Receive(s, 5).1;
    ReceiveReads(s1, 5, b, wc + x);
    var s2 := Receive(s1, 5).1;
    ReceiveReads(s2, 4, c, x);
    var s3 := Receive(s2, 4).1;
    ExactlyBoth(s1, wb, [Number(5)], Some(s2), wc, [Number(4)], x, Some(s3));
    Assoc(wb, wc, x);
    ExactlyBoth(s, wa, [Number(5)], Some(s1), wb + wc, [Number(5)] + [Number(4)], x, Some(s3));
    Assoc(wa, wb, wc);
  }

  lemma ReadPreambleReads(s: Src, hlit: nat, hdist: nat, vals: seq<nat>, x: seq<bool>)
    requires |s.buf| <= 32 && 257 <= hlit <= 288 && 1 <= hdist <= 32 && 4 <= |vals| <= 19
    requires forall i :: 0 <= i < |vals| ==> vals[i] < 8
    requires Shows(s, PreambleBits(hlit, hdist, vals) + x)
    ensures var r := ReadPreamble(s);
      && r.0 == hlit && r.1 == hdist && r.2 == vals
      && Exactly(s, PreambleBits(hlit, hdist, vals), COUNTS_READS + ValuesReads(|vals|), x, Some(r.3))
  {
    var a, b, c := hlit - 257, hdist - 1, |vals| - 4;
    var w := ToBits(a, 5) + ToBits(b, 5) + ToBits(c, 4);
    Assoc(w, ValuesBits(vals), x);
    ReadCountsReads(s, a, b, c, ValuesBits(vals) + x);
    var t := ReadCounts(s).3;
    CountsThenValues(s, w, COUNTS_READS, t, vals, x);
    ReadPreambleIs(s, a, b, c, t, vals, ReadValues(t, |vals|).1);
  }

  lemma CountsThenValues(s: Src, w: seq<bool>, rs: seq<Read>, t: Src, vals: seq<nat>, x: seq<bool>)
    requires |t.buf| <= 32 && forall i :: 0 <= i < |vals| ==> vals[i] < 8
    requires Exactly(s, w, rs, ValuesBits(vals) + x, Some(t))
    ensures ReadValues(t, |vals|).0 == vals
    ensures Exactly(s, w + ValuesBits(vals), rs + ValuesReads(|vals|), x, Some(ReadValues(t, |vals|).1))
  {
    ReadValuesReads(t, vals, x);
    ExactlyBoth(s, w, rs, Some(t), ValuesBits(vals), ValuesReads(|vals|), x, Some(ReadValues(t, |vals|).1));
  }

  lemma ReadTablesExact(s: Src, hlit: nat, hdist: nat, cl: seq<nat>, ops: seq<ClOp>, ll: seq<nat>, dl: seq<nat>,
      x: seq<bool>)
    requires |s.buf| <= 32 && IsCode(cl) && |cl| == 19 && ClOpsOk(ops, cl)
    requires ClOpsOut(ops, []) == Some(ll + dl) && |ll| == hlit && |dl| == hdist && IsCode(ll) && IsCode(dl)
    requires Shows(s, ClOpsBits(ops, cl) + x)
    ensures var r := ReadTables(s, hlit, hdist, cl);
      r.Some? ==> r.value.1 == ll && r.value.2 == dl
    ensures Exactly(s, ClOpsBits(ops, cl), ClOpsReads(ops, cl), x, LeftOfTables(ReadTables(s, hlit, hdist, cl)))
  {
    AllLengthsExact(s, hlit + hdist, cl, ops, ll + dl, x);
    TablesFollow(s, hlit, hdist, cl, ll, dl, ClOpsBits(ops, cl), ClOpsReads(ops, cl), x);
  }

  lemma AllLengthsExact(s: Src, n: nat, cl: seq<nat>, ops: seq<ClOp>, lens: seq<nat>, x: seq<bool>)
    requires |s.buf| <= 32 && IsCode(cl) && |cl| == 19 && ClOpsOk(ops, cl)
    requires ClOpsOut(ops, []) == Some(lens) && |lens| == n
    requires Shows(s, ClOpsBits(ops, cl) + x)
    ensures var r := AllLengths(s, cl, n);
      (r.Some? ==> r.value.1 == lens) && Exactly(s, ClOpsBits(ops, cl), ClOpsReads(ops, cl), x, LeftOf(r))
  {
    ReadLengthsExact(s, cl, n, [], ops, x);
  }

  /** The tables are refused or read as the list of lengths is. */
  lemma TablesFollow(s: Src, hlit: nat, hdist: nat, cl: seq<nat>, ll: seq<nat>, dl: seq<nat>, w: seq<bool>,
      rs: seq<Read>, x: seq<bool>)
    requires |s.buf| <= 32 && IsCode(cl) && |cl| == 19 && |ll| == hlit && |dl| == hdist && IsCode(ll) && IsCode(dl)
    requires var l := AllLengths(s, cl, hlit + hdist);
      (l.Some? ==> l.value.1 == ll + dl) && Exactly(s, w, rs, x, LeftOf(l))
    ensures var r := ReadTables(s, hlit, hdist, cl);
      (r.Some? ==> r.value.1 == ll && r.value.2 == dl) && Exactly(s, w, rs, x, LeftOfTables(r))
  {
    var l := AllLengths(s, cl, hlit + hdist);
    if l.Some? {
      SplitTablesJoined(l.value.0, ll, dl);
    }
  }

  function LeftOfTables(r: Option<(Src, seq<nat>, seq<nat>)>): Option<Src> {
    if r.None? then None else Some(r.value.0)
  }

  /** Completeness, exactly: a well-formed header that comes next gives the codes it describes if
      there is enough input, and is refused if not. */
  lemma DynamicTablesExact(s: Src, h: Header, x: seq<bool>)
    requires |s.buf| <= 32 && HeaderOk(h) && Shows(s, HeaderBits(h) + x)
    ensures var r := DynamicTables(s);
      && (r.Some? ==> r.value.1 == LitLens(h) && r.value.2 == DistLens(h))
      && Exactly(s, HeaderBits(h), HeaderReads(h), x, LeftOfTables(r))
  {
    var cl := Dezigzag(h.clvals);
    HeaderCodes(h);
    Assoc(PreambleBits(h.hlit, h.hdist, h.clvals), ClOpsBits(h.ops, cl), x);
    ReadPreambleReads(s, h.hlit, h.hdist, h.clvals, ClOpsBits(h.ops, cl) + x);
    var t := ReadPreamble(s).3;
    ReadTablesExact(t, h.hlit, h.hdist, cl, h.ops, LitLens(h), DistLens(h), x);
    ExactlyBoth(s, PreambleBits(h.hlit, h.hdist, h.clvals), COUNTS_READS + ValuesReads(|h.clvals|), Some(t),
      ClOpsBits(h.ops, cl), ClOpsReads(h.ops, cl), x, LeftOfTables(DynamicTables(s)));
  }
}
