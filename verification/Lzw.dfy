/** GIF's LZW (Appendix F of the GIF89a specification) with explicit strings, and its round trip. */
module Lzw {
  import opened Bits

  type CodeSize = n: nat | n <= 12

  /** The code that clears the table; the next one ends the stream. */
  function Clear(cs: CodeSize): nat {
    Pow2(cs)
  }

  lemma ClearIs(cs: CodeSize)
    ensures Clear(cs) <= 4096
  {
    Pow2Mono(cs, 12);
    Pow2Small();
    assert Pow2(12) == 4096 by {
      assert Pow2(10) == 1024;
    }
  }

  const LIMIT: nat := 8192

  /** The strings by code, the previous code or -1, the width of the next code, and whether a
      clear code is still awaited. */
  datatype Lzw = Lzw(table: seq<seq<byte>>, prev: int, width: nat, first: bool)

  /** A string of one index for each code below `Clear`; the two control codes have none. */
  function Initial(cs: CodeSize): (t: seq<seq<byte>>)
    ensures |t| == Clear(cs) + 2
  {
    seq(Clear(cs) + 2, i requires 0 <= i => if i < Clear(cs) then [i % 256] else [])
  }

  function Reset(cs: CodeSize): (s: Lzw)
    ensures Ok(cs, s)
  {
    ClearIs(cs);
    Lzw(Initial(cs), -1, cs + 1, false)
  }

  function Start(cs: CodeSize): (s: Lzw)
    ensures Ok(cs, s)
  {
    Reset(cs).(first := true)
  }

  predicate IsData(cs: CodeSize, code: int) {
    0 <= code && code != Clear(cs) && code != Clear(cs) + 1
  }

  /** Every code but the control codes has a string, and the previous code is one of them. */
  ghost predicate Ok(cs: CodeSize, s: Lzw) {
    && Clear(cs) + 2 <= |s.table| <= LIMIT
    && (s.prev == -1 || (IsData(cs, s.prev) && s.prev < |s.table|))
    && forall c :: IsData(cs, c) && c < |s.table| ==> s.table[c] != []
  }

  datatype Outcome = Bad | Go(s: Lzw, emitted: seq<byte>)

  /** The entry a code adds: the previous string and the first index of this one, which is also
      that of the previous string when the code is the one being added. */
  function NewEntry(s: Lzw, code: nat): seq<byte>
    requires 0 <= s.prev < |s.table| && code <= |s.table| && s.table[s.prev] != []
    requires code < |s.table| ==> s.table[code] != []
  {
    s.table[s.prev] + [if code == |s.table| then s.table[s.prev][0] else s.table[code][0]]
  }

  function Grown(width: nat, avail: nat): nat {
    if Low(avail, width) == 0 && avail <= 0xFFF then width + 1 else width
  }

  /** A code that is not a control code. */
  function Step(cs: CodeSize, s: Lzw, code: nat): Outcome
    requires Ok(cs, s) && IsData(cs, code)
  {
    if code > |s.table| || s.first then Bad
    else if s.prev >= 0 then
      if |s.table| + 1 > LIMIT then Bad
      else
        var table := s.table + [NewEntry(s, code)];
        Go(Lzw(table, code, Grown(s.width, |table|), false), table[code])
    else if code == |s.table| then Bad
    else Go(Lzw(s.table, code, Grown(s.width, |s.table|), false), s.table[code])
  }

  lemma StepOk(cs: CodeSize, s: Lzw, code: nat)
    requires Ok(cs, s) && IsData(cs, code) && Step(cs, s, code).Go?
    ensures Ok(cs, Step(cs, s, code).s)
  {
    var t := Step(cs, s, code).s;
    if s.prev >= 0 {
      forall c | IsData(cs, c) && c < |t.table|
        ensures t.table[c] != []
      {
        if c < |s.table| {
          assert s.table[c] != [];
        }
      }
    }
  }

  /** The result of a run: whether the data was accepted, and the colour indices put out. */
  datatype Result = Result(ok: bool, indices: seq<byte>)

  function Prepend(emitted: seq<byte>, r: Result): Result {
    Result(r.ok, emitted + r.indices)
  }

  /** Decode codes from the bits; data that ends without an end code is accepted. */
  function Decode(cs: CodeSize, s: Lzw, bits: seq<bool>): Result
    requires Ok(cs, s) && s.width > 0
    decreases |bits|
  {
    if |bits| < s.width then Result(true, [])
    else
      var code, rest := FromBits(bits[..s.width]), bits[s.width..];
      if code == Clear(cs) then
        Decode(cs, Reset(cs), rest)
      else if code == Clear(cs) + 1 then Result(true, [])
      else
        match Step(cs, s, code)
        case Bad => Result(false, [])
        case Go(t, emitted) =>
          StepOk(cs, s, code);
          Prepend(emitted, Decode(cs, t, rest))
  }

  // ----- the encoder

  /** The encoder's table when `data` is still to come: it has already added the string it just
      wrote, extended by the next index. */
  function EncoderTable(s: Lzw, data: seq<byte>): seq<seq<byte>>
    requires data != [] && (s.prev >= 0 ==> s.prev < |s.table|)
  {
    if s.prev >= 0 then s.table + [s.table[s.prev] + [data[0]]] else s.table
  }

  /** `codes` is what some encoder may write for `data`: at every moment a clear code, or the code
      of any string of its table that `data` begins with (a greedy encoder takes the longest). */
  ghost predicate Encodes(cs: CodeSize, s: Lzw, codes: seq<nat>, data: seq<byte>)
    requires Ok(cs, s)
    decreases |codes|
  {
    if codes == [] then data == []
    else if codes[0] == Clear(cs) then
      Encodes(cs, Reset(cs), codes[1..], data)
    else
      var c := codes[0];
      && IsData(cs, c) && !s.first && data != []
      && var table := EncoderTable(s, data);
      && |table| <= LIMIT && c < |table| && c < Pow2(s.width) && table[c] <= data
      && (Encoded(cs, s, table, c, data);
          Encodes(cs, Lzw(table, c, Grown(s.width, |table|), false), codes[1..], data[|table[c]|..]))
  }

  lemma Encoded(cs: CodeSize, s: Lzw, table: seq<seq<byte>>, c: nat, data: seq<byte>)
    requires Ok(cs, s) && IsData(cs, c) && data != [] && table == EncoderTable(s, data) && |table| <= LIMIT &&
      c < |table|
    ensures Ok(cs, Lzw(table, c, Grown(s.width, |table|), false))
  {
    forall i | IsData(cs, i) && i < |table|
      ensures table[i] != []
    {
      if i < |s.table| {
        assert s.table[i] != [];
      }
    }
  }

  /** The decoder, one string behind, builds the encoder's table: also when the code is that of the
      string the encoder added last. */
  lemma DecoderFollows(cs: CodeSize, s: Lzw, c: nat, data: seq<byte>)
    requires Ok(cs, s) && IsData(cs, c) && !s.first && data != []
    requires var table := EncoderTable(s, data); |table| <= LIMIT && c < |table| && table[c] <= data
    ensures var table := EncoderTable(s, data);
      Step(cs, s, c) == Go(Lzw(table, c, Grown(s.width, |table|), false), table[c])
  {
    var table := EncoderTable(s, data);
    if s.prev >= 0 {
      assert s.table[s.prev] != [];
      if c == |s.table| {
        assert table[c][0] == data[0] == s.table[s.prev][0];
      } else {
        assert s.table[c] == table[c] && table[c][0] == data[0];
      }
    }
  }

  /** The codes and the end code as bits, each as wide as the state says. */
  function Written(cs: CodeSize, s: Lzw, codes: seq<nat>): seq<bool>
    requires Ok(cs, s)
    decreases |codes|
  {
    if codes == [] then ToBits(Clear(cs) + 1, s.width)
    else if codes[0] == Clear(cs) then
      ToBits(Clear(cs), s.width) + Written(cs, Reset(cs), codes[1..])
    else if IsData(cs, codes[0]) && Step(cs, s, codes[0]).Go? then
      StepOk(cs, s, codes[0]);
      ToBits(codes[0], s.width) + Written(cs, Step(cs, s, codes[0]).s, codes[1..])
    else ToBits(codes[0], s.width)
  }

  lemma ReadBack(code: nat, width: nat, rest: seq<bool>)
    requires code < Pow2(width)
    ensures var bits := ToBits(code, width) + rest;
      |bits| >= width && FromBits(bits[..width]) == code && bits[width..] == rest
  {
    FromToBits(code, width);
    assert (ToBits(code, width) + rest)[..width] == ToBits(code, width);
  }

  lemma ControlCodes(cs: CodeSize, width: nat)
    requires 0 < cs < width
    ensures Clear(cs) + 1 < Pow2(width)
  {
    Pow2Mono(cs + 1, width);
    Pow2Mono(1, cs);
  }

  /** Whatever codes an encoder chose for the data, decoding them gives the data back, and what
      follows the end code does not matter. */
  lemma {:induction false} DecodeEncoded(cs: CodeSize, s: Lzw, codes: seq<nat>, data: seq<byte>, more: seq<bool>)
    requires 0 < cs < s.width && Ok(cs, s) && Encodes(cs, s, codes, data)
    ensures Decode(cs, s, Written(cs, s, codes) + more) == Result(true, data)
    decreases |codes|
  {
    ControlCodes(cs, s.width);
    if codes == [] {
      ReadBack(Clear(cs) + 1, s.width, more);
    } else if codes[0] == Clear(cs) {
      var rest := Written(cs, Reset(cs), codes[1..]);
      DecodeEncoded(cs, Reset(cs), codes[1..], data, more);
      Assoc(ToBits(Clear(cs), s.width), rest, more);
      ReadBack(Clear(cs), s.width, rest + more);
    } else {
      DecodeOne(cs, s, codes, data, more);
    }
  }

  lemma DecodeOne(cs: CodeSize, s: Lzw, codes: seq<nat>, data: seq<byte>, more: seq<bool>)
    requires 0 < cs < s.width && Ok(cs, s) && Encodes(cs, s, codes, data) && codes != [] && codes[0] != Clear(cs)
    ensures Decode(cs, s, Written(cs, s, codes) + more) == Result(true, data)
    decreases |codes|, 0
  {
    var c, table := codes[0], EncoderTable(s, data);
    DecoderFollows(cs, s, c, data);
    Encoded(cs, s, table, c, data);
    var t := Lzw(table, c, Grown(s.width, |table|), false);
    var rest := Written(cs, t, codes[1..]);
    DecodeEncoded(cs, t, codes[1..], data[|table[c]|..], more);
    Assoc(ToBits(c, s.width), rest, more);
    ReadBack(c, s.width, rest + more);
    assert table[c] + data[|table[c]|..] == data;
  }

  // ----- the width of codes

  /** As long as the table has fewer than 4096 entries, the next code, which may be that of the
      entry to come, can be written in the current width. */
  predicate Wide(cs: CodeSize, s: Lzw) {
    cs < s.width && (|s.table| < 0x1000 ==> |s.table| < Pow2(s.width))
  }

  lemma {:induction false} LowOfPow2(k: nat)
    ensures Low(Pow2(k), k) == 0
  {
    if k > 0 {
      LowOfPow2(k - 1);
    }
  }

  lemma GrownIs(width: nat, avail: nat)
    requires 0 < avail <= Pow2(width)
    ensures Grown(width, avail) == if avail == Pow2(width) && avail < 0x1000 then width + 1 else width
  {
    LowAtMost(avail, width);
    LowOfPow2(width);
  }

  lemma WideStart(cs: CodeSize)
    requires cs >= 2
    ensures Wide(cs, Reset(cs)) && Wide(cs, Start(cs))
  {
    Pow2Mono(2, cs);
    Pow2Small();
  }

  lemma WideStep(cs: CodeSize, s: Lzw, code: nat)
    requires cs >= 2 && Ok(cs, s) && Wide(cs, s) && IsData(cs, code) && Step(cs, s, code).Go?
    ensures Wide(cs, Step(cs, s, code).s)
  {
    var t := Step(cs, s, code).s;
    if |t.table| < 0x1000 {
      GrownIs(s.width, |t.table|);
    }
  }

  /** What an encoder may write that pays no attention to widths and only clears the table in
      time: at most 4096 entries. */
  ghost predicate EncodesFreely(cs: CodeSize, s: Lzw, codes: seq<nat>, data: seq<byte>)
    requires Ok(cs, s)
    decreases |codes|
  {
    if codes == [] then data == []
    else if codes[0] == Clear(cs) then
      EncodesFreely(cs, Reset(cs), codes[1..], data)
    else
      var c := codes[0];
      && IsData(cs, c) && !s.first && data != [] && |s.table| < 0x1000
      && var table := EncoderTable(s, data);
      && c < |table| && table[c] <= data
      && (Encoded(cs, s, table, c, data);
          EncodesFreely(cs, Lzw(table, c, Grown(s.width, |table|), false), codes[1..], data[|table[c]|..]))
  }

  /** Its codes always fit the width of the moment. */
  lemma {:induction false} FreelyEncodes(cs: CodeSize, s: Lzw, codes: seq<nat>, data: seq<byte>)
    requires cs >= 2 && Ok(cs, s) && Wide(cs, s) && EncodesFreely(cs, s, codes, data)
    ensures Encodes(cs, s, codes, data)
    decreases |codes|
  {
    if codes != [] {
      if codes[0] == Clear(cs) {
        WideStart(cs);
        FreelyEncodes(cs, Reset(cs), codes[1..], data);
      } else {
        var c, table := codes[0], EncoderTable(s, data);
        Encoded(cs, s, table, c, data);
        DecoderFollows(cs, s, c, data);
        WideStep(cs, s, c);
        FreelyEncodes(cs, Lzw(table, c, Grown(s.width, |table|), false), codes[1..], data[|table[c]|..]);
      }
    }
  }

  /** So every encoder that clears the table in time gets its data back, however it chooses its codes. */
  lemma DecodeFreelyEncoded(cs: CodeSize, codes: seq<nat>, data: seq<byte>, more: seq<bool>)
    requires cs >= 2 && EncodesFreely(cs, Start(cs), codes, data)
    ensures Decode(cs, Start(cs), Written(cs, Start(cs), codes) + more) == Result(true, data)
  {
    WideStart(cs);
    FreelyEncodes(cs, Start(cs), codes, data);
    DecodeEncoded(cs, Start(cs), codes, data, more);
  }

  // ----- there always is an encoding

  function OneByOne(cs: CodeSize, data: seq<byte>): seq<nat> {
    if data == [] then [] else [Clear(cs), data[0]] + OneByOne(cs, data[1..])
  }

  /** The state after a clear code and the index `d`. */
  function AfterOne(cs: CodeSize, d: nat): Lzw {
    var r := Reset(cs);
    Lzw(r.table, d, Grown(r.width, |r.table|), false)
  }

  lemma OneIndex(cs: CodeSize, data: seq<byte>)
    requires 0 < cs && data != [] && data[0] < Clear(cs)
    ensures var r, d := Reset(cs), data[0];
      && EncoderTable(r, data) == r.table && d < |r.table| <= LIMIT && r.table[d] == [d] && IsData(cs, d)
      && d < Pow2(r.width)
  {
    ControlCodes(cs, cs + 1);
    assert Initial(cs)[data[0]] == [data[0] % 256];
  }

  lemma AfterOneOk(cs: CodeSize, data: seq<byte>)
    requires 0 < cs && data != [] && data[0] < Clear(cs)
    ensures Ok(cs, AfterOne(cs, data[0]))
  {
    ClearIs(cs);
  }

  lemma OneMore(cs: CodeSize, data: seq<byte>, codes: seq<nat>)
    requires 0 < cs && data != [] && data[0] < Clear(cs) && codes != [] && codes[0] == data[0]
    requires Ok(cs, AfterOne(cs, data[0])) && Encodes(cs, AfterOne(cs, data[0]), codes[1..], data[1..])
    ensures Encodes(cs, Reset(cs), codes, data)
  {
    OneIndex(cs, data);
  }

  /** Writing a clear code in front of every index is an encoding of any data. */
  lemma {:induction false} AnyDataEncodes(cs: CodeSize, s: Lzw, data: seq<byte>)
    requires Ok(cs, s) && 0 < cs && forall i :: 0 <= i < |data| ==> data[i] < Clear(cs)
    ensures Encodes(cs, s, OneByOne(cs, data), data)
    decreases |data|
  {
    if data != [] {
      var rest := OneByOne(cs, data[1..]);
      AfterOneOk(cs, data);
      AnyDataEncodes(cs, AfterOne(cs, data[0]), data[1..]);
      assert ([data[0] as nat] + rest)[1..] == rest;
      OneMore(cs, data, [data[0]] + rest);
      assert ([Clear(cs), data[0]] + rest)[1..] == [data[0]] + rest;
    }
  }
}
