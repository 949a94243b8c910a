/** The input side of the decoder on values: the bit reservoir and the bytes behind it, what
    each read returns, and which stream bits it uses up. */
module Source {
  import opened Bits
  import opened Canonical
  import opened Options

  /** `buf` holds the buffered bits, next bit first; `rest` the bytes not yet fetched. */
  datatype Src = Src(buf: seq<bool>, rest: seq<byte>)

  function Stream(s: Src): seq<bool> {
    s.buf + BytesBits(s.rest)
  }

  /** `stbi__zget8`: the next byte, or 0 at the end of the input. */
  function Head(bs: seq<byte>): byte {
    if bs == [] then 0 else bs[0]
  }

  function Tail(bs: seq<byte>): seq<byte> {
    if bs == [] then [] else bs[1..]
  }

  /** `stbi__fill_bits`: fetch bytes until more than 24 bits are buffered. */
  function Fill(s: Src): (t: Src)
    requires |s.buf| <= 24
    ensures 24 < |t.buf| <= 32
    decreases 24 - |s.buf|
  {
    var t := Src(s.buf + ToBits(Head(s.rest), 8), Tail(s.rest));
    if |t.buf| <= 24 then Fill(t) else t
  }

  /** `stbi__zreceive`: an `n`-bit number, least significant bit first. */
  function Receive(s: Src, n: nat): (r: (nat, Src))
    requires |s.buf| <= 32 && n <= 16
    ensures |r.1.buf| <= 32
    ensures r.0 < Pow2(n)
  {
    var t := if |s.buf| < n then Fill(s) else s;
    (FromBits(t.buf[..n]), Src(t.buf[n..], t.rest))
  }

  /** `stbi__zhuffman_decode`: the symbol whose codeword comes next.  It fails when the input
      is exhausted with fewer than 16 bits buffered, or when no codeword comes next. */
  ghost function Decode(s: Src, lens: seq<nat>): (r: Option<(nat, Src)>)
    requires |s.buf| <= 32 && ValidLens(lens)
    ensures r.Some? ==> r.value.0 < |lens| && lens[r.value.0] > 0 && |r.value.1.buf| <= 32
  {
    if |s.buf| < 16 && s.rest == [] then None
    else
      var t := if |s.buf| < 16 then Fill(s) else s;
      var i := Lookup(lens, t.buf);
      if i < 0 then None else Some((i, Src(t.buf[lens[i]..], t.rest)))
  }

  // ----- what a read consumes

  /** `b` is `a` followed by zeros. */
  predicate ZeroExt(a: seq<bool>, b: seq<bool>) {
    a <= b && forall i :: |a| <= i < |b| ==> !b[i]
  }

  lemma ZeroExtTrans(a: seq<bool>, b: seq<bool>, c: seq<bool>)
    requires ZeroExt(a, b) && ZeroExt(b, c)
    ensures ZeroExt(a, c)
  {
  }

  lemma ZeroExtPrepend(w: seq<bool>, a: seq<bool>, b: seq<bool>)
    requires ZeroExt(a, b)
    ensures ZeroExt(w + a, w + b)
  {
    forall i | |w + a| <= i < |w + b|
      ensures !(w + b)[i]
    {
      assert (w + b)[i] == b[i - |w|];
    }
  }

  /** Going from `s` to `t` uses up the bits `w` of the input, extended by whole bytes of
      zeros if it runs out. */
  predicate Consumes(s: Src, w: seq<bool>, t: Src) {
    && ZeroExt(Stream(s), w + Stream(t))
    && (|w| + |Stream(t)| - |Stream(s)|) % 8 == 0
  }

  lemma ConsumesNothing(s: Src)
    ensures Consumes(s, [], s)
  {
    assert [] + Stream(s) == Stream(s);
  }

  lemma ConsumesTrans(s: Src, v: seq<bool>, t: Src, w: seq<bool>, u: Src)
    requires Consumes(s, v, t) && Consumes(t, w, u)
    ensures Consumes(s, v + w, u)
  {
    ZeroExtPrepend(v, Stream(t), w + Stream(u));
    assert v + (w + Stream(u)) == v + w + Stream(u);
    ZeroExtTrans(Stream(s), v + Stream(t), v + w + Stream(u));
  }

  lemma ConsumesAfter(s: Src, t: Src, w: seq<bool>, u: Src)
    requires Consumes(s, [], t) && Consumes(t, w, u)
    ensures Consumes(s, w, u)
  {
    ConsumesTrans(s, [], t, w, u);
    assert [] + w == w;
  }

  /** The input, read with zeros past its end, begins with `w`. */
  predicate Shows(s: Src, w: seq<bool>) {
    forall i :: 0 <= i < |w| ==> w[i] == BitAt(Stream(s), i)
  }

  /** Bit `i` of `b`, and 0 past its end. */
  function BitAt(b: seq<bool>, i: nat): bool {
    i < |b| && b[i]
  }

  lemma BitAtZeroExt(a: seq<bool>, b: seq<bool>, i: nat)
    requires ZeroExt(a, b)
    ensures BitAt(a, i) == BitAt(b, i)
  {
  }

  /** If the input begins with as many bits, those are the bits consumed, and it goes on with
      what follows them. */
  lemma ConsumesShown(s: Src, w: seq<bool>, t: Src, v: seq<bool>, x: seq<bool>)
    requires Consumes(s, w, t) && Shows(s, v + x) && |v| == |w|
    ensures v == w && Shows(t, x)
  {
    var y := w + Stream(t);
    forall i | 0 <= i < |v|
      ensures v[i] == w[i]
    {
      BitAtZeroExt(Stream(s), y, i);
      assert (v + x)[i] == v[i];
    }
    forall i | 0 <= i < |x|
      ensures x[i] == BitAt(Stream(t), i)
    {
      BitAtZeroExt(Stream(s), y, |v| + i);
      assert (v + x)[|v| + i] == x[i];
    }
  }

  lemma ShowsPrefix(s: Src, v: seq<bool>, x: seq<bool>)
    requires Shows(s, v + x)
    ensures Shows(s, v)
  {
    forall i | 0 <= i < |v|
      ensures v[i] == BitAt(Stream(s), i)
    {
      assert (v + x)[i] == v[i];
    }
  }

  lemma {:induction false} FillConsumes(s: Src)
    requires |s.buf| <= 24
    ensures Consumes(s, [], Fill(s))
    ensures s.buf <= Fill(s).buf
    decreases 24 - |s.buf|
  {
    var t := Src(s.buf + ToBits(Head(s.rest), 8), Tail(s.rest));
    FetchConsumes(s);
    if |t.buf| <= 24 {
      FillConsumes(t);
      ConsumesAfter(s, t, [], Fill(t));
    }
  }

  lemma FetchConsumes(s: Src)
    ensures Consumes(s, [], Src(s.buf + ToBits(Head(s.rest), 8), Tail(s.rest)))
  {
    var t := Src(s.buf + ToBits(Head(s.rest), 8), Tail(s.rest));
    if s.rest == [] {
      ToBitsZero(8);
      assert [] + Stream(t) == s.buf + ToBits(0, 8);
    } else {
      assert [] + Stream(t) == s.buf + (ToBits(s.rest[0], 8) + BytesBits(s.rest[1..]));
    }
  }

  lemma {:induction false} ToBitsZero(n: nat)
    ensures forall i :: 0 <= i < n ==> !ToBits(0, n)[i]
  {
    if n > 0 {
      ToBitsZero(n - 1);
    }
  }

  lemma TakeConsumes(s: Src, n: nat)
    requires n <= |s.buf|
    ensures Consumes(s, s.buf[..n], Src(s.buf[n..], s.rest))
  {
    assert s.buf[..n] + Stream(Src(s.buf[n..], s.rest)) == Stream(s);
  }

  lemma ReceiveConsumes(s: Src, n: nat)
    requires |s.buf| <= 32 && n <= 16
    ensures Consumes(s, ToBits(Receive(s, n).0, n), Receive(s, n).1)
  {
    var t := if |s.buf| < n then Fill(s) else s;
    if |s.buf| < n {
      FillConsumes(s);
    } else {
      ConsumesNothing(s);
    }
    TakeConsumes(t, n);
    ToFromBits(t.buf[..n]);
    ConsumesAfter(s, t, t.buf[..n], Receive(s, n).1);
  }

  /** A decoded symbol accounts for exactly the bits of its codeword. */
  lemma DecodeConsumes(s: Src, lens: seq<nat>)
    requires |s.buf| <= 32 && ValidLens(lens)
    ensures Decode(s, lens).Some? ==>
      var (i, t) := Decode(s, lens).value;
      Consumes(s, Codeword(lens, i), t)
  {
    if Decode(s, lens).Some? {
      var (i, u) := Decode(s, lens).value;
      var t := if |s.buf| < 16 then Fill(s) else s;
      if |s.buf| < 16 {
        FillConsumes(s);
      } else {
        ConsumesNothing(s);
      }
      TakeConsumes(t, lens[i]);
      assert t.buf[..lens[i]] == Codeword(lens, i);
      ConsumesAfter(s, t, Codeword(lens, i), u);
    }
  }

  // ----- when there is enough input

  /** How many bits are buffered and how many bytes are left behind them. */
  datatype Shape = Shape(bits: nat, bytes: nat)

  function ShapeOf(s: Src): Shape {
    Shape(|s.buf|, |s.rest|)
  }

  /** What a read asks for: a number or a symbol of `n` bits, or a stored block of `n` bytes. */
  datatype Read = Number(n: nat) | Symbol(n: nat) | Bytes(n: nat)

  /** What is buffered and left after `stbi__fill_bits`. */
  function Refill(h: Shape): (r: Shape)
    ensures r.bits > 24
    decreases 25 - h.bits
  {
    if h.bits > 24 then h else Refill(Shape(h.bits + 8, if h.bytes == 0 then 0 else h.bytes - 1))
  }

  /** What is buffered and left after a read, which depends on sizes alone; `None` if it is
      refused for lack of input.  Only a symbol and a stored block can be: a symbol if fewer than
      16 bits are buffered and no byte is left, a stored block if its data is not all there. */
  function Take(h: Shape, r: Read): Option<Shape> {
    match r
    case Number(n) => Some(Without(if h.bits < n then Refill(h) else h, n))
    case Symbol(n) =>
      if h.bits < 16 && h.bytes == 0 then None else Some(Without(if h.bits < 16 then Refill(h) else h, n))
    case Bytes(n) =>
      if h.bits / 8 + h.bytes < 4 + n then None else Some(Shape(0, h.bits / 8 + h.bytes - (4 + n)))
  }

  function Without(h: Shape, n: nat): Shape {
    Shape(if h.bits < n then 0 else h.bits - n, h.bytes)
  }

  function TakeAll(h: Shape, rs: seq<Read>): Option<Shape>
    decreases |rs|
  {
    if rs == [] then Some(h)
    else
      var t := Take(h, rs[0]);
      if t.None? then None else TakeAll(t.value, rs[1..])
  }

  lemma TakeOne(h: Shape, r: Read)
    ensures TakeAll(h, [r]) == Take(h, r)
  {
    assert [r][1..] == [];
    if Take(h, r).Some? {
      assert TakeAll(Take(h, r).value, []) == Take(h, r);
    }
  }

  lemma {:induction false} TakeAppend(h: Shape, a: seq<Read>, b: seq<Read>)
    ensures TakeAll(h, a + b) == if TakeAll(h, a).None? then None else TakeAll(TakeAll(h, a).value, b)
    decreases |a|
  {
    if a == [] {
      assert a + b == b;
    } else {
      assert (a + b)[1..] == a[1..] + b;
      if Take(h, a[0]).Some? {
        TakeAppend(Take(h, a[0]).value, a[1..], b);
      }
    }
  }

  /** One of the reads `rs` from `s` on is refused for lack of input. */
  predicate Starves(s: Src, rs: seq<Read>) {
    TakeAll(ShapeOf(s), rs).None?
  }

  /** The reads `rs` lead from `s` to `t` and use up the bits `w`. */
  predicate Leads(s: Src, w: seq<bool>, rs: seq<Read>, t: Src) {
    Consumes(s, w, t) && TakeAll(ShapeOf(s), rs) == Some(ShapeOf(t))
  }

  lemma LeadsTrans(s: Src, v: seq<bool>, a: seq<Read>, t: Src, w: seq<bool>, b: seq<Read>, u: Src)
    requires Leads(s, v, a, t) && Leads(t, w, b, u)
    ensures Leads(s, v + w, a + b, u)
  {
    ConsumesTrans(s, v, t, w, u);
    TakeAppend(ShapeOf(s), a, b);
  }

  /** How reading `w` by the reads `rs`, with `x` behind it, ends: refused (`None`) if input is
      lacking, which it is not with 16 bits behind `w`, and otherwise in front of `x`. */
  predicate Exactly(s: Src, w: seq<bool>, rs: seq<Read>, x: seq<bool>, r: Option<Src>) {
    && (Starves(s, rs) ==> r.None? && |Stream(s)| < |w| + 16)
    && (!Starves(s, rs) ==> r.Some? && Leads(s, w, rs, r.value) && Shows(r.value, x))
  }

  /** Reading `v` and then, from where that ends, `w`. */
  lemma ExactlyBoth(s: Src, v: seq<bool>, a: seq<Read>, t: Option<Src>, w: seq<bool>, b: seq<Read>, x: seq<bool>,
      r: Option<Src>)
    requires Exactly(s, v, a, w + x, t) && (t.None? ==> r.None?)
    requires t.Some? ==> Exactly(t.value, w, b, x, r)
    ensures Exactly(s, v + w, a + b, x, r)
  {
    TakeAppend(ShapeOf(s), a, b);
    if t.Some? && !Starves(t.value, b) {
      LeadsTrans(s, v, a, t.value, w, b, r.value);
    }
  }

  lemma ExactlySame(s: Src, w: seq<bool>, rs: seq<Read>, x: seq<bool>, r: Option<Src>,
      v: seq<bool>, qs: seq<Read>, q: Option<Src>)
    requires Exactly(s, w, rs, x, r) && v == w && qs == rs && q == r
    ensures Exactly(s, v, qs, x, q)
  {
  }

  lemma ExactlyWhole(s: Src, v: seq<bool>, a: seq<Read>, t: Option<Src>, w: seq<bool>, b: seq<Read>, x: seq<bool>,
      r: Option<Src>, all: seq<bool>, c: seq<Read>)
    requires Exactly(s, v, a, w + x, t) && (t.None? ==> r.None?)
    requires t.Some? ==> Exactly(t.value, w, b, x, r)
    requires all == v + w && c == a + b
    ensures Exactly(s, all, c, x, r)
  {
    ExactlyBoth(s, v, a, t, w, b, x, r);
  }

  /** What is left after a result that comes before it. */
  function Left<T>(r: Option<(T, Src)>): Option<Src> {
    if r.None? then None else Some(r.value.1)
  }

  /** What is left, with a result behind it. */
  function LeftOf<T>(r: Option<(Src, T)>): Option<Src> {
    if r.None? then None else Some(r.value.0)
  }

  lemma {:induction false} RefillIs(s: Src)
    requires |s.buf| <= 24
    ensures ShapeOf(Fill(s)) == Refill(ShapeOf(s))
    decreases 24 - |s.buf|
  {
    var t := Src(s.buf + ToBits(Head(s.rest), 8), Tail(s.rest));
    if |t.buf| <= 24 {
      RefillIs(t);
    }
  }

  /** Reading a number that is written there. */
  lemma ReceiveReads(s: Src, n: nat, v: nat, x: seq<bool>)
    requires |s.buf| <= 32 && n <= 16 && v < Pow2(n)
    requires Shows(s, ToBits(v, n) + x)
    ensures Receive(s, n).0 == v && Shows(Receive(s, n).1, x)
    ensures Exactly(s, ToBits(v, n), [Number(n)], x, Some(Receive(s, n).1))
  {
    var (r, t) := Receive(s, n);
    ReceiveConsumes(s, n);
    ConsumesShown(s, ToBits(r, n), t, ToBits(v, n), x);
    FromToBits(v, n);
    FromToBits(r, n);
    ReceiveTakes(s, n);
  }

  lemma ReceiveTakes(s: Src, n: nat)
    requires |s.buf| <= 32 && n <= 16
    ensures TakeAll(ShapeOf(s), [Number(n)]) == Some(ShapeOf(Receive(s, n).1))
  {
    TakeOne(ShapeOf(s), Number(n));
    if |s.buf| < n {
      RefillIs(s);
    }
  }

  /** A number, and then the rest. */
  lemma NumberFirst(s: Src, n: nat, v: nat, w: seq<bool>, b: seq<Read>, x: seq<bool>, r: Option<Src>)
    requires |s.buf| <= 32 && n <= 16 && v < Pow2(n) && Shows(s, ToBits(v, n) + (w + x))
    requires Exactly(Receive(s, n).1, w, b, x, r)
    ensures Exactly(s, ToBits(v, n) + w, [Number(n)] + b, x, r)
  {
    ReceiveReads(s, n, v, w + x);
    ExactlyBoth(s, ToBits(v, n), [Number(n)], Some(Receive(s, n).1), w, b, x, r);
  }

  /** A symbol whose codeword comes next is decoded exactly if there is enough input: 16 bits are
      buffered or a byte is left, which is the guard of the first branch of `stbi__zhuffman_decode`. */
  lemma DecodeReads(s: Src, lens: seq<nat>, i: nat, x: seq<bool>)
    requires |s.buf| <= 32 && IsCode(lens) && i < |lens| && lens[i] > 0
    requires Shows(s, Codeword(lens, i) + x)
    ensures Decode(s, lens).Some? <==> |s.buf| >= 16 || s.rest != []
    ensures Decode(s, lens).Some? ==> Decode(s, lens).value.0 == i
    ensures Exactly(s, Codeword(lens, i), [Symbol(lens[i])], x, Left(Decode(s, lens)))
  {
    TakeOne(ShapeOf(s), Symbol(lens[i]));
    if |s.buf| >= 16 || s.rest != [] {
      SymbolThere(s, lens, i, x);
      DecodeConsumes(s, lens);
      ConsumesShown(s, Codeword(lens, i), Decode(s, lens).value.1, Codeword(lens, i), x);
    }
  }

  /** With enough input the symbol is found, and its codeword leaves the filled buffer. */
  lemma SymbolThere(s: Src, lens: seq<nat>, i: nat, x: seq<bool>)
    requires |s.buf| <= 32 && IsCode(lens) && i < |lens| && lens[i] > 0
    requires Shows(s, Codeword(lens, i) + x) && (|s.buf| >= 16 || s.rest != [])
    ensures Decode(s, lens).Some? && Decode(s, lens).value.0 == i
    ensures TakeAll(ShapeOf(s), [Symbol(lens[i])]) == Some(ShapeOf(Decode(s, lens).value.1))
  {
    TakeOne(ShapeOf(s), Symbol(lens[i]));
    var t := if |s.buf| < 16 then Fill(s) else s;
    if |s.buf| < 16 {
      FillConsumes(s);
      RefillIs(s);
    } else {
      ConsumesNothing(s);
    }
    CodewordBuffered(s, t, Codeword(lens, i), x);
    LookupIs(lens, i, t.buf);
  }

  lemma CodewordBuffered(s: Src, t: Src, w: seq<bool>, x: seq<bool>)
    requires Consumes(s, [], t) && Shows(s, w + x) && |w| <= |t.buf|
    ensures w <= t.buf
  {
    assert [] + (w + x) == w + x;
    ConsumesShown(s, [], t, [], w + x);
    forall i | 0 <= i < |w|
      ensures w[i] == t.buf[i]
    {
      assert (w + x)[i] == w[i];
    }
  }

  /** A read number or codeword lies inside the input exactly if it is no longer than what is left
      of it; otherwise its last bits are padding. */
  lemma InsideInput(s: Src, w: seq<bool>, t: Src)
    requires Consumes(s, w, t)
    ensures w <= Stream(s) <==> |w| <= |Stream(s)|
    ensures forall i :: |Stream(s)| <= i < |w| ==> !w[i]
  {
    var y := w + Stream(t);
    if |w| <= |Stream(s)| {
      assert Stream(s)[..|w|] == y[..|w|] == w;
    }
    forall i | |Stream(s)| <= i < |w|
      ensures !w[i]
    {
      assert y[i] == w[i];
    }
  }
}
