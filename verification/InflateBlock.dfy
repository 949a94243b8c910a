/** What `stbi__parse_huffman_block` computes, on values, and why that is the meaning of the
    tokens in the input. */
module InflateBlock {
  import opened Bits
  import opened Canonical
  import opened Options
  import opened Source
  import opened Deflate

  datatype Item = Tok(t: Token) | EndOfBlock

  /** The part of a turn that reads a match after its length symbol `lsym`. */
  ghost function ReadMatch(s: Src, lsym: nat, dl: seq<nat>): (r: Option<(Token, Src)>)
    requires |s.buf| <= 32 && ValidLens(dl) && 257 <= lsym < 286
    ensures r.Some? ==> |r.value.1.buf| <= 32 && r.value.0.Match? && r.value.0.lsym == lsym && r.value.0.dsym < 30
  {
    var (lextra, s1) := Receive(s, LengthExtra(lsym - 257));
    var d := Decode(s1, dl);
    if d.None? || d.value.0 >= 30 then None
    else
      var (dsym, s2) := d.value;
      var (dextra, s3) := Receive(s2, DistExtra(dsym));
      Some((Match(lsym, lextra, dsym, dextra), s3))
  }

  /** The next literal, match or end-of-block symbol.  Symbols 286, 287 and distance symbols
      30, 31 are refused. */
  ghost function ReadItem(s: Src, ll: seq<nat>, dl: seq<nat>): (r: Option<(Item, Src)>)
    requires |s.buf| <= 32 && ValidLens(ll) && ValidLens(dl)
    ensures r.Some? ==> |r.value.1.buf| <= 32
    ensures r.Some? && r.value.0.Tok? && r.value.0.t.Match? ==>
      257 <= r.value.0.t.lsym < 286 && r.value.0.t.dsym < 30
  {
    var d := Decode(s, ll);
    if d.None? then None
    else
      var (z, s1) := d.value;
      if z < 256 then Some((Tok(Literal(z)), s1))
      else if z == END_OF_BLOCK then Some((EndOfBlock, s1))
      else if z >= 286 then None
      else
        var m := ReadMatch(s1, z, dl);
        if m.None? then None else Some((Tok(m.value.0), m.value.1))
  }

  /** A whole Huffman block, writing at most `cap` bytes in all. */
  ghost function HuffmanBlock(s: Src, ll: seq<nat>, dl: seq<nat>, out: seq<byte>, cap: nat)
    : (r: Option<(Src, seq<byte>)>)
    requires |s.buf| <= 32 && ValidLens(ll) && ValidLens(dl) && |out| <= cap
    ensures r.Some? ==> |r.value.0.buf| <= 32 && |out| <= |r.value.1| <= cap
    decreases cap - |out|
  {
    var i := ReadItem(s, ll, dl);
    if i.None? then None
    else
      match i.value.0
      case EndOfBlock => Some((i.value.1, out))
      case Tok(t) =>
        var o := TokenOut(t, out);
        if o.None? || |o.value| > cap then None
        else
          TokenGrows(t, out);
          HuffmanBlock(i.value.1, ll, dl, o.value, cap)
  }

  /** One turn: whether the block goes on, what is left, and the output. */
  ghost function BlockTurn(s: Src, ll: seq<nat>, dl: seq<nat>, out: seq<byte>, cap: nat)
    : (r: Option<(bool, Src, seq<byte>)>)
    requires |s.buf| <= 32 && ValidLens(ll) && ValidLens(dl)
  {
    var i := ReadItem(s, ll, dl);
    if i.None? then None
    else
      match i.value.0
      case EndOfBlock => Some((false, i.value.1, out))
      case Tok(t) =>
        var o := TokenOut(t, out);
        if o.None? || |o.value| > cap then None else Some((true, i.value.1, o.value))
  }

  /** What a match that has been read does to the output, under the limit `cap`. */
  function MatchResult(m: Option<(Token, Src)>, out: seq<byte>, cap: nat): (r: Option<(Src, seq<byte>)>)
    requires m.Some? ==> m.value.0.Match? && 257 <= m.value.0.lsym < 286 && m.value.0.dsym < 30
  {
    if m.None? then None
    else
      var o := TokenOut(m.value.0, out);
      if o.None? || |o.value| > cap then None else Some((m.value.1, o.value))
  }

  lemma MatchResultIs(t: Token, s: Src, out: seq<byte>, cap: nat, len: nat, dist: nat)
    requires t.Match? && 257 <= t.lsym < 286 && t.dsym < 30
    requires len == LengthBase(t.lsym - 257) + t.lextra && dist == DistBase(t.dsym) + t.dextra
    ensures MatchResult(Some((t, s)), out, cap)
      == if dist > |out| || |out| + len > cap then None else Some((s, Copy(out, dist, len)))
  {
  }

  /** A turn, given the literal/length symbol `z` that was decoded (-1 for none). */
  ghost function SymbolTurn(z: int, t: Src, dl: seq<nat>, out: seq<byte>, cap: nat)
    : (r: Option<(bool, Src, seq<byte>)>)
    requires |t.buf| <= 32 && ValidLens(dl) && z >= -1
  {
    if z == -1 then None
    else if z < 256 then (if |out| + 1 > cap then None else Some((true, t, out + [z])))
    else if z == END_OF_BLOCK then Some((false, t, out))
    else if z >= 286 then None
    else
      var m := MatchResult(ReadMatch(t, z, dl), out, cap);
      if m.None? then None else Some((true, m.value.0, m.value.1))
  }

  lemma BlockTurnIs(s: Src, ll: seq<nat>, dl: seq<nat>, out: seq<byte>, cap: nat, z: int, t: Src)
    requires |s.buf| <= 32 && |t.buf| <= 32 && ValidLens(ll) && ValidLens(dl)
    requires z >= -1 && Decode(s, ll) == if z == -1 then None else Some((z, t))
    ensures BlockTurn(s, ll, dl, out, cap) == SymbolTurn(z, t, dl, out, cap)
  {
  }

  lemma HuffmanBlockTurn(s: Src, ll: seq<nat>, dl: seq<nat>, out: seq<byte>, cap: nat)
    requires |s.buf| <= 32 && ValidLens(ll) && ValidLens(dl) && |out| <= cap
    ensures var r := BlockTurn(s, ll, dl, out, cap);
      && (r.None? ==> HuffmanBlock(s, ll, dl, out, cap).None?)
      && (r.Some? ==> |r.value.1.buf| <= 32)
      && (r.Some? && !r.value.0 ==> HuffmanBlock(s, ll, dl, out, cap) == Some((r.value.1, r.value.2)))
      && (r.Some? && r.value.0 ==>
            && |out| < |r.value.2| <= cap
            && HuffmanBlock(s, ll, dl, out, cap) == HuffmanBlock(r.value.1, ll, dl, r.value.2, cap))
  {
    var i := ReadItem(s, ll, dl);
    if i.Some? && i.value.0.Tok? {
      TokenGrows(i.value.0.t, out);
    }
  }

  lemma TokenGrows(t: Token, out: seq<byte>)
    requires t.Match? ==> 257 <= t.lsym < 286 && t.dsym < 30
    ensures TokenOut(t, out).Some? ==> |TokenOut(t, out).value| > |out|
  {
  }

  lemma {:induction false} TokensGrow(ts: seq<Token>, out: seq<byte>)
    requires forall i :: 0 <= i < |ts| && ts[i].Match? ==> 257 <= ts[i].lsym < 286 && ts[i].dsym < 30
    ensures TokensOut(ts, out).Some? ==> |TokensOut(ts, out).value| >= |out| + |ts|
  {
    if ts != [] {
      TokenGrows(ts[0], out);
      var r := TokenOut(ts[0], out);
      if r.Some? {
        TokensGrow(ts[1..], r.value);
      }
    }
  }

  // ----- what is read is what is written there

  function MatchTail(t: Token, dl: seq<nat>): seq<bool>
    requires t.Match? && 257 <= t.lsym < 286 && t.dsym < 30 && Used(dl, t.dsym)
  {
    ToBits(t.lextra, LengthExtra(t.lsym - 257)) + Codeword(dl, t.dsym) + ToBits(t.dextra, DistExtra(t.dsym))
  }

  lemma ReadMatchConsumes(s: Src, lsym: nat, dl: seq<nat>)
    requires |s.buf| <= 32 && ValidLens(dl) && 257 <= lsym < 286
    ensures ReadMatch(s, lsym, dl).Some? ==>
      var (t, s3) := ReadMatch(s, lsym, dl).value;
      && Used(dl, t.dsym) && t.lextra < Pow2(LengthExtra(lsym - 257)) && t.dextra < Pow2(DistExtra(t.dsym))
      && Consumes(s, MatchTail(t, dl), s3)
  {
    if ReadMatch(s, lsym, dl).Some? {
      var n := LengthExtra(lsym - 257);
      var (lextra, s1) := Receive(s, n);
      var (dsym, s2) := Decode(s1, dl).value;
      var (dextra, s3) := Receive(s2, DistExtra(dsym));
      ReceiveConsumes(s, n);
      DecodeConsumes(s1, dl);
      ReceiveConsumes(s2, DistExtra(dsym));
      ConsumesTrans(s, ToBits(lextra, n), s1, Codeword(dl, dsym), s2);
      ConsumesTrans(s, ToBits(lextra, n) + Codeword(dl, dsym), s2, ToBits(dextra, DistExtra(dsym)), s3);
    }
  }

  lemma ReadWholeMatchConsumes(s: Src, z: nat, s1: Src, ll: seq<nat>, dl: seq<nat>)
    requires |s1.buf| <= 32 && ValidLens(dl) && 257 <= z < 286 && Used(ll, z)
    requires Consumes(s, Codeword(ll, z), s1)
    ensures ReadMatch(s1, z, dl).Some? ==>
      var (t, s3) := ReadMatch(s1, z, dl).value;
      TokenOk(t, ll, dl) && Consumes(s, TokenBits(t, ll, dl), s3)
  {
    ReadMatchConsumes(s1, z, dl);
    if ReadMatch(s1, z, dl).Some? {
      var (t, s3) := ReadMatch(s1, z, dl).value;
      ConsumesTrans(s, Codeword(ll, z), s1, MatchTail(t, dl), s3);
      MatchBits(t, ll, dl);
    }
  }

  lemma ReadItemConsumes(s: Src, ll: seq<nat>, dl: seq<nat>)
    requires |s.buf| <= 32 && ValidLens(ll) && ValidLens(dl)
    ensures ReadItem(s, ll, dl).Some? ==>
      match ReadItem(s, ll, dl).value
      case (Tok(t), s') => TokenOk(t, ll, dl) && Consumes(s, TokenBits(t, ll, dl), s')
      case (EndOfBlock, s') => Used(ll, END_OF_BLOCK) && Consumes(s, Codeword(ll, END_OF_BLOCK), s')
  {
    DecodeConsumes(s, ll);
    if Decode(s, ll).Some? {
      var (z, s1) := Decode(s, ll).value;
      if 256 < z < 286 {
        ReadWholeMatchConsumes(s, z, s1, ll, dl);
      }
    }
  }

  predicate MatchTailOk(t: Token, dl: seq<nat>) {
    && t.Match? && 257 <= t.lsym < 286 && t.dsym < 30 && Used(dl, t.dsym)
    && t.lextra < Pow2(LengthExtra(t.lsym - 257)) && t.dextra < Pow2(DistExtra(t.dsym))
  }

  // ----- what is written there is read exactly if there is enough input

  /** The reads that a match takes after its length symbol. */
  function MatchTailReads(t: Token, dl: seq<nat>): seq<Read>
    requires MatchTailOk(t, dl)
  {
    [Number(LengthExtra(t.lsym - 257))] + DistReads(t, dl)
  }

  function TokenReads(t: Token, ll: seq<nat>, dl: seq<nat>): seq<Read>
    requires TokenOk(t, ll, dl)
  {
    match t
    case Literal(b) => [Symbol(ll[b])]
    case Match(lsym, _, _, _) => [Symbol(ll[lsym])] + MatchTailReads(t, dl)
  }

  /** The reads of a whole Huffman block, the end-of-block symbol included. */
  function BodyReads(ts: seq<Token>, ll: seq<nat>, dl: seq<nat>): seq<Read>
    requires BodyOk(ts, ll, dl)
  {
    if ts == [] then [Symbol(ll[END_OF_BLOCK])] else TokenReads(ts[0], ll, dl) + BodyReads(ts[1..], ll, dl)
  }

  /** The bits and the reads of the distance of a match. */
  function DistBits(t: Token, dl: seq<nat>): seq<bool>
    requires MatchTailOk(t, dl)
  {
    Codeword(dl, t.dsym) + ToBits(t.dextra, DistExtra(t.dsym))
  }

  function DistReads(t: Token, dl: seq<nat>): seq<Read>
    requires MatchTailOk(t, dl)
  {
    [Symbol(dl[t.dsym])] + [Number(DistExtra(t.dsym))]
  }

  function DistLeft(d: Option<(nat, Src)>, t: Token): Option<Src>
    requires d.Some? ==> |d.value.1.buf| <= 32 && t.Match? && t.dsym < 30
  {
    if d.None? then None else Some(Receive(d.value.1, DistExtra(t.dsym)).1)
  }

  lemma ReadDistReads(s: Src, t: Token, dl: seq<nat>, x: seq<bool>)
    requires |s.buf| <= 32 && IsCode(dl) && MatchTailOk(t, dl)
    requires Shows(s, DistBits(t, dl) + x)
    ensures var d := Decode(s, dl);
      && (d.Some? ==> d.value.0 == t.dsym && Receive(d.value.1, DistExtra(t.dsym)).0 == t.dextra)
      && Exactly(s, DistBits(t, dl), DistReads(t, dl), x, DistLeft(d, t))
  {
    var m := DistExtra(t.dsym);
    var wd, wm := Codeword(dl, t.dsym), ToBits(t.dextra, m);
    Assoc(wd, wm, x);
    DecodeReads(s, dl, t.dsym, wm + x);
    var d := Decode(s, dl);
    if d.Some? {
      ReceiveReads(d.value.1, m, t.dextra, x);
    }
    ExactlyBoth(s, wd, [Symbol(dl[t.dsym])], Left(d), wm, [Number(m)], x, DistLeft(d, t));
  }

  lemma ReadMatchReads(s: Src, t: Token, dl: seq<nat>, x: seq<bool>)
    requires |s.buf| <= 32 && IsCode(dl) && MatchTailOk(t, dl)
    requires Shows(s, MatchTail(t, dl) + x)
    ensures ReadMatch(s, t.lsym, dl).Some? ==> ReadMatch(s, t.lsym, dl).value.0 == t
    ensures Exactly(s, MatchTail(t, dl), MatchTailReads(t, dl), x, Left(ReadMatch(s, t.lsym, dl)))
  {
    var n := LengthExtra(t.lsym - 257);
    TailBits(t, dl, x);
    ReadTailReads(s, t, dl, n, x);
    var d := Decode(Receive(s, n).1, dl);
    ReadMatchIs(s, t, dl, d);
    ExactlySame(s, ToBits(t.lextra, n) + DistBits(t, dl), [Number(n)] + DistReads(t, dl), x, DistLeft(d, t),
      MatchTail(t, dl), MatchTailReads(t, dl), Left(ReadMatch(s, t.lsym, dl)));
  }

  /** The `n` extra bits of the length, and then the distance. */
  lemma ReadTailReads(s: Src, t: Token, dl: seq<nat>, n: nat, x: seq<bool>)
    requires |s.buf| <= 32 && IsCode(dl) && MatchTailOk(t, dl) && n <= 16 && t.lextra < Pow2(n)
    requires Shows(s, ToBits(t.lextra, n) + (DistBits(t, dl) + x))
    ensures var (v, s1) := Receive(s, n);
      var d := Decode(s1, dl);
      && v == t.lextra && (d.Some? ==> d.value.0 == t.dsym && Receive(d.value.1, DistExtra(t.dsym)).0 == t.dextra)
      && Exactly(s, ToBits(t.lextra, n) + DistBits(t, dl), [Number(n)] + DistReads(t, dl), x, DistLeft(d, t))
  {
    ReceiveReads(s, n, t.lextra, DistBits(t, dl) + x);
    var s1 := Receive(s, n).1;
    ReadDistReads(s1, t, dl, x);
    NumberFirst(s, n, t.lextra, DistBits(t, dl), DistReads(t, dl), x, DistLeft(Decode(s1, dl), t));
  }

  lemma TailBits(t: Token, dl: seq<nat>, x: seq<bool>)
    requires MatchTailOk(t, dl)
    ensures MatchTail(t, dl) == ToBits(t.lextra, LengthExtra(t.lsym - 257)) + DistBits(t, dl)
    ensures MatchTail(t, dl) + x == ToBits(t.lextra, LengthExtra(t.lsym - 257)) + (DistBits(t, dl) + x)
  {
    var wn, wd := ToBits(t.lextra, LengthExtra(t.lsym - 257)), Codeword(dl, t.dsym);
    var wm := ToBits(t.dextra, DistExtra(t.dsym));
    Assoc(wn, wd, wm);
    Assoc(wn, wd + wm, x);
  }

  /** A match whose parts are those of `t` is `t`. */
  lemma ReadMatchIs(s: Src, t: Token, dl: seq<nat>, d: Option<(nat, Src)>)
    requires |s.buf| <= 32 && ValidLens(dl) && t.Match? && 257 <= t.lsym < 286 && t.dsym < 30
    requires Receive(s, LengthExtra(t.lsym - 257)).0 == t.lextra
    requires d == Decode(Receive(s, LengthExtra(t.lsym - 257)).1, dl)
    requires d.Some? ==> d.value.0 == t.dsym && Receive(d.value.1, DistExtra(t.dsym)).0 == t.dextra
    ensures var r := ReadMatch(s, t.lsym, dl);
      Left(r) == DistLeft(d, t) && (r.Some? ==> r.value.0 == t)
  {
  }

  lemma ReadWholeMatchReads(s: Src, t: Token, ll: seq<nat>, dl: seq<nat>, x: seq<bool>)
    requires |s.buf| <= 32 && IsCode(ll) && IsCode(dl) && MatchTailOk(t, dl) && Used(ll, t.lsym)
    requires Shows(s, Codeword(ll, t.lsym) + (MatchTail(t, dl) + x))
    ensures var r := ReadItem(s, ll, dl);
      && (r.Some? ==> r.value.0 == Tok(t))
      && Exactly(s, Codeword(ll, t.lsym) + MatchTail(t, dl), [Symbol(ll[t.lsym])] + MatchTailReads(t, dl), x, Left(r))
  {
    var d := Decode(s, ll);
    DecodeReads(s, ll, t.lsym, MatchTail(t, dl) + x);
    if d.Some? {
      ReadMatchReads(d.value.1, t, dl, x);
    }
    ExactlyBoth(s, Codeword(ll, t.lsym), [Symbol(ll[t.lsym])], Left(d), MatchTail(t, dl), MatchTailReads(t, dl), x,
      Left(ReadItem(s, ll, dl)));
  }

  lemma MatchBits(t: Token, ll: seq<nat>, dl: seq<nat>)
    requires t.Match? && TokenOk(t, ll, dl)
    ensures MatchTailOk(t, dl) && TokenBits(t, ll, dl) == Codeword(ll, t.lsym) + MatchTail(t, dl)
  {
  }

  /** A token that comes next is read exactly if there is enough input. */
  lemma ReadTokenReads(s: Src, t: Token, ll: seq<nat>, dl: seq<nat>, x: seq<bool>)
    requires |s.buf| <= 32 && IsCode(ll) && IsCode(dl) && TokenOk(t, ll, dl)
    requires Shows(s, TokenBits(t, ll, dl) + x)
    ensures var r := ReadItem(s, ll, dl);
      (r.Some? ==> r.value.0 == Tok(t)) && Exactly(s, TokenBits(t, ll, dl), TokenReads(t, ll, dl), x, Left(r))
  {
    if t.Literal? {
      DecodeReads(s, ll, t.b, x);
    } else {
      MatchBits(t, ll, dl);
      Assoc(Codeword(ll, t.lsym), MatchTail(t, dl), x);
      ReadWholeMatchReads(s, t, ll, dl, x);
    }
  }

  lemma BodyCons(k: Token, ks: seq<Token>, ll: seq<nat>, dl: seq<nat>)
    requires TokenOk(k, ll, dl) && BodyOk(ks, ll, dl)
    ensures BodyOk([k] + ks, ll, dl)
    ensures BodyBits([k] + ks, ll, dl) == TokenBits(k, ll, dl) + BodyBits(ks, ll, dl)
  {
    assert ([k] + ks)[1..] == ks;
    Assoc(TokenBits(k, ll, dl), TokensBits(ks, ll, dl), Codeword(ll, END_OF_BLOCK));
  }

  lemma ExpandCons(k: Token, ks: seq<Token>, ll: seq<nat>, dl: seq<nat>, out: seq<byte>)
    requires TokenOk(k, ll, dl) && TokensOk(ks, ll, dl) && TokenOut(k, out).Some?
    ensures TokensOut([k] + ks, out) == TokensOut(ks, TokenOut(k, out).value)
  {
    assert ([k] + ks)[1..] == ks;
  }

  /** Soundness: an accepted block consists of tokens that the two codes can write; the bits
      used up are exactly theirs, and the output is their LZ77 expansion. */
  lemma {:induction false} HuffmanBlockSound(s: Src, ll: seq<nat>, dl: seq<nat>, out: seq<byte>, cap: nat)
    returns (ts: seq<Token>)
    requires |s.buf| <= 32 && ValidLens(ll) && ValidLens(dl) && |out| <= cap
    requires HuffmanBlock(s, ll, dl, out, cap).Some?
    ensures BodyOk(ts, ll, dl)
    ensures var (t, r) := HuffmanBlock(s, ll, dl, out, cap).value;
      TokensOut(ts, out) == Some(r) && Consumes(s, BodyBits(ts, ll, dl), t)
    decreases cap - |out|
  {
    var (i, u) := ReadItem(s, ll, dl).value;
    ReadItemConsumes(s, ll, dl);
    match i
    case EndOfBlock =>
      ts := [];
      assert BodyBits([], ll, dl) == Codeword(ll, END_OF_BLOCK);
    case Tok(k) =>
      TokenGrows(k, out);
      var o := TokenOut(k, out).value;
      var ks := HuffmanBlockSound(u, ll, dl, o, cap);
      ts := [k] + ks;
      BodyCons(k, ks, ll, dl);
      ExpandCons(k, ks, ll, dl, out);
      ConsumesTrans(s, TokenBits(k, ll, dl), u, BodyBits(ks, ll, dl), HuffmanBlock(u, ll, dl, o, cap).value.0);
  }

  /** Completeness, exactly: if the input goes on with tokens written with the two codes and the
      end-of-block symbol, they are decoded to their LZ77 expansion if there is enough input, and
      refused if not. */
  lemma {:induction false} HuffmanBlockExact(s: Src, ll: seq<nat>, dl: seq<nat>, out: seq<byte>, cap: nat,
      ts: seq<Token>, x: seq<bool>)
    requires |s.buf| <= 32 && IsCode(ll) && IsCode(dl) && BodyOk(ts, ll, dl)
    requires Shows(s, BodyBits(ts, ll, dl) + x)
    requires TokensOut(ts, out).Some? && |out| <= |TokensOut(ts, out).value| <= cap
    ensures var r := HuffmanBlock(s, ll, dl, out, cap);
      && (r.Some? ==> r.value.1 == TokensOut(ts, out).value)
      && Exactly(s, BodyBits(ts, ll, dl), BodyReads(ts, ll, dl), x, LeftOf(r))
    decreases |ts|
  {
    if ts == [] {
      assert BodyBits(ts, ll, dl) == Codeword(ll, END_OF_BLOCK);
      DecodeReads(s, ll, END_OF_BLOCK, x);
    } else {
      var o := TokenOut(ts[0], out).value;
      TokensGrow(ts[1..], o);
      TokenGrows(ts[0], out);
      SplitBody(ts, ll, dl, x);
      ReadTokenReads(s, ts[0], ll, dl, BodyBits(ts[1..], ll, dl) + x);
      var r := ReadItem(s, ll, dl);
      if r.Some? {
        HuffmanBlockExact(r.value.1, ll, dl, o, cap, ts[1..], x);
      }
      BodyExact(s, ll, dl, ts, x, Left(r), LeftOf(HuffmanBlock(s, ll, dl, out, cap)));
    }
  }

  lemma BodyExact(s: Src, ll: seq<nat>, dl: seq<nat>, ts: seq<Token>, x: seq<bool>, t: Option<Src>, u: Option<Src>)
    requires BodyOk(ts, ll, dl) && ts != [] && (t.None? ==> u.None?)
    requires Exactly(s, TokenBits(ts[0], ll, dl), TokenReads(ts[0], ll, dl), BodyBits(ts[1..], ll, dl) + x, t)
    requires t.Some? ==> Exactly(t.value, BodyBits(ts[1..], ll, dl), BodyReads(ts[1..], ll, dl), x, u)
    ensures Exactly(s, BodyBits(ts, ll, dl), BodyReads(ts, ll, dl), x, u)
  {
    SplitBody(ts, ll, dl, x);
    ExactlyBoth(s, TokenBits(ts[0], ll, dl), TokenReads(ts[0], ll, dl), t,
      BodyBits(ts[1..], ll, dl), BodyReads(ts[1..], ll, dl), x, u);
  }

  /** Completeness: tokens written with the two codes, the end-of-block symbol and 16 more
      bits of input are decoded to their LZ77 expansion, if it fits. */
  lemma HuffmanBlockComplete(s: Src, ll: seq<nat>, dl: seq<nat>, out: seq<byte>, cap: nat, ts: seq<Token>, x: seq<bool>)
    requires |s.buf| <= 32 && IsCode(ll) && IsCode(dl) && BodyOk(ts, ll, dl)
    requires BodyBits(ts, ll, dl) + x <= Stream(s) && |x| >= 16
    requires |out| <= cap && TokensOut(ts, out).Some? && |TokensOut(ts, out).value| <= cap
    ensures var r := HuffmanBlock(s, ll, dl, out, cap);
      r.Some? && r.value.1 == TokensOut(ts, out).value && Consumes(s, BodyBits(ts, ll, dl), r.value.0)
  {
    TokensGrow(ts, out);
    HuffmanBlockExact(s, ll, dl, out, cap, ts, x);
  }

  lemma SplitBody(ts: seq<Token>, ll: seq<nat>, dl: seq<nat>, x: seq<bool>)
    requires ts != [] && BodyOk(ts, ll, dl)
    ensures BodyBits(ts, ll, dl) == TokenBits(ts[0], ll, dl) + BodyBits(ts[1..], ll, dl)
    ensures BodyBits(ts, ll, dl) + x == TokenBits(ts[0], ll, dl) + (BodyBits(ts[1..], ll, dl) + x)
  {
    var a, b, c := TokenBits(ts[0], ll, dl), TokensBits(ts[1..], ll, dl), Codeword(ll, END_OF_BLOCK);
    assert BodyBits(ts, ll, dl) == a + b + c;
    Assoc(a, b, c);
    Assoc(a, b + c, x);
  }

  /** The output limit matters only through the length of the result. */
  lemma {:induction false} HuffmanBlockCap(s: Src, ll: seq<nat>, dl: seq<nat>, out: seq<byte>, small: nat, large: nat)
    requires |s.buf| <= 32 && ValidLens(ll) && ValidLens(dl) && |out| <= small <= large
    ensures var a, b := HuffmanBlock(s, ll, dl, out, small), HuffmanBlock(s, ll, dl, out, large);
      a == if b.Some? && |b.value.1| <= small then b else None
    decreases small - |out|
  {
    var i := ReadItem(s, ll, dl);
    if i.Some? && i.value.0.Tok? {
      var o := TokenOut(i.value.0.t, out);
      TokenGrows(i.value.0.t, out);
      if o.Some? && |o.value| <= small {
        HuffmanBlockCap(i.value.1, ll, dl, o.value, small, large);
      }
    }
  }
}
