/** `stbi__zbuf` and the functions of the zlib decoder that work on it.  Every method is proved
    equal to the decoder on values in `Inflate`. */
module Zlib {
  import opened Bits
  import opened Canonical
  import opened HuffmanTable
  import opened Options
  import opened Source
  import opened BitReader
  import opened ZlibHeader
  import opened Deflate
  import opened InflateBlock
  import opened InflateHeader
  import opened InflateStream
  import opened Inflate

  const UINT_MAX: nat := 0xffff_ffff

  /** The size at which doubling `limit` stops: the first one that cannot be doubled in 32 bits. */
  function MaxLimit(limit: nat): (r: nat)
    requires limit <= UINT_MAX
    ensures limit <= r <= UINT_MAX && (limit > 0 ==> r > UINT_MAX / 2) && (limit == 0 ==> r == 0)
    decreases UINT_MAX - limit
  {
    if limit == 0 || limit > UINT_MAX / 2 then limit else MaxLimit(2 * limit)
  }

  /** It is the largest number below 2^32 that doubling makes of the size. */
  lemma {:induction false} LimitNumbers(limit: nat) returns (k: nat)
    requires 0 < limit < 0x1_0000_0000
    ensures MaxLimit(limit) == Shl(limit, k) < 0x1_0000_0000 <= 2 * Shl(limit, k)
    decreases UINT_MAX - limit
  {
    if limit > UINT_MAX / 2 {
      k := 0;
    } else {
      k := LimitNumbers(2 * limit);
      ShlShl(limit, 1, k);
      assert Shl(limit, 1) == 2 * limit;
      k := k + 1;
    }
  }

  /** Doubling ends, with enough room or with a size that cannot be doubled, exactly if it starts
      from a positive size or no room is needed: 0 doubled stays 0. */
  lemma DoublingEnds(limit: nat, need: nat)
    ensures (exists k: nat :: need <= Shl(limit, k) || Shl(limit, k) > UINT_MAX / 2) <==> limit > 0 || need == 0
  {
    if limit > 0 {
      var k := MaxLimitReached(limit);
      assert Shl(limit, k) > UINT_MAX / 2;
    } else {
      forall k: nat
        ensures Shl(0, k) == 0
      {
        ZeroStays(k);
      }
      assert need == 0 ==> need <= Shl(limit, 0);
    }
  }

  lemma {:induction false} MaxLimitReached(limit: nat) returns (k: nat)
    requires 0 < limit
    ensures Shl(limit, k) > UINT_MAX / 2
    decreases if limit > UINT_MAX / 2 then 0 else UINT_MAX - limit
  {
    if limit > UINT_MAX / 2 {
      k := 0;
    } else {
      var n := MaxLimitReached(2 * limit);
      ShlAdd(limit, limit, n);
      k := n + 1;
    }
  }

  lemma {:induction false} ZeroStays(k: nat)
    ensures Shl(0, k) == 0
  {
    if k > 0 {
      ZeroStays(k - 1);
    }
  }

  /** The loop of `stbi__zexpand`, once it is known to end: double the size until it is `need`. */
  method Grow(limit0: nat, need: nat) returns (ok: bool, limit: nat)
    requires limit0 <= UINT_MAX && need <= UINT_MAX && (limit0 > 0 || need == 0)
    ensures ok <==> need <= MaxLimit(limit0)
    ensures limit0 <= limit <= UINT_MAX && MaxLimit(limit) == MaxLimit(limit0) && (ok ==> need <= limit)
  {
    limit := limit0;
    while need > limit
      invariant (limit > 0 || need == 0) && limit0 <= limit <= UINT_MAX && MaxLimit(limit) == MaxLimit(limit0)
      decreases UINT_MAX - limit
    {
      if limit > UINT_MAX / 2 {
        return false, limit;
      }
      limit := limit * 2;
    }
    ok := true;
  }

  datatype Turn = Failed | Done | More

  class ZBuf {
    const reader: Reader
    const z_expandable: bool
    const z_length: ZHuffman
    const z_distance: ZHuffman
    var zout_start: array<byte>   // zout_start .. zout_end
    var zout: nat                 // an index into it

    /** The most output this buffer can ever hold. */
    ghost const cap: nat

    /** The loop of `Expand` has been entered from size 0: the program would not come back. */
    ghost var stuck: bool

    /** What never changes: the tables have their shape, and nothing is shared. */
    ghost predicate Wired() {
      && z_length.Shape() && z_distance.Shape() && z_length.ApartFrom(z_distance)
      && z_length.Apart(this) && z_length.Apart(reader)
      && z_distance.Apart(this) && z_distance.Apart(reader)
    }

    ghost predicate Valid()
      reads this, reader
    {
      && reader.Valid()
      && zout <= zout_start.Length <= UINT_MAX
      && cap == if z_expandable then MaxLimit(zout_start.Length) else zout_start.Length
    }

    /** With an expandable buffer of size 0, what fails without getting stuck fails with any buffer. */
    ghost predicate Refuses<T>(ok: bool, r: Option<T>)
      reads this
    {
      z_expandable && cap == 0 && !ok && !stuck ==> r.None?
    }

    /** Only such a buffer gets stuck, and the call fails. */
    twostate predicate StuckOnly(ok: bool)
      reads this
    {
      stuck ==> old(stuck) || (z_expandable && cap == 0 && !ok)
    }

    ghost predicate TablesReady()
      reads z_length, z_length.fast, z_length.firstcode, z_length.maxcode
      reads z_length.firstsymbol, z_length.size, z_length.value
      reads z_distance, z_distance.fast, z_distance.firstcode, z_distance.maxcode
      reads z_distance.firstsymbol, z_distance.size, z_distance.value
    {
      z_length.Ready() && z_distance.Ready()
    }

    ghost function Output(): seq<byte>
      requires zout <= zout_start.Length
      reads this, zout_start
    {
      zout_start[..zout]
    }

    constructor (input: seq<byte>, obuf: array<byte>, expandable: bool)
      requires obuf.Length <= UINT_MAX
      ensures Wired() && Valid() && fresh(reader) && fresh(z_length) && fresh(z_distance)
      ensures fresh(z_length.fast) && fresh(z_length.firstcode) && fresh(z_length.maxcode) &&
        fresh(z_length.firstsymbol) && fresh(z_length.size) && fresh(z_length.value)
      ensures fresh(z_distance.fast) && fresh(z_distance.firstcode) && fresh(z_distance.maxcode) &&
        fresh(z_distance.firstsymbol) && fresh(z_distance.size) && fresh(z_distance.value)
      ensures reader.Unread() == Src([], input) && reader.input == input
      ensures zout_start == obuf && zout == 0 && z_expandable == expandable && !stuck
      ensures cap == if expandable then MaxLimit(obuf.Length) else obuf.Length
    {
      var r := new Reader(input);
      var l := new ZHuffman();
      assert l.Apart(r);
      var d := new ZHuffman();
      assert d.Apart(r);
      assert d.Apart(l) && l.Apart(d);
      assert l.ApartFrom(d);
      reader, z_length, z_distance := r, l, d;
      z_expandable := expandable;
      cap := if expandable then MaxLimit(obuf.Length) else obuf.Length;
      zout_start := obuf;
      zout := 0;
      stuck := false;
    }

    /** `stbi__zexpand`: make room for `n` bytes at `zout`. */
    method Expand(zout: nat, n: nat) returns (ok: bool)
      requires Valid() && zout <= zout_start.Length
      modifies this
      ensures Valid()
      ensures ok <==> z_expandable && zout + n <= cap
      ensures this.zout == zout && StuckOnly(ok)
      ensures z_expandable && cap == 0 && !ok && !stuck ==> zout + n > UINT_MAX
      ensures ok ==> zout + n <= zout_start.Length
      ensures zout <= zout_start.Length && zout_start[..zout] == old(zout_start[..zout])
      ensures zout_start == old(zout_start) || (z_expandable && fresh(zout_start))
    {
      this.zout := zout;
      if !z_expandable {
        return false;
      }
      var cur := zout;
      var limit := zout_start.Length;
      if UINT_MAX - cur < n {
        return false;
      }
      if limit == 0 && n > 0 {
        stuck := true;
        return false;
      }
      ok, limit := Grow(limit, cur + n);
      if !ok {
        return;
      }
      var q := new byte[limit];
      forall i | 0 <= i < cur {
        q[i] := zout_start[i];
      }
      zout_start := q;
    }

    /** `if (zout + n > zout_end) if (!stbi__zexpand(...)) return 0`. */
    method EnsureRoom(zout: nat, n: nat) returns (ok: bool)
      requires Valid() && zout <= zout_start.Length
      modifies this
      ensures Valid()
      ensures ok <==> zout + n <= cap
      ensures ok ==> zout + n <= zout_start.Length
      ensures this.zout == zout || this.zout == old(this.zout)
      ensures StuckOnly(ok) && (z_expandable && cap == 0 && !ok && !stuck ==> zout + n > UINT_MAX)
      ensures zout <= zout_start.Length && zout_start[..zout] == old(zout_start[..zout])
      ensures zout_start == old(zout_start) || (z_expandable && fresh(zout_start))
    {
      if zout + n > zout_start.Length {
        ok := Expand(zout, n);
      } else {
        ok := true;
      }
    }

    /** The copy loops of a match: one repeated byte when `dist` is 1, else byte by byte from
        `dist` back, possibly from bytes that this copy has just written. */
    method CopyMatch(zout: nat, dist: nat, len: nat)
      requires 1 <= dist <= zout && zout + len <= zout_start.Length
      modifies zout_start
      ensures zout_start[..zout + len] == Copy(old(zout_start[..zout]), dist, len)
    {
      var z, left := zout, len;
      if dist == 1 {
        var v := zout_start[zout - 1];
        while left > 0
          invariant 0 <= left && zout <= z && z + left == zout + len && zout_start[z - 1] == v
          invariant Copy(zout_start[..z], 1, left) == Copy(old(zout_start[..zout]), 1, len)
        {
          zout_start[z] := v;
          assert zout_start[..z + 1] == zout_start[..z] + [v];
          z, left := z + 1, left - 1;
        }
      } else {
        var p := zout - dist;
        while left > 0
          invariant 0 <= left && zout <= z && z + left == zout + len && p == z - dist
          invariant Copy(zout_start[..z], dist, left) == Copy(old(zout_start[..zout]), dist, len)
        {
          zout_start[z] := zout_start[p];
          assert zout_start[..z + 1] == zout_start[..z] + [zout_start[p]];
          z, p, left := z + 1, p + 1, left - 1;
        }
      }
    }

    /** The rest of a turn of `stbi__parse_huffman_block` after length symbol `z`: the extra
        bits, the distance symbol and its extra bits.  `dist` is 0 if that fails. */
    method ReadLenDist(z: nat) returns (len: nat, dist: nat, ghost t: Token)
      requires Valid() && TablesReady() && 257 <= z < 286
      modifies reader
      ensures Valid()
      ensures dist == 0 <==> ReadMatch(old(reader.Unread()), z, z_distance.lens).None?
      ensures t.Match? && t.lsym == z && t.dsym < 30
      ensures dist > 0 ==>
        && ReadMatch(old(reader.Unread()), z, z_distance.lens) == Some((t, reader.Unread()))
        && len == LengthBase(z - 257) + t.lextra && dist == DistBase(t.dsym) + t.dextra
    {
      len := LengthBase(z - 257);
      ghost var s0 := reader.Unread();
      t := Match(z, 0, 0, 0);
      if LengthExtra(z - 257) != 0 {
        var x := reader.Receive(LengthExtra(z - 257));
        len := len + x;
        t := t.(lextra := x);
      } else {
        assert ToBits(0, 0) == [] && s0.buf[..0] == [] && s0.buf[0..] == s0.buf;
      }
      assert (t.lextra, reader.Unread()) == Source.Receive(s0, LengthExtra(z - 257));
      var d := reader.Decode(z_distance);
      if d < 0 || d >= 30 {
        dist := 0;
        return;
      }
      ghost var s1 := reader.Unread();
      dist := DistBase(d);
      t := t.(dsym := d);
      if DistExtra(d) != 0 {
        var x := reader.Receive(DistExtra(d));
        dist := dist + x;
        t := t.(dextra := x);
      } else {
        assert s1.buf[..0] == [] && s1.buf[0..] == s1.buf;
      }
    }

    /** A literal: one more byte. */
    method PutLiteral(zout: nat, z: byte) returns (ok: bool)
      requires Valid() && zout <= zout_start.Length
      modifies this, zout_start
      ensures Valid()
      ensures ok <==> zout + 1 <= cap
      ensures ok ==> zout + 1 <= zout_start.Length
      ensures ok ==> zout_start[..zout + 1] == old(zout_start[..zout]) + [z]
      ensures StuckOnly(ok) && (z_expandable && cap == 0 ==> stuck)
      ensures zout_start == old(zout_start) || (z_expandable && fresh(zout_start))
    {
      ok := EnsureRoom(zout, 1);
      if ok {
        zout_start[zout] := z;
      }
    }

    /** A match that does not reach back before the start: `len` more bytes. */
    method PutMatch(zout: nat, len: nat, dist: nat) returns (ok: bool)
      requires Valid() && 1 <= dist <= zout <= zout_start.Length
      modifies this, zout_start
      ensures Valid()
      ensures ok <==> zout + len <= cap
      ensures ok ==> zout + len <= zout_start.Length
      ensures ok ==> zout_start[..zout + len] == Copy(old(zout_start[..zout]), dist, len)
      ensures StuckOnly(ok)
      ensures zout_start == old(zout_start) || (z_expandable && fresh(zout_start))
    {
      ok := EnsureRoom(zout, len);
      if ok {
        CopyMatch(zout, dist, len);
      }
    }

    /** The meaning of a turn's outcome. */
    ghost function Outcome(turn: Turn, next: nat): Option<(bool, Src, seq<byte>)>
      requires reader.Valid() && next <= zout_start.Length
      reads this, reader, zout_start
    {
      match turn
      case Failed => None
      case Done => Some((false, reader.Unread(), zout_start[..next]))
      case More => Some((true, reader.Unread(), zout_start[..next]))
    }

    /** One turn of the loop in `stbi__parse_huffman_block`, with the local output index. */
    method HuffmanTurn(zout: nat) returns (turn: Turn, next: nat)
      requires Valid() && TablesReady() && zout <= zout_start.Length
      modifies this, reader, zout_start
      ensures Valid() && next <= zout_start.Length
      ensures zout_start == old(zout_start) || (z_expandable && fresh(zout_start))
      ensures BlockTurn(old(reader.Unread()), z_length.lens, z_distance.lens, old(zout_start[..zout]), cap)
        == Outcome(turn, next)
      ensures StuckOnly(turn != Failed)
      ensures Refuses(turn != Failed,
        BlockTurn(old(reader.Unread()), z_length.lens, z_distance.lens, old(zout_start[..zout]), UINT_MAX))
    {
      ghost var s0, out := reader.Unread(), zout_start[..zout];
      var z := reader.Decode(z_length);
      BlockTurnIs(s0, z_length.lens, z_distance.lens, out, cap, z, reader.Unread());
      BlockTurnIs(s0, z_length.lens, z_distance.lens, out, UINT_MAX, z, reader.Unread());
      turn, next := TakeSymbol(zout, z);
    }

    /** The rest of a turn, for literal/length symbol `z`. */
    method TakeSymbol(zout: nat, z: int) returns (turn: Turn, next: nat)
      requires Valid() && TablesReady() && zout <= zout_start.Length && z >= -1
      modifies this, reader, zout_start
      ensures Valid() && next <= zout_start.Length
      ensures zout_start == old(zout_start) || (z_expandable && fresh(zout_start))
      ensures SymbolTurn(z, old(reader.Unread()), z_distance.lens, old(zout_start[..zout]), cap)
        == Outcome(turn, next)
      ensures StuckOnly(turn != Failed)
      ensures Refuses(turn != Failed,
        SymbolTurn(z, old(reader.Unread()), z_distance.lens, old(zout_start[..zout]), UINT_MAX))
    {
      turn, next := Failed, 0;
      if z < 256 {
        if z >= 0 {
          var ok := PutLiteral(zout, z);
          if ok {
            turn, next := More, zout + 1;
          }
        }
      } else if z == END_OF_BLOCK {
        turn, next := Done, zout;
      } else if z < 286 {
        turn, next := MatchTurn(zout, z);
      }
    }

    method MatchTurn(zout: nat, z: nat) returns (turn: Turn, next: nat)
      requires Valid() && TablesReady() && zout <= zout_start.Length && 257 <= z < 286
      modifies this, reader, zout_start
      ensures Valid() && next <= zout_start.Length
      ensures zout_start == old(zout_start) || (z_expandable && fresh(zout_start))
      ensures turn == Failed || turn == More
      ensures MatchResult(ReadMatch(old(reader.Unread()), z, z_distance.lens), old(zout_start[..zout]), cap)
        == if turn == Failed then None else Some((reader.Unread(), zout_start[..next]))
      ensures StuckOnly(turn != Failed)
      ensures Refuses(turn != Failed,
        MatchResult(ReadMatch(old(reader.Unread()), z, z_distance.lens), old(zout_start[..zout]), UINT_MAX))
    {
      turn, next := Failed, 0;
      var len, dist, t := ReadLenDist(z);
      if dist != 0 {
        turn, next := TakeMatch(zout, len, dist, t, reader.Unread());
      }
    }

    /** The output part of a match turn: the distance check, room, and the copy. */
    method TakeMatch(zout: nat, len: nat, dist: nat, ghost t: Token, ghost s: Src) returns (turn: Turn, next: nat)
      requires Valid() && zout <= zout_start.Length && dist > 0
      requires t.Match? && 257 <= t.lsym < 286 && t.dsym < 30
      requires len == LengthBase(t.lsym - 257) + t.lextra && dist == DistBase(t.dsym) + t.dextra
      modifies this, zout_start
      ensures Valid() && next <= zout_start.Length
      ensures zout_start == old(zout_start) || (z_expandable && fresh(zout_start))
      ensures turn == Failed || turn == More
      ensures MatchResult(Some((t, s)), old(zout_start[..zout]), cap)
        == if turn == Failed then None else Some((s, zout_start[..next]))
      ensures StuckOnly(turn != Failed)
      ensures Refuses(turn != Failed, MatchResult(Some((t, s)), old(zout_start[..zout]), UINT_MAX))
    {
      turn, next := Failed, 0;
      MatchResultIs(t, s, zout_start[..zout], cap, len, dist);
      MatchResultIs(t, s, zout_start[..zout], UINT_MAX, len, dist);
      if zout >= dist {
        var ok := PutMatch(zout, len, dist);
        if ok {
          turn, next := More, zout + len;
        }
      }
    }

    /** A turn advances the block on values. */
    method BlockStep(zout: nat) returns (turn: Turn, next: nat)
      requires Valid() && TablesReady() && zout <= zout_start.Length
      modifies this, reader, zout_start
      ensures Valid() && next <= zout_start.Length
      ensures zout_start == old(zout_start) || (z_expandable && fresh(zout_start))
      ensures turn == More ==> next > zout
      ensures HuffmanBlock(old(reader.Unread()), z_length.lens, z_distance.lens, old(zout_start[..zout]), cap)
        == match turn
           case Failed => None
           case Done => Some((reader.Unread(), zout_start[..next]))
           case More => HuffmanBlock(reader.Unread(), z_length.lens, z_distance.lens, zout_start[..next], cap)
      ensures StuckOnly(turn != Failed) && (cap == 0 ==> turn != More)
      ensures Refuses(turn != Failed,
        HuffmanBlock(old(reader.Unread()), z_length.lens, z_distance.lens, old(zout_start[..zout]), UINT_MAX))
    {
      HuffmanBlockTurn(reader.Unread(), z_length.lens, z_distance.lens, zout_start[..zout], cap);
      HuffmanBlockTurn(reader.Unread(), z_length.lens, z_distance.lens, zout_start[..zout], UINT_MAX);
      turn, next := HuffmanTurn(zout);
    }

    /** Between two turns: the block that was begun, under the limit (`target`) and with all room
        (`wide`), goes on from here, or has ended. */
    ghost predicate Underway(turn: Turn, z: nat, target: Option<(Src, seq<byte>)>, wide: Option<(Src, seq<byte>)>)
      requires Valid() && TablesReady() && z <= zout_start.Length
      reads this, reader, zout_start
      reads z_length, z_length.fast, z_length.firstcode, z_length.maxcode
      reads z_length.firstsymbol, z_length.size, z_length.value
      reads z_distance, z_distance.fast, z_distance.firstcode, z_distance.maxcode
      reads z_distance.firstsymbol, z_distance.size, z_distance.value
    {
      && Refuses(turn != Failed, wide)
      && match turn
         case Failed => target == None
         case Done => target == Some((reader.Unread(), zout_start[..z]))
         case More =>
           && target == HuffmanBlock(reader.Unread(), z_length.lens, z_distance.lens, zout_start[..z], cap)
           && (cap == 0 ==>
                 wide == HuffmanBlock(reader.Unread(), z_length.lens, z_distance.lens, zout_start[..z], UINT_MAX))
    }

    /** One turn of the loop. */
    method LoopTurn(z: nat, ghost target: Option<(Src, seq<byte>)>, ghost wide: Option<(Src, seq<byte>)>)
      returns (turn: Turn, next: nat)
      requires Valid() && TablesReady() && z <= zout_start.Length && Underway(More, z, target, wide)
      modifies this, reader, zout_start
      ensures Valid() && TablesReady() && next <= zout_start.Length && Underway(turn, next, target, wide)
      ensures zout_start == old(zout_start) || (z_expandable && fresh(zout_start))
      ensures StuckOnly(turn != Failed) && (turn == More ==> next > z)
    {
      turn, next := BlockStep(z);
    }

    /** The loop, from the output so far. */
    method RunTurns(ghost target: Option<(Src, seq<byte>)>, ghost wide: Option<(Src, seq<byte>)>)
      returns (ok: bool, z: nat)
      requires Valid() && TablesReady() && Underway(More, zout, target, wide)
      modifies this, reader, zout_start
      ensures Valid() && z <= zout_start.Length && Refuses(ok, wide) && StuckOnly(ok)
      ensures zout_start == old(zout_start) || (z_expandable && fresh(zout_start))
      ensures target == if ok then Some((reader.Unread(), zout_start[..z])) else None
    {
      var turn := More;
      z := zout;
      while turn == More
        invariant Valid() && TablesReady() && z <= zout_start.Length && Underway(turn, z, target, wide)
        invariant zout_start == old(zout_start) || (z_expandable && fresh(zout_start))
        invariant StuckOnly(turn != Failed)
        decreases turn == More, cap - z
      {
        turn, z := LoopTurn(z, target, wide);
      }
      ok := turn == Done;
    }

    /** `stbi__parse_huffman_block`: succeeds exactly when the block on values does, with the
        same input left and the same output. */
    method ParseHuffmanBlock() returns (ok: bool)
      requires Valid() && TablesReady()
      modifies this, reader, zout_start
      ensures Valid()
      ensures zout_start == old(zout_start) || (z_expandable && fresh(zout_start))
      ensures HuffmanBlock(old(reader.Unread()), z_length.lens, z_distance.lens, old(Output()), cap)
        == if ok then Some((reader.Unread(), Output())) else None
      ensures StuckOnly(ok)
      ensures Refuses(ok, HuffmanBlock(old(reader.Unread()), z_length.lens, z_distance.lens, old(Output()), UINT_MAX))
    {
      ghost var target := HuffmanBlock(reader.Unread(), z_length.lens, z_distance.lens, Output(), cap);
      ghost var wide := HuffmanBlock(reader.Unread(), z_length.lens, z_distance.lens, Output(), UINT_MAX);
      var z;
      ok, z := RunTurns(target, wide);
      if ok {
        zout := z;
      }
    }

    /** `stbi__compute_huffman_codes`: reads the header of a dynamic block and builds its tables. */
    method ComputeHuffmanCodes() returns (ok: bool)
      requires Wired() && Valid()
      modifies reader
      modifies z_length, z_length.fast, z_length.firstcode, z_length.maxcode
      modifies z_length.firstsymbol, z_length.size, z_length.value
      modifies z_distance, z_distance.fast, z_distance.firstcode, z_distance.maxcode
      modifies z_distance.firstsymbol, z_distance.size, z_distance.value
      ensures Valid() && (ok ==> TablesReady())
      ensures DynamicTables(old(reader.Unread()))
        == if ok then Some((reader.Unread(), z_length.lens, z_distance.lens)) else None
    {
      var ll, dl;
      ok, ll, dl := ReadCodes(reader);
      if ok {
        ok := BuildBoth(ll, dl);
      }
    }

    /** `stbi__zbuild_huffman` for both tables of a block. */
    method BuildBoth(ll: seq<nat>, dl: seq<nat>) returns (ok: bool)
      requires Wired() && ValidLens(ll) && ValidLens(dl) && |ll| <= NUM_SYMS && |dl| <= NUM_SYMS
      modifies z_length, z_length.fast, z_length.firstcode, z_length.maxcode
      modifies z_length.firstsymbol, z_length.size, z_length.value
      modifies z_distance, z_distance.fast, z_distance.firstcode, z_distance.maxcode
      modifies z_distance.firstsymbol, z_distance.size, z_distance.value
      ensures ok <==> Kraft(ll) && Kraft(dl)
      ensures ok ==> TablesReady() && z_length.lens == ll && z_distance.lens == dl
    {
      ok := z_length.Build(ll);
      if ok {
        ok := z_distance.Build(dl);
      }
    }

    /** One turn of the first loop of `stbi__parse_uncompressed_block`: a whole buffered byte
        goes into the header. */
    method DrainByte(header: array<byte>, k: nat, ghost bs: seq<byte>)
      requires reader.Valid() && 8 <= reader.num_bits && reader.num_bits % 8 == 0 && k < header.Length
      requires bs == header[..k] + AlignedBytes(reader.Unread())
      modifies reader, header
      ensures reader.Valid() && reader.num_bits == old(reader.num_bits) - 8
      ensures bs == header[..k + 1] + AlignedBytes(reader.Unread())
    {
      ghost var s := reader.Unread();
      AlignedStep(s);
      LowIsPrefix(reader.code_buffer, reader.num_bits, 8);
      var b := Low(reader.code_buffer, 8);
      assert Pow2(8) == 256;
      reader.Drop(8);
      Assoc(header[..k], [b], AlignedBytes(reader.Unread()));
      header[k] := b;
      assert header[..k + 1] == old(header[..k]) + [b];
    }

    /** The first loop: what is left in the reservoir, at most three bytes. */
    method DrainReservoir(header: array<byte>) returns (k: nat)
      requires reader.Valid() && reader.num_bits < 32 && reader.num_bits % 8 == 0 && header.Length == 4
      modifies reader, header
      ensures reader.Valid() && reader.num_bits == 0 && k <= 3
      ensures AlignedBytes(old(reader.Unread())) == header[..k] + reader.Unread().rest
    {
      ghost var bs := AlignedBytes(reader.Unread());
      k := 0;
      while reader.num_bits > 0
        invariant reader.Valid() && reader.num_bits % 8 == 0 && k + reader.num_bits / 8 <= 3
        invariant bs == header[..k] + AlignedBytes(reader.Unread())
        decreases reader.num_bits
      {
        DrainByte(header, k, bs);
        k := k + 1;
      }
      if reader.num_bits < 0 {
        assert false;
        return;
      }
    }

    /** The second loop: the remaining header bytes come straight from the input. */
    method FillHeader(header: array<byte>, k0: nat, ghost bs: seq<byte>)
      requires reader.Valid() && reader.num_bits == 0 && header.Length == 4 && k0 <= 4
      requires bs == header[..k0] + reader.Unread().rest
      modifies reader`pos, header
      ensures reader.Valid()
      ensures forall i :: 0 <= i < 4 ==> header[i] == ByteAt(bs, i)
      ensures reader.Unread() == Src([], if |bs| < 4 then [] else bs[4..])
    {
      assert reader.Unread().rest == bs[k0..];
      var k := k0;
      while k < 4
        invariant reader.Valid() && k0 <= k <= 4
        invariant forall i :: 0 <= i < k ==> header[i] == ByteAt(bs, i)
        invariant reader.Unread().rest == if k <= |bs| then bs[k..] else []
      {
        var b := reader.Get8();
        header[k] := b;
        k := k + 1;
      }
    }

    /** The bits up to the next byte boundary are dropped. */
    method DiscardToByte()
      requires reader.Valid() && reader.num_bits < 32
      modifies reader
      ensures reader.Valid() && reader.num_bits < 32 && reader.num_bits % 8 == 0
      ensures AlignedBytes(reader.Unread()) == old(AlignedBytes(reader.Unread()))
    {
      if reader.num_bits % 8 != 0 {
        var discarded := reader.Receive(reader.num_bits % 8);
      }
      assert reader.Unread().buf[0..] == reader.Unread().buf;
    }

    /** The header of a stored block, read from the next byte boundary. */
    method ReadStoredHeader() returns (h: seq<byte>, ghost bs: seq<byte>)
      requires reader.Valid() && reader.num_bits < 32
      modifies reader
      ensures reader.Valid()
      ensures bs == AlignedBytes(old(reader.Unread()))
      ensures h == [ByteAt(bs, 0), ByteAt(bs, 1), ByteAt(bs, 2), ByteAt(bs, 3)]
      ensures reader.Unread() == Src([], if |bs| < 4 then [] else bs[4..])
    {
      bs := AlignedBytes(reader.Unread());
      DiscardToByte();
      var header := new byte[4](_ => 0);
      var k := DrainReservoir(header);
      FillHeader(header, k, bs);
      h := header[..];
    }

    /** `memcpy(zout, zbuffer, len)` and the two increments. */
    method CopyStored(len: nat)
      requires Valid() && len <= |reader.Unread().rest| && zout + len <= zout_start.Length
      modifies this`zout, reader`pos, zout_start
      ensures Valid()
      ensures Output() == old(Output()) + old(reader.Unread()).rest[..len]
      ensures reader.Unread() == Src(old(reader.Unread()).buf, old(reader.Unread()).rest[len..])
    {
      forall i | 0 <= i < len {
        zout_start[zout + i] := reader.input[reader.pos + i];
      }
      assert reader.input[reader.pos..][..len] == reader.input[reader.pos..reader.pos + len];
      reader.Skip(len);
      zout := zout + len;
    }

    /** `stbi__parse_uncompressed_block`. */
    method ParseUncompressedBlock() returns (ok: bool)
      requires Valid() && reader.num_bits < 32
      modifies this, reader, zout_start
      ensures Valid()
      ensures zout_start == old(zout_start) || (z_expandable && fresh(zout_start))
      ensures StoredBlock(old(reader.Unread()), old(Output()), cap)
        == if ok then Some((reader.Unread(), Output())) else None
      ensures StuckOnly(ok) && Refuses(ok, StoredBlock(old(reader.Unread()), old(Output()), UINT_MAX))
    {
      var h, bs := ReadStoredHeader();
      var len := Le16(h[0], h[1]);
      var nlen := Le16(h[2], h[3]);
      if nlen != 0xffff - len {
        return false;
      }
      if len > |reader.input| - reader.pos {
        return false;
      }
      ok := EnsureRoom(zout, len);
      if ok {
        CopyStored(len);
      }
    }

    /** `stbi__parse_zlib_header`. */
    method ParseZlibHeader() returns (ok: bool)
      requires reader.Valid() && reader.pos == 0 && reader.num_bits == 0
      modifies reader`pos
      ensures reader.Valid()
      ensures ok <==> GoodHeader(reader.input)
      ensures ok ==> reader.pos == 2
    {
      var cmf: int := reader.Get8();
      var flg: int := reader.Get8();
      if reader.Eof() {
        return false;
      }
      if (cmf * 256 + flg) % 31 != 0 {
        return false;
      }
      if flg / 32 % 2 != 0 {
        return false;
      }
      return cmf % 16 == 8;
    }

    /** A block of type 1: the fixed codes. */
    method ParseFixed() returns (ok: bool)
      requires Wired() && Valid() && reader.num_bits < 32
      modifies this, reader, zout_start
      modifies z_length, z_length.fast, z_length.firstcode, z_length.maxcode
      modifies z_length.firstsymbol, z_length.size, z_length.value
      modifies z_distance, z_distance.fast, z_distance.firstcode, z_distance.maxcode
      modifies z_distance.firstsymbol, z_distance.size, z_distance.value
      ensures Valid()
      ensures zout_start == old(zout_start) || (z_expandable && fresh(zout_start))
      ensures BlockContent(1, old(reader.Unread()), old(Output()), cap)
        == if ok then Some((reader.Unread(), Output())) else None
      ensures StuckOnly(ok) && Refuses(ok, BlockContent(1, old(reader.Unread()), old(Output()), UINT_MAX))
    {
      FixedAreCodes();
      ok := BuildBoth(FixedLit(), FixedDist());
      ok := ParseHuffmanBlock();
    }

    /** A block of type 2: its codes, and then its contents. */
    method ParseDynamic() returns (ok: bool)
      requires Wired() && Valid() && reader.num_bits < 32
      modifies this, reader, zout_start
      modifies z_length, z_length.fast, z_length.firstcode, z_length.maxcode
      modifies z_length.firstsymbol, z_length.size, z_length.value
      modifies z_distance, z_distance.fast, z_distance.firstcode, z_distance.maxcode
      modifies z_distance.firstsymbol, z_distance.size, z_distance.value
      ensures Valid()
      ensures zout_start == old(zout_start) || (z_expandable && fresh(zout_start))
      ensures BlockContent(2, old(reader.Unread()), old(Output()), cap)
        == if ok then Some((reader.Unread(), Output())) else None
      ensures StuckOnly(ok) && Refuses(ok, BlockContent(2, old(reader.Unread()), old(Output()), UINT_MAX))
    {
      ok := ComputeHuffmanCodes();
      if ok {
        ok := ParseHuffmanBlock();
      }
    }

    /** The content of a block of type `kind`. */
    method ParseContent(kind: nat) returns (ok: bool)
      requires Wired() && Valid() && reader.num_bits < 32
      modifies this, reader, zout_start
      modifies z_length, z_length.fast, z_length.firstcode, z_length.maxcode
      modifies z_length.firstsymbol, z_length.size, z_length.value
      modifies z_distance, z_distance.fast, z_distance.firstcode, z_distance.maxcode
      modifies z_distance.firstsymbol, z_distance.size, z_distance.value
      ensures Valid()
      ensures zout_start == old(zout_start) || (z_expandable && fresh(zout_start))
      ensures BlockContent(kind, old(reader.Unread()), old(Output()), cap)
        == if ok then Some((reader.Unread(), Output())) else None
      ensures StuckOnly(ok) && Refuses(ok, BlockContent(kind, old(reader.Unread()), old(Output()), UINT_MAX))
    {
      if kind == 0 {
        ok := ParseUncompressedBlock();
      } else if kind == 1 {
        ok := ParseFixed();
      } else if kind == 2 {
        ok := ParseDynamic();
      } else {
        ok := false;
      }
    }

    /** One turn of the loop in `stbi__parse_zlib`. */
    method ParseBlock() returns (ok: bool, final: nat)
      requires Wired() && Valid()
      modifies this, reader, zout_start
      modifies z_length, z_length.fast, z_length.firstcode, z_length.maxcode
      modifies z_length.firstsymbol, z_length.size, z_length.value
      modifies z_distance, z_distance.fast, z_distance.firstcode, z_distance.maxcode
      modifies z_distance.firstsymbol, z_distance.size, z_distance.value
      ensures Valid()
      ensures zout_start == old(zout_start) || (z_expandable && fresh(zout_start))
      ensures OneBlock(old(reader.Unread()), old(Output()), cap)
        == if ok then Some((final == 1, reader.Unread(), Output())) else None
      ensures StuckOnly(ok) && Refuses(ok, OneBlock(old(reader.Unread()), old(Output()), UINT_MAX))
    {
      final := reader.Receive(1);
      var kind := reader.Receive(2);
      ok := ParseContent(kind);
    }

    /** `stbi__parse_zlib`: terminates on every input, and computes exactly what the decoder on
        values does. */
    method ParseZlib(parseHeader: bool) returns (ok: bool)
      requires Wired() && Valid() && zout == 0 && reader.Unread() == Src([], reader.input) && reader.pos == 0 && !stuck
      modifies this, reader, zout_start
      modifies z_length, z_length.fast, z_length.firstcode, z_length.maxcode
      modifies z_length.firstsymbol, z_length.size, z_length.value
      modifies z_distance, z_distance.fast, z_distance.firstcode, z_distance.maxcode
      modifies z_distance.firstsymbol, z_distance.size, z_distance.value
      ensures Valid()
      ensures zout_start == old(zout_start) || (z_expandable && fresh(zout_start))
      ensures Decoded(reader.input, cap, parseHeader) == if ok then Some(Output()) else None
      ensures StuckOnly(ok) && Refuses(ok, Decoded(reader.input, UINT_MAX, parseHeader))
    {
      if parseHeader {
        ok := ParseZlibHeader();
        if !ok {
          return;
        }
      }
      ghost var target := Blocks(reader.Unread(), Output(), cap);
      ghost var wide := Blocks(reader.Unread(), Output(), UINT_MAX);
      ok := true;
      var final := 0;
      while ok && final != 1
        invariant Valid()
        invariant zout_start == old(zout_start) || (z_expandable && fresh(zout_start))
        invariant target == if !ok then None
          else if final == 1 then Some((reader.Unread(), Output()))
          else Blocks(reader.Unread(), Output(), cap)
        invariant StuckOnly(ok) && Refuses(ok, wide)
        invariant cap == 0 && ok && final != 1 ==> wide == Blocks(reader.Unread(), Output(), UINT_MAX)
        decreases ok && final != 1, Significant(Stream(reader.Unread()))
      {
        ghost var s, out := reader.Unread(), Output();
        ok, final := ParseBlock();
        if ok {
          OneBlockProgress(s, out, cap);
          OneBlockCap(s, out, cap, UINT_MAX);
        }
      }
    }
  }

  /** `stbi_zlib_decode_malloc_guesssize_headerflag`: an expandable buffer of any initial size.
      `stbi_zlib_decode_malloc` and the others fix some of its arguments.  Only size 0 gets stuck,
      and it does for every input that stands for one or more bytes. */
  method DecodeMalloc(buffer: seq<byte>, initialSize: nat, parseHeader: bool)
    returns (r: Option<seq<byte>>, ghost stuck: bool)
    requires initialSize <= UINT_MAX
    ensures r == Decoded(buffer, MaxLimit(initialSize), parseHeader)
    ensures stuck ==> initialSize == 0 && r == None
    ensures initialSize == 0 && r == None && !stuck ==> Decoded(buffer, UINT_MAX, parseHeader) == None
  {
    var p := new byte[initialSize](_ => 0);
    var a := new ZBuf(buffer, p, true);
    var ok := a.ParseZlib(parseHeader);
    r := if ok then Some(a.zout_start[..a.zout]) else None;
    stuck := a.stuck;
  }

  /** `stbi_zlib_decode_buffer`: a caller's buffer of fixed size; -1 for failure. */
  method DecodeBuffer(obuffer: array<byte>, ibuffer: seq<byte>) returns (r: int)
    requires obuffer.Length <= UINT_MAX
    modifies obuffer
    ensures -1 <= r <= obuffer.Length
    ensures Decoded(ibuffer, obuffer.Length, true) == if r >= 0 then Some(obuffer[..r]) else None
  {
    var a := new ZBuf(ibuffer, obuffer, false);
    var ok := a.ParseZlib(true);
    r := if ok then a.zout else -1;
  }

  /** Any two positive initial sizes give the same result, as long as the output of one of
      them stays within 2^31 bytes. */
  lemma InitialSizeIrrelevant(input: seq<byte>, parseHeader: bool, size1: nat, size2: nat)
    requires 0 < size1 <= UINT_MAX && 0 < size2 <= UINT_MAX
    ensures var a, b := Decoded(input, MaxLimit(size1), parseHeader), Decoded(input, MaxLimit(size2), parseHeader);
      (a.Some? && |a.value| <= 0x8000_0000) || (b.Some? && |b.value| <= 0x8000_0000) ==> a == b
  {
    var m1, m2 := MaxLimit(size1), MaxLimit(size2);
    DecodeCap(input, parseHeader, if m1 < m2 then m1 else m2, if m1 < m2 then m2 else m1);
  }

  /** A fixed buffer of up to 2^31 bytes succeeds exactly when an expandable one does with an
      output that is no longer than the buffer, and then the bytes are the same. */
  lemma FixedVersusExpandable(input: seq<byte>, parseHeader: bool, olen: nat, size: nat)
    requires olen <= 0x8000_0000 && 0 < size <= UINT_MAX
    ensures var fixed, grown := Decoded(input, olen, parseHeader), Decoded(input, MaxLimit(size), parseHeader);
      fixed == if grown.Some? && |grown.value| <= olen then grown else None
  {
    DecodeCap(input, parseHeader, olen, MaxLimit(size));
  }

  lemma AlignedStep(s: Src)
    requires |s.buf| >= 8 && |s.buf| % 8 == 0
    ensures FromBits(s.buf[..8]) < 256
    ensures AlignedBytes(s) == [FromBits(s.buf[..8])] + AlignedBytes(Src(s.buf[8..], s.rest))
  {
    assert Pow2(8) == 256;
    assert s.buf[0..] == s.buf && s.buf[8..][0..] == s.buf[8..];
    Assoc([FromBits(s.buf[..8])], BitsBytes(s.buf[8..]), s.rest);
  }
}
