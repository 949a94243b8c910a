/** The input half of `stbi__zbuf`: the bytes, the read position and the 32-bit reservoir. */
module BitReader {
  import opened BitReversal
  import opened Bits
  import opened Canonical
  import opened HuffmanTable
  import opened Options
  import opened Source

  class Reader {
    const input: seq<byte>     // zbuffer .. zbuffer_end
    var pos: nat               // zbuffer
    var num_bits: int
    var code_buffer: nat       // a 32-bit word

    /** The reservoir holds exactly the bits it says: none above `num_bits`. */
    ghost predicate Valid()
      reads this
    {
      pos <= |input| && 0 <= num_bits <= 32 && code_buffer < Pow2(num_bits)
    }

    /** The bits and bytes not consumed yet. */
    ghost function Unread(): (s: Src)
      requires Valid()
      reads this
      ensures |s.buf| == num_bits
    {
      Src(ToBits(code_buffer, num_bits), input[pos..])
    }

    constructor (input: seq<byte>)
      ensures Valid() && this.input == input && Unread() == Src([], input)
    {
      this.input := input;
      pos := 0;
      num_bits := 0;
      code_buffer := 0;
    }

    /** `stbi__zeof`. */
    predicate Eof()
      requires Valid()
      reads this
    {
      pos >= |input|
    }

    /** `stbi__zget8`. */
    method Get8() returns (b: byte)
      requires Valid()
      modifies this`pos
      ensures Valid()
      ensures b == Head(old(input[pos..])) && input[pos..] == Tail(old(input[pos..]))
    {
      if pos >= |input| {
        return 0;
      }
      b := input[pos];
      pos := pos + 1;
    }

    /** `zbuffer += n`. */
    method Skip(n: nat)
      requires Valid() && pos + n <= |input|
      modifies this`pos
      ensures Valid() && pos == old(pos) + n
    {
      pos := pos + n;
    }

    /** `code_buffer |= zget8() << num_bits; num_bits += 8`. */
    method Fetch()
      requires Valid() && num_bits <= 24
      modifies this
      ensures Valid() && num_bits == old(num_bits) + 8
      ensures Unread() == Src(old(Unread()).buf + ToBits(Head(old(Unread()).rest), 8), Tail(old(Unread()).rest))
    {
      var b := Get8();
      assert Pow2(8) == 256;
      ShlAppends(code_buffer, num_bits, b, 8);
      code_buffer := code_buffer + Shl(b, num_bits);
      num_bits := num_bits + 8;
    }

    /** `stbi__fill_bits`.  The branch for stray bits above `num_bits` is dead. */
    method FillBits()
      requires Valid() && num_bits <= 24
      modifies this
      ensures Valid() && Unread() == Fill(old(Unread()))
    {
      var more := true;
      while more
        invariant Valid() && (more <==> num_bits <= 24)
        invariant Fill(old(Unread())) == if more then Fill(Unread()) else Unread()
        decreases 32 - num_bits
      {
        if code_buffer >= Pow2(num_bits) {
          assert false;  // the source jumps to the end of the input here
          return;
        }
        Fetch();
        more := num_bits <= 24;
      }
    }

    /** Dropping the `n` low bits: `code_buffer >>= n; num_bits -= n`. */
    method Drop(n: nat)
      requires Valid() && n <= num_bits
      modifies this`code_buffer, this`num_bits
      ensures Valid() && Unread() == Src(old(Unread()).buf[n..], old(Unread()).rest)
    {
      ShrBelow(code_buffer, num_bits, n);
      ShrDrops(code_buffer, num_bits, n);
      code_buffer := Shr(code_buffer, n);
      num_bits := num_bits - n;
    }

    /** `stbi__zreceive`. */
    method Receive(n: nat) returns (k: nat)
      requires Valid() && n <= 16
      modifies this
      ensures Valid() && (k, Unread()) == Source.Receive(old(Unread()), n)
    {
      if num_bits < n {
        FillBits();
      }
      LowIsPrefix(code_buffer, num_bits, n);
      k := Low(code_buffer, n);
      Drop(n);
    }

    /** `stbi__zhuffman_decode_slowpath`.  The caller has found no codeword of nine bits or
        fewer. */
    method DecodeSlowly(z: ZHuffman) returns (r: int)
      requires Valid() && num_bits >= 16 && z.Ready()
      requires NoShortMatch(z.lens, Unread().buf[..16])
      modifies this`code_buffer, this`num_bits
      ensures Valid()
      ensures r == Lookup(z.lens, old(Unread()).buf[..16])
      ensures r >= 0 ==> r < |z.lens| && Unread() == Src(old(Unread()).buf[z.lens[r]..], old(Unread()).rest)
    {
      ghost var bits := Unread().buf[..16];
      LowIsPrefix(code_buffer, num_bits, 16);
      var k := BitReverse(code_buffer, 16);
      assert Pow2(16) == 65536 by { Pow2Small(); }
      var s := SlowLength(z, k);
      SlowLookup(z.lens, bits, s);
      if s >= 16 {
        return -1;
      }
      r := TakeSlot(z, k, s, Lookup(z.lens, bits));
    }

    /** The search loop of the slow path: the first length beyond 9 whose end code exceeds `k`. */
    method SlowLength(z: ZHuffman, k: nat) returns (s: nat)
      requires z.Ready() && k < 0x1_0000
      ensures 10 <= s <= 16
      ensures forall t :: 10 <= t < s ==> Beyond(z.lens, k, t)
      ensures s < 16 ==> Shr(k, 16 - s) < EndCode(z.lens, s)
    {
      s := ZFAST_BITS + 1;
      while k >= z.maxcode[s]
        invariant 10 <= s <= 16
        invariant forall t :: 10 <= t < s ==> k >= z.maxcode[t]
        decreases 16 - s
      {
        s := s + 1;
      }
      SlowRange(z, k, s);
    }

    /** The end of the slow path: `i` is the symbol whose `s`-bit codeword leads `k`.  The
        branches for a bad index `b` and for a wrong `size[b]` are dead. */
    method TakeSlot(z: ZHuffman, k: nat, s: nat, ghost i: nat) returns (r: int)
      requires Valid() && num_bits >= 16 && z.Ready() && 1 <= s < 16
      requires i < |z.lens| && z.lens[i] == s && Shr(k, 16 - s) == Code(z.lens, i)
      modifies this`code_buffer, this`num_bits
      ensures Valid() && r == i
      ensures Unread() == Src(old(Unread()).buf[s..], old(Unread()).rest)
    {
      var b := Shr(k, 16 - s) - z.firstcode[s] + z.firstsymbol[s];
      assert b == Slot(z.lens, i);
      if b >= NUM_SYMS {
        assert false;
        return -1;
      }
      if z.size[b] != s {
        assert false;
        return -1;
      }
      Drop(s);
      r := z.value[b];
    }

    /** What the comparisons with the shifted end codes say. */
    lemma SlowRange(z: ZHuffman, k: nat, s: nat)
      requires z.Ready() && k < 0x1_0000 && 10 <= s <= 16
      requires forall t :: 10 <= t < s ==> k >= z.maxcode[t]
      requires k < z.maxcode[s]
      ensures forall t :: 10 <= t < s ==> Beyond(z.lens, k, t)
      ensures s < 16 ==> Shr(k, 16 - s) < EndCode(z.lens, s)
    {
      forall t | 10 <= t < s
        ensures Beyond(z.lens, k, t)
      {
        assert k >= z.maxcode[t];
        BelowShl(k, EndCode(z.lens, t), 16 - t);
      }
      if s < 16 {
        BelowShl(k, EndCode(z.lens, s), 16 - s);
      }
    }

    /** `stbi__zhuffman_decode`: -1 exactly when the input is exhausted with fewer than 16 bits
        in hand or no codeword comes next; otherwise the symbol, with its codeword removed. */
    method Decode(z: ZHuffman) returns (r: int)
      requires Valid() && z.Ready()
      modifies this
      ensures Valid() && -1 <= r < |z.lens|
      ensures r == -1 <==> Source.Decode(old(Unread()), z.lens).None?
      ensures r >= 0 ==> Source.Decode(old(Unread()), z.lens) == Some((r, Unread()))
    {
      if num_bits < 16 {
        if Eof() {
          return -1;
        }
        FillBits();
      }
      r := DecodeBuffered(z);
    }

    method DecodeBuffered(z: ZHuffman) returns (r: int)
      requires Valid() && num_bits >= 16 && z.Ready()
      modifies this`code_buffer, this`num_bits
      ensures Valid()
      ensures r == Lookup(z.lens, old(Unread()).buf)
      ensures r >= 0 ==> r < |z.lens| && Unread() == Src(old(Unread()).buf[z.lens[r]..], old(Unread()).rest)
    {
      ghost var buf := Unread().buf;
      LookupPrefix(z.lens, buf[..16], buf);
      var j := Low(code_buffer, ZFAST_BITS);
      FastPrefix(code_buffer, num_bits);
      assert Pow2(9) == 512;
      var b := z.fast[j];
      assert FastEntry(z.lens, |z.lens|, b, ToBits(j, ZFAST_BITS));
      FastLookup(z.lens, b, buf);
      if b != 0 {
        Drop(b / 512);
        return b % 512;
      }
      r := DecodeSlowly(z);
    }
  }

  /** No codeword of `t` bits or fewer leads the 16 bits of `k`. */
  predicate Beyond(lens: seq<nat>, k: nat, t: nat) {
    t <= 16 && Shr(k, 16 - t) >= EndCode(lens, t)
  }

  predicate NoShortMatch(lens: seq<nat>, bits: seq<bool>) {
    forall i :: 0 <= i < |lens| && lens[i] <= ZFAST_BITS ==> !Matches(lens, i, bits)
  }

  /** The nine bits that index the fast table are the next nine bits of the stream. */
  lemma FastPrefix(v: nat, n: nat)
    requires n >= 16
    ensures ToBits(Low(v, ZFAST_BITS), ZFAST_BITS) == ToBits(v, n)[..ZFAST_BITS]
  {
    LowIsPrefix(v, n, ZFAST_BITS);
    ToFromBits(ToBits(v, ZFAST_BITS));
  }

  lemma PrefixOfTake(w: seq<bool>, buf: seq<bool>, m: nat, n: nat)
    requires |w| <= m <= n <= |buf|
    ensures w <= buf[..m] <==> w <= buf[..n]
  {
    assert buf[..n][..|w|] == buf[..m][..|w|];
  }

  /** A fast-table entry answers for the whole buffer: a hit is the symbol, a miss means that no
      short codeword begins it. */
  lemma FastLookup(lens: seq<nat>, b: nat, buf: seq<bool>)
    requires IsCode(lens) && |buf| >= 16 && FastEntry(lens, |lens|, b, buf[..ZFAST_BITS])
    ensures b != 0 ==> b % 512 < |lens| && lens[b % 512] == b / 512 <= 9 && Lookup(lens, buf) == b % 512
    ensures b == 0 ==> NoShortMatch(lens, buf[..16])
  {
    if b != 0 {
      LookupIs(lens, b % 512, buf);
    } else {
      forall i | 0 <= i < |lens| && lens[i] <= ZFAST_BITS
        ensures !Matches(lens, i, buf[..16])
      {
        if lens[i] > 0 {
          PrefixOfTake(Codeword(lens, i), buf, ZFAST_BITS, 16);
        }
      }
    }
  }

  /** The first length whose end code exceeds the leading bits is the length of the codeword. */
  lemma SlowLookup(lens: seq<nat>, bits: seq<bool>, s: nat)
    requires IsCode(lens) && |bits| == 16 && 10 <= s <= 16 && NoShortMatch(lens, bits)
    requires forall t :: 10 <= t < s ==> Beyond(lens, FromMsb(bits), t)
    requires s < 16 ==> Shr(FromMsb(bits), 16 - s) < EndCode(lens, s)
    ensures s == 16 ==> Lookup(lens, bits) == -1
    ensures s < 16 ==> var i := Lookup(lens, bits);
      0 <= i < |lens| && lens[i] == s && Shr(FromMsb(bits), 16 - s) == Code(lens, i)
  {
    var i := Lookup(lens, bits);
    if i >= 0 {
      MatchAtLeast(lens, bits, s, i);
    }
    if s < 16 {
      var j := MatchBelow(lens, bits, s);
      LookupIs(lens, j, bits);
    }
  }

  lemma MatchBelow(lens: seq<nat>, bits: seq<bool>, s: nat) returns (j: nat)
    requires IsCode(lens) && s <= |bits| && Shr(FromMsb(bits), |bits| - s) < EndCode(lens, s)
    ensures j < |lens| && lens[j] <= s && Matches(lens, j, bits)
    ensures Shr(FromMsb(bits), |bits| - lens[j]) == Code(lens, j)
  {
    CodeFits(lens);
    j := BelowEndMatches(lens, bits, s);
    MatchesAsNumber(lens, j, bits);
  }

  lemma MatchAtLeast(lens: seq<nat>, bits: seq<bool>, s: nat, i: nat)
    requires IsCode(lens) && |bits| == 16 && 10 <= s <= 16 && NoShortMatch(lens, bits)
    requires forall t :: 10 <= t < s ==> Beyond(lens, FromMsb(bits), t)
    requires i < |lens| && Matches(lens, i, bits)
    ensures lens[i] >= s
  {
    var t := lens[i];
    assert Shr(FromMsb(bits), |bits| - t) < EndCode(lens, t) by {
      CodeFits(lens);
      MatchBoundsEnd(lens, i, bits, t);
    }
    assert !Beyond(lens, FromMsb(bits), t);
  }
}
