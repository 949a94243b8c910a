/** One zlib stream, byte for byte: a fixed block of five literals and a match that overlaps itself.  It fixes
    the order in which the parts of a block, of a match and of a byte are written.

    The block says "salty" and then copies 12 bytes from 5 back. */
module DeflateExample {
  import opened Bits
  import opened BitNumbers
  import opened Canonical
  import opened Options
  import opened Deflate
  import opened Inflate
  import opened DeflateNumbers

  const TOKENS: seq<Token> := [
    Literal(115), Literal(97), Literal(108), Literal(116), Literal(121), Match(265, 1, 4, 0)]
  const PACKED: seq<byte> := [43, 78, 204, 41, 169, 68, 38, 0]
  const SAID: seq<byte> := [115, 97, 108, 116, 121, 115, 97, 108, 116, 121, 115, 97, 108, 116, 121, 115, 97]

  // ----- codewords

  /** The codeword of a literal below 144, the most significant bit first. */
  lemma LiteralBits(i: byte, w: seq<bool>)
    requires i < 144 && |w| == 8
    requires 48 + i as int == 128 * Bit(w[0]) + 64 * Bit(w[1]) + 32 * Bit(w[2]) + 16 * Bit(w[3])
      + 8 * Bit(w[4]) + 4 * Bit(w[5]) + 2 * Bit(w[6]) + Bit(w[7])
    ensures TokenOk(Literal(i), FixedLit(), FixedDist())
    ensures TokenBits(Literal(i), FixedLit(), FixedDist()) == w
  {
    FixedLitCode(i);
    FromEight(w);
    MsbOfFromMsb(w);
  }

  /** The codewords of the match. */
  lemma MatchCodewords(ll: seq<nat>, dl: seq<nat>)
    requires ll == FixedLit() && dl == FixedDist()
    ensures Used(ll, 265) && Codeword(ll, 265) == [false, false, false, true, false, false, true]
    ensures Used(dl, 4) && Codeword(dl, 4) == [false, false, true, false, false]
  {
    FixedLitCode(265);
    FixedDistCode(4);
    SevenBits();
  }

  lemma MatchWritten(ll: seq<nat>, dl: seq<nat>)
    requires Used(ll, 265) && Used(dl, 4)
    ensures TokenOk(Match(265, 1, 4, 0), ll, dl)
    ensures TokenBits(Match(265, 1, 4, 0), ll, dl) == Codeword(ll, 265) + [true] + Codeword(dl, 4) + [false]
  {
    LengthNumbers(8);
    DistNumbers(4);
    Pow2Small();
    assert ToBits(1, 1) == [true] && ToBits(0, 1) == [false];
  }

  lemma SevenBits()
    ensures MsbBits(9, 7) == [false, false, false, true, false, false, true]
    ensures MsbBits(0, 7) == [false, false, false, false, false, false, false]
    ensures MsbBits(4, 5) == [false, false, true, false, false]
  {
    assert MsbBits(2, 5) == [false, false, false, true, false];
    assert MsbBits(1, 3) == [false, false, true];
    assert MsbBits(0, 5) == [false, false, false, false, false];
  }

  // ----- the whole block

  /** The tokens from `k` on and the end-of-block symbol. */
  function BodyFrom(ts: seq<Token>, k: nat, ll: seq<nat>, dl: seq<nat>): seq<bool>
    requires k <= |ts| && BodyOk(ts, ll, dl)
  {
    TokensBits(ts[k..], ll, dl) + Codeword(ll, END_OF_BLOCK)
  }

  lemma BodyStep(ts: seq<Token>, k: nat, ll: seq<nat>, dl: seq<nat>)
    requires k < |ts| && BodyOk(ts, ll, dl)
    ensures BodyFrom(ts, k, ll, dl) == TokenBits(ts[k], ll, dl) + BodyFrom(ts, k + 1, ll, dl)
  {
    assert ts[k..][0] == ts[k] && ts[k..][1..] == ts[k + 1..];
    Assoc(TokenBits(ts[k], ll, dl), TokensBits(ts[k + 1..], ll, dl), Codeword(ll, END_OF_BLOCK));
  }

  /** Three bits left over, a codeword of eight, and what comes behind it. */
  lemma ByteStep(b: byte, bs: seq<byte>, h: seq<bool>, c: seq<bool>, rest: seq<bool>)
    requires |h| == 3 && |c| == 8
    requires b as int == Bit(h[0]) + 2 * Bit(h[1]) + 4 * Bit(h[2]) + 8 * Bit(c[0])
      + 16 * Bit(c[1]) + 32 * Bit(c[2]) + 64 * Bit(c[3]) + 128 * Bit(c[4])
    requires BytesBits(bs) == c[5..] + rest
    ensures BytesBits([b] + bs) == h + (c + rest)
  {
    OctetBits(b, h + c[..5]);
    BytesBitsAppend([b], bs);
    assert c == c[..5] + c[5..];
  }

  /** The last three bytes: the end of the last literal, the match and the end-of-block symbol. */
  lemma LastBytes(c: seq<bool>, m: seq<bool>, z: seq<bool>)
    requires c == [false, false, true]
    requires m ==
      [false, false, false, true, false, false, true] + [true] + [false, false, true, false, false] + [false]
    requires z == [false, false, false, false, false, false, false]
    ensures BytesBits([68, 38, 0]) == c + (m + z)
  {
    assert c + m[..5] == [false, false, true, false, false, false, true, false];
    assert m[5..13] == [false, true, true, false, false, true, false, false];
    assert m[13..] + z == [false, false, false, false, false, false, false, false];
    OctetBits(68, c + m[..5]);
    OctetBits(38, m[5..13]);
    OctetBits(0, m[13..] + z);
    ThreeBytes(68, 38, 0);
    Shuffle(c, m[..5], m[5..13], m[13..], z);
    assert m[..5] + (m[5..13] + m[13..]) == m;
  }

  lemma ThreeBytes(a: byte, b: byte, c: byte)
    ensures BytesBits([a, b, c]) == BytesBits([a]) + (BytesBits([b]) + BytesBits([c]))
  {
    BytesBitsAppend([a], [b] + [c]);
    BytesBitsAppend([b], [c]);
    assert [a] + ([b] + [c]) == [a, b, c];
  }

  lemma Shuffle(c: seq<bool>, p: seq<bool>, q: seq<bool>, r: seq<bool>, z: seq<bool>)
    ensures (c + p) + (q + (r + z)) == c + ((p + (q + r)) + z)
  {
    Assoc(c, p, q + (r + z));
    Assoc(q, r, z);
    Assoc(p, q + r, z);
  }

  /** Five codewords of eight bits, packed behind the block's three header bits. */
  lemma Packing(c0: seq<bool>, c1: seq<bool>, c2: seq<bool>, c3: seq<bool>, c4: seq<bool>, rest: seq<bool>)
    requires c0 == [true, false, true, false, false, false, true, true]
    requires c1 == [true, false, false, true, false, false, false, true]
    requires c2 == [true, false, false, true, true, true, false, false]
    requires c3 == [true, false, true, false, false, true, false, false]
    requires c4 == [true, false, true, false, true, false, false, true]
    requires BytesBits([68, 38, 0]) == c4[5..] + rest
    ensures BytesBits(PACKED) == [true, true, false] + (c0 + (c1 + (c2 + (c3 + (c4 + rest)))))
  {
    LaterLiterals(c2[5..], c3, c4, rest);
    FirstLiterals(c0, c1, c2, c3 + (c4 + rest), [41] + ([169] + [68, 38, 0]));
    assert [43] + ([78] + ([204] + ([41] + ([169] + [68, 38, 0])))) == PACKED;
  }

  lemma LaterLiterals(h: seq<bool>, c3: seq<bool>, c4: seq<bool>, rest: seq<bool>)
    requires h == [true, false, false]
    requires c3 == [true, false, true, false, false, true, false, false]
    requires c4 == [true, false, true, false, true, false, false, true]
    requires BytesBits([68, 38, 0]) == c4[5..] + rest
    ensures BytesBits([41] + ([169] + [68, 38, 0])) == h + (c3 + (c4 + rest))
  {
    ByteStep(169, [68, 38, 0], c3[5..], c4, rest);
    ByteStep(41, [169] + [68, 38, 0], h, c3, c4 + rest);
  }

  lemma FirstLiterals(c0: seq<bool>, c1: seq<bool>, c2: seq<bool>, rest: seq<bool>, bs: seq<byte>)
    requires c0 == [true, false, true, false, false, false, true, true]
    requires c1 == [true, false, false, true, false, false, false, true]
    requires c2 == [true, false, false, true, true, true, false, false]
    requires BytesBits(bs) == c2[5..] + rest
    ensures BytesBits([43] + ([78] + ([204] + bs))) == [true, true, false] + (c0 + (c1 + (c2 + rest)))
  {
    ByteStep(204, bs, c1[5..], c2, rest);
    ByteStep(78, [204] + bs, c0[5..], c1, c2 + rest);
    ByteStep(43, [78] + ([204] + bs), [true, true, false], c0, c1 + (c2 + rest));
  }

  lemma BodyIs(ts: seq<Token>, ll: seq<nat>, dl: seq<nat>)
    requires |ts| == 6 && BodyOk(ts, ll, dl)
    ensures BodyBits(ts, ll, dl) ==
      TokenBits(ts[0], ll, dl) + (TokenBits(ts[1], ll, dl) + (TokenBits(ts[2], ll, dl) + (TokenBits(ts[3], ll, dl)
      + (TokenBits(ts[4], ll, dl) + (TokenBits(ts[5], ll, dl) + Codeword(ll, END_OF_BLOCK))))))
  {
    BodyTail(ts, ll, dl);
    BodyStep(ts, 0, ll, dl);
    BodyStep(ts, 1, ll, dl);
    BodyStep(ts, 2, ll, dl);
    assert ts[0..] == ts;
  }

  lemma BodyTail(ts: seq<Token>, ll: seq<nat>, dl: seq<nat>)
    requires |ts| == 6 && BodyOk(ts, ll, dl)
    ensures BodyFrom(ts, 3, ll, dl) == TokenBits(ts[3], ll, dl)
      + (TokenBits(ts[4], ll, dl) + (TokenBits(ts[5], ll, dl) + Codeword(ll, END_OF_BLOCK)))
  {
    BodyStep(ts, 3, ll, dl);
    BodyStep(ts, 4, ll, dl);
    BodyStep(ts, 5, ll, dl);
    assert ts[6..] == [];
    assert [] + Codeword(ll, END_OF_BLOCK) == Codeword(ll, END_OF_BLOCK);
  }

  /** The codewords of the tokens and of the end-of-block symbol, with given codes. */
  predicate Spelled(ts: seq<Token>, ll: seq<nat>, dl: seq<nat>) {
    && |ts| == 6 && BodyOk(ts, ll, dl)
    && TokenBits(ts[0], ll, dl) == [true, false, true, false, false, false, true, true]
    && TokenBits(ts[1], ll, dl) == [true, false, false, true, false, false, false, true]
    && TokenBits(ts[2], ll, dl) == [true, false, false, true, true, true, false, false]
    && TokenBits(ts[3], ll, dl) == [true, false, true, false, false, true, false, false]
    && TokenBits(ts[4], ll, dl) == [true, false, true, false, true, false, false, true]
    && TokenBits(ts[5], ll, dl) ==
      [false, false, false, true, false, false, true] + [true] + [false, false, true, false, false] + [false]
    && Codeword(ll, END_OF_BLOCK) == [false, false, false, false, false, false, false]
  }

  lemma SpelledPacks(ts: seq<Token>, ll: seq<nat>, dl: seq<nat>)
    requires Spelled(ts, ll, dl)
    ensures BytesBits(PACKED) == [true, true, false] + BodyBits(ts, ll, dl)
  {
    LastBytes(TokenBits(ts[4], ll, dl)[5..], TokenBits(ts[5], ll, dl), Codeword(ll, END_OF_BLOCK));
    Packing(TokenBits(ts[0], ll, dl), TokenBits(ts[1], ll, dl), TokenBits(ts[2], ll, dl), TokenBits(ts[3], ll, dl),
      TokenBits(ts[4], ll, dl), TokenBits(ts[5], ll, dl) + Codeword(ll, END_OF_BLOCK));
    BodyIs(ts, ll, dl);
  }

  lemma TokensFit(ts: seq<Token>, ll: seq<nat>, dl: seq<nat>)
    requires ts == TOKENS && ll == FixedLit() && dl == FixedDist()
    ensures Spelled(ts, ll, dl)
  {
    LiteralBits(115, [true, false, true, false, false, false, true, true]);
    LiteralBits(97, [true, false, false, true, false, false, false, true]);
    LiteralBits(108, [true, false, false, true, true, true, false, false]);
    LiteralBits(116, [true, false, true, false, false, true, false, false]);
    LiteralBits(121, [true, false, true, false, true, false, false, true]);
    MatchCodewords(ll, dl);
    MatchWritten(ll, dl);
    EndBits();
    SixOk(ts, ll, dl);
  }

  lemma EndBits()
    ensures Used(FixedLit(), 256)
    ensures Codeword(FixedLit(), 256) == [false, false, false, false, false, false, false]
  {
    FixedLitCode(256);
    SevenBits();
  }

  lemma SixOk(ts: seq<Token>, ll: seq<nat>, dl: seq<nat>)
    requires |ts| == 6 && TokenOk(ts[0], ll, dl) && TokenOk(ts[1], ll, dl) && TokenOk(ts[2], ll, dl)
    requires TokenOk(ts[3], ll, dl) && TokenOk(ts[4], ll, dl) && TokenOk(ts[5], ll, dl)
    ensures TokensOk(ts, ll, dl)
  {
  }

  lemma OneFixedBlock(ts: seq<Token>, p: seq<byte>)
    requires BodyOk(ts, FixedLit(), FixedDist())
    requires BytesBits(p) == [true, true, false] + BodyBits(ts, FixedLit(), FixedDist())
    ensures BlocksOk([Fixed(ts)]) && BytesBits(p) == BlocksBits([Fixed(ts)])
  {
    BlockStart(Fixed(ts), true);
  }

  // ----- what it stands for

  lemma {:induction false} LiteralsSay(ts: seq<Token>, out: seq<byte>, k: nat)
    requires k <= |out| <= |ts| && forall i :: 0 <= i < |out| ==> ts[i] == Literal(out[i])
    requires forall i :: 0 <= i < |ts| && ts[i].Match? ==> 257 <= ts[i].lsym < 286 && ts[i].dsym < 30
    ensures TokensOut(ts, []) == TokensOut(ts[k..], out[..k])
  {
    if k == 0 {
      assert ts[0..] == ts && out[..0] == [];
    } else {
      LiteralsSay(ts, out, k - 1);
      assert ts[k - 1..][1..] == ts[k..];
      assert out[..k - 1] + [out[k - 1]] == out[..k];
    }
  }

  lemma FiveAndAMatch(ts: seq<Token>, out: seq<byte>)
    requires |ts| == 6 && |out| == 5 && ts[5] == Match(265, 1, 4, 0)
    requires forall i :: 0 <= i < 5 ==> ts[i] == Literal(out[i])
    ensures TokensOut(ts, []) == Some(Copy(out, 5, 12))
  {
    LiteralsSay(ts, out, 5);
    assert out[..5] == out;
    LengthNumbers(8);
    DistNumbers(4);
    Pow2Small();
    assert ts[5..][1..] == [];
  }

  lemma TwelveOfFive(out: seq<byte>)
    requires |out| == 5
    ensures Copy(out, 5, 12) == out + (out + (out + out[..2]))
  {
    var r := Copy(out, 5, 12);
    CopyEquation(out, 5, 12);
    assert r[..5] == out;
    assert r[5..10] == out;
    assert r[10..15] == out;
    assert r[15..] == out[..2];
    assert r == r[..5] + (r[5..10] + (r[10..15] + r[15..]));
  }

  lemma TokensSay()
    ensures TokensOut(TOKENS, []) == Some(SAID)
  {
    var out: seq<byte> := [115, 97, 108, 116, 121];
    FiveAndAMatch(TOKENS, out);
    TwelveOfFive(out);
    assert out + (out + (out + out[..2])) == SAID;
  }

  lemma GoodStart(body: seq<byte>)
    requires |body| > 0
    ensures GoodHeader([0x78, 0xda] + body) && ([0x78, 0xda] + body)[2..] == body
  {
  }

  /** The header and the eight bytes of the block, with any two bytes behind them, decode to "saltysaltysaltysa". */
  lemma Example(a: byte, b: byte)
    ensures Decoded([0x78, 0xda] + (PACKED + [a, b]), 17, true) == Some(SAID)
  {
    GoodStart(PACKED + [a, b]);
    TokensFit(TOKENS, FixedLit(), FixedDist());
    SpelledPacks(TOKENS, FixedLit(), FixedDist());
    OneFixedBlock(TOKENS, PACKED);
    TokensSay();
    BytesBitsAppend(PACKED, [a, b]);
    ExampleBlock([0x78, 0xda] + (PACKED + [a, b]), TOKENS, BytesBits([a, b]), SAID);
  }

  lemma ExampleBlock(input: seq<byte>, ts: seq<Token>, x: seq<bool>, said: seq<byte>)
    requires GoodHeader(input) && BlocksOk([Fixed(ts)])
    requires BytesBits(input[2..]) == BlocksBits([Fixed(ts)]) + x && |x| >= 16
    requires TokensOut(ts, []) == Some(said)
    ensures Decoded(input, |said|, true) == Some(said)
  {
    DecodeComplete(input, |said|, true, [Fixed(ts)], x);
  }
}
