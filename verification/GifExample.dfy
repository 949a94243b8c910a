/** One GIF raster, byte for byte: code size 2 and six indices 1, written as the codes clear, 1, 6 and 7 of three
    bits and the end code of four.  It fixes the order of bits, the two control codes and the width's growth. */
module GifExample {
  import opened Bits
  import opened BitNumbers
  import opened Lzw
  import opened Gif
  import opened GifNumbers

  /** The decoder after a run of `n` indices 1. */
  function AfterRun(n: nat): (s: Lzw)
    requires 1 <= n <= 3
  {
    var t: seq<seq<byte>> := [[0], [1], [2], [3], [], []];
    if n == 1 then Lzw(t, 1, 3, false)
    else if n == 2 then Lzw(t + [[1, 1]], 6, 3, false)
    else Lzw(t + [[1, 1]] + [[1, 1, 1]], 7, 4, false)
  }

  lemma FirstRun()
    ensures Step(2, Reset(2), 1) == Go(AfterRun(1), [1])
  {
    Pow2Small();
    WidthNumbers(3, 6);
    assert Reset(2).table == AfterRun(1).table;
  }

  lemma SecondRun()
    ensures Ok(2, AfterRun(1)) && Step(2, AfterRun(1), 6) == Go(AfterRun(2), [1, 1])
  {
    Pow2Small();
    WidthNumbers(3, 7);
    assert NewEntry(AfterRun(1), 6) == [1, 1];
  }

  lemma ThirdRun()
    ensures Ok(2, AfterRun(2)) && Step(2, AfterRun(2), 7) == Go(AfterRun(3), [1, 1, 1])
  {
    Pow2Small();
    WidthNumbers(3, 8);
    assert NewEntry(AfterRun(2), 7) == [1, 1, 1];
  }

  lemma ThreeBits(a: bool, b: bool, c: bool)
    ensures FromBits([a, b, c]) == Bit(a) + 2 * Bit(b) + 4 * Bit(c)
  {
    assert [a, b, c][1..] == [b, c] && [b, c][1..] == [c] && [c][1..] == [];
    assert FromBits([c]) == Bit(c);
    assert FromBits([b, c]) == Bit(b) + 2 * Bit(c);
  }

  lemma EndCode(bits: seq<bool>)
    requires bits == [true, false, true, false]
    ensures Ok(2, AfterRun(3)) && Decode(2, AfterRun(3), bits) == Result(true, [])
  {
    ThirdRun();
    StepOk(2, AfterRun(2), 7);
    Pow2Small();
    ThreeBits(false, true, false);
    assert bits[1..] == [false, true, false];
    assert bits[..4] == bits;
    assert FromBits(bits) == 5;
  }

  /** The codes 1, 6 and 7 and the end code. */
  lemma DataCodes(a: seq<bool>, b: seq<bool>, c: seq<bool>, z: seq<bool>)
    requires a == [true, false, false] && b == [false, true, true] && c == [true, true, true]
    requires z == [true, false, true, false]
    ensures Decode(2, Reset(2), a + (b + (c + z))) == Result(true, [1, 1, 1, 1, 1, 1])
  {
    ThreeBits(true, false, false);
    ThreeBits(false, true, true);
    ThreeBits(true, true, true);
    FirstRun();
    SecondRun();
    ThirdRun();
    EndCode(z);
    DecodeData(2, Reset(2), a, b + (c + z), 1, AfterRun(1), [1]);
    DecodeData(2, AfterRun(1), b, c + z, 6, AfterRun(2), [1, 1]);
    DecodeData(2, AfterRun(2), c, z, 7, AfterRun(3), [1, 1, 1]);
  }

  lemma SixteenBits()
    ensures [false, false, true, true, false, false, false, true] + [true, true, true, true, true, false, true, false]
      == [false, false, true] + ([true, false, false] + ([false, true, true] + ([true, true, true]
      + [true, false, true, false])))
  {
  }

  /** The five bytes of the raster. */
  lemma Example()
    ensures DecodeBlocks([2, 2, 0x8C, 0x5F, 0], 0) == Result(true, [1, 1, 1, 1, 1, 1])
  {
    var src: seq<byte> := [2, 2, 0x8C, 0x5F, 0];
    var low := [false, false, true, true, false, false, false, true];
    var high := [true, true, true, true, true, false, true, false];
    BlockNumbers(src, 1, [[0x8C, 0x5F]]);
    OctetBits(0x8C, low);
    OctetBits(0x5F, high);
    BytesBitsAppend([0x8C], [0x5F]);
    assert [0x8C as byte] + [0x5F] == [0x8C, 0x5F];
    var k, a, b, c := [false, false, true], [true, false, false], [false, true, true], [true, true, true];
    var z := [true, false, true, false];
    SixteenBits();
    Pow2Small();
    ThreeBits(false, false, true);
    DecodeControl(2, Start(2), k, a + (b + (c + z)));
    DataCodes(a, b, c, z);
  }
}
