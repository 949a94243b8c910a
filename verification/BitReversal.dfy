/** Reversing bits: `stbi__bitreverse16` exchanges groups of 1, 2, 4 and 8 bits.

    Each of its lines is computed with bitwise and and or, bit by bit.  A mask is read digit by
    digit; it selects the upper or the lower groups, so that a line takes every bit from its
    partner in the other half of the group. */
module BitReversal {
  import opened Bits

  // ----- bitwise operations

  /** `a & b` */
  function And(a: nat, b: nat): nat {
    if a == 0 then 0 else Bit(a % 2 == 1 && b % 2 == 1) + 2 * And(a / 2, b / 2)
  }

  /** `a | b` */
  function Or(a: nat, b: nat): nat
    decreases a + b
  {
    if a == 0 && b == 0 then 0 else Bit(a % 2 == 1 || b % 2 == 1) + 2 * Or(a / 2, b / 2)
  }

  /** Bit `i` of `v`. */
  predicate BitOf(v: nat, i: nat) {
    if i == 0 then v % 2 == 1 else BitOf(v / 2, i - 1)
  }

  lemma {:induction false} AndBit(a: nat, b: nat, i: nat)
    ensures BitOf(And(a, b), i) == (BitOf(a, i) && BitOf(b, i))
    decreases i
  {
    AndHalves(a, b);
    if i > 0 {
      AndBit(a / 2, b / 2, i - 1);
    }
  }

  lemma AndHalves(a: nat, b: nat)
    ensures And(a, b) % 2 == Bit(a % 2 == 1 && b % 2 == 1) && And(a, b) / 2 == And(a / 2, b / 2)
  {
  }

  lemma {:induction false} OrBit(a: nat, b: nat, i: nat)
    ensures BitOf(Or(a, b), i) == (BitOf(a, i) || BitOf(b, i))
    decreases i
  {
    OrHalves(a, b);
    if i > 0 {
      OrBit(a / 2, b / 2, i - 1);
    }
  }

  lemma OrHalves(a: nat, b: nat)
    ensures Or(a, b) % 2 == Bit(a % 2 == 1 || b % 2 == 1) && Or(a, b) / 2 == Or(a / 2, b / 2)
  {
  }

  lemma {:induction false} ShrBit(v: nat, k: nat, i: nat)
    ensures BitOf(Shr(v, k), i) == BitOf(v, i + k)
  {
    if k > 0 {
      ShrBit(v / 2, k - 1, i);
    }
  }

  lemma {:induction false} ShlBit(v: nat, k: nat, i: nat)
    ensures BitOf(Shl(v, k), i) == (i >= k && BitOf(v, i - k))
  {
    if k > 0 && i > 0 {
      ShlBit(v, k - 1, i - 1);
    }
  }

  lemma {:induction false} SmallBit(v: nat, n: nat, i: nat)
    requires v < Pow2(n) && i >= n
    ensures !BitOf(v, i)
    decreases i
  {
    if n > 0 {
      SmallBit(v / 2, n - 1, i - 1);
    } else if i > 0 {
      SmallBit(0, 0, i - 1);
    }
  }

  lemma {:induction false} BitOfBits(v: nat, n: nat, i: nat)
    requires i < n
    ensures ToBits(v, n)[i] == BitOf(v, i)
  {
    if i > 0 {
      BitOfBits(v / 2, n - 1, i - 1);
    }
  }

  // ----- the masks

  lemma {:induction false} SumBit(a: nat, v: nat, n: nat, i: nat)
    requires a < Pow2(n)
    ensures BitOf(a + Shl(v, n), i) == if i < n then BitOf(a, i) else BitOf(v, i - n)
    decreases n
  {
    if n > 0 && i > 0 {
      SumBit(a / 2, v, n - 1, i - 1);
      assert (a + Shl(v, n)) / 2 == a / 2 + Shl(v, n - 1);
    }
  }

  /** A hexadecimal digit in front of others. */
  lemma DigitBit(a: nat, v: nat, i: nat)
    requires a < 16
    ensures BitOf(a + 16 * v, i) == if i < 4 then BitOf(a, i) else BitOf(v, i - 4)
  {
    assert Shl(v, 1) == 2 * v;
    assert Shl(v, 2) == 4 * v;
    assert Shl(v, 3) == 8 * v;
    assert Pow2(4) == 16;
    SumBit(a, v, 4, i);
  }

  /** Four hexadecimal digits, the lowest first. */
  lemma DigitsBit(m: nat, a: nat, b: nat, c: nat, d: nat, i: nat)
    requires a < 16 && b < 16 && c < 16 && d < 16 && m == a + 16 * (b + 16 * (c + 16 * d))
    ensures BitOf(m, i) ==
      if i < 4 then BitOf(a, i) else if i < 8 then BitOf(b, i - 4)
      else if i < 12 then BitOf(c, i - 8) else BitOf(d, i - 12)
  {
    DigitBit(a, b + 16 * (c + 16 * d), i);
    if i >= 4 {
      DigitBit(b, c + 16 * d, i - 4);
    }
    if i >= 8 {
      DigitBit(c, d, i - 8);
    }
  }

  type Width = w: nat | w == 1 || w == 2 || w == 4 || w == 8 witness 1

  /** Whether bit `i` lies in an upper group of `w` bits. */
  predicate Upper(i: nat, w: Width) {
    if w == 1 then i % 2 >= 1 else if w == 2 then i % 4 >= 2 else if w == 4 then i % 8 >= 4 else i % 16 >= 8
  }

  /** `m` selects the upper (or the lower) groups of `w` bits in a 16-bit word. */
  ghost predicate Selects(m: nat, w: Width, upper: bool) {
    forall i: nat :: BitOf(m, i) == (i < 16 && Upper(i, w) == upper)
  }

  /** Digit `k` of a mask has the bits it should have. */
  predicate DigitSelects(a: nat, k: nat, w: Width, upper: bool) {
    a < 16 && forall j :: 0 <= j < 4 ==> BitOf(a, j) == (Upper(j + 4 * k, w) == upper)
  }

  lemma SelectsIf(m: nat, w: Width, upper: bool, a: nat, b: nat, c: nat, d: nat)
    requires DigitSelects(a, 0, w, upper) && DigitSelects(b, 1, w, upper)
    requires DigitSelects(c, 2, w, upper) && DigitSelects(d, 3, w, upper)
    requires m == a + 16 * (b + 16 * (c + 16 * d))
    ensures Selects(m, w, upper)
  {
    forall i: nat
      ensures BitOf(m, i) == (i < 16 && Upper(i, w) == upper)
    {
      DigitsBit(m, a, b, c, d, i);
      if i >= 16 {
        assert Pow2(4) == 16;
        SmallBit(d, 4, i - 12);
      }
    }
  }

  lemma DigitBits()
    ensures forall j :: 0 <= j < 4 ==> !BitOf(0, j) && BitOf(15, j)
    ensures forall j :: 0 <= j < 4 ==> BitOf(3, j) == (j < 2) && BitOf(12, j) == (j >= 2)
    ensures forall j :: 0 <= j < 4 ==> BitOf(5, j) == (j % 2 == 0) && BitOf(10, j) == (j % 2 == 1)
  {
    forall j | 0 <= j < 4
      ensures !BitOf(0, j) && BitOf(15, j) && BitOf(3, j) == (j < 2) && BitOf(12, j) == (j >= 2)
      ensures BitOf(5, j) == (j % 2 == 0) && BitOf(10, j) == (j % 2 == 1)
    {
      assert j == 0 || j == 1 || j == 2 || j == 3;
    }
  }

  lemma Digits1(k: nat)
    requires k < 4
    ensures DigitSelects(10, k, 1, true) && DigitSelects(5, k, 1, false)
  {
    DigitBits();
    forall j | 0 <= j < 4
      ensures (j + 4 * k) % 2 == j % 2
    {
      SameParity(j, 2 * k);
    }
  }

  lemma SameParity(j: nat, k: nat)
    ensures (j + 2 * k) % 2 == j % 2
  {
  }

  lemma Digits2(k: nat)
    requires k < 4
    ensures DigitSelects(12, k, 2, true) && DigitSelects(3, k, 2, false)
  {
    DigitBits();
    assert k == 0 || k == 1 || k == 2 || k == 3;
  }

  lemma Digits4(k: nat)
    requires k < 4
    ensures DigitSelects(if k % 2 == 1 then 15 else 0, k, 4, true)
    ensures DigitSelects(if k % 2 == 1 then 0 else 15, k, 4, false)
  {
    DigitBits();
    assert k == 0 || k == 1 || k == 2 || k == 3;
  }

  lemma Digits8(k: nat)
    requires k < 4
    ensures DigitSelects(if k >= 2 then 15 else 0, k, 8, true)
    ensures DigitSelects(if k >= 2 then 0 else 15, k, 8, false)
  {
    DigitBits();
    assert k == 0 || k == 1 || k == 2 || k == 3;
  }

  lemma Masks1(upper: nat, lower: nat)
    requires upper == 0xAAAA && lower == 0x5555
    ensures Selects(upper, 1, true) && Selects(lower, 1, false)
  {
    Digits1(0);
    Digits1(1);
    Digits1(2);
    Digits1(3);
    SelectsIf(upper, 1, true, 10, 10, 10, 10);
    SelectsIf(lower, 1, false, 5, 5, 5, 5);
  }

  lemma Masks2(upper: nat, lower: nat)
    requires upper == 0xCCCC && lower == 0x3333
    ensures Selects(upper, 2, true) && Selects(lower, 2, false)
  {
    Digits2(0);
    Digits2(1);
    Digits2(2);
    Digits2(3);
    SelectsIf(upper, 2, true, 12, 12, 12, 12);
    SelectsIf(lower, 2, false, 3, 3, 3, 3);
  }

  lemma Masks4(upper: nat, lower: nat)
    requires upper == 0xF0F0 && lower == 0x0F0F
    ensures Selects(upper, 4, true) && Selects(lower, 4, false)
  {
    Digits4(0);
    Digits4(1);
    Digits4(2);
    Digits4(3);
    SelectsIf(upper, 4, true, 0, 15, 0, 15);
    SelectsIf(lower, 4, false, 15, 0, 15, 0);
  }

  lemma Masks8(upper: nat, lower: nat)
    requires upper == 0xFF00 && lower == 0x00FF
    ensures Selects(upper, 8, true) && Selects(lower, 8, false)
  {
    Digits8(0);
    Digits8(1);
    Digits8(2);
    Digits8(3);
    SelectsIf(upper, 8, true, 0, 0, 15, 15);
    SelectsIf(lower, 8, false, 15, 15, 0, 0);
  }

  // ----- reversing

  /** One line of `stbi__bitreverse16`, such as `((n & 0xCCCC) >> 2) | ((n & 0x3333) << 2)`. */
  function Exchange(n: nat, upper: nat, lower: nat, w: Width): nat {
    Or(Shr(And(n, upper), w), Shl(And(n, lower), w))
  }

  /** Where bit `i` of a line comes from: `w` places above or below. */
  function Partner(i: nat, w: Width): (r: nat)
    requires i < 16
    ensures r < 16
  {
    if Upper(i, w) then i - w else i + w
  }

  lemma Group1(i: nat)
    ensures (i + 1) % 2 >= 1 <==> i % 2 < 1
    ensures i >= 1 ==> ((i - 1) % 2 >= 1 <==> i % 2 < 1)
  {
  }

  lemma Group2(i: nat)
    ensures (i + 2) % 4 >= 2 <==> i % 4 < 2
    ensures i >= 2 ==> ((i - 2) % 4 >= 2 <==> i % 4 < 2)
  {
  }

  lemma Group4(i: nat)
    ensures (i + 4) % 8 >= 4 <==> i % 8 < 4
    ensures i >= 4 ==> ((i - 4) % 8 >= 4 <==> i % 8 < 4)
  {
    var q, r := i / 8, i % 8;
    if r < 4 {
      assert i + 4 == 8 * q + (r + 4) && i - 4 == 8 * (q - 1) + (r + 4);
    } else {
      assert i + 4 == 8 * (q + 1) + (r - 4) && i - 4 == 8 * q + (r - 4);
    }
  }

  lemma Group8(i: nat)
    ensures (i + 8) % 16 >= 8 <==> i % 16 < 8
    ensures i >= 8 ==> ((i - 8) % 16 >= 8 <==> i % 16 < 8)
  {
    var q, r := i / 16, i % 16;
    if r < 8 {
      assert i + 8 == 16 * q + (r + 8) && i - 8 == 16 * (q - 1) + (r + 8);
    } else {
      assert i + 8 == 16 * (q + 1) + (r - 8) && i - 8 == 16 * q + (r - 8);
    }
  }

  /** The bits `w` above and `w` below lie in groups of the other kind. */
  lemma PartnerGroup(i: nat, w: Width)
    ensures Upper(i + w, w) == !Upper(i, w) && (i >= w ==> Upper(i - w, w) == !Upper(i, w))
    ensures i < 16 && !Upper(i, w) ==> i + w < 16
    ensures Upper(i, w) ==> i >= w
  {
    Group1(i);
    Group2(i);
    Group4(i);
    Group8(i);
  }

  lemma ExchangeBit(n: nat, upper: nat, lower: nat, w: Width, i: nat)
    requires Selects(upper, w, true) && Selects(lower, w, false)
    ensures BitOf(Exchange(n, upper, lower, w), i) == (i < 16 && BitOf(n, Partner(i, w)))
  {
    PartnerGroup(i, w);
    OrBit(Shr(And(n, upper), w), Shl(And(n, lower), w), i);
    ShrBit(And(n, upper), w, i);
    AndBit(n, upper, i + w);
    ShlBit(And(n, lower), w, i);
    if i >= w {
      AndBit(n, lower, i - w);
    }
  }

  lemma PartnerChain(i: nat)
    requires i < 16
    ensures Partner(Partner(Partner(Partner(i, 8), 4), 2), 1) == 15 - i
  {
  }

  /** The four lines of `stbi__bitreverse16`. */
  function BitReverse16(n: nat): nat {
    var n1 := Exchange(n, 0xAAAA, 0x5555, 1);
    var n2 := Exchange(n1, 0xCCCC, 0x3333, 2);
    var n3 := Exchange(n2, 0xF0F0, 0x0F0F, 4);
    Exchange(n3, 0xFF00, 0x00FF, 8)
  }

  /** They move bit `15 - i` to bit `i` and leave nothing else. */
  lemma BitReverse16Bit(n: nat, i: nat)
    ensures BitOf(BitReverse16(n), i) == (i < 16 && BitOf(n, 15 - i))
  {
    var n1 := Exchange(n, 0xAAAA, 0x5555, 1);
    var n2 := Exchange(n1, 0xCCCC, 0x3333, 2);
    var n3 := Exchange(n2, 0xF0F0, 0x0F0F, 4);
    Masks1(0xAAAA, 0x5555);
    Masks2(0xCCCC, 0x3333);
    Masks4(0xF0F0, 0x0F0F);
    Masks8(0xFF00, 0x00FF);
    ExchangeBit(n3, 0xFF00, 0x00FF, 8, i);
    if i < 16 {
      PartnerChain(i);
      var i3 := Partner(i, 8);
      var i2 := Partner(i3, 4);
      ExchangeBit(n2, 0xF0F0, 0x0F0F, 4, i3);
      ExchangeBit(n1, 0xCCCC, 0x3333, 2, i2);
      ExchangeBit(n, 0xAAAA, 0x5555, 1, Partner(i2, 2));
    }
  }

  lemma {:induction false} SameBits(a: nat, b: nat)
    requires forall i: nat :: BitOf(a, i) == BitOf(b, i)
    ensures a == b
    decreases a + b
  {
    assert BitOf(a, 0) == BitOf(b, 0);
    if a > 0 || b > 0 {
      forall i: nat
        ensures BitOf(a / 2, i) == BitOf(b / 2, i)
      {
        assert BitOf(a, i + 1) == BitOf(b, i + 1);
      }
      SameBits(a / 2, b / 2);
    }
  }

  /** They reverse the 16 low bits. */
  lemma BitReverse16Is(n: nat)
    ensures BitReverse16(n) == FromMsb(ToBits(n, 16))
  {
    var b := ToBits(n, 16);
    var r := FromBits(Reverse(b));
    FromMsbIsReversed(b);
    ToFromBits(Reverse(b));
    forall i: nat
      ensures BitOf(BitReverse16(n), i) == BitOf(r, i)
    {
      BitReverse16Bit(n, i);
      if i < 16 {
        BitOfBits(r, 16, i);
        BitOfBits(n, 16, 15 - i);
      } else {
        SmallBit(r, 16, i);
      }
    }
    SameBits(BitReverse16(n), r);
  }

  /** `stbi__bit_reverse`: reverse all 16 bits, then shift the unwanted ones away. */
  function BitReverse(v: nat, bits: nat): (r: nat)
    requires bits <= 16
    ensures r < Pow2(bits)
    ensures r == FromMsb(ToBits(v, bits))
  {
    BitReverse16Is(v);
    FromMsbPrefix(ToBits(v, 16), bits);
    LowIsPrefix(v, 16, bits);
    Shr(BitReverse16(v), 16 - bits)
  }
}
