/** The check value of the CRC-16: its start, polynomial and bit order on the nine digits "123456789". */
module CrcCheckValue {
  import opened Words
  import opened Bits
  import opened Crc16

  lemma {:induction false} LowShifts(c: Register, n: nat)
    requires n <= 16 && forall i :: 16 - n <= i < 16 ==> !c[i]
    ensures Shifts(c, n) == Shl(c, n)
  {
    hide ShiftBit;
    if n > 0 {
      LowShifts(c, n - 1);
      PlainShift(Shl(c, n - 1));
    }
  }

  lemma PlainShift(c: Register)
    requires !c[15]
    ensures ShiftBit(c) == Shl(c, 1)
  {
  }

  /** Absorbing a byte divides the high byte, and moves the low byte up. */
  lemma AbsorbByTable(c: Register, b: uint8) returns (q: Register)
    ensures var x := Xor(c, HighBits(b)); Divided(x, q) && Absorb(c, b) == Xor(q, Shl(x, 8))
  {
    hide Shifts;
    var x := Xor(c, HighBits(b));
    var high, low := Zeros(8) + x[8..], x[..8] + Zeros(8);
    assert x == Xor(low, high);
    ShiftsXor(low, high, 8);
    LowShifts(low, 8);
    ByteDivided(high);
    q := Shifts(high, 8);
    assert Shl(low, 8) == Shl(x, 8);
    assert Xor(Shl(x, 8), q) == Xor(q, Shl(x, 8));
  }

  /** `r` is the register after `c` and a byte of bits `w`. */
  predicate Follows(c: Register, w: Word, r: Register)
    requires |w| == 8
  {
    var x0, x1, x2, x3 := c[8] != w[0], c[9] != w[1], c[10] != w[2], c[11] != w[3];
    var x4, x5, x6, x7 := c[12] != w[4], c[13] != w[5], c[14] != w[6], c[15] != w[7];
    var f4, f5, f6, f7 := x3 != x7, x2 != x6, x1 != x5, x0 != x4;
    && r[15] == (f4 != c[7]) && r[14] == (f5 != c[6]) && r[13] == (f6 != c[5]) && r[12] == ((f7 != x7) != c[4])
    && r[11] == (x6 != c[3]) && r[10] == (x5 != c[2]) && r[9] == (x4 != c[1]) && r[8] == (f4 != c[0])
    && r[7] == (x7 != f5) && r[6] == (x6 != f6) && r[5] == (x5 != f7)
    && r[4] == x4 && r[3] == f4 && r[2] == f5 && r[1] == f6 && r[0] == f7
  }

  lemma AbsorbsTo(c: Register, b: uint8, r: Register)
    requires Follows(c, FromInt(b, 8), r)
    ensures Absorb(c, b) == r
  {
    hide FromInt, Absorb;
    var q := AbsorbByTable(c, b);
    var x := Xor(c, HighBits(b));
    forall i | 0 <= i < 16
      ensures Xor(q, Shl(x, 8))[i] == r[i]
    {
      assert Shl(x, 8)[i] == (i >= 8 && c[i - 8]);
    }
  }

  // The registers after each digit of "123456789".

  /** 0xC782 */
  const AFTER_1: Register :=
    [false, true, false, false, false, false, false, true, true, true, true, false, false, false, true, true]

  /** 0x3DBA */
  const AFTER_2: Register :=
    [false, true, false, true, true, true, false, true, true, false, true, true, true, true, false, false]

  /** 0x5BCE */
  const AFTER_3: Register :=
    [false, true, true, true, false, false, true, true, true, true, false, true, true, false, true, false]

  /** 0x5349 */
  const AFTER_4: Register :=
    [true, false, false, true, false, false, true, false, true, true, false, false, true, false, true, false]

  /** 0x4560 */
  const AFTER_5: Register :=
    [false, false, false, false, false, true, true, false, true, false, true, false, false, false, true, false]

  /** 0x2EF4 */
  const AFTER_6: Register :=
    [false, false, true, false, true, true, true, true, false, true, true, true, false, true, false, false]

  /** 0x7718 */
  const AFTER_7: Register :=
    [false, false, false, true, true, false, false, false, true, true, true, false, true, true, true, false]

  /** 0xA12B */
  const AFTER_8: Register :=
    [true, true, false, true, false, true, false, false, true, false, false, false, false, true, false, true]

  /** 0x29B1 */
  const AFTER_9: Register :=
    [true, false, false, false, true, true, false, true, true, false, false, true, false, true, false, false]

  lemma FourSteps(x: nat)
    ensures FromInt(x, 8)
         == [x % 2 == 1, x / 2 % 2 == 1, x / 2 / 2 % 2 == 1, x / 2 / 2 / 2 % 2 == 1] + FromInt(x / 2 / 2 / 2 / 2, 4)
  {
    hide FromInt;
    FromIntStep(x, 7);
    FromIntStep(x / 2, 6);
    FromIntStep(x / 2 / 2, 5);
    FromIntStep(x / 2 / 2 / 2, 4);
  }

  lemma FromIntStep(x: nat, n: nat)
    ensures FromInt(x, n + 1) == [x % 2 == 1] + FromInt(x / 2, n)
  {
  }

  lemma HighNibble()
    ensures FromInt(3, 4) == [true, true, false, false]
  {
  }

  lemma DigitBits(d: nat)
    requires d <= 9
    ensures FromInt(0x30 + d, 8)
         == [d % 2 == 1, d / 2 % 2 == 1, d / 2 / 2 % 2 == 1, d / 2 / 2 / 2 % 2 == 1] + [true, true, false, false]
  {
    hide FromInt;
    FourSteps(0x30 + d);
    HighNibble();
    assert (0x30 + d) / 2 == 0x18 + d / 2 && (0x18 + d / 2) / 2 == 0x0C + d / 2 / 2;
    assert (0x0C + d / 2 / 2) / 2 == 0x06 + d / 2 / 2 / 2 && (0x06 + d / 2 / 2 / 2) / 2 == 3;
  }

  lemma DigitAbsorbed(c: Register, d: nat, r: Register)
    requires d <= 9
    requires
      Follows(c, [d % 2 == 1, d / 2 % 2 == 1, d / 2 / 2 % 2 == 1, d / 2 / 2 / 2 % 2 == 1, true, true, false, false], r)
    ensures Absorb(c, 0x30 + d) == r
  {
    hide FromInt, Absorb, Follows;
    DigitBits(d);
    assert [d % 2 == 1, d / 2 % 2 == 1, d / 2 / 2 % 2 == 1, d / 2 / 2 / 2 % 2 == 1] + [true, true, false, false]
        == [d % 2 == 1, d / 2 % 2 == 1, d / 2 / 2 % 2 == 1, d / 2 / 2 / 2 % 2 == 1, true, true, false, false];
    AbsorbsTo(c, 0x30 + d, r);
  }

  lemma Digit1()
    ensures Absorb(INIT, 0x31) == AFTER_1
  {
    hide Absorb;
    DigitAbsorbed(INIT, 1, AFTER_1);
  }

  lemma Digit2()
    ensures Absorb(AFTER_1, 0x32) == AFTER_2
  {
    hide Absorb;
    DigitAbsorbed(AFTER_1, 2, AFTER_2);
  }

  lemma Digit3()
    ensures Absorb(AFTER_2, 0x33) == AFTER_3
  {
    hide Absorb;
    DigitAbsorbed(AFTER_2, 3, AFTER_3);
  }

  lemma Digit4()
    ensures Absorb(AFTER_3, 0x34) == AFTER_4
  {
    hide Absorb;
    DigitAbsorbed(AFTER_3, 4, AFTER_4);
  }

  lemma Digit5()
    ensures Absorb(AFTER_4, 0x35) == AFTER_5
  {
    hide Absorb;
    DigitAbsorbed(AFTER_4, 5, AFTER_5);
  }

  lemma Digit6()
    ensures Absorb(AFTER_5, 0x36) == AFTER_6
  {
    hide Absorb;
    DigitAbsorbed(AFTER_5, 6, AFTER_6);
  }

  lemma Digit7()
    ensures Absorb(AFTER_6, 0x37) == AFTER_7
  {
    hide Absorb;
    DigitAbsorbed(AFTER_6, 7, AFTER_7);
  }

  lemma Digit8()
    ensures Absorb(AFTER_7, 0x38) == AFTER_8
  {
    hide Absorb;
    DigitAbsorbed(AFTER_7, 8, AFTER_8);
  }

  lemma Digit9()
    ensures Absorb(AFTER_8, 0x39) == AFTER_9
  {
    hide Absorb;
    DigitAbsorbed(AFTER_8, 9, AFTER_9);
  }

  lemma CrcOneMore(c: Register, bytes: seq<uint8>, b: uint8)
    ensures CrcFrom(c, bytes + [b]) == Absorb(CrcFrom(c, bytes), b)
  {
    hide Absorb;
    assert (bytes + [b])[..|bytes|] == bytes;
  }

  function Digits(n: nat): (s: seq<uint8>)
    requires n <= 9
    ensures |s| == n
  {
    if n == 0 then [] else Digits(n - 1) + [0x30 + n]
  }

  /** The CRC of the characters "123456789" is 0x29B1, the check value of this CRC-16. */
  lemma CheckValue()
    ensures BeBytes(Crc([0x31, 0x32, 0x33, 0x34, 0x35, 0x36, 0x37, 0x38, 0x39])) == [0x29, 0xB1]
  {
    hide Absorb, CrcFrom, Digits;
    DigitsAre();
    DigitsAbsorbed();
    AfterNineBytes();
  }

  lemma DigitsAre()
    ensures Digits(9) == [0x31, 0x32, 0x33, 0x34, 0x35, 0x36, 0x37, 0x38, 0x39]
  {
  }

  lemma AfterNineBytes()
    ensures BeBytes(AFTER_9) == [0x29, 0xB1]
  {
    hide FromInt;
    IntRoundTrip(0x29, 8);
    IntRoundTrip(0xB1, 8);
    HighByteBits();
    LowByteBits();
  }

  lemma HighByteBits()
    ensures FromInt(0x29, 8) == AFTER_9[8..] && Pow2(8) == 0x100
  {
    assert FromInt(0x29, 8) == [true, false, false, true, false, true, false, false];
    UpperHalf();
  }

  lemma UpperHalf()
    ensures AFTER_9[8..] == [true, false, false, true, false, true, false, false]
  {
  }

  lemma LowByteBits()
    ensures FromInt(0xB1, 8) == AFTER_9[..8]
  {
  }

  lemma DigitsAbsorbed()
    ensures CrcFrom(INIT, Digits(9)) == AFTER_9
  {
    hide *;
    NoDigits();
    NextDigit(1);
    Digit1();
    NextDigit(2);
    Digit2();
    NextDigit(3);
    Digit3();
    NextDigit(4);
    Digit4();
    NextDigit(5);
    Digit5();
    NextDigit(6);
    Digit6();
    NextDigit(7);
    Digit7();
    NextDigit(8);
    Digit8();
    NextDigit(9);
    Digit9();
  }

  lemma NoDigits()
    ensures CrcFrom(INIT, Digits(0)) == INIT
  {
  }

  lemma NextDigit(n: nat)
    requires 1 <= n <= 9
    ensures CrcFrom(INIT, Digits(n)) == Absorb(CrcFrom(INIT, Digits(n - 1)), 0x30 + n)
  {
    hide Absorb, CrcFrom;
    CrcOneMore(INIT, Digits(n - 1), 0x30 + n);
  }
}
