/** The CRC-16 (polynomial 0x1021, initial value 0xFFFF) shared by the optical and the transfer protocol. */
module Crc16 {
  import opened Words
  import opened Bits

  type Register = w: Word | |w| == 16
    witness [false, false, false, false, false, false, false, false,
             false, false, false, false, false, false, false, false]

  const INIT: Register :=
    [true, true, true, true, true, true, true, true, true, true, true, true, true, true, true, true]

  /** 0x1021 */
  const POLY: Register :=
    [true, false, false, false, false, true, false, false, false, false, false, false, true, false, false, false]

  /** One step of the division: shift, then subtract the polynomial if a one was shifted out. */
  function ShiftBit(c: Register): Register {
    if c[15] then Xor(Shl(c, 1), POLY) else Shl(c, 1)
  }

  function Shifts(c: Register, n: nat): Register {
    if n == 0 then c else ShiftBit(Shifts(c, n - 1))
  }

  /** `(b as u16) << 8` */
  function HighBits(b: uint8): (w: Register)
    ensures forall i :: 0 <= i < 8 ==> !w[i] && w[i + 8] == FromInt(b, 8)[i]
  {
    Zeros(8) + FromInt(b, 8)
  }

  /** The register after one message byte. */
  function Absorb(c: Register, b: uint8): Register {
    Shifts(Xor(c, HighBits(b)), 8)
  }

  /** The register after a message, starting from register `c`. */
  function CrcFrom(c: Register, bytes: seq<uint8>): Register
    decreases |bytes|
  {
    if bytes == [] then c else Absorb(CrcFrom(c, bytes[..|bytes| - 1]), bytes[|bytes| - 1])
  }

  function Crc(bytes: seq<uint8>): Register {
    CrcFrom(INIT, bytes)
  }

  function ByteOf(w: Word): uint8
    requires |w| == 8
  {
    ToIntBound(w);
    assert Pow2(8) == 0x100;
    ToInt(w)
  }

  /** `u16::to_be_bytes` */
  function BeBytes(c: Register): (bytes: seq<uint8>)
    ensures |bytes| == 2
  {
    [ByteOf(c[8..]), ByteOf(c[..8])]
  }

  /** `u16::to_le_bytes` */
  function LeBytes(c: Register): (bytes: seq<uint8>)
    ensures |bytes| == 2
  {
    [ByteOf(c[..8]), ByteOf(c[8..])]
  }

  method Compute(bytes: seq<uint8>) returns (crc: Register)
    ensures crc == Crc(bytes)
  {
    crc := INIT;
    for i := 0 to |bytes|
      invariant crc == CrcFrom(INIT, bytes[..i])
    {
      crc := Xor(crc, HighBits(bytes[i]));
      ghost var mixed := crc;
      for k := 0 to 8
        invariant crc == Shifts(mixed, k)
      {
        crc := if crc[15] then Xor(Shl(crc, 1), POLY) else Shl(crc, 1);
      }
      assert bytes[..i + 1][..i] == bytes[..i];
    }
    assert bytes[..|bytes|] == bytes;
  }

  // The register step is linear over exclusive or, and injective.

  lemma ShiftBitXor(a: Register, b: Register)
    ensures ShiftBit(Xor(a, b)) == Xor(ShiftBit(a), ShiftBit(b))
  {
  }

  lemma ShiftBitInjective(a: Register, b: Register)
    requires ShiftBit(a) == ShiftBit(b)
    ensures a == b
  {
    assert a[15] == ShiftBit(a)[0] && b[15] == ShiftBit(b)[0];
    forall i | 0 <= i < 15
      ensures a[i] == b[i]
    {
      assert Shl(a, 1)[i + 1] == a[i] && Shl(b, 1)[i + 1] == b[i];
      assert ShiftBit(a)[i + 1] == ShiftBit(b)[i + 1];
    }
  }

  lemma {:induction false} ShiftsXor(a: Register, b: Register, n: nat)
    ensures Shifts(Xor(a, b), n) == Xor(Shifts(a, n), Shifts(b, n))
  {
    hide ShiftBit, Xor;
    if n > 0 {
      ShiftsXor(a, b, n - 1);
      ShiftBitXor(Shifts(a, n - 1), Shifts(b, n - 1));
    }
  }

  lemma {:induction false} ShiftsInjective(a: Register, b: Register, n: nat)
    requires Shifts(a, n) == Shifts(b, n)
    ensures a == b
  {
    hide ShiftBit;
    if n > 0 {
      ShiftBitInjective(Shifts(a, n - 1), Shifts(b, n - 1));
      ShiftsInjective(a, b, n - 1);
    }
  }

  lemma ByteInjective(a: uint8, b: uint8)
    requires FromInt(a, 8) == FromInt(b, 8)
    ensures a == b
  {
    assert Pow2(8) == 0x100;
    IntRoundTrip(a, 8);
    IntRoundTrip(b, 8);
  }

  /** The stored bytes determine the bits they were taken from. */
  lemma ByteOfInjective(v: Word, w: Word)
    requires |v| == |w| == 8 && ByteOf(v) == ByteOf(w)
    ensures v == w
  {
    WordRoundTrip(v);
    WordRoundTrip(w);
  }

  lemma HalvesInjective(c: Register, d: Register)
    requires c[..8] == d[..8] && c[8..] == d[8..]
    ensures c == d
  {
    assert c == c[..8] + c[8..] && d == d[..8] + d[8..];
  }

  /** The register step is a bijection on registers for every message byte. */
  lemma AbsorbInjective(c: Register, d: Register, b: uint8)
    requires Absorb(c, b) == Absorb(d, b)
    ensures c == d
  {
    hide Shifts, HighBits;
    var x, y := Xor(c, HighBits(b)), Xor(d, HighBits(b));
    ShiftsInjective(x, y, 8);
    forall i | 0 <= i < 16
      ensures c[i] == d[i]
    {
      assert x[i] == y[i];
    }
  }

  lemma {:induction false} CrcFromInjective(c: Register, d: Register, bytes: seq<uint8>)
    requires CrcFrom(c, bytes) == CrcFrom(d, bytes)
    ensures c == d
    decreases |bytes|
  {
    hide Absorb;
    if bytes != [] {
      var n := |bytes| - 1;
      AbsorbInjective(CrcFrom(c, bytes[..n]), CrcFrom(d, bytes[..n]), bytes[n]);
      CrcFromInjective(c, d, bytes[..n]);
    }
  }

  lemma {:induction false} CrcFromConcat(c: Register, s: seq<uint8>, t: seq<uint8>)
    ensures CrcFrom(c, s + t) == CrcFrom(CrcFrom(c, s), t)
    decreases |t|
  {
    hide Absorb;
    if t == [] {
      assert s + t == s;
    } else {
      var n := |t| - 1;
      CrcFromConcat(c, s, t[..n]);
      assert (s + t)[..|s + t| - 1] == s + t[..n];
    }
  }

  // What a change of message bytes does to the register.

  /** `r` is `c` after one step, bit by bit. */
  predicate Stepped(c: Register, r: Register) {
    forall i :: 0 <= i < 16 ==> (r[i] <==> ((i > 0 && c[i - 1]) != (c[15] && (i == 0 || i == 5 || i == 12))))
  }

  lemma StepBits(c: Register)
    ensures Stepped(c, ShiftBit(c))
  {
    var shifted, r := Shl(c, 1), ShiftBit(c);
    forall i | 0 <= i < 16
      ensures r[i] <==> ((i > 0 && c[i - 1]) != (c[15] && (i == 0 || i == 5 || i == 12)))
    {
      assert shifted[i] <==> i > 0 && c[i - 1];
      PolyBit(i);
      assert r[i] <==> shifted[i] != (c[15] && POLY[i]);
    }
  }

  lemma PolyBit(i: nat)
    requires i < 16
    ensures POLY[i] <==> i == 0 || i == 5 || i == 12
  {
  }

  lemma EightShifts(d: Register) returns (r: seq<Register>)
    ensures |r| == 9 && r[0] == d && r[8] == Shifts(d, 8)
    ensures forall k :: 0 <= k < 8 ==> Stepped(r[k], r[k + 1])
  {
    hide ShiftBit;
    r := [d];
    for k := 0 to 8
      invariant |r| == k + 1 && r[0] == d && r[k] == Shifts(d, k)
      invariant forall j :: 0 <= j < k ==> Stepped(r[j], r[j + 1])
    {
      StepBits(r[k]);
      r := r + [ShiftBit(r[k])];
    }
  }

  lemma EightSteps(d: Register, r1: Register, r2: Register, r3: Register, r4: Register,
                   r5: Register, r6: Register, r7: Register, r8: Register)
    requires Stepped(d, r1) && Stepped(r1, r2) && Stepped(r2, r3) && Stepped(r3, r4)
    requires Stepped(r4, r5) && Stepped(r5, r6) && Stepped(r6, r7) && Stepped(r7, r8)
    requires forall i :: 0 <= i < 8 ==> !d[i]
    ensures Divided(d, r8)
  {
    // The bits shifted out, first one first.
    assert r1[15] == d[14] && r2[15] == d[13] && r3[15] == d[12];
    assert r4[15] == (d[11] != d[15]) && r5[15] == (d[10] != d[14]);
    assert r6[15] == (d[9] != d[13]) && r7[15] == (d[8] != d[12]);
  }

  /** `r` is what eight steps make of a register `d` whose low byte is zero. */
  predicate Divided(d: Register, r: Register) {
    var f4, f5, f6, f7 := d[11] != d[15], d[10] != d[14], d[9] != d[13], d[8] != d[12];
    && r[15] == f4 && r[14] == f5 && r[13] == f6 && r[12] == (f7 != d[15])
    && r[11] == d[14] && r[10] == d[13] && r[9] == d[12] && r[8] == f4
    && r[7] == (d[15] != f5) && r[6] == (d[14] != f6) && r[5] == (d[13] != f7)
    && r[4] == d[12] && r[3] == f4 && r[2] == f5 && r[1] == f6 && r[0] == f7
  }

  lemma ByteDivided(d: Register)
    requires forall i :: 0 <= i < 8 ==> !d[i]
    ensures Divided(d, Shifts(d, 8))
  {
    hide Shifts, Divided;
    var r := EightShifts(d);
    EightSteps(r[0], r[1], r[2], r[3], r[4], r[5], r[6], r[7], r[8]);
  }

  /** What two bytes absorbed into the same register do to it. */
  lemma AbsorbDifference(c: Register, x: uint8, y: uint8) returns (d: Register)
    ensures d == Xor(HighBits(x), HighBits(y))
    ensures Divided(d, Xor(Absorb(c, x), Absorb(c, y)))
  {
    hide Shifts, HighBits, Divided;
    var a, b := Xor(c, HighBits(x)), Xor(c, HighBits(y));
    d := Xor(HighBits(x), HighBits(y));
    assert d == Xor(a, b);
    ShiftsXor(a, b, 8);
    ByteDivided(d);
  }

  lemma HighBitsInjective(x: uint8, y: uint8)
    requires forall i :: 8 <= i < 16 ==> HighBits(x)[i] == HighBits(y)[i]
    ensures x == y
  {
    forall i | 0 <= i < 8
      ensures FromInt(x, 8)[i] == FromInt(y, 8)[i]
    {
      assert HighBits(x)[i + 8] == HighBits(y)[i + 8];
    }
    ByteInjective(x, y);
  }

  /** The low byte of the register tells which byte was absorbed last. */
  lemma LowByteTellsLast(c: Register, x: uint8, y: uint8)
    requires Absorb(c, x)[..8] == Absorb(c, y)[..8]
    ensures x == y
  {
    hide Absorb, HighBits;
    var d := AbsorbDifference(c, x, y);
    var e := Xor(Absorb(c, x), Absorb(c, y));
    forall i | 0 <= i < 8
      ensures !e[i]
    {
      assert Absorb(c, x)[i] == Absorb(c, x)[..8][i] == Absorb(c, y)[..8][i] == Absorb(c, y)[i];
    }
    assert !d[8] && !d[9] && !d[10] && !d[11] && !d[12] && !d[13] && !d[14] && !d[15];
    HighBitsInjective(x, y);
  }

  /** Two adjacent message bytes are determined by the register before and after them. */
  lemma PairInjective(c: Register, x1: uint8, x2: uint8, y1: uint8, y2: uint8)
    requires Absorb(Absorb(c, x1), x2) == Absorb(Absorb(c, y1), y2)
    ensures x1 == y1 && x2 == y2
  {
    hide Shifts, HighBits;
    var c1, d1 := Absorb(c, x1), Absorb(c, y1);
    var a, b := Xor(c1, HighBits(x2)), Xor(d1, HighBits(y2));
    ShiftsInjective(a, b, 8);
    forall i | 0 <= i < 8
      ensures c1[i] == d1[i]
    {
      assert a[i] == b[i];
    }
    LowByteTellsLast(c, x1, y1);
    forall i | 8 <= i < 16
      ensures HighBits(x2)[i] == HighBits(y2)[i]
    {
      assert a[i] == b[i];
    }
    HighBitsInjective(x2, y2);
  }

  /** `s` and `t` differ at most at indices `k` and `k + 1`. */
  ghost predicate DifferAtPair(s: seq<uint8>, t: seq<uint8>, k: nat) {
    && |s| == |t|
    && k + 1 < |s|
    && forall i :: 0 <= i < |s| && i != k && i != k + 1 ==> s[i] == t[i]
  }

  lemma CrcSplitPair(s: seq<uint8>, k: nat)
    requires k + 1 < |s|
    ensures Crc(s) == CrcFrom(Absorb(Absorb(CrcFrom(INIT, s[..k]), s[k]), s[k + 1]), s[k + 2..])
  {
    hide Absorb;
    assert s == s[..k + 2] + s[k + 2..];
    CrcFromConcat(INIT, s[..k + 2], s[k + 2..]);
    assert s[..k + 2][..k + 1] == s[..k + 1] && s[..k + 1][..k] == s[..k];
  }

  /** A change confined to two adjacent message bytes always changes the CRC. */
  lemma AdjacentPairDetected(s: seq<uint8>, t: seq<uint8>, k: nat)
    requires DifferAtPair(s, t, k)
    requires Crc(s) == Crc(t)
    ensures s == t
  {
    hide Absorb, CrcFrom, Crc;
    var c := CrcFrom(INIT, s[..k]);
    assert s[..k] == t[..k] && s[k + 2..] == t[k + 2..];
    CrcSplitPair(s, k);
    CrcSplitPair(t, k);
    CrcFromInjective(Absorb(Absorb(c, s[k]), s[k + 1]), Absorb(Absorb(c, t[k]), t[k + 1]), s[k + 2..]);
    PairInjective(c, s[k], s[k + 1], t[k], t[k + 1]);
  }

  /** A change of the last message byte always changes the low byte of the CRC. */
  lemma LastByteDetected(s: seq<uint8>, t: seq<uint8>)
    requires |s| == |t| > 0
    requires s[..|s| - 1] == t[..|t| - 1]
    requires Crc(s)[..8] == Crc(t)[..8]
    ensures s == t
  {
    hide Absorb;
    var n := |s| - 1;
    LowByteTellsLast(CrcFrom(INIT, s[..n]), s[n], t[n]);
    assert s == s[..n] + [s[n]] && t == t[..n] + [t[n]];
  }

  // The high byte alone does not tell the last byte: one difference leaves it unchanged.

  /** 0x89, least significant bit first. */
  const UNSEEN_LAST: Word := [true, false, false, true, false, false, false, true]

  /** 0xA1, least significant bit first. */
  const UNSEEN_LOW: Word := [true, false, false, false, false, true, false, true]

  /** The bits of `v` and `w` differ exactly where `mask` has a one. */
  predicate DifferBy(v: Word, w: Word, mask: Word) {
    && |v| == |w| == |mask|
    && forall i :: 0 <= i < |v| ==> (v[i] != w[i] <==> mask[i])
  }

  lemma UnseenDifference(d: Register, e: Register)
    requires Divided(d, e)
    ensures var unseen := d[8] == d[11] == d[15] && !d[9] && !d[10] && !d[12] && !d[13] && !d[14];
      && (!e[8] && !e[9] && !e[10] && !e[11] && !e[12] && !e[13] && !e[14] && !e[15] <==> unseen)
      && (unseen ==> e[0] == e[5] == e[7] == d[15] && !e[1] && !e[2] && !e[3] && !e[4] && !e[6])
  {
  }

  /** A word of eight bits, spelled out. */
  lemma EightBits(v: Word, w: Word, mask: Word)
    requires |v| == |w| == |mask| == 8
    ensures DifferBy(v, w, mask) <==>
      ((v[0] != w[0]) == mask[0] && (v[1] != w[1]) == mask[1] && (v[2] != w[2]) == mask[2] && (v[3] != w[3]) == mask[3] &&
       (v[4] != w[4]) == mask[4] && (v[5] != w[5]) == mask[5] && (v[6] != w[6]) == mask[6] && (v[7] != w[7]) == mask[7])
    ensures v == w <==>
      (v[0] == w[0] && v[1] == w[1] && v[2] == w[2] && v[3] == w[3] &&
       v[4] == w[4] && v[5] == w[5] && v[6] == w[6] && v[7] == w[7])
  {
  }

  /**
   Two different last bytes leave the high byte of the register the same exactly when they differ by 0x89;
   the low byte then differs by 0xA1.
   */
  lemma HighByteTellsLast(c: Register, x: uint8, y: uint8)
    requires x != y
    ensures Absorb(c, x)[8..] == Absorb(c, y)[8..] <==> DifferBy(FromInt(x, 8), FromInt(y, 8), UNSEEN_LAST)
    ensures Absorb(c, x)[8..] == Absorb(c, y)[8..] ==> DifferBy(Absorb(c, x)[..8], Absorb(c, y)[..8], UNSEEN_LOW)
  {
    hide Absorb, HighBits, Divided, DifferBy, FromInt;
    var d := AbsorbDifference(c, x, y);
    var p, q := Absorb(c, x), Absorb(c, y);
    var e := Xor(p, q);
    var u, v := FromInt(x, 8), FromInt(y, 8);
    UnseenDifference(d, e);
    EightBits(u, v, UNSEEN_LAST);
    EightBits(p[..8], q[..8], UNSEEN_LOW);
    EightBits(p[8..], q[8..], UNSEEN_LOW);
    HighBitsOf(x, y, d);
    if u == v {
      ByteInjective(x, y);
    }
  }

  lemma HighBitsOf(x: uint8, y: uint8, d: Register)
    requires d == Xor(HighBits(x), HighBits(y))
    ensures var u, v := FromInt(x, 8), FromInt(y, 8);
      && d[8] == (u[0] != v[0]) && d[9] == (u[1] != v[1]) && d[10] == (u[2] != v[2]) && d[11] == (u[3] != v[3])
      && d[12] == (u[4] != v[4]) && d[13] == (u[5] != v[5]) && d[14] == (u[6] != v[6]) && d[15] == (u[7] != v[7])
  {
    hide FromInt;
    assert forall i :: 0 <= i < 8 ==> HighBits(x)[i + 8] == FromInt(x, 8)[i] && HighBits(y)[i + 8] == FromInt(y, 8)[i];
    assert HighBits(x)[0 + 8] == FromInt(x, 8)[0] && HighBits(y)[0 + 8] == FromInt(y, 8)[0];
  }
}
