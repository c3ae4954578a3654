/** The CRC-16 bit by bit, and the bursts of corrupted bits it detects. */
module CrcBursts {
  import opened Words
  import opened Bits
  import opened Crc16

  /** The register that holds `b` at bit `p`, and zeros. */
  function At(p: nat, b: bool): (w: Register)
    requires p < 16
  {
    Zeros(p) + [b] + Zeros(15 - p)
  }

  /** The register after one message bit. */
  function AbsorbBit(c: Register, b: bool): Register {
    ShiftBit(Xor(c, At(15, b)))
  }

  /** The register after some message bits. */
  function AbsorbBits(c: Register, bits: Word): Register
    decreases |bits|
  {
    if bits == [] then c else AbsorbBit(AbsorbBits(c, bits[..|bits| - 1]), bits[|bits| - 1])
  }

  /** A byte, most significant bit first, as the CRC takes it. */
  function BitsOf(b: uint8): (w: Word)
    ensures |w| == 8 && forall i :: 0 <= i < 8 ==> w[i] == FromInt(b, 8)[7 - i]
  {
    var bits := FromInt(b, 8);
    seq(8, i requires 0 <= i < 8 => bits[7 - i])
  }

  function AllBits(bytes: seq<uint8>): (w: Word)
    ensures |w| == 8 * |bytes|
    decreases |bytes|
  {
    if bytes == [] then [] else AllBits(bytes[..|bytes| - 1]) + BitsOf(bytes[|bytes| - 1])
  }

  // At most sixteen bits act on the register as if they were all there at once.

  /** Up to sixteen bits at the top of the register, the first one highest. */
  function Aligned(bits: Word): (w: Register)
    requires |bits| <= 16
    ensures forall i :: 0 <= i < 16 ==> w[i] == (15 - i < |bits| && bits[15 - i])
  {
    seq(16, i requires 0 <= i < 16 => 15 - i < |bits| && bits[15 - i])
  }

  lemma {:induction false} AtShifts(p: nat, b: bool, n: nat)
    requires p + n < 16
    ensures Shifts(At(p, b), n) == At(p + n, b)
    decreases n
  {
    hide At, ShiftBit;
    if n > 0 {
      AtShifts(p, b, n - 1);
      AtShiftsOnce(p + n - 1, b);
    }
  }

  lemma AtShiftsOnce(p: nat, b: bool)
    requires p < 15
    ensures ShiftBit(At(p, b)) == At(p + 1, b)
  {
    assert !At(p, b)[15];
    assert Shl(At(p, b), 1) == At(p + 1, b);
  }

  lemma {:induction false} AbsorbAligned(c: Register, bits: Word)
    requires |bits| <= 16
    ensures AbsorbBits(c, bits) == Shifts(Xor(c, Aligned(bits)), |bits|)
    decreases |bits|
  {
    hide ShiftBit, At;
    if bits == [] {
      assert Xor(c, Aligned(bits)) == c;
    } else {
      var n := |bits| - 1;
      var before, last := Xor(c, Aligned(bits[..n])), At(15 - n, bits[n]);
      AbsorbAligned(c, bits[..n]);
      AlignedStep(c, bits);
      ShiftsXor(before, last, n);
      AtShifts(15 - n, bits[n], n);
    }
  }

  lemma AlignedStep(c: Register, bits: Word)
    requires 0 < |bits| <= 16
    ensures
      var n := |bits| - 1;
      Xor(c, Aligned(bits)) == Xor(Xor(c, Aligned(bits[..n])), At(15 - n, bits[n]))
  {
  }

  lemma AlignedInjective(c: Register, v: Word, w: Word)
    requires |v| == |w| <= 16 && Xor(c, Aligned(v)) == Xor(c, Aligned(w))
    ensures v == w
  {
    var x, y := Xor(c, Aligned(v)), Xor(c, Aligned(w));
    forall i | 0 <= i < |v|
      ensures v[i] == w[i]
    {
      assert x[15 - i] == y[15 - i];
      assert Aligned(v)[15 - i] == v[i] && Aligned(w)[15 - i] == w[i];
    }
  }

  lemma AbsorbsByte(c: Register, b: uint8)
    ensures Absorb(c, b) == AbsorbBits(c, BitsOf(b))
  {
    hide Shifts, AbsorbBits;
    AbsorbAligned(c, BitsOf(b));
    assert Aligned(BitsOf(b)) == HighBits(b);
  }

  lemma {:induction false} AbsorbBitsConcat(c: Register, s: Word, t: Word)
    ensures AbsorbBits(c, s + t) == AbsorbBits(AbsorbBits(c, s), t)
    decreases |t|
  {
    hide AbsorbBit;
    if t == [] {
      assert s + t == s;
    } else {
      var n := |t| - 1;
      AbsorbBitsConcat(c, s, t[..n]);
      assert (s + t)[..|s + t| - 1] == s + t[..n];
    }
  }

  /** The CRC of bytes is that of their bits. */
  lemma {:induction false} CrcIsBitwise(c: Register, bytes: seq<uint8>)
    ensures CrcFrom(c, bytes) == AbsorbBits(c, AllBits(bytes))
    decreases |bytes|
  {
    hide Absorb, AbsorbBits, BitsOf;
    if bytes == [] {
      NoBits(c);
    } else {
      var n := |bytes| - 1;
      CrcIsBitwise(c, bytes[..n]);
      AbsorbsByte(CrcFrom(c, bytes[..n]), bytes[n]);
      AbsorbBitsConcat(c, AllBits(bytes[..n]), BitsOf(bytes[n]));
    }
  }

  lemma NoBits(c: Register)
    ensures AbsorbBits(c, []) == c
  {
  }

  lemma {:induction false} AbsorbBitsInjective(c: Register, d: Register, bits: Word)
    requires AbsorbBits(c, bits) == AbsorbBits(d, bits)
    ensures c == d
    decreases |bits|
  {
    hide ShiftBit, At;
    if bits != [] {
      var n := |bits| - 1;
      var x, y, top := AbsorbBits(c, bits[..n]), AbsorbBits(d, bits[..n]), At(15, bits[n]);
      ShiftBitInjective(Xor(x, top), Xor(y, top));
      XorCancels(x, y, top);
      AbsorbBitsInjective(c, d, bits[..n]);
    }
  }

  lemma XorCancels(a: Register, b: Register, c: Register)
    requires Xor(a, c) == Xor(b, c)
    ensures a == b
  {
    forall i | 0 <= i < 16
      ensures a[i] == b[i]
    {
      assert Xor(a, c)[i] == Xor(b, c)[i];
    }
  }

  // Bursts.

  /** Two bit strings differ at most in the sixteen bits from `k` on. */
  ghost predicate DifferInBurst(s: Word, t: Word, k: nat) {
    |s| == |t| && forall i :: 0 <= i < |s| && s[i] != t[i] ==> k <= i < k + 16
  }

  lemma AbsorbParts(c: Register, s: Word, m: nat, e: nat)
    requires m <= e <= |s|
    ensures AbsorbBits(c, s) == AbsorbBits(AbsorbBits(AbsorbBits(c, s[..m]), s[m..e]), s[e..])
  {
    hide AbsorbBits;
    assert s == s[..m] + (s[m..e] + s[e..]);
    AbsorbBitsConcat(c, s[..m], s[m..e] + s[e..]);
    AbsorbBitsConcat(AbsorbBits(c, s[..m]), s[m..e], s[e..]);
  }

  /** Bit strings that differ in a burst of at most sixteen bits leave different registers. */
  lemma BurstDetected(c: Register, s: Word, t: Word, k: nat)
    requires DifferInBurst(s, t, k) && AbsorbBits(c, s) == AbsorbBits(c, t)
    ensures s == t
  {
    hide AbsorbBits;
    var m := if k < |s| then k else |s|;
    var e := if k + 16 < |s| then k + 16 else |s|;
    assert s[..m] == t[..m] && s[e..] == t[e..];
    var before := AbsorbBits(c, s[..m]);
    AbsorbParts(c, s, m, e);
    AbsorbParts(c, t, m, e);
    AbsorbBitsInjective(AbsorbBits(before, s[m..e]), AbsorbBits(before, t[m..e]), s[e..]);
    WindowDetected(before, s[m..e], t[m..e]);
    assert s == s[..m] + s[m..e] + s[e..] && t == t[..m] + t[m..e] + t[e..];
  }

  lemma WindowDetected(c: Register, v: Word, w: Word)
    requires |v| == |w| <= 16 && AbsorbBits(c, v) == AbsorbBits(c, w)
    ensures v == w
  {
    hide AbsorbBits, Shifts;
    AbsorbAligned(c, v);
    AbsorbAligned(c, w);
    ShiftsInjective(Xor(c, Aligned(v)), Xor(c, Aligned(w)), |v|);
    AlignedInjective(c, v, w);
  }

  lemma {:induction false} AllBitsInjective(s: seq<uint8>, t: seq<uint8>)
    requires AllBits(s) == AllBits(t)
    ensures s == t
    decreases |s|
  {
    hide BitsOf;
    assert |s| == |t|;
    if s != [] {
      var n := |s| - 1;
      LastBits(s);
      LastBits(t);
      AllBitsInjective(s[..n], t[..n]);
      BitsOfInjective(s[n], t[n]);
      assert s == s[..n] + [s[n]] && t == t[..n] + [t[n]];
    }
  }

  lemma AllBitsLast(s: seq<uint8>)
    requires s != []
    ensures AllBits(s) == AllBits(s[..|s| - 1]) + BitsOf(s[|s| - 1])
  {
  }

  lemma LastBits(s: seq<uint8>)
    requires s != []
    ensures var n := |s| - 1; AllBits(s)[..8 * n] == AllBits(s[..n]) && AllBits(s)[8 * n..] == BitsOf(s[n])
  {
    hide AllBits, BitsOf;
    AllBitsLast(s);
    Cut(AllBits(s[..|s| - 1]), BitsOf(s[|s| - 1]));
  }

  lemma Cut(a: Word, b: Word)
    ensures (a + b)[..|a|] == a && (a + b)[|a|..] == b
  {
  }

  lemma BitsOfInjective(a: uint8, b: uint8)
    requires BitsOf(a) == BitsOf(b)
    ensures a == b
  {
    var x, y := FromInt(a, 8), FromInt(b, 8);
    forall i | 0 <= i < 8
      ensures x[i] == y[i]
    {
      assert BitsOf(a)[7 - i] == BitsOf(b)[7 - i];
    }
    ByteInjective(a, b);
  }

  /** Byte strings of the same CRC that differ in a burst of at most sixteen bits are equal. */
  lemma BytesBurstDetected(s: seq<uint8>, t: seq<uint8>, k: nat)
    requires DifferInBurst(AllBits(s), AllBits(t), k) && Crc(s) == Crc(t)
    ensures s == t
  {
    hide AllBits, AbsorbBits, CrcFrom;
    CrcIsBitwise(INIT, s);
    CrcIsBitwise(INIT, t);
    BurstDetected(INIT, AllBits(s), AllBits(t), k);
    AllBitsInjective(s, t);
  }

  /** A message followed by its CRC, high byte first, leaves the register at zero. */
  lemma Residue(message: seq<uint8>)
    ensures Crc(message + BeBytes(Crc(message))) == Zeros(16)
  {
    hide CrcFrom, AbsorbBits, AllBits, Shifts, BitsOf, ByteOf;
    var c := Crc(message);
    CrcFromConcat(INIT, message, BeBytes(c));
    CrcIsBitwise(c, BeBytes(c));
    StoredBits(c);
    AbsorbAligned(c, AllBits(BeBytes(c)));
    assert Xor(c, Aligned(AllBits(BeBytes(c)))) == Zeros(16);
    ZerosShift(16);
  }

  lemma {:induction false} ZerosShift(n: nat)
    ensures Shifts(Zeros(16), n) == Zeros(16)
  {
    if n > 0 {
      ZerosShift(n - 1);
    }
  }

  lemma StoredBits(c: Register)
    ensures Aligned(AllBits(BeBytes(c))) == c
  {
    hide FromInt, ToInt;
    var bytes := BeBytes(c);
    var high, low := c[8..], c[..8];
    WordRoundTrip(high);
    WordRoundTrip(low);
    assert bytes[..1] == [ByteOf(high)] && bytes[..1][..0] == [];
    assert AllBits(bytes[..1]) == BitsOf(ByteOf(high));
    assert AllBits(bytes) == BitsOf(ByteOf(high)) + BitsOf(ByteOf(low));
  }

  lemma {:induction false} AllBitsConcat(s: seq<uint8>, t: seq<uint8>)
    ensures AllBits(s + t) == AllBits(s) + AllBits(t)
    decreases |t|
  {
    hide BitsOf, AllBits;
    if t == [] {
      assert s + t == s && AllBits(t) == [];
    } else {
      var n := |t| - 1;
      AllBitsConcat(s, t[..n]);
      AllBitsLast(t);
      AllBitsLast(s + t);
      assert (s + t)[..|s + t| - 1] == s + t[..n];
    }
  }

  /** Two bytes behind the same message are a burst. */
  lemma TailDiffers(message: seq<uint8>, s: seq<uint8>, t: seq<uint8>)
    requires |s| == |t| == 2
    ensures DifferInBurst(AllBits(message + s), AllBits(message + t), 8 * |message|)
  {
    hide AllBits;
    AllBitsConcat(message, s);
    AllBitsConcat(message, t);
    SameFront(AllBits(message), AllBits(s), AllBits(t));
  }

  lemma SameFront(m: Word, v: Word, w: Word)
    requires |v| == |w| <= 16
    ensures DifferInBurst(m + v, m + w, |m|)
  {
    forall i | 0 <= i < |m| + |v| && (m + v)[i] != (m + w)[i]
      ensures |m| <= i < |m| + 16
    {
    }
  }
}
