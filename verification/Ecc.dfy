/** The single-error-correcting, double-error-detecting code that protects words in flash. */
module Ecc {
  import opened Bits

  const DATA_BITS := 32
  const HAMMING_BITS := 38

  type Code = w: Word | |w| == 64 witness Blank()

  function Blank(): (w: Word)
    ensures |w| == 64
  {
    Zeros(64)
  }

  type Data = w: Word | |w| == DATA_BITS witness Zeros(32)

  predicate IsPowerOfTwo(p: nat) {
    p == 1 || p == 2 || p == 4 || p == 8 || p == 16 || p == 32
  }

  /** The position of parity bit `i`. */
  function ParityPosition(i: nat): nat
    requires i < 6
  {
    [1, 2, 4, 8, 16, 32][i]
  }

  /** Bit `i` of position `p`. */
  predicate Covers(i: nat, p: nat)
    requires i < 6
  {
    FromInt(p, 6)[i]
  }

  /** How many data positions are at most `p`. */
  function DataCount(p: nat): nat
    requires p <= HAMMING_BITS
  {
    if p >= 32 then p - 6 else if p >= 16 then p - 5 else if p >= 8 then p - 4
    else if p >= 4 then p - 3 else if p >= 2 then p - 2 else 0
  }

  /** The position of data bit `k`, counted from one: the positions that are no powers of two, in order. */
  function DataPosition(k: nat): (p: nat)
    requires k < DATA_BITS
    ensures 1 <= p <= HAMMING_BITS && !IsPowerOfTwo(p) && DataCount(p - 1) == k
  {
    if k < 1 then 3 else if k < 4 then k + 4 else if k < 11 then k + 5 else if k < 26 then k + 6 else k + 7
  }

  lemma DataCountStep(p: nat)
    requires 1 <= p <= HAMMING_BITS
    ensures DataCount(p) == DataCount(p - 1) + if IsPowerOfTwo(p) then 0 else 1
    ensures !IsPowerOfTwo(p) ==> DataCount(p - 1) < DATA_BITS && DataPosition(DataCount(p - 1)) == p
  {
  }

  /** The exclusive or of the bits at the positions up to `n` that parity bit `i` covers. */
  function CheckUpTo(c: Code, i: nat, n: nat): bool
    requires i < 6 && n <= HAMMING_BITS
  {
    if n == 0 then false else CheckUpTo(c, i, n - 1) != (Covers(i, n) && c[n - 1])
  }

  function Check(c: Code, i: nat): bool
    requires i < 6
  {
    CheckUpTo(c, i, HAMMING_BITS)
  }

  /** Whether the number of ones among the low `n` bits is odd. */
  function OddUpTo(c: Code, n: nat): bool
    requires n <= 64
  {
    if n == 0 then false else OddUpTo(c, n - 1) != c[n - 1]
  }

  /** `parity64` */
  function Odd(c: Code): bool {
    OddUpTo(c, 64)
  }

  function Syndrome(c: Code): (s: Word)
    ensures |s| == 6
  {
    [Check(c, 0), Check(c, 1), Check(c, 2), Check(c, 3), Check(c, 4), Check(c, 5)]
  }

  /** The exclusive or of the positions, up to `n`, of the ones of `c`. */
  function PositionsXor(c: Code, n: nat): (s: Word)
    requires n <= HAMMING_BITS
    ensures |s| == 6
  {
    if n == 0 then Zeros(6)
    else if c[n - 1] then Xor(PositionsXor(c, n - 1), FromInt(n, 6))
    else PositionsXor(c, n - 1)
  }

  function Extract(c: Code): Data {
    seq(DATA_BITS, k requires 0 <= k < DATA_BITS => c[DataPosition(k) - 1])
  }

  /** `code ^ (1 << (p - 1))` */
  function Flip(c: Code, p: nat): Code
    requires 1 <= p <= 64
  {
    c[p - 1 := !c[p - 1]]
  }

  /** The codeword of a data word: its data bits in place, every check even, and nothing above bit 38. */
  predicate IsCodeword(c: Code, data: Data) {
    && Extract(c) == data
    && (forall i :: 0 <= i < 6 ==> !Check(c, i))
    && !Odd(c)
    && (forall k :: 39 <= k < 64 ==> !c[k])
  }

  // Checks under changes.

  lemma {:induction false} CheckFlip(c: Code, p: nat, i: nat, n: nat)
    requires 1 <= p <= 64 && i < 6 && n <= HAMMING_BITS
    ensures CheckUpTo(Flip(c, p), i, n) == (CheckUpTo(c, i, n) != (p <= n && Covers(i, p)))
  {
    hide Covers;
    if n > 0 {
      CheckFlip(c, p, i, n - 1);
    }
  }

  lemma {:induction false} OddFlip(c: Code, p: nat, n: nat)
    requires 1 <= p <= 64 && n <= 64
    ensures OddUpTo(Flip(c, p), n) == (OddUpTo(c, n) != (p <= n))
  {
    if n > 0 {
      OddFlip(c, p, n - 1);
    }
  }

  /** The only bit of a power of two. */
  lemma {:induction false} PowerBits(j: nat, n: nat, i: nat)
    requires j < n && i < n
    ensures FromInt(Pow2(j), n)[i] <==> i == j
    decreases n
  {
    if j == 0 {
      ZeroBits(n - 1);
    } else if i > 0 {
      PowerBits(j - 1, n - 1, i - 1);
    }
  }

  lemma {:induction false} ZeroBits(n: nat)
    ensures FromInt(0, n) == Zeros(n)
  {
    if n > 0 {
      ZeroBits(n - 1);
    }
  }

  lemma ParityCovers(i: nat, j: nat)
    requires i < 6 && j < 6
    ensures Covers(i, ParityPosition(j)) <==> i == j
  {
    hide FromInt;
    PowerBits(j, 6, i);
    assert Pow2(0) == 1 && Pow2(1) == 2 && Pow2(2) == 4 && Pow2(3) == 8 && Pow2(4) == 16 && Pow2(5) == 32;
  }

  /** The syndrome is the exclusive or of the positions of the ones. */
  lemma {:induction false} SyndromeIsPositionsXor(c: Code, n: nat)
    requires n <= HAMMING_BITS
    ensures PositionsXor(c, n) == seq(6, i requires 0 <= i < 6 => CheckUpTo(c, i, n))
  {
    hide FromInt;
    if n > 0 {
      SyndromeIsPositionsXor(c, n - 1);
    }
  }

  // Encoding.

  method Encode(data: Data) returns (c: Code)
    ensures IsCodeword(c, data)
  {
    hide Covers, CheckUpTo, OddUpTo, DataPosition, DataCount, Extract;
    var out := PlaceData(data);
    for i := 0 to 6
      invariant |out| == 64 && Extract(out) == data
      invariant forall j :: 0 <= j < i ==> !Check(out, j)
      invariant forall j :: i <= j < 6 ==> !out[ParityPosition(j) - 1]
      invariant forall k :: HAMMING_BITS <= k < 64 ==> !out[k]
    {
      var pos := ParityPosition(i);
      var bit := false;
      CheckZero(out, i);
      for bitpos := 1 to HAMMING_BITS + 1
        invariant bit == CheckUpTo(out, i, bitpos - 1)
      {
        CheckStep(out, i, bitpos);
        if bitpos != pos && Covers(i, bitpos) {
          bit := bit != out[bitpos - 1];
        }
      }
      ghost var before := out;
      out := out[pos - 1 := bit];
      if bit {
        assert out == Flip(before, pos);
        AfterParity(before, data, i);
      } else {
        assert out == before;
      }
    }
    var odd := Parity64(out);
    c := out[38 := odd];
    if odd {
      assert c == Flip(out, 39);
      AfterOverall(out, data);
    } else {
      assert c == out;
    }
  }

  lemma NoDataCount()
    ensures DataCount(0) == 0 && DataCount(HAMMING_BITS) == DATA_BITS
  {
  }

  lemma CheckZero(c: Code, i: nat)
    requires i < 6
    ensures !CheckUpTo(c, i, 0)
  {
  }

  lemma CheckStep(c: Code, i: nat, n: nat)
    requires i < 6 && 1 <= n <= HAMMING_BITS
    ensures CheckUpTo(c, i, n) == (CheckUpTo(c, i, n - 1) != (Covers(i, n) && c[n - 1]))
  {
  }

  /** Setting parity bit `i` evens check `i` and leaves the others and the data. */
  lemma AfterParity(c: Code, data: Data, i: nat)
    requires i < 6 && Extract(c) == data && Check(c, i)
    ensures var out := Flip(c, ParityPosition(i));
      && Extract(out) == data && !Check(out, i)
      && forall j :: 0 <= j < 6 && j != i ==> Check(out, j) == Check(c, j)
  {
    hide Covers, CheckUpTo, DataPosition;
    var p := ParityPosition(i);
    forall j | 0 <= j < 6
      ensures Check(Flip(c, p), j) == (Check(c, j) != (j == i))
    {
      CheckFlip(c, p, j, HAMMING_BITS);
      ParityCovers(j, i);
    }
    ExtractFlip(c, p);
  }

  /** Only a data position holds data. */
  lemma ExtractFlip(c: Code, p: nat)
    requires 1 <= p <= 64 && (IsPowerOfTwo(p) || p > HAMMING_BITS)
    ensures Extract(Flip(c, p)) == Extract(c)
  {
    hide DataPosition;
  }

  lemma AfterOverall(c: Code, data: Data)
    requires Extract(c) == data && (forall i :: 0 <= i < 6 ==> !Check(c, i)) && Odd(c)
    ensures var out := Flip(c, 39);
      && Extract(out) == data && (forall i :: 0 <= i < 6 ==> !Check(out, i)) && !Odd(out)
  {
    hide Covers, CheckUpTo, OddUpTo;
    forall i | 0 <= i < 6
      ensures Check(Flip(c, 39), i) == Check(c, i)
    {
      CheckFlip(c, 39, i, HAMMING_BITS);
    }
    OddFlip(c, 39, 64);
    ExtractFlip(c, 39);
  }

  /** Places the data bits at the positions that are no powers of two. */
  method PlaceData(data: Data) returns (out: Code)
    ensures Extract(out) == data
    ensures forall j :: 0 <= j < 6 ==> !out[ParityPosition(j) - 1]
    ensures forall k :: HAMMING_BITS <= k < 64 ==> !out[k]
  {
    hide DataPosition, DataCount;
    out := Blank();
    var dataIdx := 0;
    NoDataCount();
    for bitpos := 1 to HAMMING_BITS + 1
      invariant dataIdx == DataCount(bitpos - 1) <= DATA_BITS
      invariant forall k :: 0 <= k < dataIdx ==> DataPosition(k) < bitpos && out[DataPosition(k) - 1] == data[k]
      invariant forall k :: bitpos <= k + 1 <= 64 ==> !out[k]
      invariant forall p :: 1 <= p <= HAMMING_BITS && IsPowerOfTwo(p) ==> !out[p - 1]
    {
      DataCountStep(bitpos);
      if IsPowerOfTwo(bitpos) {
        continue;
      }
      out := out[bitpos - 1 := data[dataIdx]];
      dataIdx := dataIdx + 1;
    }
    assert forall j :: 0 <= j < 6 ==> IsPowerOfTwo(ParityPosition(j)) && ParityPosition(j) <= HAMMING_BITS;
    assert Extract(out) == data;
  }

  method Parity64(c: Code) returns (odd: bool)
    ensures odd == Odd(c)
  {
    odd := false;
    for k := 0 to 64
      invariant odd == OddUpTo(c, k)
    {
      odd := odd != c[k];
    }
  }

  // Decoding.

  /** The corrected data, and whether a single error was corrected. */
  function Decoded(c: Code): (Data, bool) {
    var syndrome := Syndrome(c);
    var overall := Odd(c);
    if syndrome == Zeros(6) && !overall then (Extract(c), false)
    else if syndrome == Zeros(6) && overall then (Extract(Flip(c, 39)), true)
    else if syndrome != Zeros(6) && overall then
      SyndromeRange(syndrome);
      (Extract(Flip(c, ToInt(syndrome))), true)
    else (Extract(c), false)
  }

  lemma SyndromeRange(s: Word)
    requires |s| == 6 && s != Zeros(6)
    ensures 1 <= ToInt(s) < 64
  {
    ToIntBound(s);
    assert Pow2(6) == 64;
    ToIntZero(s);
  }

  lemma {:induction false} ToIntZero(w: Word)
    ensures ToInt(w) == 0 <==> w == Zeros(|w|)
  {
    if w != [] {
      ToIntZero(w[1..]);
      assert w == [w[0]] + w[1..];
      assert Zeros(|w|) == [false] + Zeros(|w| - 1);
    }
  }

  method Decode(code: Code) returns (data: Data, corrected: bool)
    ensures (data, corrected) == Decoded(code)
  {
    hide Covers, CheckUpTo, OddUpTo, DataPosition, DataCount, Extract, ToInt;
    var syndrome := Zeros(6);
    for i := 0 to 6
      invariant |syndrome| == 6
      invariant forall j :: 0 <= j < i ==> syndrome[j] == Check(code, j)
    {
      var bit := false;
      CheckZero(code, i);
      for bitpos := 1 to HAMMING_BITS + 1
        invariant bit == CheckUpTo(code, i, bitpos - 1)
      {
        CheckStep(code, i, bitpos);
        if Covers(i, bitpos) {
          bit := bit != code[bitpos - 1];
        }
      }
      syndrome := syndrome[i := bit];
    }
    assert syndrome == Syndrome(code);
    var overall := Parity64(code);
    if syndrome == Zeros(6) && !overall {
      data := ExtractData(code);
      return data, false;
    }
    if syndrome == Zeros(6) && overall {
      data := ExtractData(Flip(code, 39));
      return data, true;
    }
    if syndrome != Zeros(6) && overall {
      SyndromeRange(syndrome);
      data := ExtractData(Flip(code, ToInt(syndrome)));
      return data, true;
    }
    data := ExtractData(code);
    return data, false;
  }

  method ExtractData(code: Code) returns (data: Data)
    ensures data == Extract(code)
  {
    hide DataPosition, DataCount;
    data := Zeros(DATA_BITS);
    var dataIdx := 0;
    NoDataCount();
    for bitpos := 1 to HAMMING_BITS + 1
      invariant |data| == DATA_BITS
      invariant dataIdx == DataCount(bitpos - 1) <= DATA_BITS
      invariant forall k :: 0 <= k < dataIdx ==> data[k] == code[DataPosition(k) - 1]
    {
      DataCountStep(bitpos);
      if IsPowerOfTwo(bitpos) {
        continue;
      }
      data := data[dataIdx := code[bitpos - 1]];
      dataIdx := dataIdx + 1;
    }
    assert data == Extract(code);
  }

  // What the decoder makes of codewords with errors.

  lemma CleanSyndrome(c: Code, data: Data)
    requires IsCodeword(c, data)
    ensures Syndrome(c) == Zeros(6)
  {
    hide CheckUpTo, Extract, Odd;
  }

  /** A correction is reported for exactly the words of odd weight. */
  lemma CorrectedMeansOdd(c: Code)
    ensures Decoded(c).1 <==> Odd(c)
  {
    hide Extract, Syndrome, OddUpTo, ToInt;
  }

  /** A codeword decodes to its data, without a correction. */
  lemma CleanDecodes(c: Code, data: Data)
    requires IsCodeword(c, data)
    ensures Decoded(c) == (data, false)
  {
    hide CheckUpTo, Extract, OddUpTo, ToInt;
    CleanSyndrome(c, data);
  }

  /** The syndrome of a codeword with one flipped bit is the position of that bit. */
  lemma SyndromeOfFlip(c: Code, data: Data, p: nat)
    requires IsCodeword(c, data) && 1 <= p <= 64
    ensures Syndrome(Flip(c, p)) == if p <= HAMMING_BITS then FromInt(p, 6) else Zeros(6)
  {
    hide CheckUpTo, Extract, OddUpTo, FromInt;
    forall i | 0 <= i < 6
      ensures Syndrome(Flip(c, p))[i] == (p <= HAMMING_BITS && FromInt(p, 6)[i])
    {
      CheckFlip(c, p, i, HAMMING_BITS);
      assert !Check(c, i);
    }
  }

  lemma PositionNonzero(p: nat)
    requires 1 <= p <= HAMMING_BITS
    ensures FromInt(p, 6) != Zeros(6) && ToInt(FromInt(p, 6)) == p
  {
    assert Pow2(6) == 64;
    IntRoundTrip(p, 6);
    ToIntZero(FromInt(p, 6));
  }

  lemma FlipTwice(c: Code, p: nat)
    requires 1 <= p <= 64
    ensures Flip(Flip(c, p), p) == c
  {
  }

  /** Any one flipped bit of the 64 is corrected, and reported as corrected. */
  lemma SingleErrorCorrected(c: Code, data: Data, p: nat)
    requires IsCodeword(c, data) && 1 <= p <= 64
    ensures Decoded(Flip(c, p)) == (data, true)
  {
    hide CheckUpTo, Extract, OddUpTo, FromInt, ToInt, Flip, Syndrome;
    OddFlip(c, p, 64);
    SyndromeOfFlip(c, data, p);
    if p <= HAMMING_BITS {
      PositionNonzero(p);
      FlipTwice(c, p);
    } else {
      ExtractFlip(c, p);
      ExtractFlip(Flip(c, p), 39);
    }
  }

  /** Any two flipped bits are never reported as corrected. */
  lemma DoubleErrorDetected(c: Code, data: Data, p: nat, q: nat)
    requires IsCodeword(c, data) && 1 <= p <= 64 && 1 <= q <= 64 && p != q
    ensures !Decoded(Flip(Flip(c, p), q)).1
  {
    hide OddUpTo, Extract, CheckUpTo, Flip, Decoded;
    OddFlip(c, p, 64);
    OddFlip(Flip(c, p), q, 64);
    CorrectedMeansOdd(Flip(Flip(c, p), q));
  }

  /** The answer to a double error is that to a codeword, the one of the data read. */
  lemma DoubleErrorLooksClean(c: Code, data: Data, p: nat, q: nat, clean: Code)
    requires IsCodeword(c, data) && 1 <= p <= 64 && 1 <= q <= 64 && p != q
    requires IsCodeword(clean, Extract(Flip(Flip(c, p), q)))
    ensures Decoded(Flip(Flip(c, p), q)) == Decoded(clean)
  {
    hide OddUpTo, Extract, CheckUpTo, Flip, IsCodeword, ToInt;
    DoubleErrorDetected(c, data, p, q);
    CleanDecodes(clean, Extract(Flip(Flip(c, p), q)));
  }

  /** Two flipped code bits leave a nonzero syndrome, so the word is not taken for a codeword. */
  lemma DoubleErrorVisible(c: Code, data: Data, p: nat, q: nat)
    requires IsCodeword(c, data) && 1 <= p < q <= 39
    ensures Syndrome(Flip(Flip(c, p), q)) != Zeros(6)
  {
    hide CheckUpTo, OddUpTo, Extract, FromInt, Flip;
    PositionNonzero(p);
    if q <= HAMMING_BITS {
      PositionNonzero(q);
    }
    var z := if q <= HAMMING_BITS then FromInt(q, 6) else Zeros(6);
    assert FromInt(p, 6) != z;
    var i :| 0 <= i < 6 && FromInt(p, 6)[i] != z[i];
    CheckFlip(c, p, i, HAMMING_BITS);
    CheckFlip(Flip(c, p), q, i, HAMMING_BITS);
    assert !Check(c, i);
    assert Syndrome(Flip(Flip(c, p), q))[i] == Check(Flip(Flip(c, p), q), i);
  }

  function FlipAll(c: Code, errors: seq<nat>): Code
    requires forall k :: 0 <= k < |errors| ==> 1 <= errors[k] <= 64
  {
    if errors == [] then c else Flip(FlipAll(c, errors[..|errors| - 1]), errors[|errors| - 1])
  }

  /** No codeword is reached from another by one, two or three flips of its 39 bits: the distance is four. */
  lemma DistanceFour(c: Code, data: Data, d: Code, other: Data, errors: seq<nat>)
    requires IsCodeword(c, data) && IsCodeword(d, other)
    requires 1 <= |errors| <= 3
    requires forall k :: 0 <= k < |errors| ==> 1 <= errors[k] <= 39
    requires forall j, k :: 0 <= j < k < |errors| ==> errors[j] != errors[k]
    ensures FlipAll(c, errors) != d
  {
    hide CheckUpTo, OddUpTo, Extract, Flip, Syndrome;
    CleanSyndrome(d, other);
    var p := errors[0];
    OddFlip(c, p, 64);
    var c1 := Flip(c, p);
    if |errors| == 1 {
      assert errors[..0] == [];
      assert FlipAll(c, errors) == c1;
    } else {
      var q := errors[1];
      OddFlip(c1, q, 64);
      if |errors| == 2 {
        assert errors[..1][..0] == [] && errors[..1][0] == p;
        assert FlipAll(c, errors[..1]) == c1;
        if p < q {
          DoubleErrorVisible(c, data, p, q);
        } else {
          DoubleErrorVisible(c, data, q, p);
          FlipsCommute(c, p, q);
        }
      } else {
        assert errors[..2][..1][..0] == [] && errors[..2][..1][0] == p && errors[..2][1] == q;
        assert FlipAll(c, errors[..2][..1]) == c1;
        OddFlip(Flip(c1, q), errors[2], 64);
      }
    }
  }

  lemma FlipsCommute(c: Code, p: nat, q: nat)
    requires 1 <= p <= 64 && 1 <= q <= 64 && p != q
    ensures Flip(Flip(c, p), q) == Flip(Flip(c, q), p)
  {
  }

  /** If two words agree where check `i` looks, except at one position, the check tells that bit. */
  lemma {:induction false} CheckTells(c: Code, d: Code, i: nat, p: nat, n: nat)
    requires i < 6 && 1 <= p <= HAMMING_BITS && n <= HAMMING_BITS && Covers(i, p)
    requires forall k :: 0 <= k < HAMMING_BITS && k + 1 != p && Covers(i, k + 1) ==> c[k] == d[k]
    ensures (CheckUpTo(c, i, n) != CheckUpTo(d, i, n)) == (p <= n && c[p - 1] != d[p - 1])
  {
    hide Covers;
    if n > 0 {
      CheckTells(c, d, i, p, n - 1);
    }
  }

  lemma {:induction false} OddTells(c: Code, d: Code, p: nat, n: nat)
    requires 1 <= p <= 64 && n <= 64
    requires forall k :: 0 <= k < 64 && k + 1 != p ==> c[k] == d[k]
    ensures (OddUpTo(c, n) != OddUpTo(d, n)) == (p <= n && c[p - 1] != d[p - 1])
  {
    if n > 0 {
      OddTells(c, d, p, n - 1);
    }
  }

  lemma PowerIsParity(p: nat) returns (i: nat)
    requires IsPowerOfTwo(p)
    ensures i < 6 && ParityPosition(i) == p
  {
    i := if p == 1 then 0 else if p == 2 then 1 else if p == 4 then 2 else if p == 8 then 3 else if p == 16 then 4 else 5;
  }

  lemma SameData(c: Code, d: Code, p: nat)
    requires Extract(c) == Extract(d) && 1 <= p <= HAMMING_BITS && !IsPowerOfTwo(p)
    ensures c[p - 1] == d[p - 1]
  {
    hide DataPosition, DataCount;
    DataCountStep(p);
    var k := DataCount(p - 1);
    assert Extract(c)[k] == c[DataPosition(k) - 1] && Extract(d)[k] == d[DataPosition(k) - 1];
  }

  /** A data word has only one codeword. */
  lemma CodewordUnique(c: Code, d: Code, data: Data)
    requires IsCodeword(c, data) && IsCodeword(d, data)
    ensures c == d
  {
    hide Covers, CheckUpTo, OddUpTo, Extract;
    forall k | 0 <= k < HAMMING_BITS
      ensures c[k] == d[k]
    {
      if IsPowerOfTwo(k + 1) {
        SameParity(c, d, data, k + 1);
      } else {
        SameData(c, d, k + 1);
      }
    }
    OddTells(c, d, 39, 64);
    assert c[38] == d[38];
  }

  lemma SameParity(c: Code, d: Code, data: Data, p: nat)
    requires IsCodeword(c, data) && IsCodeword(d, data) && IsPowerOfTwo(p)
    ensures c[p - 1] == d[p - 1]
  {
    hide Covers, CheckUpTo, OddUpTo, Extract;
    var i := PowerIsParity(p);
    forall k | 0 <= k < HAMMING_BITS && k + 1 != p && Covers(i, k + 1)
      ensures c[k] == d[k]
    {
      if IsPowerOfTwo(k + 1) {
        var j := PowerIsParity(k + 1);
        ParityCovers(i, j);
      }
      SameData(c, d, k + 1);
    }
    ParityCovers(i, i);
    CheckTells(c, d, i, p, HAMMING_BITS);
    assert !Check(c, i) && !Check(d, i);
  }
}
