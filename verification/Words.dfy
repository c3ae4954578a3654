/** Machine words as bounded integers, with the wrapping operations and the byte orders the firmware uses. */
module Words {

  type uint8 = x: int | 0 <= x < 0x100
  type uint16 = x: int | 0 <= x < 0x1_0000
  type uint32 = x: int | 0 <= x < 0x1_0000_0000
  type int32 = x: int | -0x8000_0000 <= x < 0x8000_0000

  const TWO_16 := 0x1_0000
  const TWO_32 := 0x1_0000_0000

  function ZeroBytes(n: nat): (z: seq<uint8>)
    ensures |z| == n && forall i :: 0 <= i < n ==> z[i] == 0
  {
    seq(n, i => 0)
  }

  /** Rust's `u32::wrapping_sub`. */
  function WrappingSub32(a: uint32, b: uint32): uint32 {
    (a - b) % TWO_32
  }

  /** Rust's `as i32` on a `u32`. */
  function AsInt32(x: uint32): (r: int32)
    ensures r == x || r as int == x - TWO_32
  {
    if x < 0x8000_0000 then x else x - TWO_32
  }

  /** Rust's signed `/`, which rounds toward zero. */
  function TruncDiv(a: int, b: int): int
    requires b > 0
  {
    if a >= 0 then a / b else -((-a) / b)
  }

  /** Rust's signed `%`, which has the sign of the dividend. */
  function TruncMod(a: int, b: int): int
    requires b > 0
  {
    a - b * TruncDiv(a, b)
  }

  function ToBe32(x: uint32): (bytes: seq<uint8>)
    ensures |bytes| == 4
  {
    [x / 0x100 / 0x100 / 0x100, x / 0x100 / 0x100 % 0x100, x / 0x100 % 0x100, x % 0x100]
  }

  function FromBe32(bytes: seq<uint8>): uint32
    requires |bytes| == 4
  {
    bytes[0] as int * 0x100_0000 + bytes[1] as int * 0x1_0000 + bytes[2] as int * 0x100 + bytes[3]
  }

  function ToLe32(x: uint32): (bytes: seq<uint8>)
    ensures |bytes| == 4
  {
    [x % 0x100, x / 0x100 % 0x100, x / 0x100 / 0x100 % 0x100, x / 0x100 / 0x100 / 0x100]
  }

  function FromLe32(bytes: seq<uint8>): uint32
    requires |bytes| == 4
  {
    bytes[3] as int * 0x100_0000 + bytes[2] as int * 0x1_0000 + bytes[1] as int * 0x100 + bytes[0]
  }

  function ToLe16(x: uint16): (bytes: seq<uint8>)
    ensures |bytes| == 2
  {
    [x % 0x100, x / 0x100]
  }

  function FromLe16(bytes: seq<uint8>): uint16
    requires |bytes| == 2
  {
    bytes[1] as int * 0x100 + bytes[0]
  }

  /** Adding the divisor to a negative remainder turns truncation into rounding down. */
  lemma TruncFloor(a: int, b: int)
    requires b > 0
    ensures TruncMod(a, b) < 0 ==> TruncDiv(a, b) - 1 == a / b && TruncMod(a, b) + b == a % b
    ensures TruncMod(a, b) >= 0 ==> TruncDiv(a, b) == a / b && TruncMod(a, b) == a % b
  {
    if a < 0 {
      var q, r := (-a) / b, (-a) % b;
      assert a == b * (-q) - r;
      assert TruncMod(a, b) == -r;
      if r > 0 {
        assert a == b * (-q - 1) + (b - r);
        QuotientUnique(a, b, -q - 1, b - r);
      } else {
        QuotientUnique(a, b, -q, 0);
      }
    }
  }

  lemma QuotientUnique(a: int, b: int, q: int, r: int)
    requires b > 0 && a == b * q + r && 0 <= r < b
    ensures a / b == q && a % b == r
  {
    var d := a / b - q;
    assert b * d == r - a % b;
    MultipleGrows(b, d);
  }

  lemma MultipleGrows(b: int, d: int)
    requires b > 0
    ensures d >= 1 ==> b * d >= b
    ensures d <= -1 ==> b * d <= -b
  {
  }

  lemma ModShift(x: int, q: int)
    ensures (x + TWO_32 * q) % TWO_32 == x % TWO_32
  {
    var a, r := x / TWO_32, x % TWO_32;
    assert x + TWO_32 * q == TWO_32 * (a + q) + r;
    assert (x + TWO_32 * q) / TWO_32 == a + q;
  }

  /** Differences of wrapped numbers are wrapped differences. */
  lemma DifferenceModulo(a: nat, b: nat)
    ensures WrappingSub32(a % TWO_32, b % TWO_32) == (a - b) % TWO_32
  {
    assert a % TWO_32 - b % TWO_32 == a - b + TWO_32 * (b / TWO_32 - a / TWO_32);
    ModShift(a - b, b / TWO_32 - a / TWO_32);
  }

  /** Big-endian and little-endian, on a number whose bytes tell. */
  lemma ByteOrders()
    ensures ToBe32(0x0102_0304) == [1, 2, 3, 4] && ToLe32(0x0102_0304) == [4, 3, 2, 1] && ToLe16(0x0102) == [2, 1]
  {
  }

  lemma Be32RoundTrip(x: uint32)
    ensures FromBe32(ToBe32(x)) == x
  {
  }

  lemma Be32Injective(bytes: seq<uint8>)
    requires |bytes| == 4
    ensures ToBe32(FromBe32(bytes)) == bytes
  {
    var x := FromBe32(bytes);
    assert x / 0x100 == bytes[0] as int * 0x1_0000 + bytes[1] as int * 0x100 + bytes[2];
    assert x / 0x100 / 0x100 == bytes[0] as int * 0x100 + bytes[1];
  }

  lemma Le32RoundTrip(x: uint32)
    ensures FromLe32(ToLe32(x)) == x
  {
  }

  lemma Le32Injective(bytes: seq<uint8>)
    requires |bytes| == 4
    ensures ToLe32(FromLe32(bytes)) == bytes
  {
    var x := FromLe32(bytes);
    assert x / 0x100 == bytes[3] as int * 0x1_0000 + bytes[2] as int * 0x100 + bytes[1];
    assert x / 0x100 / 0x100 == bytes[3] as int * 0x100 + bytes[2];
  }
}
