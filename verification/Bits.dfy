/** Machine words as sequences of bits, least significant bit first. */
module Bits {

  type Word = seq<bool>

  function Zeros(n: nat): (w: Word)
    ensures |w| == n && forall i :: 0 <= i < n ==> !w[i]
  {
    seq(n, i => false)
  }

  function Xor(a: Word, b: Word): (w: Word)
    requires |a| == |b|
    ensures |w| == |a| && forall i :: 0 <= i < |a| ==> (w[i] <==> a[i] != b[i])
  {
    seq(|a|, i requires 0 <= i < |a| => a[i] != b[i])
  }

  /** `w << k`: bits shifted out at the top are lost. */
  function Shl(w: Word, k: nat): (r: Word)
    ensures |r| == |w| && forall i :: 0 <= i < |w| ==> (r[i] <==> k <= i && w[i - k])
  {
    seq(|w|, i requires 0 <= i < |w| => k <= i && w[i - k])
  }

  /** The `n` low bits of `x`. */
  function FromInt(x: nat, n: nat): (w: Word)
    ensures |w| == n
  {
    if n == 0 then [] else [x % 2 == 1] + FromInt(x / 2, n - 1)
  }

  function ToInt(w: Word): nat {
    if w == [] then 0 else (if w[0] then 1 else 0) + 2 * ToInt(w[1..])
  }

  function Pow2(n: nat): (p: nat)
    ensures p > 0
  {
    if n == 0 then 1 else 2 * Pow2(n - 1)
  }

  lemma {:induction false} ToIntBound(w: Word)
    ensures ToInt(w) < Pow2(|w|)
  {
    if w != [] {
      ToIntBound(w[1..]);
    }
  }

  lemma {:induction false} IntRoundTrip(x: nat, n: nat)
    requires x < Pow2(n)
    ensures ToInt(FromInt(x, n)) == x
  {
    if n > 0 {
      IntRoundTrip(x / 2, n - 1);
      assert FromInt(x, n)[1..] == FromInt(x / 2, n - 1);
    }
  }

  lemma {:induction false} WordRoundTrip(w: Word)
    ensures FromInt(ToInt(w), |w|) == w
  {
    if w != [] {
      WordRoundTrip(w[1..]);
      assert ToInt(w) / 2 == ToInt(w[1..]);
      assert w == [w[0]] + w[1..];
    }
  }
}
