/** What holds of the frames one decoder accepts over a whole run, across clock and sequence wrap. */
module OpticalRuns {
  import opened Wrappers
  import opened Words
  import opened OpticalCodec
  import opened OpticalDecoder

  /** An accepted frame: when, and with which sequence number. */
  datatype Acceptance = Acceptance(time: nat, sequence: uint32)

  function Accepted(s: State, t: seq<Tick>): seq<Acceptance>
    decreases |t|
  {
    if t == [] then []
    else
      var (s1, o) := Push(s, t[0].b, t[0].Now(), t[0].auth);
      var rest := Accepted(s1, t[1..]);
      if o.Some? && o.value.Ok? then [Acceptance(t[0].time, o.value.value.sequence)] + rest else rest
  }

  /** `sequence` is ahead of `last` by at most half the number circle. */
  predicate Ahead(last: Option<uint32>, sequence: uint32) {
    last.Some? ==> 1 <= WrappingSub32(sequence, last.value) <= 0x8000_0000
  }

  predicate Advancing(last: Option<uint32>, a: seq<Acceptance>) {
    && (a != [] ==> Ahead(last, a[0].sequence))
    && forall k :: 0 < k < |a| ==> Ahead(Some(a[k - 1].sequence), a[k].sequence)
  }

  /** One byte leaves the guard alone, or offers one frame to it; a frame reported as accepted is that frame. */
  lemma PushGuard(s: State, b: uint8, now: uint32, auth: Option<Verifier>) returns (frame: Option<Frame>)
    ensures var (s1, o) := Push(s, b, now, auth);
      match frame
      case None => s1.core.guard == s.core.guard && !(o.Some? && o.value.Ok?)
      case Some(f) => o.Some? && AcceptSequence(s.core.guard, f, now) == (s1.core.guard, o.value)
  {
    hide AcceptSequence, Decode;
    var buffer := s.core.buffer + [b];
    frame := None;
    if |buffer| >= HEADER_LEN && !Late(s.lastByteMs, now) {
      var expected := HEADER_LEN + buffer[4] as nat + CRC_LEN;
      if |s.core.buffer| < MAX_FRAME_LEN && expected <= |buffer| && expected <= MAX_FRAME_LEN {
        var decoded := Decode(buffer[..expected], auth);
        frame := if decoded.Ok? then Some(decoded.value) else None;
      }
    }
  }

  /** Every accepted sequence number is strictly ahead of the one accepted before it, modulo 2^32. */
  lemma {:induction false} AcceptedAdvance(s: State, t: seq<Tick>)
    ensures Advancing(s.core.guard.last, Accepted(s, t))
    decreases |t|
  {
    hide Push;
    if t != [] {
      var frame := PushGuard(s, t[0].b, t[0].Now(), t[0].auth);
      var s1 := Push(s, t[0].b, t[0].Now(), t[0].auth).0;
      AcceptedAdvance(s1, t[1..]);
      if frame.Some? && AcceptSequence(s.core.guard, frame.value, t[0].Now()).1.Ok? {
        AdvancingCons(s.core.guard.last, Acceptance(t[0].time, frame.value.sequence), Accepted(s1, t[1..]));
      }
    }
  }

  lemma AdvancingCons(last: Option<uint32>, x: Acceptance, a: seq<Acceptance>)
    requires Ahead(last, x.sequence) && Advancing(Some(x.sequence), a)
    ensures Advancing(last, [x] + a)
  {
    var b := [x] + a;
    forall k | 0 < k < |b|
      ensures Ahead(Some(b[k - 1].sequence), b[k].sequence)
    {
      assert k > 1 ==> b[k - 1] == a[k - 2] && b[k] == a[k - 1];
    }
  }

  /** How far the accepted sequence numbers moved from index `i` to index `j`, summed without wrap. */
  function Advance(a: seq<Acceptance>, i: nat, j: nat): nat
    requires i <= j < |a|
    decreases j
  {
    if i == j then 0 else Advance(a, i, j - 1) + WrappingSub32(a[j].sequence, a[j - 1].sequence)
  }

  lemma {:induction false} AdvanceModulo(a: seq<Acceptance>, i: nat, j: nat)
    requires i <= j < |a|
    ensures Advance(a, i, j) % TWO_32 == WrappingSub32(a[j].sequence, a[i].sequence)
    decreases j
  {
    if i < j {
      AdvanceModulo(a, i, j - 1);
      SumOfDifferences(Advance(a, i, j - 1), a[j].sequence, a[j - 1].sequence, a[i].sequence);
    }
  }

  lemma SumOfDifferences(n: nat, x: uint32, y: uint32, z: uint32)
    requires n % TWO_32 == WrappingSub32(y, z)
    ensures (n + WrappingSub32(x, y)) % TWO_32 == WrappingSub32(x, z)
  {
    var a := if x >= y then 0 else 1;
    var b := if y >= z then 0 else 1;
    var c := if x >= z then 0 else 1;
    assert WrappingSub32(x, y) == x - y + TWO_32 * a;
    assert WrappingSub32(y, z) == y - z + TWO_32 * b;
    assert WrappingSub32(x, z) == x - z + TWO_32 * c;
    var q := n / TWO_32;
    assert n + WrappingSub32(x, y) == WrappingSub32(x, z) + TWO_32 * (q + a + b - c);
  }

  lemma {:induction false} AdvanceGrows(last: Option<uint32>, a: seq<Acceptance>, i: nat, j: nat)
    requires Advancing(last, a)
    requires i <= j < |a|
    ensures j - i <= Advance(a, i, j) <= (j - i) * 0x8000_0000
    decreases j
  {
    if i < j {
      AdvanceGrows(last, a, i, j - 1);
      assert Ahead(Some(a[j - 1].sequence), a[j].sequence);
    }
  }

  /**
   Two accepted frames of one run carry the same sequence number exactly when the numbers moved a whole
   number of turns between them; so they differ as long as the total advance stays below 2^32.
   */
  lemma SequenceRecurs(s: State, t: seq<Tick>, i: nat, j: nat)
    requires i < j < |Accepted(s, t)|
    ensures var a := Accepted(s, t);
      && (a[i].sequence == a[j].sequence <==> Advance(a, i, j) % TWO_32 == 0)
      && (Advance(a, i, j) < TWO_32 ==> a[i].sequence != a[j].sequence)
  {
    hide Accepted, Advancing, Advance;
    var a := Accepted(s, t);
    AcceptedAdvance(s, t);
    AdvanceModulo(a, i, j);
    AdvanceGrows(s.core.guard.last, a, i, j);
    DifferenceZero(a[j].sequence, a[i].sequence);
  }

  lemma DifferenceZero(x: uint32, y: uint32)
    ensures WrappingSub32(x, y) == 0 <==> x == y
  {
  }

  /** The first recurrence the rules allow: two advances of exactly half a turn accept the same number again. */
  lemma HalfTurnTwiceRecurs(g: Guard, frame: Frame, now: uint32)
    requires g.last == Some(frame.sequence)
    requires WrappingSub32(now, g.windowStart) < DUTY_WINDOW_MS && g.frames + 2 <= MAX_FRAMES_PER_WINDOW
    ensures var half := frame.(sequence := (frame.sequence + 0x8000_0000) % TWO_32);
      && AcceptSequence(g, frame, now).1 == Err(Replay)
      && AcceptSequence(g, half, now).1 == Ok(half)
      && AcceptSequence(AcceptSequence(g, half, now).0, frame, now).1 == Ok(frame)
  {
  }

  // Duty cycle.

  predicate Monotone(t: seq<Tick>) {
    forall i, j :: 0 <= i <= j < |t| ==> t[i].time <= t[j].time
  }

  /** No window ever counts more than four frames. */
  lemma {:induction false} WindowBound(s: State, t: seq<Tick>)
    requires s.core.guard.frames <= MAX_FRAMES_PER_WINDOW
    ensures Feed(s, t).0.core.guard.frames <= MAX_FRAMES_PER_WINDOW
    decreases |t|
  {
    hide Push;
    if t != [] {
      var frame := PushGuard(s, t[0].b, t[0].Now(), t[0].auth);
      WindowBound(Push(s, t[0].b, t[0].Now(), t[0].auth).0, t[1..]);
    }
  }

  lemma SameWindow(u: nat, r: nat)
    requires r <= u < r + DUTY_WINDOW_MS
    ensures WrappingSub32(u % TWO_32, r % TWO_32) < DUTY_WINDOW_MS
  {
    assert (u % TWO_32 - r % TWO_32) % TWO_32 == (u - r) % TWO_32;
  }

  /** Inside a window opened at true time `r`, only what is left of the four frames is accepted. */
  lemma {:induction false} InsideWindow(s: State, t: seq<Tick>, r: nat)
    requires s.core.guard.windowStart == r % TWO_32
    requires s.core.guard.frames <= MAX_FRAMES_PER_WINDOW
    requires forall i :: 0 <= i < |t| ==> r <= t[i].time < r + DUTY_WINDOW_MS
    ensures |Accepted(s, t)| <= MAX_FRAMES_PER_WINDOW - s.core.guard.frames
    decreases |t|
  {
    hide Push;
    if t != [] {
      var frame := PushGuard(s, t[0].b, t[0].Now(), t[0].auth);
      SameWindow(t[0].time, r);
      InsideWindow(Push(s, t[0].b, t[0].Now(), t[0].auth).0, t[1..], r);
    }
  }

  /** At most one window opens within an interval shorter than a window. */
  lemma {:induction false} AcrossWindows(s: State, t: seq<Tick>)
    requires s.core.guard.frames <= MAX_FRAMES_PER_WINDOW
    requires Monotone(t)
    requires t != [] ==> t[|t| - 1].time - t[0].time < DUTY_WINDOW_MS
    ensures |Accepted(s, t)| <= 2 * MAX_FRAMES_PER_WINDOW - s.core.guard.frames
    decreases |t|
  {
    hide Push;
    if t != [] {
      var frame := PushGuard(s, t[0].b, t[0].Now(), t[0].auth);
      var s1 := Push(s, t[0].b, t[0].Now(), t[0].auth).0;
      if s1.core.guard.frames >= s.core.guard.frames && s1.core.guard.windowStart == s.core.guard.windowStart {
        AcrossWindows(s1, t[1..]);
      } else {
        InsideWindow(s1, t[1..], t[0].time);
      }
    }
  }

  lemma {:induction false} AcceptedConcat(s: State, t: seq<Tick>, u: seq<Tick>)
    ensures Accepted(s, t + u) == Accepted(s, t) + Accepted(Feed(s, t).0, u)
    decreases |t|
  {
    hide Push;
    if t == [] {
      assert t + u == u;
    } else {
      assert (t + u)[1..] == t[1..] + u;
      AcceptedConcat(Push(s, t[0].b, t[0].Now(), t[0].auth).0, t[1..], u);
    }
  }

  /**
   In any run of a decoder with a monotone clock, also across wraps of the 32-bit millisecond counter, any
   stretch shorter than a window accepts at most eight frames.
   */
  lemma DutyCycle(t: seq<Tick>, i: nat, j: nat)
    requires Monotone(t)
    requires i < j <= |t| && t[j - 1].time - t[i].time < 1000
    ensures |Accepted(INITIAL, t[..j])| - |Accepted(INITIAL, t[..i])| <= 8
  {
    hide Accepted, Feed;
    var s := Feed(INITIAL, t[..i]).0;
    WindowBound(INITIAL, t[..i]);
    AcrossWindows(s, t[i..j]);
    assert t[..j] == t[..i] + t[i..j];
    AcceptedConcat(INITIAL, t[..i], t[i..j]);
  }
}
