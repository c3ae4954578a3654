/**
 The byte-at-a-time optical decoder: frame collection with resynchronisation and timeout, then the
 replay and duty-cycle rules.
 */
module OpticalDecoder {
  import opened Wrappers
  import opened Words
  import opened OpticalCodec

  const RX_TIMEOUT_MS := 100
  const DUTY_WINDOW_MS := 1000
  const MAX_FRAMES_PER_WINDOW := 4

  type Outcome = Result<Frame, DecodeError>

  /** Duty-cycle window and last accepted sequence number. */
  datatype Guard = Guard(windowStart: uint32, frames: nat, last: Option<uint32>)

  type Buffer = b: seq<uint8> | |b| <= MAX_FRAME_LEN

  /** The bytes collected so far, and the guard. */
  datatype Core = Core(buffer: Buffer, guard: Guard)

  datatype State = State(core: Core, lastByteMs: Option<uint32>)

  const INITIAL := State(Core([], Guard(0, 0, None)), None)

  function AcceptSequence(g: Guard, frame: Frame, now: uint32): (Guard, Outcome) {
    var g1 := if WrappingSub32(now, g.windowStart) >= DUTY_WINDOW_MS then g.(windowStart := now, frames := 0) else g;
    if g1.frames >= MAX_FRAMES_PER_WINDOW then (g1, Err(DutyCycle))
    else if g1.last.Some? &&
            (frame.sequence == g1.last.value || WrappingSub32(frame.sequence, g1.last.value) > 0x8000_0000)
    then (g1, Err(Replay))
    else (g1.(frames := g1.frames + 1, last := Some(frame.sequence)), Ok(frame))
  }

  /** What happens to a complete frame. */
  function Conclude(g: Guard, bytes: seq<uint8>, now: uint32, auth: Option<Verifier>): (Guard, Outcome) {
    match Decode(bytes, auth)
    case Err(e) => (g, Err(e))
    case Ok(frame) => AcceptSequence(g, frame, now)
  }

  /** One byte that arrived in time. */
  function Collect(c: Core, b: uint8, now: uint32, auth: Option<Verifier>): (Core, Option<Outcome>) {
    if c.buffer == [] then
      (if b == PREAMBLE[0] then c.(buffer := [b]) else c, None)
    else if |c.buffer| == 1 && b != PREAMBLE[1] then
      (c.(buffer := if b == PREAMBLE[0] then [b] else []), None)
    else if |c.buffer| >= MAX_FRAME_LEN then
      (c.(buffer := []), Some(Err(FrameTooLong)))
    else
      var buffer := c.buffer + [b];
      if |buffer| < HEADER_LEN then (c.(buffer := buffer), None)
      else
        var expected := HEADER_LEN + buffer[4] as nat + CRC_LEN;
        if expected > MAX_FRAME_LEN then (c.(buffer := []), Some(Err(FrameTooLong)))
        else if |buffer| < expected then (c.(buffer := buffer), None)
        else
          var (g, r) := Conclude(c.guard, buffer[..expected], now, auth);
          (Core([], g), Some(r))
  }

  /** More than the timeout since the last byte, as the wrapping clock shows it. */
  predicate Late(last: Option<uint32>, now: uint32) {
    last.Some? && WrappingSub32(now, last.value) > RX_TIMEOUT_MS
  }

  function Push(s: State, b: uint8, now: uint32, auth: Option<Verifier>): (State, Option<Outcome>) {
    if Late(s.lastByteMs, now) then
      (State(s.core.(buffer := []), Some(now)), Some(Err(Timeout)))
    else
      var (c, r) := Collect(s.core, b, now, auth);
      (State(c, Some(now)), r)
  }

  class Decoder {
    const buffer: array<uint8>
    var len: nat
    var lastByteMs: Option<uint32>
    var windowStartMs: uint32
    var framesInWindow: nat
    var lastSequence: Option<uint32>

    ghost predicate Valid()
      reads this
    {
      buffer.Length == MAX_FRAME_LEN && len <= MAX_FRAME_LEN
    }

    ghost function Abs(): State
      requires Valid()
      reads this, buffer
    {
      State(Core(buffer[..len], Guard(windowStartMs, framesInWindow, lastSequence)), lastByteMs)
    }

    constructor ()
      ensures Valid() && fresh(buffer)
      ensures Abs() == INITIAL
    {
      buffer := new uint8[MAX_FRAME_LEN](_ => 0);
      len := 0;
      lastByteMs := None;
      windowStartMs := 0;
      framesInWindow := 0;
      lastSequence := None;
      new;
      assert buffer[..len] == [];
    }

    method Reset()
      requires Valid()
      modifies this
      ensures Valid() && Abs() == old(Abs()).(core := old(Abs()).core.(buffer := []))
    {
      len := 0;
    }

    method Accept(frame: Frame, now: uint32) returns (r: Outcome)
      requires Valid()
      modifies this
      ensures Valid() && len == old(len)
      ensures (Abs().core.guard, r) == AcceptSequence(old(Abs()).core.guard, frame, now)
      ensures lastByteMs == old(lastByteMs)
    {
      if WrappingSub32(now, windowStartMs) >= DUTY_WINDOW_MS {
        windowStartMs := now;
        framesInWindow := 0;
      }
      if framesInWindow >= MAX_FRAMES_PER_WINDOW {
        return Err(DutyCycle);
      }
      if lastSequence.Some? && (frame.sequence == lastSequence.value ||
                                WrappingSub32(frame.sequence, lastSequence.value) > 0x8000_0000) {
        return Err(Replay);
      }
      framesInWindow := framesInWindow + 1;
      lastSequence := Some(frame.sequence);
      return Ok(frame);
    }

    /** Decodes the collected frame and starts afresh. */
    method Finish(expected: nat, now: uint32, auth: Option<Verifier>) returns (r: Outcome)
      requires Valid() && expected <= len
      modifies this
      ensures Valid() && len == 0 && lastByteMs == old(lastByteMs)
      ensures (Abs().core.guard, r) == Conclude(old(Abs()).core.guard, old(buffer[..expected]), now, auth)
    {
      hide Decode, AcceptSequence;
      var decoded := Decode(buffer[..expected], auth);
      if decoded.Ok? {
        r := Accept(decoded.value, now);
      } else {
        r := decoded;
      }
      Reset();
    }

    method Receive(b: uint8, now: uint32, auth: Option<Verifier>) returns (r: Option<Outcome>)
      requires Valid()
      modifies this, buffer
      ensures Valid()
      ensures (Abs(), r) == Push(old(Abs()), b, now, auth)
    {
      hide Conclude;
      if lastByteMs.Some? && WrappingSub32(now, lastByteMs.value) > RX_TIMEOUT_MS {
        Reset();
        lastByteMs := Some(now);
        return Some(Err(Timeout));
      }
      lastByteMs := Some(now);
      if len == 0 {
        if b != PREAMBLE[0] {
          return None;
        }
        buffer[0] := b;
        len := 1;
        assert buffer[..len] == [b];
        return None;
      }
      if len == 1 && b != PREAMBLE[1] {
        len := if b == PREAMBLE[0] then 1 else 0;
        if len == 1 {
          buffer[0] := b;
        }
        assert buffer[..len] == if b == PREAMBLE[0] then [b] else [];
        return None;
      }
      if len >= MAX_FRAME_LEN {
        Reset();
        return Some(Err(FrameTooLong));
      }
      buffer[len] := b;
      len := len + 1;
      assert buffer[..len] == old(buffer[..len]) + [b];
      if len < HEADER_LEN {
        return None;
      }
      var expected := HEADER_LEN + buffer[4] as nat + CRC_LEN;
      if expected > MAX_FRAME_LEN {
        Reset();
        return Some(Err(FrameTooLong));
      }
      if len < expected {
        return None;
      }
      assert buffer[..expected] == buffer[..len][..expected];
      var result := Finish(expected, now, auth);
      return Some(result);
    }
  }

  // Runs. `time` is the true time in milliseconds; the decoder sees it modulo 2^32.

  datatype Tick = Tick(b: uint8, time: nat, auth: Option<Verifier>) {
    function Now(): uint32 {
      time % TWO_32
    }
  }

  type Outputs = seq<Option<Outcome>>

  function Feed(s: State, t: seq<Tick>): (r: (State, Outputs))
    ensures |r.1| == |t|
    decreases |t|
  {
    if t == [] then (s, [])
    else
      var (s1, o) := Push(s, t[0].b, t[0].Now(), t[0].auth);
      var (s2, os) := Feed(s1, t[1..]);
      (s2, [o] + os)
  }

  function FeedCore(c: Core, t: seq<Tick>): (r: (Core, Outputs))
    ensures |r.1| == |t|
    decreases |t|
  {
    if t == [] then (c, [])
    else
      var (c1, o) := Collect(c, t[0].b, t[0].Now(), t[0].auth);
      var (c2, os) := FeedCore(c1, t[1..]);
      (c2, [o] + os)
  }

  lemma {:induction false} FeedConcat(s: State, t: seq<Tick>, u: seq<Tick>)
    ensures Feed(s, t + u).0 == Feed(Feed(s, t).0, u).0
    ensures Feed(s, t + u).1 == Feed(s, t).1 + Feed(Feed(s, t).0, u).1
    decreases |t|
  {
    hide Push;
    if t == [] {
      assert t + u == u;
    } else {
      assert (t + u)[1..] == t[1..] + u;
      FeedConcat(Push(s, t[0].b, t[0].Now(), t[0].auth).0, t[1..], u);
    }
  }

  lemma {:induction false} FeedCoreConcat(c: Core, t: seq<Tick>, u: seq<Tick>)
    ensures FeedCore(c, t + u).0 == FeedCore(FeedCore(c, t).0, u).0
    ensures FeedCore(c, t + u).1 == FeedCore(c, t).1 + FeedCore(FeedCore(c, t).0, u).1
    decreases |t|
  {
    hide Collect;
    if t == [] {
      assert t + u == u;
    } else {
      assert (t + u)[1..] == t[1..] + u;
      FeedCoreConcat(Collect(c, t[0].b, t[0].Now(), t[0].auth).0, t[1..], u);
    }
  }
}
