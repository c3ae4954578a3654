/**
 What the decoder answers to each frame offered to its sequence rules, in true times, from the frames it accepted
 before.
 */
module OpticalAnswers {
  import opened Wrappers
  import opened Words
  import opened OpticalCodec
  import opened OpticalDecoder
  import opened OpticalRuns

  /** The frame a byte completes, if it is in time and the bytes collected decode. */
  function Offered(s: State, x: Tick): Option<Frame> {
    if Late(s.lastByteMs, x.Now()) then None
    else
      match Decode(s.core.buffer + [x.b], x.auth)
      case Ok(frame) => Some(frame)
      case Err(_) => None
  }

  /** The times at which frames are offered. */
  function OfferTimes(s: State, t: seq<Tick>): seq<nat>
    decreases |t|
  {
    if t == [] then []
    else
      var rest := OfferTimes(Push(s, t[0].b, t[0].Now(), t[0].auth).0, t[1..]);
      if Offered(s, t[0]).Some? then [t[0].time] + rest else rest
  }

  /** The start of the window at the last offer: an offer 1000 ms or more after the last window opened opens another. */
  function WindowStart(offers: seq<nat>): nat {
    if offers == [] then 0
    else
      var before, last := WindowStart(offers[..|offers| - 1]), offers[|offers| - 1];
      if (last - before) % TWO_32 >= 1000 then last else before
  }

  /** How many frames were accepted at or after a time. */
  function Since(a: seq<Acceptance>, from: nat): nat {
    if a == [] then 0 else Since(a[..|a| - 1], from) + if a[|a| - 1].time >= from then 1 else 0
  }

  /** Less than a whole frame has been collected. */
  predicate Partial(buffer: Buffer) {
    |buffer| >= HEADER_LEN ==> |buffer| < HEADER_LEN + buffer[4] as nat + CRC_LEN
  }

  /** A byte that completes a frame gets the rules' answer; no other byte touches them or is answered so. */
  lemma OfferJudged(s: State, x: Tick)
    requires Partial(s.core.buffer)
    ensures var (s1, o) := Push(s, x.b, x.Now(), x.auth);
      && Partial(s1.core.buffer)
      && match Offered(s, x) {
        case None =>
          s1.core.guard == s.core.guard && o != Some(Err(Replay)) && o != Some(Err(DutyCycle)) && !(o.Some? && o.value.Ok?)
        case Some(frame) =>
          s1.core.guard == AcceptSequence(s.core.guard, frame, x.Now()).0
          && o == Some(AcceptSequence(s.core.guard, frame, x.Now()).1)
      }
  {
    hide Decode, AcceptSequence;
    var buffer := s.core.buffer + [x.b];
    DecodedLength(buffer, x.auth);
    if |buffer| >= HEADER_LEN && |buffer| == HEADER_LEN + buffer[4] as nat + CRC_LEN {
      assert buffer[..|buffer|] == buffer;
    }
  }

  lemma DecodedLength(bytes: seq<uint8>, auth: Option<Verifier>)
    ensures Decode(bytes, auth) != Err(Replay) && Decode(bytes, auth) != Err(DutyCycle)
    ensures Decode(bytes, auth).Ok? ==>
      11 <= |bytes| <= MAX_FRAME_LEN && |bytes| == HEADER_LEN + bytes[4] as nat + CRC_LEN
  {
  }

  /** The rules' memory is what was offered and accepted so far. */
  ghost predicate Remembers(g: Guard, a: seq<Acceptance>, offers: seq<nat>) {
    var start := WindowStart(offers);
    && g.windowStart == start % TWO_32
    && g.frames == Since(a, start)
    && g.last == (if a == [] then None else Some(a[|a| - 1].sequence))
    && (offers != [] ==> (offers[|offers| - 1] - start) % TWO_32 < DUTY_WINDOW_MS)
    && (forall i :: 0 <= i < |a| ==> offers != [] && a[i].time <= offers[|offers| - 1])
  }

  /** The answer, from what was accepted before: `start` is the start of the window. */
  function Answer(a: seq<Acceptance>, start: nat, frame: Frame): Outcome {
    if Since(a, start) >= 4 then Err(DutyCycle)
    else if a != [] && !Ahead(Some(a[|a| - 1].sequence), frame.sequence) then Err(Replay)
    else Ok(frame)
  }

  lemma {:induction false} NoneSince(a: seq<Acceptance>, from: nat)
    requires forall i :: 0 <= i < |a| ==> a[i].time < from
    ensures Since(a, from) == 0
  {
    if a != [] {
      NoneSince(a[..|a| - 1], from);
    }
  }

  lemma SinceOneMore(a: seq<Acceptance>, x: Acceptance, from: nat)
    ensures Since(a + [x], from) == Since(a, from) + if x.time >= from then 1 else 0
  {
    assert (a + [x])[..|a|] == a;
  }

  lemma WindowOneMore(offers: seq<nat>, time: nat)
    ensures WindowStart(offers + [time]) ==
      var before := WindowStart(offers); if (time - before) % TWO_32 >= 1000 then time else before
  {
    assert (offers + [time])[..|offers|] == offers;
  }

  lemma NotAhead(last: uint32, sequence: uint32)
    ensures !Ahead(Some(last), sequence) <==> sequence == last || WrappingSub32(sequence, last) > 0x8000_0000
  {
  }

  lemma Judged(g: Guard, a: seq<Acceptance>, offers: seq<nat>, frame: Frame, time: nat)
    requires Remembers(g, a, offers) && WindowStart(offers) <= time
    requires offers != [] ==> offers[|offers| - 1] <= time
    ensures
      var (g1, r) := AcceptSequence(g, frame, time % TWO_32);
      && r == Answer(a, WindowStart(offers + [time]), frame)
      && Remembers(g1, if r.Ok? then a + [Acceptance(time, frame.sequence)] else a, offers + [time])
  {
    hide Since, WindowStart;
    var start := WindowStart(offers);
    WindowOneMore(offers, time);
    DifferenceModulo(time, start);
    if (time - start) % TWO_32 >= DUTY_WINDOW_MS {
      NoneSince(a, time);
    }
    var start1 := WindowStart(offers + [time]);
    SinceOneMore(a, Acceptance(time, frame.sequence), start1);
    if a != [] {
      NotAhead(a[|a| - 1].sequence, frame.sequence);
    }
  }

  // Whole runs.

  lemma {:induction false} OfferTimesConcat(s: State, t: seq<Tick>, u: seq<Tick>)
    ensures OfferTimes(s, t + u) == OfferTimes(s, t) + OfferTimes(Feed(s, t).0, u)
    decreases |t|
  {
    hide Push, Offered;
    if t == [] {
      assert t + u == u;
    } else {
      assert (t + u)[1..] == t[1..] + u;
      OfferTimesConcat(Push(s, t[0].b, t[0].Now(), t[0].auth).0, t[1..], u);
    }
  }

  lemma OneTick(s: State, x: Tick)
    ensures var (s1, o) := Push(s, x.b, x.Now(), x.auth);
      && Feed(s, [x]).0 == s1
      && Accepted(s, [x]) == (if o.Some? && o.value.Ok? then [Acceptance(x.time, o.value.value.sequence)] else [])
      && OfferTimes(s, [x]) == if Offered(s, x).Some? then [x.time] else []
  {
    hide Push, Offered;
    assert [x][1..] == [];
  }

  /** The state of a decoder, the frames it accepted, and the times of those offered, up to a moment. */
  ghost predicate Holds(s: State, a: seq<Acceptance>, offers: seq<nat>, now: nat) {
    && Partial(s.core.buffer)
    && Remembers(s.core.guard, a, offers)
    && (offers != [] ==> offers[|offers| - 1] <= now)
    && WindowStart(offers) <= now
  }

  function Latest(t: seq<Tick>): nat {
    if t == [] then 0 else t[|t| - 1].time
  }

  ghost predicate RunInv(t: seq<Tick>) {
    Holds(Feed(INITIAL, t).0, Accepted(INITIAL, t), OfferTimes(INITIAL, t), Latest(t))
  }

  lemma {:induction false} RunRemembers(t: seq<Tick>)
    requires Monotone(t)
    ensures RunInv(t)
    decreases |t|
  {
    hide RunInv;
    if t == [] {
      NothingFed();
    } else {
      var n := |t| - 1;
      RunRemembers(t[..n]);
      StepRemembers(t[..n], t[n]);
      assert t == t[..n] + [t[n]];
    }
  }

  lemma NothingFed()
    ensures RunInv([])
  {
  }

  lemma TickHolds(s: State, a: seq<Acceptance>, offers: seq<nat>, now: nat, x: Tick)
    requires Holds(s, a, offers, now) && now <= x.time
    ensures Holds(Push(s, x.b, x.Now(), x.auth).0, a + Accepted(s, [x]), offers + OfferTimes(s, [x]), x.time)
    ensures
      var o := Push(s, x.b, x.Now(), x.auth).1;
      match Offered(s, x)
      case None => o != Some(Err(Replay)) && o != Some(Err(DutyCycle)) && !(o.Some? && o.value.Ok?)
      case Some(frame) => o == Some(Answer(a, WindowStart(offers + [x.time]), frame))
  {
    hide Accepted, OfferTimes, Push, Offered, AcceptSequence, Since, Answer, Partial, WindowStart, Remembers;
    OfferJudged(s, x);
    OneTick(s, x);
    WindowOneMore(offers, x.time);
    if Offered(s, x).Some? {
      Judged(s.core.guard, a, offers, Offered(s, x).value, x.time);
      AnswerFrame(a, WindowStart(offers + [x.time]), Offered(s, x).value);
      assert a + [] == a;
    } else {
      assert a + [] == a && offers + [] == offers;
    }
  }

  lemma StepRemembers(t: seq<Tick>, x: Tick)
    requires RunInv(t) && Latest(t) <= x.time
    ensures RunInv(t + [x])
    ensures
      var s, a := Feed(INITIAL, t).0, Accepted(INITIAL, t);
      var o := Push(s, x.b, x.Now(), x.auth).1;
      match Offered(s, x)
      case None => o != Some(Err(Replay)) && o != Some(Err(DutyCycle)) && !(o.Some? && o.value.Ok?)
      case Some(frame) => o == Some(Answer(a, WindowStart(OfferTimes(INITIAL, t) + [x.time]), frame))
  {
    hide Feed, Accepted, OfferTimes, Push, Offered, Answer, WindowStart, Holds;
    FeedConcat(INITIAL, t, [x]);
    AcceptedConcat(INITIAL, t, [x]);
    OfferTimesConcat(INITIAL, t, [x]);
    OneTick(Feed(INITIAL, t).0, x);
    TickHolds(Feed(INITIAL, t).0, Accepted(INITIAL, t), OfferTimes(INITIAL, t), Latest(t), x);
  }

  lemma AnswerFrame(a: seq<Acceptance>, start: nat, frame: Frame)
    ensures Answer(a, start, frame).Ok? ==> Answer(a, start, frame) == Ok(frame)
  {
  }

  /**
   In every run on a clock that does not go back, of any length: a frame offered is answered `DutyCycle` exactly
   when four frames were accepted since its window opened, else `Replay` exactly when it is not ahead of the last
   accepted number, and is accepted otherwise; and nothing else is answered so.
   */
  lemma AnswersExactly(t: seq<Tick>, x: Tick)
    requires Monotone(t + [x])
    ensures
      var s, a := Feed(INITIAL, t).0, Accepted(INITIAL, t);
      var o := Push(s, x.b, x.Now(), x.auth).1;
      match Offered(s, x)
      case None => o != Some(Err(Replay)) && o != Some(Err(DutyCycle)) && !(o.Some? && o.value.Ok?)
      case Some(frame) =>
        var full := Since(a, WindowStart(OfferTimes(INITIAL, t) + [x.time])) >= 4;
        o == Some(if full then Err(DutyCycle)
                  else if a != [] && !Ahead(Some(a[|a| - 1].sequence), frame.sequence) then Err(Replay)
                  else Ok(frame))
  {
    hide Feed, Accepted, OfferTimes, Push, Offered, WindowStart, Since, Ahead;
    MonotoneParts(t, x);
    RunRemembers(t);
    StepRemembers(t, x);
  }

  lemma MonotoneParts(t: seq<Tick>, x: Tick)
    requires Monotone(t + [x])
    ensures Monotone(t) && Latest(t) <= x.time
  {
    var all := t + [x];
    assert all[|t|] == x;
    assert forall i :: 0 <= i < |t| ==> all[i] == t[i];
  }

  lemma {:induction false} FourSince(a: seq<Acceptance>, from: nat)
    requires forall i, j :: 0 <= i <= j < |a| ==> a[i].time <= a[j].time
    ensures Since(a, from) <= |a| && forall i :: |a| - Since(a, from) <= i < |a| ==> a[i].time >= from
    decreases |a|
  {
    if a != [] {
      var n := |a| - 1;
      var before := a[..n];
      FourSince(before, from);
      if Since(before, from) > 0 {
        assert before[n - 1].time >= from;
      }
    }
  }

  lemma {:induction false} AcceptedOrdered(s: State, t: seq<Tick>)
    requires Monotone(t)
    ensures forall i, j :: 0 <= i <= j < |Accepted(s, t)| ==> Accepted(s, t)[i].time <= Accepted(s, t)[j].time
    ensures t == [] ==> Accepted(s, t) == []
    ensures t != [] ==> forall i :: 0 <= i < |Accepted(s, t)| ==> t[0].time <= Accepted(s, t)[i].time
    decreases |t|
  {
    hide Push;
    if t != [] {
      var s1, tail := Push(s, t[0].b, t[0].Now(), t[0].auth).0, t[1..];
      assert tail != [] ==> t[0].time <= tail[0].time;
      AcceptedOrdered(s1, tail);
      var rest, all := Accepted(s1, tail), Accepted(s, t);
      assert forall i :: 0 <= i < |rest| ==> t[0].time <= rest[i].time;
      assert all == rest || (all != [] && all[0].time == t[0].time && all[1..] == rest);
      OrderedCons(all, rest, t[0].time);
    }
  }

  lemma OrderedCons(all: seq<Acceptance>, rest: seq<Acceptance>, first: nat)
    requires forall i, j :: 0 <= i <= j < |rest| ==> rest[i].time <= rest[j].time
    requires forall i :: 0 <= i < |rest| ==> first <= rest[i].time
    requires all == rest || (all != [] && all[0].time == first && all[1..] == rest)
    ensures forall i, j :: 0 <= i <= j < |all| ==> all[i].time <= all[j].time
    ensures forall i :: 0 <= i < |all| ==> first <= all[i].time
  {
    if all != rest {
      assert forall i :: 0 < i < |all| ==> all[i] == rest[i - 1];
    }
  }

  lemma WindowShort(offers: seq<nat>)
    requires offers != [] && WindowStart(offers[..|offers| - 1]) <= offers[|offers| - 1]
    requires WindowStart(offers) <= offers[|offers| - 1] < TWO_32
    ensures offers[|offers| - 1] - WindowStart(offers) < DUTY_WINDOW_MS
  {
  }

  /**
   While the clock has not wrapped, the decoder accepts again after a window: a frame offered is refused for the duty
   cycle only if four frames were accepted less than 1000 ms before it, is refused as a replay only if it is not ahead
   of the last accepted number, and else is accepted.
   */
  lemma AcceptsAgain(t: seq<Tick>, x: Tick, frame: Frame)
    requires Monotone(t + [x]) && x.time < TWO_32 && Offered(Feed(INITIAL, t).0, x) == Some(frame)
    ensures
      var a := Accepted(INITIAL, t);
      var o := Push(Feed(INITIAL, t).0, x.b, x.Now(), x.auth).1;
      && (o == Some(Err(DutyCycle)) ==> |a| >= 4 && x.time - a[|a| - 4].time < 1000)
      && (o == Some(Err(Replay)) ==> a != [] && !Ahead(Some(a[|a| - 1].sequence), frame.sequence))
      && (o == Some(Ok(frame)) || o == Some(Err(DutyCycle)) || o == Some(Err(Replay)))
  {
    hide Feed, Accepted, Push, Offered, WindowStart, Since, Ahead;
    AnswersExactly(t, x);
    MonotoneParts(t, x);
    RunRemembers(t);
    var a := Accepted(INITIAL, t);
    var offers := OfferTimes(INITIAL, t) + [x.time];
    AcceptedOrdered(INITIAL, t);
    FourSince(a, WindowStart(offers));
    WindowOneMore(OfferTimes(INITIAL, t), x.time);
    assert offers[..|offers| - 1] == OfferTimes(INITIAL, t);
    WindowShort(offers);
    if Since(a, WindowStart(offers)) >= 4 {
      assert a[|a| - 4].time >= WindowStart(offers);
    }
  }

  /** The rules alone, on frames offered one after the other. */
  function Judge(g: Guard, offers: seq<(Frame, nat)>): Guard {
    if offers == [] then g
    else
      var (frame, time) := offers[|offers| - 1];
      AcceptSequence(Judge(g, offers[..|offers| - 1]), frame, time % TWO_32).0
  }

  /**
   Across a wrap an idle decoder can refuse for frames long past: four frames 900 ms after the start leave the first
   window full, and a frame offered next 49 days later, at 400 ms of the wrapped clock, still falls into it.
   */
  lemma FullAcrossWrap(f1: Frame, f2: Frame, f3: Frame, f4: Frame, f5: Frame)
    requires f1.sequence == 1 && f2.sequence == 2 && f3.sequence == 3 && f4.sequence == 4 && f5.sequence == 5
    ensures
      var g := Judge(INITIAL.core.guard, [(f1, 900), (f2, 900), (f3, 900), (f4, 900)]);
      AcceptSequence(g, f5, (TWO_32 + 400) % TWO_32).1 == Err(DutyCycle)
  {
    var offers: seq<(Frame, nat)> := [(f1, 900), (f2, 900), (f3, 900), (f4, 900)];
    assert offers[..3] == [(f1, 900), (f2, 900), (f3, 900)] && offers[..3][..2] == [(f1, 900), (f2, 900)];
    assert offers[..3][..2][..1] == [(f1, 900)];
    var g := INITIAL.core.guard;
    assert Judge(g, [(f1, 900)]) == Guard(0, 1, Some(1));
    assert Judge(g, [(f1, 900), (f2, 900)]) == Guard(0, 2, Some(2));
    assert Judge(g, [(f1, 900), (f2, 900), (f3, 900)]) == Guard(0, 3, Some(3));
  }
}
