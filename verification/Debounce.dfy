/** The button debouncer: which samples count as a press, and which events a press gives. */
module Debounce {
  import opened Words
  import opened Wrappers

  const SAMPLES := 4

  datatype ButtonEvent = Down | Up | LongUp | LongPress | ReallyLongPress

  /** How many fast ticks make a long and a really long press. */
  datatype Thresholds = Thresholds(long: uint16, reallyLong: uint16)

  datatype State = State(
    stable: bool, candidate: bool, count: uint8, down: uint16, longReported: bool, reallyLongReported: bool)

  const RELEASED := State(false, false, 0, 0, false, false)

  /** One reading of the pin. */
  function Update(s: State, raw: bool, ticks: uint16): (State, Option<ButtonEvent>) {
    var count := if raw != s.candidate then 1 else if s.count == 0xff then 0xff else s.count + 1;
    var s1 := s.(candidate := raw, count := count);
    if count < SAMPLES || s.stable == raw then (s1, None)
    else if raw then (State(true, raw, 0, ticks, false, false), Some(Down))
    else (s1.(stable := false, count := 0, down := 0), Some(if s.longReported then LongUp else Up))
  }

  /** One fast tick. */
  function CheckLongPress(t: Thresholds, s: State, ticks: uint16): (State, Option<ButtonEvent>) {
    var held := (ticks - s.down) % TWO_16;
    if s.stable && !s.longReported && held >= t.long then (s.(longReported := true), Some(LongPress))
    else if s.stable && !s.reallyLongReported && held >= t.reallyLong then
      (s.(reallyLongReported := true), Some(ReallyLongPress))
    else (s, None)
  }

  class Button {
    const thresholds: Thresholds
    var stableLevel: bool
    var candidateLevel: bool
    var sampleCount: uint8
    var downTimestamp: uint16
    var longReported: bool
    var reallyLongReported: bool

    ghost function Abs(): State
      reads this
    {
      State(stableLevel, candidateLevel, sampleCount, downTimestamp, longReported, reallyLongReported)
    }

    constructor (thresholds: Thresholds)
      ensures this.thresholds == thresholds && Abs() == RELEASED
    {
      this.thresholds := thresholds;
      stableLevel, candidateLevel, sampleCount, downTimestamp := false, false, 0, 0;
      longReported, reallyLongReported := false, false;
    }

    method Sample(raw: bool, ticks: uint16) returns (event: Option<ButtonEvent>)
      modifies this
      ensures (Abs(), event) == Update(old(Abs()), raw, ticks)
    {
      if raw == candidateLevel {
        sampleCount := if sampleCount == 0xff then 0xff else sampleCount + 1;
      } else {
        candidateLevel := raw;
        sampleCount := 1;
      }
      if sampleCount < SAMPLES {
        return None;
      }
      if stableLevel == candidateLevel {
        return None;
      }
      stableLevel := candidateLevel;
      sampleCount := 0;
      if stableLevel {
        downTimestamp := ticks;
        longReported := false;
        reallyLongReported := false;
        return Some(Down);
      } else {
        var long := longReported;
        downTimestamp := 0;
        return Some(if long then LongUp else Up);
      }
    }

    method FastTick(ticks: uint16) returns (event: Option<ButtonEvent>)
      modifies this`longReported, this`reallyLongReported
      ensures (Abs(), event) == CheckLongPress(thresholds, old(Abs()), ticks)
    {
      if stableLevel && !longReported && (ticks - downTimestamp) % TWO_16 >= thresholds.long {
        longReported := true;
        return Some(LongPress);
      }
      if stableLevel && !reallyLongReported && (ticks - downTimestamp) % TWO_16 >= thresholds.reallyLong {
        reallyLongReported := true;
        return Some(ReallyLongPress);
      }
      return None;
    }
  }

  // Whole runs.

  datatype Input = Reading(raw: bool, ticks: uint16) | Tick(ticks: uint16)

  function Step(t: Thresholds, s: State, input: Input): (State, Option<ButtonEvent>) {
    match input
    case Reading(raw, ticks) => Update(s, raw, ticks)
    case Tick(ticks) => CheckLongPress(t, s, ticks)
  }

  function Run(t: Thresholds, inputs: seq<Input>): (State, seq<ButtonEvent>) {
    if inputs == [] then (RELEASED, [])
    else
      var (s, events) := Run(t, inputs[..|inputs| - 1]);
      var (s1, event) := Step(t, s, inputs[|inputs| - 1]);
      (s1, if event.Some? then events + [event.value] else events)
  }

  function Readings(inputs: seq<Input>): seq<bool> {
    if inputs == [] then []
    else
      var last := inputs[|inputs| - 1];
      Readings(inputs[..|inputs| - 1]) + if last.Reading? then [last.raw] else []
  }

  // Debouncing.

  /** There are four readings, and the last four differ from `level`. */
  predicate LastFourOppose(readings: seq<bool>, level: bool) {
    |readings| >= 4 && forall i :: |readings| - 4 <= i < |readings| ==> readings[i] != level
  }

  /** The level of a button, from its readings alone: it changes when four readings in a row oppose it. */
  function Level(readings: seq<bool>): bool {
    if readings == [] then false
    else
      var level := Level(readings[..|readings| - 1]);
      if LastFourOppose(readings, level) then !level else level
  }

  /** How many of the latest readings in a row differ from `level`. */
  function Opposing(readings: seq<bool>, level: bool): (n: nat)
    ensures n <= |readings|
  {
    if readings == [] || readings[|readings| - 1] == level then 0
    else 1 + Opposing(readings[..|readings| - 1], level)
  }

  lemma {:induction false} OpposingMeans(readings: seq<bool>, level: bool)
    ensures var n := Opposing(readings, level);
      && (forall i :: |readings| - n <= i < |readings| ==> readings[i] != level)
      && (n < |readings| ==> readings[|readings| - n - 1] == level)
    decreases |readings|
  {
    if readings != [] && readings[|readings| - 1] != level {
      OpposingMeans(readings[..|readings| - 1], level);
    }
  }

  lemma FourOpposing(readings: seq<bool>, level: bool)
    ensures LastFourOppose(readings, level) <==> Opposing(readings, level) >= SAMPLES
  {
    OpposingMeans(readings, level);
    var n := Opposing(readings, level);
    if n < SAMPLES && |readings| >= SAMPLES {
      assert readings[|readings| - n - 1] == level;
    }
  }

  /** The candidate and its count are the latest readings that oppose the stable level. */
  predicate Sampling(s: State, readings: seq<bool>) {
    var n := Opposing(readings, s.stable);
    && s.stable == Level(readings)
    && n < SAMPLES
    && (n == 0 <==> s.candidate == s.stable)
    && (n > 0 ==> s.count as int == n)
  }

  lemma UpdateSamples(s: State, readings: seq<bool>, raw: bool, ticks: uint16)
    requires Sampling(s, readings)
    ensures Sampling(Update(s, raw, ticks).0, readings + [raw])
    ensures Update(s, raw, ticks).1.Some? <==> LastFourOppose(readings + [raw], s.stable)
  {
    hide LastFourOppose;
    var all := readings + [raw];
    assert all[..|readings|] == readings;
    FourOpposing(all, s.stable);
    assert Opposing(all, s.stable) == if raw == s.stable then 0 else 1 + Opposing(readings, s.stable);
    assert Opposing(all, raw) == 0;
  }

  lemma {:induction false} RunSamples(t: Thresholds, inputs: seq<Input>)
    ensures Sampling(Run(t, inputs).0, Readings(inputs))
    decreases |inputs|
  {
    hide Update, Opposing, Level;
    if inputs == [] {
      NoReadings();
    } else {
      var before := inputs[..|inputs| - 1];
      RunSamples(t, before);
      var input := inputs[|inputs| - 1];
      if input.Reading? {
        UpdateSamples(Run(t, before).0, Readings(before), input.raw, input.ticks);
      } else {
        assert Readings(inputs) == Readings(before);
      }
    }
  }

  lemma NoReadings()
    ensures Sampling(RELEASED, [])
  {
  }

  /**
   After any samples and ticks, a change is reported at a sample exactly when the last four readings all oppose
   the stable level, and it is a press exactly when they are high.
   */
  lemma ChangeExactly(t: Thresholds, inputs: seq<Input>, raw: bool, ticks: uint16)
    ensures
      var s := Run(t, inputs).0;
      var (s1, event) := Update(s, raw, ticks);
      var readings := Readings(inputs) + [raw];
      && s.stable == Level(Readings(inputs)) && s1.stable == Level(readings)
      && (event.Some? <==> LastFourOppose(readings, s.stable))
      && (event == Some(Down) <==> raw && event.Some?)
  {
    hide Run, Readings, Level, Opposing;
    RunSamples(t, inputs);
    UpdateSamples(Run(t, inputs).0, Readings(inputs), raw, ticks);
    DownIsHigh(Run(t, inputs).0, raw, ticks);
  }

  lemma DownIsHigh(s: State, raw: bool, ticks: uint16)
    ensures Update(s, raw, ticks).1 == Some(Down) <==> raw && Update(s, raw, ticks).1.Some?
  {
  }

  // When the long presses come.

  /** The fast tick of the reading that last made the level high. */
  function PressedAt(inputs: seq<Input>): uint16 {
    if inputs == [] then 0
    else
      var before, last := inputs[..|inputs| - 1], inputs[|inputs| - 1];
      if last.Reading? && !Level(Readings(before)) && Level(Readings(inputs)) then last.ticks else PressedAt(before)
  }

  /** The events after the last press. */
  function SinceDown(events: seq<ButtonEvent>): seq<ButtonEvent> {
    if events == [] || events[|events| - 1] == Down then []
    else SinceDown(events[..|events| - 1]) + [events[|events| - 1]]
  }

  /** While the button is down, the debouncer remembers when it was pressed and what it reported since. */
  predicate Timed(s: State, pressed: uint16, since: seq<ButtonEvent>) {
    s.stable ==>
      && s.down == pressed
      && (s.longReported <==> LongPress in since)
      && (s.reallyLongReported <==> ReallyLongPress in since)
  }

  lemma SinceOneMore(events: seq<ButtonEvent>, e: ButtonEvent)
    ensures SinceDown(events + [e]) == if e == Down then [] else SinceDown(events) + [e]
  {
    assert (events + [e])[..|events|] == events;
  }

  lemma UpdateTimed(s: State, raw: bool, ticks: uint16, pressed: uint16, since: seq<ButtonEvent>)
    requires Timed(s, pressed, since)
    ensures var (s1, event) := Update(s, raw, ticks);
      && Timed(s1, if !s.stable && s1.stable then ticks else pressed,
               match event { case None => since case Some(e) => if e == Down then [] else since + [e] })
      && (s.stable && !s1.stable ==> event == Some(if LongPress in since then LongUp else Up))
      && (!s.stable && s1.stable <==> event == Some(Down))
  {
  }

  lemma TickTimed(t: Thresholds, s: State, ticks: uint16, pressed: uint16, since: seq<ButtonEvent>)
    requires Timed(s, pressed, since)
    ensures var (s1, event) := CheckLongPress(t, s, ticks);
      && s1.stable == s.stable && event != Some(Down)
      && Timed(s1, pressed, match event { case None => since case Some(e) => since + [e] })
      && var held := (ticks - pressed) % TWO_16;
      && (event == Some(LongPress) <==> s.stable && LongPress !in since && held >= t.long)
      && (event == Some(ReallyLongPress) <==>
            s.stable && (LongPress in since || held < t.long) && ReallyLongPress !in since && held >= t.reallyLong)
      && (event.Some? ==> event.value in {LongPress, ReallyLongPress})
  {
  }

  lemma {:induction false} RunTimed(t: Thresholds, inputs: seq<Input>)
    ensures var (s, events) := Run(t, inputs); Timed(s, PressedAt(inputs), SinceDown(events))
    decreases |inputs|
  {
    hide Update, CheckLongPress, Level, Readings, SinceDown, Timed;
    if inputs == [] {
      NothingTimed();
    } else {
      var before, input := inputs[..|inputs| - 1], inputs[|inputs| - 1];
      RunTimed(t, before);
      RunSamples(t, before);
      RunSamples(t, inputs);
      LevelIs(t, before);
      LevelIs(t, inputs);
      var (s, events) := Run(t, before);
      var (_, event) := Step(t, s, input);
      if event.Some? {
        SinceOneMore(events, event.value);
      }
      if input.Reading? {
        UpdateTimed(s, input.raw, input.ticks, PressedAt(before), SinceDown(events));
      } else {
        TickTimed(t, s, input.ticks, PressedAt(before), SinceDown(events));
      }
    }
  }

  lemma LevelIs(t: Thresholds, inputs: seq<Input>)
    ensures Run(t, inputs).0.stable == Level(Readings(inputs))
  {
    hide Run, Level, Readings, Opposing;
    RunSamples(t, inputs);
  }

  lemma NothingTimed()
    ensures forall pressed, since :: Timed(RELEASED, pressed, since)
  {
  }

  /**
   After any samples and ticks, a tick reports a long press exactly when the button is down, has been for the
   threshold since the reading that pressed it, modulo 2^16, and no long press was reported since; a really long
   press likewise, unless the long press comes first; and a release is a long one exactly when a long press was.
   */
  lemma LongPressExactly(t: Thresholds, inputs: seq<Input>, raw: bool, ticks: uint16)
    ensures
      var (s, events) := Run(t, inputs);
      var down, since := Level(Readings(inputs)), SinceDown(events);
      var held := (ticks - PressedAt(inputs)) % TWO_16;
      var tick, sample := CheckLongPress(t, s, ticks).1, Update(s, raw, ticks).1;
      && (tick == Some(LongPress) <==> down && LongPress !in since && held >= t.long)
      && (tick == Some(ReallyLongPress) <==>
            down && (LongPress in since || held < t.long) && ReallyLongPress !in since && held >= t.reallyLong)
      && (tick.Some? ==> tick.value in {LongPress, ReallyLongPress})
      && (down && sample.Some? ==> sample == Some(if LongPress in since then LongUp else Up))
  {
    hide Run, Level, Readings, SinceDown, PressedAt, CheckLongPress, Timed, Opposing;
    var (s, events) := Run(t, inputs);
    RunTimed(t, inputs);
    LevelIs(t, inputs);
    TickTimed(t, s, ticks, PressedAt(inputs), SinceDown(events));
    UpdateTimed(s, raw, ticks, PressedAt(inputs), SinceDown(events));
    ReleasedWhenDown(s, raw, ticks);
  }

  lemma ReleasedWhenDown(s: State, raw: bool, ticks: uint16)
    ensures s.stable && Update(s, raw, ticks).1.Some? ==> !Update(s, raw, ticks).0.stable
  {
  }

  // The events of a press.

  const SHORT_PRESS := [Down, Up]
  const LONG_PRESS := [Down, LongPress, LongUp]
  const REALLY_LONG_PRESS := [Down, LongPress, ReallyLongPress, LongUp]

  predicate IsPress(p: seq<ButtonEvent>) {
    p == SHORT_PRESS || p == LONG_PRESS || p == REALLY_LONG_PRESS
  }

  function Flatten(presses: seq<seq<ButtonEvent>>): seq<ButtonEvent> {
    if presses == [] then [] else Flatten(presses[..|presses| - 1]) + presses[|presses| - 1]
  }

  /** Whole presses, then the events of one that is not over. */
  ghost predicate Presses(events: seq<ButtonEvent>, pending: seq<ButtonEvent>) {
    exists presses: seq<seq<ButtonEvent>> ::
      && (forall i :: 0 <= i < |presses| ==> IsPress(presses[i]))
      && events == Flatten(presses) + pending
  }

  /** The events so far of the press that is going on. */
  function Pending(s: State): seq<ButtonEvent> {
    if !s.stable then []
    else if !s.longReported then [Down]
    else if !s.reallyLongReported then [Down, LongPress]
    else [Down, LongPress, ReallyLongPress]
  }

  lemma Extend(events: seq<ButtonEvent>, pending: seq<ButtonEvent>, e: ButtonEvent)
    requires Presses(events, pending)
    ensures Presses(events + [e], pending + [e])
  {
    var presses :| && (forall i :: 0 <= i < |presses| ==> IsPress(presses[i])) && events == Flatten(presses) + pending;
    assert events + [e] == Flatten(presses) + (pending + [e]);
  }

  lemma Complete(events: seq<ButtonEvent>, press: seq<ButtonEvent>)
    requires Presses(events, press) && IsPress(press)
    ensures Presses(events, [])
  {
    var presses :| && (forall i :: 0 <= i < |presses| ==> IsPress(presses[i])) && events == Flatten(presses) + press;
    var more := presses + [press];
    assert more[..|presses|] == presses;
    assert events == Flatten(more) + [];
  }

  /** A really long press is reported only after the long press. */
  predicate InOrder(s: State) {
    s.stable && s.reallyLongReported ==> s.longReported
  }

  /**
   When the long threshold is not above the really long one, the events are whole presses and at most one that is
   not over; a press is released with `LongUp` exactly when its long press was reported.
   */
  lemma {:induction false} EventsArePresses(t: Thresholds, inputs: seq<Input>)
    requires t.long <= t.reallyLong
    ensures var (s, events) := Run(t, inputs); Presses(events, Pending(s)) && InOrder(s)
    decreases |inputs|
  {
    hide Presses;
    if inputs == [] {
      NoPresses();
    } else {
      var (s, events) := Run(t, inputs[..|inputs| - 1]);
      EventsArePresses(t, inputs[..|inputs| - 1]);
      var (s1, event) := Step(t, s, inputs[|inputs| - 1]);
      PendingStep(t, s, inputs[|inputs| - 1]);
      if event.Some? {
        Extend(events, Pending(s), event.value);
        if !s1.stable {
          Complete(events + [event.value], Pending(s) + [event.value]);
        }
      }
    }
  }

  lemma NoPresses()
    ensures Presses([], [])
  {
    assert Flatten([]) + [] == [];
  }

  lemma PendingStep(t: Thresholds, s: State, input: Input)
    requires t.long <= t.reallyLong && InOrder(s)
    ensures
      var (s1, event) := Step(t, s, input);
      && InOrder(s1)
      && (event == None ==> Pending(s1) == Pending(s))
      && (event.Some? && s1.stable ==> Pending(s1) == Pending(s) + [event.value])
      && (event.Some? && !s1.stable ==> IsPress(Pending(s) + [event.value]) && Pending(s1) == [])
  {
  }

  /** Four high readings, and then a tick. */
  function PressAndTick(ticks: uint16): seq<Input> {
    [Reading(true, 0), Reading(true, 0), Reading(true, 0), Reading(true, 0), Tick(ticks)]
  }

  lemma PressAndTickRun(t: Thresholds, ticks: uint16)
    ensures
      var (s, event) := CheckLongPress(t, State(true, true, 0, 0, false, false), ticks);
      && Run(t, PressAndTick(ticks)).0 == s
      && Run(t, PressAndTick(ticks)).1 == if event.Some? then [Down, event.value] else [Down]
  {
    hide Step;
    var inputs := PressAndTick(ticks);
    RunStep(t, inputs[..1]);
    RunStep(t, inputs[..2]);
    RunStep(t, inputs[..3]);
    RunStep(t, inputs[..4]);
    RunStep(t, inputs);
    assert inputs[..1][..0] == [];
    assert inputs[..2][..1] == inputs[..1] && inputs[..3][..2] == inputs[..2] && inputs[..4][..3] == inputs[..3];
    FourReadings(t);
    assert [] + [Down] == [Down];
    assert Run(t, inputs[..4]).1 == [Down] && inputs[..|inputs| - 1] == inputs[..4];
  }

  lemma RunStep(t: Thresholds, inputs: seq<Input>)
    requires inputs != []
    ensures
      var (s, events) := Run(t, inputs[..|inputs| - 1]);
      var (s1, event) := Step(t, s, inputs[|inputs| - 1]);
      Run(t, inputs).0 == s1 && Run(t, inputs).1 == if event.Some? then events + [event.value] else events
  {
  }

  /** A released button after `n` high readings. */
  function Raised(n: uint8): State {
    State(false, n > 0, n, 0, false, false)
  }

  lemma FourReadings(t: Thresholds)
    ensures Step(t, Raised(0), Reading(true, 0)) == (Raised(1), None)
    ensures Step(t, Raised(1), Reading(true, 0)) == (Raised(2), None)
    ensures Step(t, Raised(2), Reading(true, 0)) == (Raised(3), None)
    ensures Step(t, Raised(3), Reading(true, 0)) == (State(true, true, 0, 0, false, false), Some(Down))
    ensures forall s, ticks :: Step(t, s, Tick(ticks)) == CheckLongPress(t, s, ticks)
  {
  }

  /** With the thresholds the other way around, a press can report a really long press first. */
  lemma OrderExactly(t: Thresholds)
    ensures t.long <= t.reallyLong <==> forall inputs :: Presses(Run(t, inputs).1, Pending(Run(t, inputs).0))
  {
    hide Presses, Run;
    if t.long <= t.reallyLong {
      forall inputs
        ensures Presses(Run(t, inputs).1, Pending(Run(t, inputs).0))
      {
        EventsArePresses(t, inputs);
      }
    } else {
      var inputs := PressAndTick(t.reallyLong);
      PressAndTickRun(t, t.reallyLong);
      assert Run(t, inputs).1 == [Down, ReallyLongPress];
      NotPresses();
      assert Pending(Run(t, inputs).0) == [Down];
    }
  }

  lemma NotPresses()
    ensures !Presses([Down, ReallyLongPress], [Down])
  {
    forall presses
      ensures [Down, ReallyLongPress] != Flatten(presses) + [Down]
    {
      var events := Flatten(presses) + [Down];
      assert events[|events| - 1] == Down;
    }
  }
}
