/** The interval trainer: which phases a timer goes through, and when it ends. */
module Interval {
  import opened Words

  /** A timer setting; the editor keeps minutes and seconds below 60 and rounds below 100. */
  datatype Setting = Setting(
    warmupMinutes: uint8, warmupSeconds: uint8,
    workMinutes: uint8, workSeconds: uint8, workRounds: uint8,
    breakMinutes: uint8, breakSeconds: uint8, fullRounds: uint8,
    cooldownMinutes: uint8, cooldownSeconds: uint8)
  {
    function Warmup(): nat { warmupMinutes as int * 60 + warmupSeconds }
    function Work(): nat { workMinutes as int * 60 + workSeconds }
    function Rest(): nat { breakMinutes as int * 60 + breakSeconds }
    function Cooldown(): nat { cooldownMinutes as int * 60 + cooldownSeconds }

    function FieldSum(): nat {
      warmupMinutes as int + warmupSeconds + workMinutes + workSeconds + breakMinutes + breakSeconds
      + cooldownMinutes + cooldownSeconds
    }

    /** The editor's ranges. */
    predicate Edited() {
      && warmupMinutes < 60 && warmupSeconds < 60 && workMinutes < 60 && workSeconds < 60 && workRounds < 100
      && breakMinutes < 60 && breakSeconds < 60 && fullRounds < 100 && cooldownMinutes < 60 && cooldownSeconds < 60
    }

    /** `is_empty`, whose sum is a byte. */
    predicate IsEmpty() {
      FieldSum() % 0x100 == 0
    }
  }

  const WARMUP := 0
  const WORK := 1
  const BREAK := 2
  const COOLDOWN := 3
  const DONE := 4

  datatype FaceState = Waiting | Running | Pausing

  datatype Timer =
    Timer(face: FaceState, runState: nat, workRound: uint8, fullRound: uint8, target: uint32, paused: uint32)

  /** The length of a phase, in seconds. */
  function PhaseLength(t: Setting, runState: nat): nat {
    if runState == WARMUP then t.Warmup() else if runState == WORK then t.Work()
    else if runState == BREAK then t.Rest() else t.Cooldown()
  }

  /** `set_next_timestamp` */
  function SetNext(t: Setting, m: Timer): Timer {
    var delta := PhaseLength(t, m.runState);
    m.(target := (m.target + if delta == 0 then 1 else delta) % TWO_32)
  }

  function Increment(x: uint8): uint8 {
    (x + 1) % 0x100
  }

  /** The phase after a phase that ended. */
  function NextPhase(t: Setting, m: Timer): Timer {
    if m.runState == WARMUP then
      m.(runState := if t.Work() != 0 then WORK else if t.Rest() != 0 then BREAK
                     else if t.Cooldown() != 0 then COOLDOWN else DONE)
    else if m.runState == WORK then
      var workRound := Increment(m.workRound);
      if workRound != t.workRounds then m.(workRound := workRound)
      else if t.Rest() != 0 && (t.fullRounds == 0 || m.fullRound + 1 < t.fullRounds) then
        m.(workRound := 0, runState := BREAK)
      else
        var fullRound := Increment(m.fullRound);
        if t.fullRounds != 0 && fullRound == t.fullRounds then
          m.(workRound := 0, fullRound := fullRound, runState := if t.Cooldown() != 0 then COOLDOWN else DONE)
        else m.(workRound := 0, fullRound := fullRound)
    else if m.runState == BREAK then
      var fullRound := Increment(m.fullRound);
      if t.fullRounds != 0 && fullRound == t.fullRounds then
        m.(workRound := 0, runState := if t.Cooldown() != 0 then COOLDOWN else DONE)
      else m.(workRound := 0, fullRound := fullRound, runState := if t.Work() != 0 then WORK else BREAK)
    else if m.runState == COOLDOWN then m.(runState := DONE)
    else m
  }

  function Start(t: Setting, now: uint32): Timer {
    var first :=
      if t.Warmup() != 0 then WARMUP else if t.Work() != 0 then WORK else if t.Rest() != 0 then BREAK else COOLDOWN;
    SetNext(t, Timer(Running, first, 0, 0, now, 0))
  }

  /** The scheduled end of a phase. */
  function Fire(t: Setting, m: Timer): Timer {
    var m1 := NextPhase(t, m);
    if m1.runState < DONE then SetNext(t, m1) else m1.(face := Waiting)
  }

  function Pause(m: Timer, now: uint32): Timer {
    m.(paused := now, face := Pausing)
  }

  function Resume(m: Timer, now: uint32): Timer {
    m.(target := (m.target + WrappingSub32(now, m.paused)) % TWO_32, face := Running)
  }

  // The face as the firmware updates it.

  const TIMERS := 6

  class IntervalFace {
    const timers: seq<Setting>
    var timerIdx: nat
    var face: FaceState
    var target: uint32
    var paused: uint32
    var workRound: uint8
    var fullRound: uint8
    var runState: nat

    ghost predicate Valid()
      reads this
    {
      |timers| == TIMERS && timerIdx < TIMERS
    }

    ghost function Abs(): Timer
      reads this
    {
      Timer(face, runState, workRound, fullRound, target, paused)
    }

    /** The selected timer. */
    function Selected(): Setting
      requires Valid()
      reads this
    {
      timers[timerIdx]
    }

    constructor (timers: seq<Setting>)
      requires |timers| == TIMERS
      ensures Valid() && this.timers == timers && timerIdx == 0 && Abs() == Timer(Waiting, WARMUP, 0, 0, 0, 0)
    {
      this.timers := timers;
      face, runState, workRound, fullRound, target, paused, timerIdx := Waiting, WARMUP, 0, 0, 0, 0, 0;
    }

    method SetNextTimestamp()
      requires Valid()
      modifies this`target
      ensures Abs() == SetNext(Selected(), old(Abs()))
    {
      var setting := timers[timerIdx];
      var delta :=
        if runState == WARMUP then setting.warmupMinutes as int * 60 + setting.warmupSeconds
        else if runState == WORK then setting.workMinutes as int * 60 + setting.workSeconds
        else if runState == BREAK then setting.breakMinutes as int * 60 + setting.breakSeconds
        else setting.cooldownMinutes as int * 60 + setting.cooldownSeconds;
      if delta == 0 {
        delta := 1;
      }
      target := (target + delta) % TWO_32;
    }

    /** A long press on the alarm button. */
    method AlarmLongPress(now: uint32)
      requires Valid()
      modifies this`timerIdx, this`face, this`target, this`paused, this`workRound, this`fullRound, this`runState
      ensures Valid()
      ensures timerIdx == if old(face) == Waiting && old(Selected()).IsEmpty() then 0 else old(timerIdx)
      ensures old(face) == Waiting ==>
        Abs() == if old(Selected()).IsEmpty() then old(Abs()) else Start(Selected(), now).(paused := old(paused))
      ensures old(face) == Running ==> Abs() == Timer(Waiting, WARMUP, 0, 0, old(target), old(paused))
      ensures old(face) == Pausing ==> Abs() == Resume(old(Abs()), now)
    {
      if face == Waiting {
        var setting := timers[timerIdx];
        if setting.IsEmpty() {
          timerIdx := 0;
        } else {
          workRound := 0;
          fullRound := 0;
          runState :=
            if setting.warmupMinutes as int + setting.warmupSeconds != 0 then WARMUP
            else if setting.workMinutes as int + setting.workSeconds != 0 then WORK
            else if setting.breakMinutes as int + setting.breakSeconds != 0 then BREAK
            else COOLDOWN;
          target := now;
          SetNextTimestamp();
          face := Running;
        }
      } else if face == Running {
        workRound, fullRound, runState := 0, 0, WARMUP;
        face := Waiting;
      } else {
        target := (target + WrappingSub32(now, paused)) % TWO_32;
        face := Running;
      }
    }

    /** A short press on the alarm button. */
    method AlarmUp(now: uint32)
      requires Valid()
      modifies this`timerIdx, this`face, this`target, this`paused
      ensures Valid()
      ensures old(face) == Waiting ==> Abs() == old(Abs()) && timerIdx == (old(timerIdx) + 1) % TIMERS
      ensures old(face) != Waiting ==> timerIdx == old(timerIdx)
      ensures old(face) == Running ==> Abs() == Pause(old(Abs()), now)
      ensures old(face) == Pausing ==> Abs() == Resume(old(Abs()), now)
    {
      if face == Waiting {
        timerIdx := (timerIdx + 1) % TIMERS;
      } else if face == Running {
        paused := now;
        face := Pausing;
      } else {
        target := (target + WrappingSub32(now, paused)) % TWO_32;
        face := Running;
      }
    }

    method BackgroundTask()
      requires Valid()
      modifies this`face, this`target, this`workRound, this`fullRound, this`runState
      ensures Abs() == Fire(Selected(), old(Abs()))
    {
      var setting := timers[timerIdx];
      var work := setting.workMinutes as int + setting.workSeconds != 0;
      var rest := setting.breakMinutes as int + setting.breakSeconds != 0;
      var cooldown := setting.cooldownMinutes as int + setting.cooldownSeconds != 0;
      if runState == WARMUP {
        runState := if work then WORK else if rest then BREAK else if cooldown then COOLDOWN else DONE;
      } else if runState == WORK {
        workRound := Increment(workRound);
        if workRound == setting.workRounds {
          workRound := 0;
          if rest && (setting.fullRounds == 0 || (setting.fullRounds != 0 && fullRound + 1 < setting.fullRounds)) {
            runState := BREAK;
          } else {
            fullRound := Increment(fullRound);
            if setting.fullRounds != 0 && fullRound == setting.fullRounds {
              runState := if cooldown then COOLDOWN else DONE;
            } else {
              runState := WORK;
            }
          }
        }
      } else if runState == BREAK {
        var before := fullRound;
        fullRound := Increment(fullRound);
        workRound := 0;
        if setting.fullRounds != 0 && fullRound == setting.fullRounds {
          runState := if cooldown then COOLDOWN else DONE;
          fullRound := before;
        } else if work {
          runState := WORK;
        }
      } else if runState == COOLDOWN {
        runState := DONE;
      }
      if runState < DONE {
        SetNextTimestamp();
      } else {
        face := Waiting;
      }
    }
  }

  /** A timer of edited fields counts as empty when they add up to 256 too, not only when all are zero. */
  lemma EmptyExactly(t: Setting)
    requires t.Edited()
    ensures t.IsEmpty() <==> t.FieldSum() == 0 || t.FieldSum() == 0x100
  {
  }

  // The plan of a timer.

  /** No number of full rounds, and something to repeat. */
  predicate Endless(t: Setting) {
    t.fullRounds == 0 && (t.Work() != 0 || t.Rest() != 0)
  }

  /** An edited timer that ends. */
  predicate Proper(t: Setting) {
    t.Edited() && t.FieldSum() != 0 && !Endless(t)
  }

  /** How often the work of a block is done: zero rounds count as 256. */
  function Works(t: Setting): nat {
    if t.workRounds == 0 then 0x100 else t.workRounds
  }

  /** A proper timer that does not start: 59:55 of warmup and of work, and a break of 28 minutes. */
  lemma FullByteIsEmpty()
    ensures var t := Setting(59, 55, 59, 55, 1, 28, 0, 1, 0, 0); Proper(t) && t.IsEmpty()
  {
    var t := Setting(59, 55, 59, 55, 1, 28, 0, 1, 0, 0);
    assert t.FieldSum() == 0x100;
  }

  function Times(n: nat, phase: nat): (p: seq<nat>)
    ensures |p| == n && forall i :: 0 <= i < n ==> p[i] == phase
  {
    seq(n, i => phase)
  }

  function Once(length: nat, phase: nat): seq<nat> {
    if length != 0 then [phase] else []
  }

  /** The blocks of work still to come after block `full`, separated by breaks, and then the cooldown. */
  function AfterBlock(t: Setting, full: nat): seq<nat>
    decreases t.fullRounds as int - full
  {
    if full + 1 < t.fullRounds as int then
      Once(t.Rest(), BREAK) + Times(Works(t), WORK) + AfterBlock(t, full + 1)
    else Once(t.Cooldown(), COOLDOWN)
  }

  /** What follows the warmup: blocks of work separated by breaks, or breaks alone, and then the cooldown. */
  function Rounds(t: Setting): seq<nat> {
    if t.Work() != 0 then Times(Works(t), WORK) + AfterBlock(t, 0) else Rests(t, 0)
  }

  /** The breaks of a timer without work from round `full`, and then the cooldown. */
  function Rests(t: Setting, full: nat): seq<nat> {
    (if t.Rest() != 0 && full <= t.fullRounds as int then Times(t.fullRounds as int - full, BREAK) else [])
    + Once(t.Cooldown(), COOLDOWN)
  }

  function Plan(t: Setting): seq<nat> {
    Once(t.Warmup(), WARMUP) + Rounds(t)
  }

  /** The current phase and everything after it. */
  function Remaining(t: Setting, m: Timer): seq<nat>
    requires m.workRound as int <= Works(t)
  {
    if m.runState == WARMUP then [WARMUP] + Rounds(t)
    else if m.runState == WORK then
      Times(Works(t) - m.workRound, WORK) + AfterBlock(t, m.fullRound)
    else if m.runState == BREAK then
      [BREAK] + if t.Work() != 0 then Times(Works(t), WORK) + AfterBlock(t, m.fullRound as int + 1)
                else Rests(t, m.fullRound as int + 1)
    else if m.runState == COOLDOWN then [COOLDOWN]
    else []
  }

  /** Where the counters of a running timer can be. */
  predicate OnTrack(t: Setting, m: Timer) {
    && m.runState <= DONE && m.workRound as int <= Works(t)
    && (m.runState == WARMUP ==> t.Warmup() != 0 && m.workRound == 0 && m.fullRound == 0)
    && (m.runState == WORK ==> t.Work() != 0 && m.workRound as int < Works(t) && m.fullRound < t.fullRounds)
    && (m.runState == BREAK ==>
          && t.Rest() != 0 && m.workRound == 0
          && m.fullRound as int + (if t.Work() != 0 then 1 else 0) < t.fullRounds as int)
    && (m.runState == COOLDOWN ==> t.Cooldown() != 0)
  }

  /** Ending a phase moves to the next one of the plan. */
  lemma PhaseEnds(t: Setting, m: Timer)
    requires Proper(t) && OnTrack(t, m) && m.runState < DONE
    ensures OnTrack(t, NextPhase(t, m))
    ensures Remaining(t, m) == [m.runState] + Remaining(t, NextPhase(t, m))
  {
    hide Setting.Work, Setting.Rest, Setting.Cooldown, Setting.Warmup, AfterBlock, Rests;
    if m.runState == WORK {
      WorkEnds(t, m);
    }
    if t.Work() == 0 {
      NextRest(t, 0);
      NextRest(t, m.fullRound);
      NextRest(t, m.fullRound as int + 1);
    }
  }

  lemma NextRest(t: Setting, full: nat)
    ensures Rests(t, full)
         == if t.Rest() != 0 && full < t.fullRounds as int then [BREAK] + Rests(t, full + 1)
            else if t.Cooldown() != 0 then [COOLDOWN] else []
  {
    var left := t.fullRounds as int - full;
    if left > 0 {
      assert Times(left, BREAK) == [BREAK] + Times(left - 1, BREAK);
    }
  }

  lemma WorkEnds(t: Setting, m: Timer)
    requires Proper(t) && OnTrack(t, m) && m.runState == WORK
    ensures OnTrack(t, NextPhase(t, m))
    ensures Remaining(t, m) == [WORK] + Remaining(t, NextPhase(t, m))
  {
    hide NextPhase, Remaining, OnTrack, Proper;
    if MoreWork(t, m) {
      WorkGoesOn(t, m);
    } else {
      BlockEnds(t, m);
    }
  }

  predicate MoreWork(t: Setting, m: Timer) {
    m.workRound as int + 1 < Works(t)
  }

  lemma WorkGoesOn(t: Setting, m: Timer)
    requires Proper(t) && OnTrack(t, m) && m.runState == WORK && MoreWork(t, m)
    ensures OnTrack(t, NextPhase(t, m))
    ensures Remaining(t, m) == [WORK] + Remaining(t, NextPhase(t, m))
  {
    hide Setting.Work, Setting.Rest, Setting.Cooldown, Setting.Warmup, AfterBlock;
    assert NextPhase(t, m) == m.(workRound := m.workRound + 1);
    var left := Works(t) - m.workRound;
    assert Times(left, WORK) == [WORK] + Times(left - 1, WORK);
  }

  lemma BlockEnds(t: Setting, m: Timer)
    requires Proper(t) && OnTrack(t, m) && m.runState == WORK && !MoreWork(t, m)
    ensures OnTrack(t, NextPhase(t, m))
    ensures Remaining(t, m) == [WORK] + Remaining(t, NextPhase(t, m))
  {
    hide Setting.Work, Setting.Rest, Setting.Cooldown, Setting.Warmup, AfterBlock, Times, NextPhase, Proper;
    LastWork(t, m);
    OneTime();
    NextBlock(t, m.fullRound);
  }

  /** The last work of a block leads to a break, the next block, the cooldown, or the end. */
  lemma LastWork(t: Setting, m: Timer)
    requires m.runState == WORK && m.workRound as int + 1 == Works(t) && m.fullRound < t.fullRounds
    ensures
      NextPhase(t, m)
        == if m.fullRound + 1 < t.fullRounds then
             if t.Rest() != 0 then m.(workRound := 0, runState := BREAK)
             else m.(workRound := 0, fullRound := m.fullRound + 1)
           else
             m.(workRound := 0, fullRound := m.fullRound + 1, runState := if t.Cooldown() != 0 then COOLDOWN else DONE)
  {
    hide Setting.Work, Setting.Rest, Setting.Cooldown, Setting.Warmup;
    assert Increment(m.workRound) == t.workRounds;
  }

  lemma OneTime()
    ensures Times(1, WORK) == [WORK]
  {
  }

  lemma NextBlock(t: Setting, full: nat)
    ensures AfterBlock(t, full)
         == if full + 1 < t.fullRounds as int
            then (if t.Rest() != 0 then [BREAK] else []) + Times(Works(t), WORK) + AfterBlock(t, full + 1)
            else if t.Cooldown() != 0 then [COOLDOWN] else []
  {
  }

  lemma StartsOnTrack(t: Setting, now: uint32)
    requires Proper(t)
    ensures OnTrack(t, Start(t, now)) && Remaining(t, Start(t, now)) == Plan(t)
  {
  }

  // Whole runs.

  datatype Event = PhaseOver | PauseAt(now: uint32) | ResumeAt(now: uint32)

  /** What can happen: a phase ends only while the timer runs, since pausing cancels its alarm. */
  predicate CanHappen(m: Timer, e: Event) {
    if e.ResumeAt? then m.face == Pausing else m.face == Running
  }

  function Step(t: Setting, m: Timer, e: Event): Timer {
    match e
    case PhaseOver => Fire(t, m)
    case PauseAt(now) => Pause(m, now)
    case ResumeAt(now) => Resume(m, now)
  }

  function Run(t: Setting, m: Timer, events: seq<Event>): Timer {
    if events == [] then m else Step(t, Run(t, m, events[..|events| - 1]), events[|events| - 1])
  }

  predicate Possible(t: Setting, m: Timer, events: seq<Event>) {
    events != [] ==>
      && Possible(t, m, events[..|events| - 1])
      && CanHappen(Run(t, m, events[..|events| - 1]), events[|events| - 1])
  }

  /** How many phases ended. */
  function Ended(events: seq<Event>): nat {
    if events == [] then 0
    else Ended(events[..|events| - 1]) + if events[|events| - 1].PhaseOver? then 1 else 0
  }

  /** The moment of the latest pause. */
  function PauseTime(events: seq<Event>): int {
    if events == [] then 0
    else
      var last := events[|events| - 1];
      if last.PauseAt? then last.now else PauseTime(events[..|events| - 1])
  }

  /** How long the timer was paused in all: from each pause to the resumption after it. */
  function PausedTotal(events: seq<Event>): int {
    if events == [] then 0
    else
      var last, before := events[|events| - 1], events[..|events| - 1];
      PausedTotal(before) + if last.ResumeAt? then last.now - PauseTime(before) else 0
  }

  function TotalLength(t: Setting, phases: seq<nat>): nat {
    if phases == [] then 0 else TotalLength(t, phases[..|phases| - 1]) + PhaseLength(t, phases[|phases| - 1])
  }

  /** After some phases have ended, the timer is in the next phase of its plan and due when that phase ends. */
  ghost predicate Following(t: Setting, start: uint32, pausedTotal: int, ended: nat, m: Timer) {
    var plan := Plan(t);
    && ended <= |plan|
    && OnTrack(t, m) && Remaining(t, m) == plan[ended..]
    && (m.face == Waiting <==> ended == |plan|)
    && (m.runState == DONE <==> ended == |plan|)
    && m.target as int ==
         (start + TotalLength(t, if ended < |plan| then plan[..ended + 1] else plan) + pausedTotal) % TWO_32
  }

  lemma SumShift(a: int, b: int, r: uint32)
    requires r as int == a % TWO_32
    ensures (r + b) % TWO_32 == (a + b) % TWO_32
  {
    ModShift(r + b, a / TWO_32);
  }

  lemma SumMoved(a: int, x: uint32, y: uint32, r: uint32)
    requires r as int == a % TWO_32
    ensures (r + WrappingSub32(x, y)) % TWO_32 == (a + x - y) % TWO_32
  {
    var d, q := x - y, (x - y) / TWO_32;
    assert WrappingSub32(x, y) == d % TWO_32 == d - TWO_32 * q;
    SumShift(a, d, r);
    ModShift(r + d, -q);
  }

  lemma PlanHasLength(t: Setting, m: Timer)
    requires Proper(t) && OnTrack(t, m) && m.runState < DONE
    ensures PhaseLength(t, m.runState) > 0
    ensures Remaining(t, m) != [] && Remaining(t, m)[0] == m.runState
  {
    hide Setting.Work, Setting.Rest, Setting.Cooldown, Setting.Warmup;
    PhaseEnds(t, m);
  }

  lemma RemainingDone(t: Setting, m: Timer)
    requires Proper(t) && OnTrack(t, m)
    ensures Remaining(t, m) == [] <==> m.runState == DONE
  {
    if m.runState < DONE {
      PlanHasLength(t, m);
    }
  }

  lemma StartFollows(t: Setting, now: uint32)
    requires Proper(t)
    ensures Following(t, now, 0, 0, Start(t, now))
  {
    hide OnTrack, Remaining, Plan, Setting.Work, Setting.Rest, Setting.Cooldown, Setting.Warmup;
    StartsOnTrack(t, now);
    var m := Start(t, now);
    RunningPhase(t, now);
    PlanHasLength(t, m);
    var plan := Plan(t);
    var first := plan[..1];
    assert first == [m.runState] && plan[0..] == plan;
    assert first[..0] == [] && TotalLength(t, first[..0]) == 0;
    assert TotalLength(t, first) == PhaseLength(t, m.runState);
  }

  lemma RunningPhase(t: Setting, now: uint32)
    requires Proper(t)
    ensures Start(t, now).runState < DONE && Start(t, now).face == Running
    ensures var m := Start(t, now); m.target as int == (now + PhaseLength(t, m.runState)) % TWO_32
  {
  }

  lemma FireFollows(t: Setting, start: uint32, pausedTotal: int, ended: nat, m: Timer)
    requires Proper(t) && Following(t, start, pausedTotal, ended, m) && m.face == Running
    ensures Following(t, start, pausedTotal, ended + 1, Fire(t, m))
  {
    hide OnTrack, Remaining, Plan, PhaseLength;
    var plan := Plan(t);
    var m1 := NextPhase(t, m);
    OnTrackBelow(t, m);
    PhaseEnds(t, m);
    NextKeepsTarget(t, m);
    IgnoresTarget(t, m1);
    assert plan[ended..][1..] == plan[ended + 1..];
    RemainingDone(t, m1);
    if m1.runState < DONE {
      PlanHasLength(t, m1);
      assert plan[ended + 1] == plan[ended + 1..][0];
      assert plan[..ended + 2][..ended + 1] == plan[..ended + 1];
      var before := start + TotalLength(t, plan[..ended + 1]) + pausedTotal;
      SumShift(before, PhaseLength(t, m1.runState), m.target);
    } else {
      assert plan[..ended + 1] == plan;
    }
  }

  lemma FireFace(t: Setting, m: Timer)
    requires m.face == Running
    ensures Fire(t, m).face != Pausing
  {
  }

  lemma OnTrackBelow(t: Setting, m: Timer)
    requires Proper(t) && OnTrack(t, m) && m.runState != DONE
    ensures m.runState < DONE
  {
  }

  lemma NextKeepsTarget(t: Setting, m: Timer)
    ensures NextPhase(t, m).target == m.target && NextPhase(t, m).face == m.face
  {
  }

  lemma IgnoresTarget(t: Setting, m: Timer)
    requires OnTrack(t, m)
    ensures m.workRound as int <= Works(t)
    ensures forall f, x, p :: OnTrack(t, m.(face := f, target := x, paused := p))
    ensures forall f, x, p :: Remaining(t, m.(face := f, target := x, paused := p)) == Remaining(t, m)
  {
  }

  /**
   Any run of a proper timer goes through exactly the phases of its plan, pauses included, and ends with
   the last of them; the end of each phase is the start, plus the phases so far, plus the time paused.
   */
  lemma {:induction false} RunFollows(t: Setting, start: uint32, events: seq<Event>)
    requires Proper(t) && Possible(t, Start(t, start), events)
    ensures var m := Run(t, Start(t, start), events);
      && Following(t, start, PausedTotal(events), Ended(events), m)
      && (m.face == Pausing ==> m.paused as int == PauseTime(events))
    decreases |events|
  {
    hide Start, Fire, Following;
    if events == [] {
      StartFollows(t, start);
      RunningPhase(t, start);
    } else {
      var n := |events| - 1;
      RunFollows(t, start, events[..n]);
      var m := Run(t, Start(t, start), events[..n]);
      var p := PausedTotal(events[..n]);
      if events[n].PhaseOver? {
        FireFollows(t, start, p, Ended(events[..n]), m);
        FireFace(t, m);
      } else if events[n].PauseAt? {
        PauseFollows(t, start, p, Ended(events[..n]), m, events[n].now);
      } else {
        ResumeFollows(t, start, p, Ended(events[..n]), m, events[n].now);
      }
    }
  }

  lemma PauseFollows(t: Setting, start: uint32, pausedTotal: int, ended: nat, m: Timer, now: uint32)
    requires Following(t, start, pausedTotal, ended, m) && m.face == Running
    ensures Following(t, start, pausedTotal, ended, Pause(m, now))
  {
    hide Plan, TotalLength;
    IgnoresTarget(t, m);
  }

  lemma ResumeFollows(t: Setting, start: uint32, pausedTotal: int, ended: nat, m: Timer, now: uint32)
    requires Following(t, start, pausedTotal, ended, m) && m.face == Pausing
    ensures Following(t, start, pausedTotal + now - m.paused, ended, Resume(m, now))
  {
    hide Plan, TotalLength, OnTrack, Remaining, WrappingSub32;
    IgnoresTarget(t, m);
    var plan := Plan(t);
    var before := start + TotalLength(t, if ended < |plan| then plan[..ended + 1] else plan) + pausedTotal;
    SumMoved(before, now, m.paused, m.target);
  }

  // The length of the plan.

  lemma {:induction false} TotalConcat(t: Setting, p: seq<nat>, q: seq<nat>)
    ensures TotalLength(t, p + q) == TotalLength(t, p) + TotalLength(t, q)
    decreases |q|
  {
    hide PhaseLength;
    if q == [] {
      assert p + q == p;
    } else {
      var n := |q| - 1;
      TotalConcat(t, p, q[..n]);
      assert (p + q)[..|p + q| - 1] == p + q[..n];
    }
  }

  lemma {:induction false} TotalTimes(t: Setting, n: nat, phase: nat)
    ensures TotalLength(t, Times(n, phase)) == n * PhaseLength(t, phase)
  {
    hide PhaseLength;
    if n > 0 {
      TotalTimes(t, n - 1, phase);
      assert Times(n, phase)[..n - 1] == Times(n - 1, phase);
    }
  }

  lemma TotalOnce(t: Setting, phase: nat)
    ensures TotalLength(t, Once(PhaseLength(t, phase), phase)) == PhaseLength(t, phase)
  {
    hide PhaseLength;
    assert [phase][..0] == [];
  }

  lemma {:induction false} TotalAfterBlock(t: Setting, full: nat)
    requires full < t.fullRounds as int
    ensures TotalLength(t, AfterBlock(t, full))
         == (t.fullRounds as int - full - 1) * (t.Rest() + Works(t) * t.Work()) + t.Cooldown()
    decreases t.fullRounds as int - full
  {
    hide TotalLength, Setting.Work, Setting.Rest, Setting.Cooldown;
    TotalOnce(t, COOLDOWN);
    if full + 1 < t.fullRounds as int {
      TotalOnce(t, BREAK);
      TotalTimes(t, Works(t), WORK);
      var block := Once(t.Rest(), BREAK) + Times(Works(t), WORK);
      TotalConcat(t, Once(t.Rest(), BREAK), Times(Works(t), WORK));
      TotalConcat(t, block, AfterBlock(t, full + 1));
      TotalAfterBlock(t, full + 1);
      OneMore(t.fullRounds as int - full - 2, t.Rest() + Works(t) * t.Work());
    } else {
      assert t.fullRounds as int - full - 1 == 0;
    }
  }

  lemma OneMore(k: int, x: int)
    ensures (k + 1) * x == k * x + x
  {
  }

  /** Warmup, full rounds of work with breaks between them, and cooldown; without work, as many breaks as full rounds. */
  function Duration(t: Setting): int {
    t.Warmup() + t.Cooldown() +
    if t.Work() == 0 then t.fullRounds as int * t.Rest()
    else t.fullRounds as int * (Works(t) * t.Work()) + (if t.fullRounds == 0 then 0 else t.fullRounds - 1) * t.Rest()
  }

  /** A timer lasts its warmup, its blocks of work, the breaks between them, and its cooldown. */
  lemma PlanTotal(t: Setting)
    requires Proper(t)
    ensures TotalLength(t, Plan(t)) == Duration(t)
  {
    hide TotalLength, Setting.Work, Setting.Rest, Setting.Cooldown, Setting.Warmup, AfterBlock, Rounds, Duration;
    TotalOnce(t, WARMUP);
    TotalConcat(t, Once(t.Warmup(), WARMUP), Rounds(t));
    if t.Work() == 0 {
      RestsTotal(t);
    } else {
      WorksTotal(t);
    }
  }

  lemma RestsTotal(t: Setting)
    requires t.Work() == 0
    ensures t.Warmup() + TotalLength(t, Rounds(t)) == Duration(t)
  {
    hide TotalLength, Setting.Rest, Setting.Cooldown, Setting.Warmup;
    TotalOnce(t, COOLDOWN);
    if t.Rest() != 0 {
      TotalTimes(t, t.fullRounds, BREAK);
      TotalConcat(t, Times(t.fullRounds, BREAK), Once(t.Cooldown(), COOLDOWN));
    } else {
      assert [] + Once(t.Cooldown(), COOLDOWN) == Once(t.Cooldown(), COOLDOWN);
    }
  }

  lemma WorksTotal(t: Setting)
    requires t.Work() != 0 && t.fullRounds >= 1
    ensures t.Warmup() + TotalLength(t, Rounds(t)) == Duration(t)
  {
    hide TotalLength, Setting.Work, Setting.Rest, Setting.Cooldown, Setting.Warmup, AfterBlock;
    var works := Works(t) * t.Work();
    TotalTimes(t, Works(t), WORK);
    TotalAfterBlock(t, 0);
    TotalConcat(t, Times(Works(t), WORK), AfterBlock(t, 0));
    Distribute(t.fullRounds as int - 1, t.Rest(), works);
    OneMore(t.fullRounds as int - 1, works);
  }

  lemma Distribute(k: int, x: int, y: int)
    ensures k * (x + y) == k * x + k * y
  {
  }

  /** A run in which every phase of the plan has ended is over, at the time the settings and the pauses call for. */
  lemma TimerEnds(t: Setting, start: uint32, events: seq<Event>)
    requires Proper(t) && Possible(t, Start(t, start), events)
    ensures Ended(events) <= |Plan(t)|
    ensures Run(t, Start(t, start), events).face == Waiting <==> Ended(events) == |Plan(t)|
    ensures
      var m := Run(t, Start(t, start), events);
      var paused := PausedTotal(events);
      m.face == Waiting ==> m.target as int == (start + Duration(t) + paused) % TWO_32
  {
    hide Plan, Start, Run, Setting.Work, Setting.Rest, Setting.Cooldown, Setting.Warmup, PausedTotal, TotalLength;
    RunFollows(t, start, events);
    PlanTotal(t);
  }

  // Timers without a number of full rounds.

  /** How many phases repeat. */
  function Cycle(t: Setting): (n: nat)
    ensures n > 0
  {
    if t.Work() == 0 then 1 else Works(t) + if t.Rest() != 0 then 1 else 0
  }

  function Warmups(t: Setting): nat {
    if t.Warmup() != 0 then 1 else 0
  }

  /** Phase `n` of an endless timer: the warmup, and then blocks of work and breaks for ever. */
  function EndlessPhase(t: Setting, n: nat): nat {
    if n < Warmups(t) then WARMUP
    else if t.Work() != 0 && (n - Warmups(t)) % Cycle(t) < Works(t) then WORK
    else BREAK
  }

  /** The first `n` phases. */
  function EndlessPlan(t: Setting, n: nat): (p: seq<nat>)
    ensures |p| == n
  {
    seq(n, i requires 0 <= i < n => EndlessPhase(t, i))
  }

  predicate Counted(t: Setting, n: nat, m: Timer) {
    && m.runState == EndlessPhase(t, n)
    && m.workRound as int == if m.runState == WORK then (n - Warmups(t)) % Cycle(t) else 0
  }

  lemma NextIn(k: nat, n: nat)
    requires n > 0
    ensures (k + 1) % n == if k % n + 1 == n then 0 else k % n + 1
  {
    var q, r := k / n, k % n;
    if r + 1 == n {
      QuotientUnique(k + 1, n, q + 1, 0);
    } else {
      QuotientUnique(k + 1, n, q, r + 1);
    }
  }

  lemma EndlessEnds(t: Setting, n: nat, m: Timer)
    requires Endless(t) && Counted(t, n, m)
    ensures Counted(t, n + 1, NextPhase(t, m))
  {
    hide Setting.Work, Setting.Rest, Setting.Cooldown, Setting.Warmup;
    if n < Warmups(t) {
      assert 0 % Cycle(t) == 0;
    } else {
      NextIn(n - Warmups(t), Cycle(t));
    }
  }

  /** After some phases have ended, the timer is in the phase that is due, and due when that phase ends. */
  ghost predicate EndlessFollowing(t: Setting, start: uint32, pausedTotal: int, ended: nat, m: Timer) {
    && m.face != Waiting && Counted(t, ended, m)
    && m.target as int == (start + TotalLength(t, EndlessPlan(t, ended + 1)) + pausedTotal) % TWO_32
  }

  lemma EndlessStarts(t: Setting, start: uint32)
    requires Endless(t)
    ensures EndlessFollowing(t, start, 0, 0, Start(t, start))
    ensures Start(t, start).face == Running
  {
    hide Setting.Work, Setting.Rest, Setting.Cooldown, Setting.Warmup;
    assert 0 % Cycle(t) == 0;
    var first := EndlessPlan(t, 1);
    assert first[..0] == [] && TotalLength(t, first[..0]) == 0;
    assert PhaseLength(t, first[0]) > 0;
  }

  lemma EndlessFires(t: Setting, start: uint32, pausedTotal: int, ended: nat, m: Timer)
    requires Endless(t) && EndlessFollowing(t, start, pausedTotal, ended, m)
    ensures EndlessFollowing(t, start, pausedTotal, ended + 1, Fire(t, m))
  {
    hide Setting.Work, Setting.Rest, Setting.Cooldown, Setting.Warmup, Cycle;
    var m1 := NextPhase(t, m);
    EndlessEnds(t, ended, m);
    NextKeepsTarget(t, m);
    EndlessLength(t, ended + 1);
    var p := EndlessPlan(t, ended + 2);
    assert p[..ended + 1] == EndlessPlan(t, ended + 1);
    SumShift(start + TotalLength(t, p[..ended + 1]) + pausedTotal, PhaseLength(t, m1.runState), m.target);
  }

  lemma EndlessLength(t: Setting, n: nat)
    requires Endless(t)
    ensures EndlessPhase(t, n) < DONE && PhaseLength(t, EndlessPhase(t, n)) > 0
  {
    hide Setting.Work, Setting.Rest, Setting.Cooldown, Setting.Warmup;
    if n >= Warmups(t) {
      assert 0 <= (n - Warmups(t)) % Cycle(t) < Cycle(t);
    }
  }

  /**
   A timer without a number of full rounds goes on for ever: its warmup, and then blocks of work and breaks. The cooldown
   does not come.
   */
  lemma {:induction false} EndlessRun(t: Setting, start: uint32, events: seq<Event>)
    requires Endless(t) && Possible(t, Start(t, start), events)
    ensures var m := Run(t, Start(t, start), events);
      && EndlessFollowing(t, start, PausedTotal(events), Ended(events), m)
      && (m.face == Pausing ==> m.paused as int == PauseTime(events))
    decreases |events|
  {
    hide Start, Fire, EndlessFollowing;
    if events == [] {
      EndlessStarts(t, start);
    } else {
      var n := |events| - 1;
      EndlessRun(t, start, events[..n]);
      var m := Run(t, Start(t, start), events[..n]);
      var p, ended := PausedTotal(events[..n]), Ended(events[..n]);
      if events[n].PhaseOver? {
        EndlessFires(t, start, p, ended, m);
        FireFace(t, m);
      } else if events[n].PauseAt? {
        EndlessPauses(t, start, p, ended, m, events[n].now);
      } else {
        EndlessResumes(t, start, p, ended, m, events[n].now);
      }
    }
  }

  lemma EndlessPauses(t: Setting, start: uint32, pausedTotal: int, ended: nat, m: Timer, now: uint32)
    requires EndlessFollowing(t, start, pausedTotal, ended, m)
    ensures EndlessFollowing(t, start, pausedTotal, ended, Pause(m, now))
  {
  }

  lemma EndlessResumes(t: Setting, start: uint32, pausedTotal: int, ended: nat, m: Timer, now: uint32)
    requires EndlessFollowing(t, start, pausedTotal, ended, m)
    ensures EndlessFollowing(t, start, pausedTotal + now - m.paused, ended, Resume(m, now))
  {
    hide WrappingSub32, EndlessPlan, TotalLength;
    SumMoved(start + TotalLength(t, EndlessPlan(t, ended + 1)) + pausedTotal, now, m.paused, m.target);
  }
}
