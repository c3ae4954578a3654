/** The one-shot scheduler, indexed by face, and the clock that wraps after year 63. */
module BackgroundTasks {
  import opened Words
  import opened Wrappers
  import opened Calendar
  import opened DayCounts

  const FACES := 111
  const CYCLE := (64 * 365 + 16) * 24 * 60 * 60

  /** Strictly after `now`, or in year 0 while the clock is in its last year. */
  predicate IsFuture(now: DateTime, target: DateTime) {
    var n := Timestamp(now);
    var t := Timestamp(target);
    if t > n then true
    else if now.year == 63 && target.year == 0 then t + CYCLE > n
    else false
  }

  type Tasks = seq<Option<DateTime>>

  predicate CanSchedule(face: nat, now: DateTime, target: DateTime) {
    face < FACES && ValidDateTime(target) && IsFuture(now, target)
  }

  predicate Due(task: Option<DateTime>, now: DateTime) {
    task.Some? && !IsFuture(now, task.value)
  }

  /** The first due face from `from` on, or `|tasks|`. */
  function FirstDue(tasks: Tasks, now: DateTime, from: nat): (face: nat)
    requires from <= |tasks|
    ensures from <= face <= |tasks|
    ensures face < |tasks| ==> Due(tasks[face], now)
    ensures forall i :: from <= i < face ==> !Due(tasks[i], now)
    decreases |tasks| - from
  {
    if from == |tasks| || Due(tasks[from], now) then from else FirstDue(tasks, now, from + 1)
  }

  function Poll(tasks: Tasks, now: DateTime): Option<nat> {
    var face := FirstDue(tasks, now, 0);
    if face < |tasks| then Some(face) else None
  }

  function AfterPoll(tasks: Tasks, now: DateTime): (after: Tasks)
    ensures |after| == |tasks|
  {
    var face := FirstDue(tasks, now, 0);
    if face < |tasks| then tasks[face := None] else tasks
  }

  class BackgroundTaskRegistry {
    var tasks: array<Option<DateTime>>

    ghost predicate Valid()
      reads this
    {
      tasks.Length == FACES
    }

    constructor ()
      ensures Valid() && fresh(tasks)
      ensures forall i :: 0 <= i < FACES ==> tasks[i] == None
    {
      tasks := new Option<DateTime>[FACES](i => None);
    }

    method Schedule(face: nat, now: DateTime, target: DateTime)
      requires Valid()
      modifies tasks
      ensures tasks[..] ==
        if CanSchedule(face, now, target) then old(tasks[..])[face := Some(target)] else old(tasks[..])
    {
      if face >= FACES || !ValidDateTime(target) || !IsFuture(now, target) {
        return;
      }
      tasks[face] := Some(target);
    }

    method Cancel(face: nat)
      requires Valid()
      modifies tasks
      ensures tasks[..] == if face < FACES then old(tasks[..])[face := None] else old(tasks[..])
    {
      if face < FACES {
        tasks[face] := None;
      }
    }

    method PollDue(now: DateTime) returns (face: Option<nat>)
      requires Valid()
      modifies tasks
      ensures face == Poll(old(tasks[..]), now) && tasks[..] == AfterPoll(old(tasks[..]), now)
    {
      var i := 0;
      while i < tasks.Length
        invariant 0 <= i <= tasks.Length
        invariant tasks[..] == old(tasks[..])
        invariant FirstDue(tasks[..], now, 0) == FirstDue(tasks[..], now, i)
      {
        if tasks[i].Some? && !IsFuture(now, tasks[i].value) {
          tasks[i] := None;
          return Some(i);
        }
        i := i + 1;
      }
      return None;
    }

    method Scheduled(face: nat) returns (task: Option<DateTime>)
      requires Valid()
      ensures task == if face < FACES then tasks[face] else None
    {
      task := if face < tasks.Length then tasks[face] else None;
    }
  }

  // Draining: polling again and again at one instant.

  /** The due faces in index order. */
  function DueFaces(tasks: Tasks, now: DateTime, from: nat): seq<nat>
    requires from <= |tasks|
    decreases |tasks| - from
  {
    if from == |tasks| then []
    else (if Due(tasks[from], now) then [from] else []) + DueFaces(tasks, now, from + 1)
  }

  /** The tasks that are still in the future. */
  function Undue(tasks: Tasks, now: DateTime): Tasks {
    seq(|tasks|, i requires 0 <= i < |tasks| => if Due(tasks[i], now) then None else tasks[i])
  }

  /** What `polls` polls at one instant return. */
  function Drain(tasks: Tasks, now: DateTime, polls: nat): (Tasks, seq<Option<nat>>)
    decreases polls
  {
    if polls == 0 then (tasks, [])
    else
      var (after, faces) := Drain(AfterPoll(tasks, now), now, polls - 1);
      (after, [Poll(tasks, now)] + faces)
  }

  lemma {:induction false} DueFacesFrom(tasks: Tasks, now: DateTime, from: nat)
    requires from <= |tasks|
    ensures DueFaces(tasks, now, from) == DueFaces(tasks, now, FirstDue(tasks, now, from))
    decreases |tasks| - from
  {
    hide Due;
    if from < |tasks| && !Due(tasks[from], now) {
      DueFacesFrom(tasks, now, from + 1);
    }
  }

  lemma {:induction false} DueFacesSame(a: Tasks, b: Tasks, now: DateTime, from: nat)
    requires |a| == |b| && from <= |a|
    requires forall i :: from <= i < |a| ==> a[i] == b[i]
    ensures DueFaces(a, now, from) == DueFaces(b, now, from)
    decreases |a| - from
  {
    hide Due;
    if from < |a| {
      DueFacesSame(a, b, now, from + 1);
    }
  }

  /** A poll takes the first due face off the list. */
  lemma PollTakesFirst(tasks: Tasks, now: DateTime)
    ensures Poll(tasks, now) == None ==> DueFaces(tasks, now, 0) == [] && AfterPoll(tasks, now) == tasks
    ensures var face := FirstDue(tasks, now, 0);
      face < |tasks| ==> DueFaces(tasks, now, 0) == [face] + DueFaces(AfterPoll(tasks, now), now, 0)
    ensures Undue(AfterPoll(tasks, now), now) == Undue(tasks, now)
  {
    hide IsFuture;
    var face := FirstDue(tasks, now, 0);
    DueFacesFrom(tasks, now, 0);
    if face < |tasks| {
      var after := AfterPoll(tasks, now);
      SkipTo(after, now, 0, face + 1);
      DueFacesSame(tasks, after, now, face + 1);
    }
  }

  lemma {:induction false} SkipTo(tasks: Tasks, now: DateTime, from: nat, to: nat)
    requires from <= to <= |tasks|
    requires forall i :: from <= i < to ==> !Due(tasks[i], now)
    ensures DueFaces(tasks, now, from) == DueFaces(tasks, now, to)
    decreases |tasks| - from
  {
    if from < to {
      SkipTo(tasks, now, from + 1, to);
    }
  }

  function Somes(faces: seq<nat>): (r: seq<Option<nat>>)
    ensures |r| == |faces|
  {
    seq(|faces|, i requires 0 <= i < |faces| => Some(faces[i]))
  }

  function Nones(n: nat): seq<Option<nat>> {
    seq(n, i => None)
  }

  /**
   Polls at one instant return exactly the due faces, in index order, then nothing more; the tasks left are
   exactly those in the future.
   */
  lemma {:induction false} DrainsDue(tasks: Tasks, now: DateTime, polls: nat)
    requires polls >= |DueFaces(tasks, now, 0)|
    ensures Drain(tasks, now, polls).1
         == Somes(DueFaces(tasks, now, 0)) + Nones(polls - |DueFaces(tasks, now, 0)|)
    ensures Drain(tasks, now, polls).0 == Undue(tasks, now)
    decreases polls
  {
    hide Due, DueFaces;
    PollTakesFirst(tasks, now);
    var due := DueFaces(tasks, now, 0);
    if polls == 0 {
      NothingDue(tasks, now);
    } else {
      var after := AfterPoll(tasks, now);
      if FirstDue(tasks, now, 0) < |tasks| {
        assert due[1..] == DueFaces(after, now, 0);
        assert Somes(due) == [Some(due[0])] + Somes(due[1..]);
      } else {
        assert due == [] && after == tasks;
      }
      DrainsDue(after, now, polls - 1);
    }
  }

  lemma NothingDue(tasks: Tasks, now: DateTime)
    requires DueFaces(tasks, now, 0) == []
    ensures Undue(tasks, now) == tasks
  {
    hide Due;
    DueFacesFrom(tasks, now, 0);
  }

  // Deadlines on a clock that does not wrap, of which the RTC shows the time within its 64-year cycle.

  /** What the RTC shows at a true time. */
  ghost predicate Shows(time: nat, now: DateTime) {
    ValidRtc(now) && Timestamp(now) == time % CYCLE
  }

  lemma ClockShows(time: nat)
    ensures Shows(time, DateOf(FIRST + time % CYCLE))
  {
    hide Timestamp, UnixSeconds, DateOf;
    TimestampIsUnix(DateOf(FIRST + time % CYCLE));
  }

  const LAST_YEAR := (63 * 365 + 16) * 24 * 60 * 60

  /** Where the last year of the cycle, and the next cycle, start. */
  lemma YearOfTimestamp(d: DateTime)
    requires ValidRtc(d)
    ensures Timestamp(d) < CYCLE
    ensures d.year == 63 <==> Timestamp(d) >= LAST_YEAR
  {
    hide Timestamp, UnixSeconds, DaysBeforeYear, DaysBeforeMonth;
    TimestampIsUnix(d);
    ValidInRange(d);
    var newYear := DateTime(0, 0, 0, 1, 1, 63);
    NewYear63();
    OrderIsTime(d, newYear);
  }

  lemma NewYear63()
    ensures UnixSeconds(DateTime(0, 0, 0, 1, 1, 63)) == FIRST + LAST_YEAR
  {
    hide DaysBeforeYear;
    DaysBeforeYearClosed(2083);
  }

  /** The next time at which the RTC reaches `target`. */
  ghost function Deadline(time: nat, target: DateTime): nat {
    var cycle := time - time % CYCLE;
    if Timestamp(target) > time % CYCLE then cycle + Timestamp(target) else cycle + CYCLE + Timestamp(target)
  }

  /** The deadline is the first time after scheduling at which the RTC shows the target. */
  lemma DeadlineIsNext(time: nat, target: DateTime, at: nat)
    requires ValidRtc(target) && time < at
    ensures Shows(Deadline(time, target), target) && time < Deadline(time, target)
    ensures Shows(at, target) ==> at >= Deadline(time, target)
  {
    hide Timestamp, ValidRtc;
    YearOfTimestamp(target);
    var t := Timestamp(target);
    var c := time / CYCLE;
    assert time == CYCLE * c + time % CYCLE;
    if t > time % CYCLE {
      QuotientUnique(CYCLE * c + t, CYCLE, c, t);
    } else {
      assert CYCLE * (c + 1) == CYCLE * c + CYCLE;
      QuotientUnique(CYCLE * (c + 1) + t, CYCLE, c + 1, t);
    }
    if at % CYCLE == t {
      SameCycle(c, at / CYCLE, time % CYCLE, t);
    }
  }

  lemma SameCycle(c: int, e: int, r: int, t: int)
    requires 0 <= r < CYCLE && 0 <= t < CYCLE && CYCLE * c + r < CYCLE * e + t
    ensures CYCLE * e + t >= if t > r then CYCLE * c + t else CYCLE * c + CYCLE + t
  {
    assert CYCLE * (e - c) == CYCLE * e - CYCLE * c;
    MultipleGrows(CYCLE, e - c);
  }

  /**
   A schedule takes effect exactly for a face that exists and a valid target after the present date in the calendar, or
   a target in the first year while the clock is in its last.
   */
  lemma SchedulesExactly(face: nat, now: DateTime, target: DateTime)
    requires ValidRtc(now)
    ensures CanSchedule(face, now, target)
       <==> face < 111 && ValidDateTime(target) && (Earlier(now, target) || (now.year == 63 && target.year == 0))
  {
    hide Timestamp;
    if ValidDateTime(target) {
      TimestampOrder(now, target);
      YearOfTimestamp(now);
    }
  }

  // Whole runs.

  datatype Event =
    | Schedule(time: nat, now: DateTime, face: nat, target: DateTime)
    | Cancel(face: nat)
    | PollAt(time: nat, now: DateTime)

  /** The tasks, and the true deadline of each face that has one. */
  datatype Registry = Registry(tasks: Tasks, deadlines: seq<Option<nat>>)

  ghost function Step(r: Registry, e: Event): (next: Registry)
    requires |r.tasks| == FACES && |r.deadlines| == FACES
    ensures |next.tasks| == FACES && |next.deadlines| == FACES
  {
    match e
    case Schedule(time, now, face, target) =>
      if CanSchedule(face, now, target) then
        Registry(r.tasks[face := Some(target)], r.deadlines[face := Some(Deadline(time, target))])
      else r
    case Cancel(face) => if face < FACES then Registry(r.tasks[face := None], r.deadlines[face := None]) else r
    case PollAt(time, now) =>
      var face := FirstDue(r.tasks, now, 0);
      Registry(AfterPoll(r.tasks, now), if face < FACES then r.deadlines[face := None] else r.deadlines)
  }

  function NoTasks(): (r: Registry)
    ensures |r.tasks| == FACES && |r.deadlines| == FACES
    ensures forall i :: 0 <= i < FACES ==> r.tasks[i] == None && r.deadlines[i] == None
  {
    Registry(seq(FACES, i => None), seq(FACES, i => None))
  }

  ghost function Run(events: seq<Event>): (r: Registry)
    ensures |r.tasks| == FACES && |r.deadlines| == FACES
  {
    if events == [] then NoTasks() else Step(Run(events[..|events| - 1]), events[|events| - 1])
  }

  function Latest(events: seq<Event>): nat {
    if events == [] then 0
    else
      var e := events[|events| - 1];
      if e.Cancel? then Latest(events[..|events| - 1]) else e.time
  }

  /** The true clock never goes back, and every event reads it through the RTC. */
  ghost predicate Clocked(events: seq<Event>) {
    events != [] ==>
      var e := events[|events| - 1];
      Clocked(events[..|events| - 1]) && (e.Cancel? || (e.time >= Latest(events[..|events| - 1]) && Shows(e.time, e.now)))
  }

  /**
   A task's deadline falls in the cycle that starts at `deadline - Timestamp(target)`; that cycle has begun, or
   the target is in year 0 and the RTC is in the last year before it.
   */
  ghost predicate Ahead(time: nat, task: Option<DateTime>, deadline: Option<nat>) {
    && (task.Some? <==> deadline.Some?)
    && (task.Some? ==> (
          var start := deadline.value as int - Timestamp(task.value);
          start >= 0 && start % CYCLE == 0
          && (start <= time || (task.value.year == 0 && start - CYCLE + LAST_YEAR <= time))))
  }

  ghost predicate Kept(time: nat, r: Registry) {
    && |r.tasks| == FACES && |r.deadlines| == FACES
    && forall i :: 0 <= i < FACES ==> Ahead(time, r.tasks[i], r.deadlines[i])
  }

  lemma ScheduledAhead(time: nat, now: DateTime, face: nat, target: DateTime)
    requires Shows(time, now) && CanSchedule(face, now, target)
    ensures Ahead(time, Some(target), Some(Deadline(time, target)))
  {
    hide Timestamp, ValidRtc;
    YearOfTimestamp(now);
    var cycle := time - time % CYCLE;
    assert cycle == CYCLE * (time / CYCLE);
    QuotientUnique(cycle, CYCLE, time / CYCLE, 0);
    QuotientUnique(cycle + CYCLE, CYCLE, time / CYCLE + 1, 0);
  }

  /**
   When a task is due: its deadline has passed, the RTC is not before the target in its present cycle, and it
   is not the last year of the clock for a target in the first.
   */
  lemma DueExactly(time: nat, now: DateTime, task: Option<DateTime>, deadline: Option<nat>)
    requires Shows(time, now) && task.Some? && Ahead(time, task, deadline)
    ensures Due(task, now) ==> deadline.value <= time
    ensures time < deadline.value - Timestamp(task.value) + CYCLE ==>
      (Due(task, now) <==> deadline.value <= time && !(now.year == 63 && task.value.year == 0))
    ensures Due(task, now) <==> Timestamp(task.value) <= time % CYCLE && !(now.year == 63 && task.value.year == 0)
  {
    hide Timestamp, ValidRtc;
    YearOfTimestamp(now);
    var start := deadline.value as int - Timestamp(task.value);
    var s, c := start / CYCLE, time / CYCLE;
    assert start == CYCLE * s && time == CYCLE * c + time % CYCLE;
    assert CYCLE * (c - s) == CYCLE * c - CYCLE * s;
    MultipleGrows(CYCLE, c - s);
    if c < s - 1 {
      assert CYCLE * (c - s + 1) == CYCLE * (c - s) + CYCLE;
      MultipleGrows(CYCLE, c - s + 1);
    }
  }

  /** Every task of a run keeps the cycle of its deadline. */
  lemma {:induction false} RunKeeps(events: seq<Event>)
    requires Clocked(events)
    ensures Kept(Latest(events), Run(events))
    decreases |events|
  {
    hide Ahead, Shows, CanSchedule, Deadline;
    if events != [] {
      var n := |events| - 1;
      RunKeeps(events[..n]);
      var r := Run(events[..n]);
      var e := events[n];
      AheadLater(r, Latest(events[..n]), Latest(events));
      NothingAhead(Latest(events));
      if e.Schedule? && CanSchedule(e.face, e.now, e.target) {
        ScheduledAhead(e.time, e.now, e.face, e.target);
      }
    } else {
      NothingAhead(0);
    }
  }

  lemma NothingAhead(time: nat)
    ensures Ahead(time, None, None)
  {
  }

  lemma AheadLater(r: Registry, time: nat, later: nat)
    requires Kept(time, r) && time <= later
    ensures Kept(later, r)
  {
    hide Timestamp;
  }

  /**
   Over any run of schedules, cancels and polls on a clock that does not go back, a face is never returned before
   its true deadline, across any number of wraps of the RTC.
   */
  lemma NeverEarly(events: seq<Event>, time: nat, now: DateTime)
    requires Clocked(events) && Latest(events) <= time && Shows(time, now)
    ensures var r := Run(events);
      var face := Poll(r.tasks, now);
      face.Some? ==> face.value < FACES && r.deadlines[face.value].Some? && r.deadlines[face.value].value <= time
  {
    hide Due, Ahead, Shows;
    RunKeeps(events);
    var r := Run(events);
    AheadLater(r, Latest(events), time);
    var face := FirstDue(r.tasks, now, 0);
    if face < FACES {
      DueIsSome(r.tasks[face], now);
      DueExactly(time, now, r.tasks[face], r.deadlines[face]);
      AheadSome(time, r.tasks[face], r.deadlines[face]);
    }
  }

  lemma DueIsSome(task: Option<DateTime>, now: DateTime)
    ensures Due(task, now) ==> task.Some?
  {
  }

  lemma AheadSome(time: nat, task: Option<DateTime>, deadline: Option<nat>)
    ensures Ahead(time, task, deadline) ==> (task.Some? <==> deadline.Some?)
  {
  }

  /**
   A poll in the cycle of a task's deadline finds it due exactly when the deadline has passed, unless the RTC is
   in its last year and the target in its first.
   */
  lemma DueOnTime(events: seq<Event>, time: nat, now: DateTime, face: nat)
    requires Clocked(events) && Latest(events) <= time && Shows(time, now) && face < FACES
    ensures Run(events).tasks[face].Some? <==> Run(events).deadlines[face].Some?
    ensures
      var task := Run(events).tasks[face];
      var deadline := Run(events).deadlines[face];
      task.Some? && time < deadline.value - Timestamp(task.value) + CYCLE ==>
        (Due(task, now) <==> deadline.value <= time && !(now.year == 63 && task.value.year == 0))
  {
    hide Due, Ahead, Shows, Timestamp;
    RunKeeps(events);
    var r := Run(events);
    AheadLater(r, Latest(events), time);
    AheadSome(time, r.tasks[face], r.deadlines[face]);
    if r.tasks[face].Some? {
      DueExactly(time, now, r.tasks[face], r.deadlines[face]);
    }
  }

  /** A task for the second second of 2020, first polled in 2083, is not due although its deadline has long passed. */
  lemma MissedInLastYear()
    ensures
      var start, target, now := DateTime(0, 0, 0, 1, 1, 0), DateTime(1, 0, 0, 1, 1, 0), DateTime(0, 0, 0, 1, 1, 63);
      && Shows(0, start) && CanSchedule(0, start, target) && Deadline(0, target) == 1
      && Shows(LAST_YEAR, now) && !Due(Some(target), now)
  {
    var now := DateTime(0, 0, 0, 1, 1, 63);
    assert Timestamp(now) == LAST_YEAR by {
      TimestampIsUnix(now);
      NewYear63();
    }
  }

  /** What became of the schedules of a face: how many there were, and how many were returned, cancelled or replaced. */
  datatype Tally = Tally(scheduled: nat, returned: nat, cancelled: nat, replaced: nat)

  ghost function Tallied(events: seq<Event>, face: nat): Tally
    requires face < FACES
  {
    if events == [] then Tally(0, 0, 0, 0)
    else
      var n := |events| - 1;
      var t := Tallied(events[..n], face);
      var tasks := Run(events[..n]).tasks;
      match events[n]
      case Schedule(_, now, scheduled, target) =>
        if scheduled != face || !CanSchedule(face, now, target) then t
        else t.(scheduled := t.scheduled + 1, replaced := t.replaced + if tasks[face].Some? then 1 else 0)
      case Cancel(cancelled) =>
        if cancelled == face && tasks[face].Some? then t.(cancelled := t.cancelled + 1) else t
      case PollAt(_, now) => if Poll(tasks, now) == Some(face) then t.(returned := t.returned + 1) else t
  }

  /**
   Over any run no schedule of a face is lost and none is answered twice: each was returned once, cancelled or
   replaced, or is the one still pending.
   */
  lemma {:induction false} OncePerSchedule(events: seq<Event>, face: nat)
    requires face < FACES
    ensures var t := Tallied(events, face);
      t.scheduled == t.returned + t.cancelled + t.replaced + if Run(events).tasks[face].Some? then 1 else 0
    decreases |events|
  {
    hide Deadline, CanSchedule, IsFuture;
    if events != [] {
      OncePerSchedule(events[..|events| - 1], face);
    }
  }
}
