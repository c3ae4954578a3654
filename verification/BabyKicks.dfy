/** The baby-kicks counter: stretches, movements, and undo. */
module BabyKicks {
  import opened Words
  import opened Rings
  import opened Calendar

  const TIMEOUT := 99
  const SENTINEL := 0xff

  /** The fields of the face; times are Unix times of the RTC. */
  datatype Kicks = Kicks(
    start: uint32, latest: uint32, stretchCount: uint8, movementCount: uint16, stretches: seq<uint8>, head: uint8)

  const EMPTY: seq<uint8> := [0xff, 0xff, 0xff, 0xff, 0xff, 0xff, 0xff, 0xff, 0xff, 0xff]

  const FRESH := Kicks(0, 0, 0, 0, EMPTY, 0)

  predicate Shaped(k: Kicks) {
    |k.stretches| == 10 && k.head < 10
  }

  function Elapsed(k: Kicks, now: uint32): uint32 {
    if k.start == 0 then 0xff else WrappingSub32(now, k.start) / 60
  }

  predicate TimedOut(k: Kicks, now: uint32) {
    Elapsed(k, now) > TIMEOUT
  }

  /** Whether a movement at `now` starts a stretch: the first one, and each more than a minute after the last. */
  predicate StartsStretch(latest: uint32, stretchCount: uint8, now: uint32) {
    stretchCount == 0 || (latest + 60) % TWO_32 < now
  }

  function Increment(k: Kicks, now: uint32): Kicks
    requires Shaped(k)
  {
    var k1 := k.(stretches := k.stretches[k.head := k.stretchCount], head := (k.head + 1) % 10,
                 movementCount := (k.movementCount + 1) % TWO_16);
    if StartsStretch(k.latest, k.stretchCount, now) then k1.(latest := now, stretchCount := (k.stretchCount + 1) % 0x100)
    else k1
  }

  function Newest(head: uint8): uint8 {
    if head == 0 then 9 else head - 1
  }

  function Undo(k: Kicks): (Kicks, bool)
    requires Shaped(k)
  {
    var i := Newest(k.head);
    var before := k.stretches[i];
    if before == SENTINEL then (k, false)
    else
      var k1 := if before < k.stretchCount then k.(latest := 0, stretchCount := k.stretchCount - 1) else k;
      (k1.(movementCount := (k.movementCount - 1) % TWO_16, stretches := k.stretches[i := SENTINEL], head := i), true)
  }

  function AlarmUp(k: Kicks, now: uint32): Kicks
    requires Shaped(k)
  {
    if k.start == 0 then k.(start := now) else if TimedOut(k, now) then k else Increment(k, now)
  }

  function AlarmLongPress(k: Kicks, now: uint32): (Kicks, bool)
    requires Shaped(k)
  {
    if k.start == 0 || TimedOut(k, now) then (k, false) else Undo(k)
  }

  function ModeLongPress(k: Kicks): Kicks {
    if k.start == 0 then k else FRESH
  }

  class BabyKicksFace {
    var start: uint32
    var latestStretchStart: uint32
    var stretchCount: uint8
    var movementCount: uint16
    var stretches: array<uint8>
    var head: uint8

    ghost predicate Valid()
      reads this
    {
      stretches.Length == 10 && head < 10
    }

    ghost function Abs(): (k: Kicks)
      reads this, stretches
      requires Valid()
      ensures Shaped(k)
    {
      Kicks(start, latestStretchStart, stretchCount, movementCount, stretches[..], head)
    }

    constructor ()
      ensures Valid() && fresh(stretches) && Abs() == FRESH
    {
      start, latestStretchStart, stretchCount, movementCount, head := 0, 0, 0, 0, 0;
      stretches := new uint8[10](i => SENTINEL);
      new;
      assert stretches[..] == EMPTY;
    }

    method Reset()
      requires Valid()
      modifies this, stretches
      ensures Valid() && stretches == old(stretches) && Abs() == FRESH
    {
      start, latestStretchStart, stretchCount, movementCount, head := 0, 0, 0, 0, 0;
      forall i | 0 <= i < 10 {
        stretches[i] := SENTINEL;
      }
      assert stretches[..] == EMPTY;
    }

    method ElapsedMinutes(now: uint32) returns (minutes: uint32)
      requires Valid()
      ensures minutes == Elapsed(Abs(), now)
    {
      if start == 0 {
        return 0xff;
      }
      minutes := WrappingSub32(now, start) / 60;
    }

    method IncrementCounts(now: uint32)
      requires Valid()
      modifies this`latestStretchStart, this`stretchCount, this`movementCount, this`head, stretches
      ensures Valid() && Abs() == Increment(old(Abs()), now)
    {
      stretches[head] := stretchCount;
      head := (head + 1) % 10;
      movementCount := (movementCount + 1) % TWO_16;
      if stretchCount == 0 || (latestStretchStart + 60) % TWO_32 < now {
        latestStretchStart := now;
        stretchCount := (stretchCount + 1) % 0x100;
      }
    }

    method SuccessfullyUndo() returns (undone: bool)
      requires Valid()
      modifies this`latestStretchStart, this`stretchCount, this`movementCount, this`head, stretches
      ensures Valid() && (Abs(), undone) == Undo(old(Abs()))
    {
      var latestMovement := if head == 0 then 9 else head - 1;
      var before := stretches[latestMovement];
      if before == SENTINEL {
        return false;
      } else if before < stretchCount {
        latestStretchStart := 0;
        stretchCount := stretchCount - 1;
      }
      movementCount := (movementCount - 1) % TWO_16;
      stretches[latestMovement] := SENTINEL;
      head := latestMovement;
      return true;
    }

    /** A short press on the alarm button: start, or count a movement. */
    method Movement(now: uint32)
      requires Valid()
      modifies this, stretches
      ensures Valid() && stretches == old(stretches) && Abs() == AlarmUp(old(Abs()), now)
    {
      var minutes := ElapsedMinutes(now);
      if start == 0 {
        start := now;
      } else if minutes <= TIMEOUT {
        IncrementCounts(now);
      }
    }

    /** A long press on the alarm button. */
    method TakeBack(now: uint32) returns (undone: bool)
      requires Valid()
      modifies this, stretches
      ensures Valid() && stretches == old(stretches) && (Abs(), undone) == AlarmLongPress(old(Abs()), now)
    {
      var minutes := ElapsedMinutes(now);
      if start == 0 || minutes > TIMEOUT {
        return false;
      }
      undone := SuccessfullyUndo();
    }

    /** A long press on the mode button. */
    method StartOver()
      requires Valid()
      modifies this, stretches
      ensures Valid() && stretches == old(stretches) && Abs() == ModeLongPress(old(Abs()))
    {
      if start != 0 {
        Reset();
      }
    }
  }

  // The counter with an undo stack in place of the ring.

  datatype Counts = Counts(stretches: nat, movements: nat)

  /** `undo` holds the counts before each movement that can be undone, oldest first. */
  datatype Diary = Diary(start: uint32, latest: uint32, counts: Counts, undo: seq<Counts>)

  const BLANK := Diary(0, 0, Counts(0, 0), [])

  datatype Event = Movement(now: uint32) | TakeBack(now: uint32) | StartOver(now: uint32)

  function Expired(d: Diary, now: uint32): bool {
    (now - d.start) / 60 > 99
  }

  function Count(d: Diary, now: uint32): Diary {
    var starts := d.counts.stretches == 0 || d.latest + 60 < now;
    Diary(
      d.start,
      if starts then now else d.latest,
      Counts(d.counts.stretches + if starts then 1 else 0, d.counts.movements + 1),
      Last(d.undo + [d.counts], 10))
  }

  /** Undo brings the counts back exactly; the time of the stretch is lost when its start is undone. */
  function Uncount(d: Diary): (Diary, bool) {
    if d.undo == [] then (d, false)
    else
      var before := d.undo[|d.undo| - 1];
      (Diary(d.start, if before.stretches == d.counts.stretches then d.latest else 0, before, d.undo[..|d.undo| - 1]),
       true)
  }

  function DiaryStep(d: Diary, e: Event): (Diary, bool) {
    match e
    case Movement(now) =>
      (if d.start == 0 then d.(start := now) else if Expired(d, now) then d else Count(d, now), true)
    case TakeBack(now) => if d.start == 0 || Expired(d, now) then (d, false) else Uncount(d)
    case StartOver(now) => (if d.start == 0 then d else BLANK, true)
  }

  function Step(k: Kicks, e: Event): (Kicks, bool)
    requires Shaped(k)
  {
    match e
    case Movement(now) => (AlarmUp(k, now), true)
    case TakeBack(now) => AlarmLongPress(k, now)
    case StartOver(_) => (ModeLongPress(k), true)
  }

  lemma StepShaped(k: Kicks, e: Event)
    requires Shaped(k)
    ensures Shaped(Step(k, e).0)
  {
  }

  function Run(events: seq<Event>): (k: Kicks)
    ensures Shaped(k)
  {
    if events == [] then FRESH
    else
      var before := Run(events[..|events| - 1]);
      StepShaped(before, events[|events| - 1]);
      Step(before, events[|events| - 1]).0
  }

  function DiaryRun(events: seq<Event>): Diary {
    if events == [] then BLANK else DiaryStep(DiaryRun(events[..|events| - 1]), events[|events| - 1]).0
  }

  /** The RTC never goes back, and shows a date from 2020 to 2083. */
  predicate Timely(events: seq<Event>) {
    && (forall i :: 0 <= i < |events| ==> FIRST <= events[i].now <= LAST)
    && (forall i, j :: 0 <= i < j < |events| ==> events[i].now <= events[j].now)
  }

  function Now(events: seq<Event>): int {
    if events == [] then FIRST else events[|events| - 1].now
  }

  /** The bound on the stretches: a minute passes between the starts of two, also when starts were undone. */
  predicate Paced(d: Diary, now: int) {
    if d.start == 0 then d == BLANK
    else
      && FIRST <= d.start <= now
      && d.latest <= now
      && (d.counts.stretches >= 1 && d.latest != 0 ==> d.latest as int >= d.start + 61 * (d.counts.stretches - 1))
      && (d.counts.stretches >= 1 && d.latest == 0 ==> now >= d.start + 61 * d.counts.stretches)
      && d.counts.stretches <= 99
  }

  /** From one movement to the next the stretches grow by at most one. */
  predicate Chain(undo: seq<Counts>, counts: Counts) {
    && (undo != [] ==> Follows(undo[|undo| - 1], counts))
    && (forall i :: 0 < i < |undo| ==> Follows(undo[i - 1], undo[i]))
    && (forall i :: 0 <= i < |undo| ==> undo[i].stretches <= counts.stretches)
    && (forall i, j :: 0 <= i < j < |undo| ==> undo[i].stretches <= undo[j].stretches)
  }

  predicate Steps(undo: seq<Counts>, counts: Counts) {
    |undo| <= 10 && Chain(undo, counts)
  }

  predicate Follows(a: Counts, b: Counts) {
    a.stretches <= b.stretches <= a.stretches + 1 && b.movements == a.movements + 1
  }

  lemma StepPaced(d: Diary, e: Event, before: int)
    requires Paced(d, before) && Steps(d.undo, d.counts) && before <= e.now && FIRST <= e.now <= LAST
    ensures Paced(DiaryStep(d, e).0, e.now)
  {
    if e.Movement? && d.start != 0 && !Expired(d, e.now) {
      assert e.now - d.start <= 5999;
    }
  }

  lemma StepSteps(d: Diary, e: Event)
    requires Steps(d.undo, d.counts)
    requires d.start == 0 ==> d == BLANK
    ensures var d1 := DiaryStep(d, e).0; Steps(d1.undo, d1.counts)
  {
    hide Expired, Steps, Last, Follows;
    if d.start != 0 && !Expired(d, e.now) {
      if e.Movement? {
        CountFollows(d, e.now);
        StackSteps(d.undo, d.counts, Count(d, e.now).counts);
      } else if e.TakeBack? && d.undo != [] {
        UnstackSteps(d.undo, d.counts);
      }
    }
    NoSteps();
  }

  lemma CountFollows(d: Diary, now: uint32)
    ensures Follows(d.counts, Count(d, now).counts)
  {
  }

  lemma NoSteps()
    ensures Steps([], Counts(0, 0))
  {
  }

  lemma StackSteps(undo: seq<Counts>, counts: Counts, next: Counts)
    requires Steps(undo, counts) && Follows(counts, next)
    ensures Steps(Last(undo + [counts], 10), next)
  {
    hide Chain;
    var all := undo + [counts];
    ChainGrows(undo, counts, next);
    if |undo| == 10 {
      ChainDrops(all, next);
    }
  }

  lemma ChainGrows(undo: seq<Counts>, counts: Counts, next: Counts)
    requires Chain(undo, counts) && Follows(counts, next)
    ensures Chain(undo + [counts], next)
  {
    var all := undo + [counts];
    forall i | 0 < i < |all|
      ensures Follows(all[i - 1], all[i])
    {
      assert all[i - 1] == undo[i - 1];
    }
  }

  lemma ChainDrops(undo: seq<Counts>, counts: Counts)
    requires Chain(undo, counts) && |undo| > 1
    ensures Chain(undo[1..], counts)
  {
    var rest := undo[1..];
    forall i | 0 < i < |rest|
      ensures Follows(rest[i - 1], rest[i])
    {
      assert rest[i - 1] == undo[i] && rest[i] == undo[i + 1];
      assert Follows(undo[i + 1 - 1], undo[i + 1]);
    }
  }

  lemma UnstackSteps(undo: seq<Counts>, counts: Counts)
    requires undo != [] && Steps(undo, counts)
    ensures Steps(undo[..|undo| - 1], undo[|undo| - 1])
  {
    hide Follows;
    var n := |undo| - 1;
    assert n > 0 ==> Follows(undo[n - 1], undo[n]);
  }

  /** The stretch counts in the ring, oldest first, behind sentinels. */
  function Stored(undo: seq<Counts>): (s: seq<int>)
    requires |undo| <= 10
    ensures |s| == 10
  {
    seq(10, i requires 0 <= i < 10 =>
      if i < 10 - |undo| then 0xff else undo[i - (10 - |undo|)].stretches)
  }

  /** The face is in the state of the diary. */
  predicate Represents(k: Kicks, d: Diary) {
    && Shaped(k)
    && k.start == d.start && k.latest == d.latest
    && k.stretchCount as int == d.counts.stretches && k.movementCount == d.counts.movements % TWO_16
    && |d.undo| <= 10
    && forall i :: 0 <= i < 10 ==> Rotated(k.stretches, k.head)[i] as int == Stored(d.undo)[i]
  }

  lemma CountRepresents(k: Kicks, d: Diary, now: uint32)
    requires Represents(k, d) && FIRST <= now <= LAST && d.latest <= now && d.counts.stretches <= 99
    ensures Represents(Increment(k, now), Count(d, now))
  {
    hide Rotated;
    PushRotates(k.stretches, k.head, k.stretchCount);
    assert Slot(k.head as int + 1, 10) == (k.head + 1) % 10;
    MovementsUp(d.counts.movements);
    StoredPush(d.undo, d.counts);
  }

  lemma StoredPush(undo: seq<Counts>, counts: Counts)
    requires |undo| <= 10
    ensures Stored(Last(undo + [counts], 10)) == Stored(undo)[1..] + [counts.stretches as int]
  {
  }

  lemma MovementsUp(m: nat)
    ensures (m % TWO_16 + 1) % TWO_16 == (m + 1) % TWO_16
  {
  }

  lemma MovementsDown(m: nat)
    ensures ((m + 1) % TWO_16 - 1) % TWO_16 == m % TWO_16
  {
  }

  lemma UndoRepresents(k: Kicks, d: Diary)
    requires Represents(k, d) && Steps(d.undo, d.counts) && d.counts.stretches <= 99
    ensures Undo(k).1 == Uncount(d).1
    ensures Represents(Undo(k).0, Uncount(d).0)
  {
    hide Rotated;
    PopRotates<uint8>(k.stretches, k.head, SENTINEL);
    var newest := k.stretches[Newest(k.head)];
    assert newest == Rotated(k.stretches, k.head)[9];
    assert newest as int == Stored(d.undo)[9];
    if d.undo != [] {
      StoredPop(d.undo);
      var before := d.undo[|d.undo| - 1];
      assert newest as int == before.stretches;
      MovementsDown(before.movements);
    }
  }

  lemma StoredPop(undo: seq<Counts>)
    requires 0 < |undo| <= 10
    ensures Stored(undo[..|undo| - 1]) == [SENTINEL] + Stored(undo)[..9]
  {
  }

  lemma FreshRepresents()
    ensures Represents(FRESH, BLANK)
  {
    assert Rotated(EMPTY, 0) == EMPTY;
  }

  lemma StepRepresents(k: Kicks, d: Diary, e: Event, before: int)
    requires Represents(k, d) && Paced(d, before) && Steps(d.undo, d.counts)
    requires before <= e.now && FIRST <= e.now <= LAST
    ensures Represents(Step(k, e).0, DiaryStep(d, e).0)
    ensures Step(k, e).1 == DiaryStep(d, e).1
  {
    hide Represents, Steps, Increment, Undo, Count, Uncount;
    RepresentsFields(k, d);
    FreshRepresents();
    StartRepresents(k, d, e.now);
    PacedCount(d, before);
    if d.start != 0 && !Expired(d, e.now) {
      if e.Movement? {
        CountRepresents(k, d, e.now);
      } else if e.TakeBack? {
        UndoRepresents(k, d);
      }
    }
  }

  lemma RepresentsFields(k: Kicks, d: Diary)
    requires Represents(k, d)
    ensures k.start == d.start && Shaped(k)
  {
  }

  lemma StartRepresents(k: Kicks, d: Diary, now: uint32)
    requires Represents(k, d)
    ensures Represents(k.(start := now), d.(start := now))
  {
  }

  lemma PacedCount(d: Diary, now: int)
    requires Paced(d, now)
    ensures d.counts.stretches <= 99 && (d.start != 0 ==> d.latest <= now && d.start <= now)
    ensures d.start == 0 ==> d == BLANK
  {
  }

  lemma {:induction false} RunRefines(events: seq<Event>)
    requires Timely(events)
    ensures var d := DiaryRun(events);
      Represents(Run(events), d) && Paced(d, Now(events)) && Steps(d.undo, d.counts)
    decreases |events|
  {
    hide Represents, Steps, Paced, Step, DiaryStep;
    if events == [] {
      FreshRepresents();
      BlankPaced();
    } else {
      var before := events[..|events| - 1];
      RunRefines(before);
      var e := events[|events| - 1];
      PacedCount(DiaryRun(before), Now(before));
      StepRepresents(Run(before), DiaryRun(before), e, Now(before));
      StepPaced(DiaryRun(before), e, Now(before));
      StepSteps(DiaryRun(before), e);
    }
  }

  lemma BlankPaced()
    ensures Paced(BLANK, FIRST) && Steps(BLANK.undo, BLANK.counts)
  {
  }

  /**
   While the RTC does not go back, the face counts a stretch at most every 61 seconds, never more than 99, and
   so no count it stores for undo is the sentinel.
   */
  lemma StretchesBounded(events: seq<Event>)
    requires Timely(events)
    ensures var k := Run(events);
      && k.stretchCount <= 99
      && (k.start != 0 ==> k.start <= Now(events) && k.stretchCount <= 1 + (Now(events) - k.start) / 61)
      && (forall i :: 0 <= i < 10 ==> k.stretches[i] <= 99 || k.stretches[i] == SENTINEL)
  {
    RunRefines(events);
    var k, d := Run(events), DiaryRun(events);
    if d.start != 0 {
      PacedFloor(d, Now(events));
    }
    forall i | 0 <= i < 10
      ensures k.stretches[i] <= 99 || k.stretches[i] == SENTINEL
    {
      var j := if i >= k.head as int then i - k.head as int else i + 10 - k.head as int;
      assert Rotated(k.stretches, k.head)[j] == k.stretches[i];
    }
  }

  lemma PacedFloor(d: Diary, now: int)
    requires Paced(d, now) && d.start != 0
    ensures d.counts.stretches <= 1 + (now - d.start) / 61
  {
    if d.counts.stretches >= 1 {
      assert now - d.start >= 61 * (d.counts.stretches - 1);
    }
  }

  /**
   Taking back undoes a movement exactly when there is one to undo: it succeeds while the timer runs and the
   diary holds an entry, and then brings both counts back to what they were before that movement.
   */
  lemma TakesBackExactly(events: seq<Event>, now: uint32)
    requires Timely(events + [TakeBack(now)])
    ensures
      var d := DiaryRun(events);
      var (k, undone) := Step(Run(events), TakeBack(now));
      && (undone <==> d.start != 0 && !Expired(d, now) && d.undo != [])
      && (undone ==> (
            var before := d.undo[|d.undo| - 1];
            k.stretchCount as int == before.stretches && k.movementCount == before.movements % TWO_16))
  {
    var all := events + [TakeBack(now)];
    assert all[..|events|] == events;
    assert Timely(events) by {
      assert forall i :: 0 <= i < |events| ==> events[i] == all[i];
    }
    RunRefines(events);
    assert all[|events|].now == now;
    NowBefore(events, TakeBack(now));
    StepRepresents(Run(events), DiaryRun(events), TakeBack(now), Now(events));
  }

  lemma NowBefore(events: seq<Event>, e: Event)
    requires Timely(events + [e])
    ensures Timely(events) && Now(events) <= e.now && FIRST <= e.now <= LAST
  {
    var all := events + [e];
    assert all[|events|] == e;
    assert forall i :: 0 <= i < |events| ==> events[i] == all[i];
  }

  // Taking back several movements in a row.

  function CountAll(d: Diary, movements: seq<Event>): Diary {
    if movements == [] then d else Count(CountAll(d, movements[..|movements| - 1]), movements[|movements| - 1].now)
  }

  function UncountTimes(d: Diary, n: nat): Diary {
    if n == 0 then d else Uncount(UncountTimes(d, n - 1)).0
  }

  lemma {:induction false} CountAllStacks(d: Diary, movements: seq<Event>)
    requires |d.undo| <= 10 && 1 <= |movements| <= 10
    ensures var d1 := CountAll(d, movements);
      |movements| <= |d1.undo| <= 10 && d1.undo[|d1.undo| - |movements|] == d.counts
    decreases |movements|
  {
    hide Count;
    var before := movements[..|movements| - 1];
    if before == [] {
      assert CountAll(d, before) == d;
      CountStacks(d, movements[0].now);
    } else {
      CountAllStacks(d, before);
      CountStacks(CountAll(d, before), movements[|movements| - 1].now);
    }
  }

  lemma CountStacks(d: Diary, now: uint32)
    ensures Count(d, now).undo == Last(d.undo + [d.counts], 10)
  {
  }

  lemma {:induction false} UncountTo(d: Diary, n: nat)
    requires n <= |d.undo|
    ensures UncountTimes(d, n).undo == d.undo[..|d.undo| - n]
    ensures UncountTimes(d, n).counts == if n == 0 then d.counts else d.undo[|d.undo| - n]
  {
    if n > 0 {
      UncountTo(d, n - 1);
    }
  }

  /** While the counter is active, every movement of a run is counted. */
  lemma {:induction false} MovementsCount(events: seq<Event>, movements: seq<Event>)
    requires DiaryRun(events).start != 0
    requires forall i :: 0 <= i < |movements| ==>
      movements[i].Movement? && !Expired(DiaryRun(events), movements[i].now)
    ensures DiaryRun(events + movements) == CountAll(DiaryRun(events), movements)
    ensures DiaryRun(events + movements).start == DiaryRun(events).start
    decreases |movements|
  {
    if movements == [] {
      assert events + movements == events;
    } else {
      var n := |movements| - 1;
      MovementsCount(events, movements[..n]);
      assert (events + movements)[..|events + movements| - 1] == events + movements[..n];
    }
  }

  /** And every taking back is tried. */
  lemma {:induction false} TakeBacksUncount(events: seq<Event>, takeBacks: seq<Event>)
    requires DiaryRun(events).start != 0
    requires forall i :: 0 <= i < |takeBacks| ==>
      takeBacks[i].TakeBack? && !Expired(DiaryRun(events), takeBacks[i].now)
    ensures DiaryRun(events + takeBacks) == UncountTimes(DiaryRun(events), |takeBacks|)
    ensures DiaryRun(events + takeBacks).start == DiaryRun(events).start
    decreases |takeBacks|
  {
    if takeBacks == [] {
      assert events + takeBacks == events;
    } else {
      var n := |takeBacks| - 1;
      TakeBacksUncount(events, takeBacks[..n]);
      assert (events + takeBacks)[..|events + takeBacks| - 1] == events + takeBacks[..n];
    }
  }

  lemma TimelyPart(all: seq<Event>, n: nat)
    requires Timely(all) && n <= |all|
    ensures Timely(all[..n]) && forall i :: n <= i < |all| ==> Now(all[..n]) <= all[i].now
  {
  }

  lemma ActiveDiary(k: Kicks, d: Diary, before: int, now: uint32)
    requires Represents(k, d) && Paced(d, before) && before <= now
    requires k.start != 0 && !TimedOut(k, now)
    ensures d.start != 0 && !Expired(d, now)
  {
  }

  /**
   In any run on a clock that does not go back, up to ten movements counted and then taken back one by one before
   the timeout leave both counts of the face as they were before the first.
   */
  lemma UndoesUpToTen(events: seq<Event>, movements: seq<Event>, takeBacks: seq<Event>)
    requires Timely(events + movements + takeBacks)
    requires |takeBacks| == |movements| <= 10 && Run(events).start != 0
    requires forall i :: 0 <= i < |movements| ==> movements[i].Movement? && !TimedOut(Run(events), movements[i].now)
    requires forall i :: 0 <= i < |takeBacks| ==> takeBacks[i].TakeBack? && !TimedOut(Run(events), takeBacks[i].now)
    ensures Run(events + movements + takeBacks).stretchCount == Run(events).stretchCount
    ensures Run(events + movements + takeBacks).movementCount == Run(events).movementCount
  {
    hide *;
    var all := events + movements + takeBacks;
    RunRefines(all);
    var d := ActiveThroughout(events, movements, takeBacks);
    DiaryUndoes(events, movements, takeBacks);
    SameCounts(Run(events), d, Run(all), DiaryRun(all));
  }

  /** The diary of an active counter, which none of the presses finds expired. */
  lemma ActiveThroughout(events: seq<Event>, movements: seq<Event>, takeBacks: seq<Event>) returns (d: Diary)
    requires Timely(events + movements + takeBacks)
    requires Run(events).start != 0
    requires forall i :: 0 <= i < |movements| ==> !TimedOut(Run(events), movements[i].now)
    requires forall i :: 0 <= i < |takeBacks| ==> !TimedOut(Run(events), takeBacks[i].now)
    ensures d == DiaryRun(events) && Represents(Run(events), d) && |d.undo| <= 10 && d.start != 0
    ensures forall i :: 0 <= i < |movements| ==> !Expired(d, movements[i].now)
    ensures forall i :: 0 <= i < |takeBacks| ==> !Expired(d, takeBacks[i].now)
  {
    hide Run, DiaryRun, Timely, TimedOut, Expired, Steps, Paced, Represents, Now;
    var all := events + movements + takeBacks;
    assert all[..|events|] == events;
    TimelyPart(all, |events|);
    RunRefines(events);
    d := DiaryRun(events);
    StepsShort(d);
    SameStart(Run(events), d);
    forall i | 0 <= i < |movements|
      ensures !Expired(d, movements[i].now)
    {
      assert all[|events| + i] == movements[i];
      ActiveDiary(Run(events), d, Now(events), movements[i].now);
    }
    forall i | 0 <= i < |takeBacks|
      ensures !Expired(d, takeBacks[i].now)
    {
      assert all[|events| + |movements| + i] == takeBacks[i];
      ActiveDiary(Run(events), d, Now(events), takeBacks[i].now);
    }
  }

  lemma SameStart(k: Kicks, d: Diary)
    requires Represents(k, d)
    ensures k.start == d.start
  {
  }

  lemma DiaryUndoes(events: seq<Event>, movements: seq<Event>, takeBacks: seq<Event>)
    requires DiaryRun(events).start != 0 && |DiaryRun(events).undo| <= 10
    requires |takeBacks| == |movements| <= 10
    requires forall i :: 0 <= i < |movements| ==>
      movements[i].Movement? && !Expired(DiaryRun(events), movements[i].now)
    requires forall i :: 0 <= i < |takeBacks| ==>
      takeBacks[i].TakeBack? && !Expired(DiaryRun(events), takeBacks[i].now)
    ensures DiaryRun(events + movements + takeBacks).counts == DiaryRun(events).counts
  {
    hide DiaryRun, Expired, CountAll;
    if movements == [] {
      assert events + movements + takeBacks == events;
    } else {
      MovementsCount(events, movements);
      CountAllStacks(DiaryRun(events), movements);
      ExpiredStart(DiaryRun(events), DiaryRun(events + movements));
      TakenBack(events + movements, takeBacks);
    }
  }

  /** Taking back brings the counts back to those stacked as many movements ago. */
  lemma TakenBack(events: seq<Event>, takeBacks: seq<Event>)
    requires DiaryRun(events).start != 0 && 1 <= |takeBacks| <= |DiaryRun(events).undo|
    requires forall i :: 0 <= i < |takeBacks| ==>
      takeBacks[i].TakeBack? && !Expired(DiaryRun(events), takeBacks[i].now)
    ensures var undo := DiaryRun(events).undo;
      DiaryRun(events + takeBacks).counts == undo[|undo| - |takeBacks|]
  {
    hide DiaryRun, Expired, UncountTimes;
    TakeBacksUncount(events, takeBacks);
    UncountTo(DiaryRun(events), |takeBacks|);
  }

  lemma StepsShort(d: Diary)
    requires Steps(d.undo, d.counts)
    ensures |d.undo| <= 10
  {
  }

  lemma ExpiredStart(d: Diary, d1: Diary)
    requires d.start == d1.start
    ensures forall now :: Expired(d1, now) == Expired(d, now)
  {
  }

  lemma SameCounts(k: Kicks, d: Diary, k1: Kicks, d1: Diary)
    requires Represents(k, d) && Represents(k1, d1) && d.counts == d1.counts
    ensures k.stretchCount == k1.stretchCount && k.movementCount == k1.movementCount
  {
  }
}
