/**
 Whole runs of one optical session on a clock that does not wrap, of which the session sees the time modulo 2^32: what
 sets the RTC, and when.
 */
module OpticalSessionRuns {
  import opened Wrappers
  import opened Words
  import opened OpticalCodec
  import opened OpticalDecoder
  import opened OpticalRuns
  import opened OpticalSession
  import Calendar
  import DayCounts

  /** A call on the session, at a true time in milliseconds; a deadline is a true time too. */
  datatype Op =
    | Authorize(time: nat, deadline: nat)
    | Withdraw(time: nat)
    | Restart(time: nat)
    | ExpireNow(time: nat)
    | Serve(time: nat, available: seq<uint8>, auth: Option<Verifier>, rtcOk: bool)
  {
    function Now(): uint32 {
      time % TWO_32
    }
  }

  /** A frame accepted in operation `index`, after `restarts` restarts, the bytes it came in, and what that call did
   and answered. */
  datatype Entry =
    Entry(index: nat, restarts: nat, raw: seq<uint8>, frame: Frame, effects: seq<Effect>, answer: Answer)

  /** A run: all accepted frames, all effects, the restarts so far, and the bytes taken since the last. */
  datatype Trace =
    Trace(session: Session, log: seq<Entry>, effects: seq<Effect>, restarts: nat, stream: seq<uint8>)

  function Step(t: Trace, index: nat, op: Op): Trace {
    match op
    case Authorize(_, deadline) => t.(session := t.session.(until := Some(deadline % TWO_32)))
    case Withdraw(_) => t.(session := Clear(t.session))
    case Restart(_) => t.(session := New(t.session.policy), restarts := t.restarts + 1, stream := [])
    case ExpireNow(_) => t.(session := Expire(t.session, op.Now()))
    case Serve(_, available, auth, rtcOk) =>
      var r := Service(t.session, available, op.Now(), auth, rtcOk);
      Trace(
        r.session,
        t.log + match r.accepted {
          case None => []
          case Some(Arrival(raw, frame)) => [Entry(index, t.restarts, raw, frame, r.effects, r.answer)]
        },
        t.effects + r.effects,
        t.restarts,
        t.stream + available[..r.taken])
  }

  function Run(policy: Policy, ops: seq<Op>): Trace {
    if ops == [] then Trace(New(policy), [], [], 0, [])
    else Step(Run(policy, ops[..|ops| - 1]), |ops| - 1, ops[|ops| - 1])
  }

  // The authorization in force.

  predicate Ends(op: Op) {
    op.Authorize? || op.Withdraw? || op.Restart?
  }

  /** The last authorization, unless it was withdrawn or the session restarted since. */
  function InForce(ops: seq<Op>): (granted: Option<nat>)
    ensures granted.Some? ==> granted.value < |ops| && ops[granted.value].Authorize?
  {
    if ops == [] then None
    else
      var n := |ops| - 1;
      match ops[n]
      case Authorize(_, _) => Some(n)
      case Withdraw(_) => None
      case Restart(_) => None
      case _ => InForce(ops[..n])
  }

  lemma {:induction false} InForceExactly(ops: seq<Op>, g: nat)
    ensures InForce(ops) == Some(g)
       <==> g < |ops| && ops[g].Authorize? && forall j :: g < j < |ops| ==> !Ends(ops[j])
    decreases |ops|
  {
    if ops != [] {
      var n := |ops| - 1;
      InForceExactly(ops[..n], g);
    }
  }

  /** What the session keeps of it. */
  function Until(ops: seq<Op>): Option<uint32> {
    match InForce(ops)
    case None => None
    case Some(g) => Some(ops[g].deadline % TWO_32)
  }

  /** The bytes taken from the last restart up to and including operation `k`. */
  function StreamOf(policy: Policy, ops: seq<Op>, k: nat): seq<uint8>
    requires k < |ops|
  {
    Run(policy, ops[..k + 1]).stream
  }

  /** The bytes operation `k` takes. */
  function TakenBy(policy: Policy, ops: seq<Op>, k: nat): seq<uint8>
    requires k < |ops| && ops[k].Serve?
  {
    var op := ops[k];
    op.available[..Service(Run(policy, ops[..k]).session, op.available, op.Now(), op.auth, op.rtcOk).taken]
  }

  /**
   The frame arrived in the latest bytes the session took, the last of them in its operation; they decode to it
   under the hook of that operation; and the effects and the answer are those that the rules call for at the operation's
   time, under the authorization then in force.
   */
  ghost predicate Allowed(policy: Policy, ops: seq<Op>, e: Entry) {
    && e.index < |ops| && ops[e.index].Serve?
    && var op := ops[e.index];
    && TakenBy(policy, ops, e.index) != []
    && EndOf(TakenBy(policy, ops, e.index), StreamOf(policy, ops, e.index))
    && EndOf(e.raw, StreamOf(policy, ops, e.index))
    && Received(e.raw, e.frame, op.auth)
    && Justified(policy, Until(ops[..e.index]), e.frame, op.Now(), op.rtcOk, e.effects)
    && e.answer.Some?
    && Answered(policy, Until(ops[..e.index]), e.frame, op.Now(), op.rtcOk, e.effects, e.answer.value)
  }

  function EffectsOf(log: seq<Entry>): seq<Effect> {
    if log == [] then [] else EffectsOf(log[..|log| - 1]) + log[|log| - 1].effects
  }

  /** At most one entry an operation, in order. */
  predicate InOrder(log: seq<Entry>, bound: nat) {
    && (forall i :: 0 <= i < |log| ==> log[i].index < bound)
    && forall i, j :: 0 <= i < j < |log| ==> log[i].index < log[j].index
  }

  ghost predicate RunInv(policy: Policy, ops: seq<Op>, t: Trace) {
    && t.session.policy == policy && t.session.until == Until(ops)
    && InStream(t.session.decoder.core.buffer, t.stream)
    && t.effects == EffectsOf(t.log)
    && InOrder(t.log, |ops|)
  }

  /** A whole call, which looks at the first bytes only. */
  lemma ServiceJustified(s: Session, stream: seq<uint8>, op: Op)
    requires op.Serve? && InStream(s.decoder.core.buffer, stream)
    ensures Polled(Expire(s, op.Now()), stream, op.available, op.Now(), op.auth, op.rtcOk,
                   Service(s, op.available, op.Now(), op.auth, op.rtcOk))
  {
    hide Poll, Justified, Answered, Received, Ahead, InStream, EndOf;
    var bytes := FirstBytes(op.available, MAX_POLL_BYTES);
    PollJustified(Expire(s, op.Now()), stream, bytes, op.Now(), op.auth, op.rtcOk);
    var r := Service(s, op.available, op.Now(), op.auth, op.rtcOk);
    assert bytes[..r.taken] == op.available[..r.taken];
  }

  lemma ServeStep(policy: Policy, ops: seq<Op>, op: Op)
    requires op.Serve? && RunInv(policy, ops, Run(policy, ops))
    ensures
      var t, all := Run(policy, ops), ops + [op];
      var t1 := Step(t, |ops|, op);
      && RunInv(policy, all, t1)
      && (t1.log == t.log
          || (|t1.log| == |t.log| + 1 && t1.log[..|t.log|] == t.log && Allowed(policy, all, t1.log[|t.log|])))
  {
    hide Service, Justified, Answered, Received, Ahead, InStream, Run, InForce, Until;
    var t, all := Run(policy, ops), ops + [op];
    assert all[..|ops|] == ops && all[..|ops| + 1] == all && all[|ops|] == op;
    ServiceJustified(t.session, t.stream, op);
    RunOneMore(policy, ops, op);
    var t1 := Step(t, |ops|, op);
    if t1.log != t.log {
      assert t1.log[..|t.log|] == t.log;
    }
  }

  lemma RunOneMore(policy: Policy, ops: seq<Op>, op: Op)
    ensures Run(policy, ops + [op]) == Step(Run(policy, ops), |ops|, op)
    ensures Until(ops + [op]) == match op {
      case Authorize(_, deadline) => Some(deadline % TWO_32)
      case Withdraw(_) => None
      case Restart(_) => None
      case _ => Until(ops)
    }
  {
    hide Step;
    assert (ops + [op])[..|ops|] == ops;
  }

  lemma QuietStep(policy: Policy, ops: seq<Op>, op: Op)
    requires !op.Serve? && RunInv(policy, ops, Run(policy, ops))
    ensures var t1 := Step(Run(policy, ops), |ops|, op);
      RunInv(policy, ops + [op], t1) && t1.log == Run(policy, ops).log && t1.effects == Run(policy, ops).effects
  {
    hide EffectsOf, Run, Until, Passed, InStream;
    RunOneMore(policy, ops, op);
    NothingInStream();
  }

  lemma NothingInStream()
    ensures InStream(INITIAL.core.buffer, [])
  {
  }

  lemma AllowedLater(policy: Policy, ops: seq<Op>, op: Op, e: Entry)
    ensures Allowed(policy, ops, e) ==> Allowed(policy, ops + [op], e)
  {
    hide Justified, Received, Until, Run, Service, EndOf;
    var all := ops + [op];
    var k := e.index;
    if k < |ops| {
      assert all[k] == ops[k] && all[..k] == ops[..k] && all[..k + 1] == ops[..k + 1];
    }
  }

  /**
   In any run every frame accepted arrived in the bytes the session took, and had exactly the effects that the
   policy, the authorization in force, freshness and the received tag allow; the run has no other effects.
   */
  lemma {:induction false} RunAllowed(policy: Policy, ops: seq<Op>)
    ensures RunInv(policy, ops, Run(policy, ops))
    ensures forall e :: e in Run(policy, ops).log ==> Allowed(policy, ops, e)
    decreases |ops|
  {
    hide Step, Allowed, RunInv;
    if ops == [] {
      NothingRun(policy);
    } else {
      var n := |ops| - 1;
      assert ops == ops[..n] + [ops[n]];
      RunAllowed(policy, ops[..n]);
      var t, t1 := Run(policy, ops[..n]), Run(policy, ops);
      if ops[n].Serve? {
        ServeStep(policy, ops[..n], ops[n]);
      } else {
        QuietStep(policy, ops[..n], ops[n]);
      }
      forall e | e in t1.log
        ensures Allowed(policy, ops, e)
      {
        if e in t.log {
          AllowedLater(policy, ops[..n], ops[n], e);
        } else {
          assert t1.log == t.log + [t1.log[|t.log|]];
        }
      }
    }
  }

  lemma NothingRun(policy: Policy)
    ensures RunInv(policy, [], Run(policy, []))
  {
  }

  lemma {:induction false} EffectHasEntry(log: seq<Entry>, effect: Effect) returns (e: Entry)
    requires effect in EffectsOf(log)
    ensures e in log && effect in e.effects
  {
    var n := |log| - 1;
    if effect in log[n].effects {
      e := log[n];
    } else {
      e := EffectHasEntry(log[..n], effect);
    }
  }

  // Deadlines.

  const HALF_TURN := 0x8000_0000

  /** The clock never goes back. */
  predicate Timely(ops: seq<Op>) {
    forall i, j :: 0 <= i < j < |ops| ==> ops[i].time <= ops[j].time
  }

  /** Every authorization is for less than half a turn of the clock. */
  predicate Prompt(ops: seq<Op>) {
    forall i :: 0 <= i < |ops| && ops[i].Authorize? ==> ops[i].deadline < ops[i].time + HALF_TURN
  }

  /**
   The session takes a deadline as not passed exactly when, modulo 2^32, it lies ahead by at most half a turn.
   Granted for less than half a turn, that is before the deadline, and again in every second half turn after it.
   */
  lemma PassedExactly(granted: nat, time: nat, deadline: nat)
    ensures !Passed(time % TWO_32, deadline % TWO_32) <==> (time - deadline) % TWO_32 >= HALF_TURN
    ensures granted <= time && deadline < granted + HALF_TURN ==>
      (!Passed(time % TWO_32, deadline % TWO_32) <==> time < deadline || (time - deadline) % TWO_32 >= HALF_TURN)
  {
    DifferenceModulo(time, deadline);
  }

  /** A time sync that is allowed to set the RTC but for the deadline. */
  predicate Eligible(policy: Policy, frame: Frame, now: uint32) {
    && policy.AllSet() && frame.command.TimeSync?
    && ParsePayload(frame.payload).Ok?
    && IsFresh(ParsePayload(frame.payload).value, now / 1000)
  }

  /** When a frame's effects set the RTC, and to what; the date is valid. */
  lemma JustifiedSets(policy: Policy, until: Option<uint32>, frame: Frame, now: uint32, rtcOk: bool,
                      effects: seq<Effect>, packed: uint32)
    requires Justified(policy, until, frame, now, rtcOk, effects)
    ensures ApplyRtc(packed) in effects
       <==> && Eligible(policy, frame, now) && packed == ParsePayload(frame.payload).value.packedDateTime
            && until.Some? && !Passed(now, until.value)
    ensures ApplyRtc(packed) in effects ==> Calendar.ValidRtc(DayCounts.FromReg(packed))
  {
    hide Calendar.ValidRtc, DayCounts.FromReg, IsFresh, Passed, ValidPackedDateTime;
    if |frame.payload| == TIME_SYNC_PAYLOAD_LEN {
      PackedIsRtcDate(FromBe32(frame.payload[..4]));
    }
  }

  /**
   When an accepted frame sets the RTC, in any run on a clock that does not go back: it is an eligible time sync,
   an authorization is in force, and its deadline is ahead, or lies between half a turn and a turn behind modulo 2^32.
   */
  lemma SetsExactly(policy: Policy, ops: seq<Op>, e: Entry, packed: uint32)
    requires Timely(ops) && Prompt(ops) && e in Run(policy, ops).log
    ensures e.index < |ops| && ops[e.index].Serve?
    ensures ApplyRtc(packed) in e.effects
       <==> var op, granted := ops[e.index], InForce(ops[..e.index]);
            && Eligible(policy, e.frame, op.Now())
            && packed == ParsePayload(e.frame.payload).value.packedDateTime
            && granted.Some?
            && var deadline := ops[granted.value].deadline;
            (op.time < deadline || (op.time - deadline) % TWO_32 >= HALF_TURN)
  {
    hide Run, Justified, Received, EndOf, StreamOf, TakenBy, InForce, Eligible, Passed;
    RunAllowed(policy, ops);
    var op, before := ops[e.index], ops[..e.index];
    JustifiedSets(policy, Until(before), e.frame, op.Now(), op.rtcOk, e.effects, packed);
    if InForce(before).Some? {
      var grant := before[InForce(before).value];
      assert grant == ops[InForce(before).value];
      PassedExactly(grant.time, op.time, grant.deadline);
    }
  }

  /**
   Whatever sets the RTC in a run is a valid date, from a time sync in the bytes the session took whose own tag the
   hook verified and whose stamp is within 300 seconds of the session's clock, under a full policy and an
   authorization not replaced, withdrawn or reset since, whose deadline is ahead modulo 2^32.
   */
  lemma RtcOnlyWhenAllowed(policy: Policy, ops: seq<Op>, packed: uint32) returns (e: Entry, granted: nat)
    requires ApplyRtc(packed) in Run(policy, ops).effects
    ensures policy.AllSet()
    ensures Calendar.ValidRtc(DayCounts.FromReg(packed))
    ensures e in Run(policy, ops).log && ApplyRtc(packed) in e.effects && e.index < |ops| && ops[e.index].Serve?
    ensures EndOf(e.raw, StreamOf(policy, ops, e.index)) && TakenBy(policy, ops, e.index) != []
    ensures Received(e.raw, e.frame, ops[e.index].auth)
    ensures Eligible(policy, e.frame, ops[e.index].Now())
    ensures packed == ParsePayload(e.frame.payload).value.packedDateTime
    ensures granted < e.index && ops[granted].Authorize? && forall j :: granted < j < e.index ==> !Ends(ops[j])
    ensures (ops[e.index].time - ops[granted].deadline) % TWO_32 >= HALF_TURN
  {
    hide Run, DayCounts.FromReg, Passed, IsFresh, Received, EndOf, StreamOf, TakenBy, InForce, Justified;
    RunAllowed(policy, ops);
    e := EffectHasEntry(Run(policy, ops).log, ApplyRtc(packed));
    var op, before := ops[e.index], ops[..e.index];
    JustifiedSets(policy, Until(before), e.frame, op.Now(), op.rtcOk, e.effects, packed);
    granted := InForce(before).value;
    InForceExactly(before, granted);
    assert before[granted] == ops[granted];
    PassedExactly(0, op.time, ops[granted].deadline);
    forall j | granted < j < e.index
      ensures !Ends(ops[j])
    {
      assert before[j] == ops[j];
    }
  }

  /** No call is served under an authorization half a turn or more after its deadline: it was ended before. */
  ghost predicate Ended(ops: seq<Op>) {
    forall g, k :: 0 <= g < k < |ops| && ops[g].Authorize? && ops[k].Serve? && ops[k].time >= ops[g].deadline + HALF_TURN ==>
      exists j :: g < j < k && Ends(ops[j])
  }

  /**
   A caller who grants less than half a turn, and withdraws, replaces or resets each authorization before half a turn
   has passed since its deadline, has the RTC set only before the deadline of the authorization in force.
   */
  lemma RtcBeforeDeadline(policy: Policy, ops: seq<Op>, packed: uint32) returns (e: Entry, granted: nat)
    requires Timely(ops) && Prompt(ops) && Ended(ops)
    requires ApplyRtc(packed) in Run(policy, ops).effects
    ensures e in Run(policy, ops).log && ApplyRtc(packed) in e.effects && e.index < |ops|
    ensures granted < e.index && ops[granted].Authorize? && forall j :: granted < j < e.index ==> !Ends(ops[j])
    ensures ops[granted].time <= ops[e.index].time < ops[granted].deadline
  {
    hide Run, DayCounts.FromReg, Received, EndOf, StreamOf, TakenBy, Eligible;
    e, granted := RtcOnlyWhenAllowed(policy, ops, packed);
    var op, grant := ops[e.index], ops[granted];
    assert op.time < grant.deadline + HALF_TURN;
    StillAhead(op.time, grant.deadline);
  }

  lemma StillAhead(time: nat, deadline: nat)
    requires (time - deadline) % TWO_32 >= HALF_TURN && time < deadline + HALF_TURN
    ensures time < deadline
  {
  }

  const FULL_POLICY := Policy(true, true, true, true)

  /** A time sync to the first second of 2020, stamped with second 2147488 of the clock. */
  function OldSync(sequence: uint32): Frame {
    Frame(TimeSync, sequence, ToBe32(0x42_0000) + ToBe32(2147488))
  }

  /** A hook that verifies every tag. */
  function Trusting(): Verifier {
    (_, _) => true
  }

  /** Authorized until 5 seconds, expired at 6 seconds, and served the time sync at `time`. */
  function LateRun(sequence: uint32, tag: Tag, time: nat): seq<Op> {
    var frame := OldSync(sequence);
    [Authorize(0, 5000), ExpireNow(6000),
     Serve(time, FrameBytes(TimeSync, sequence, frame.payload, Some(tag)), Some(Trusting()), true)]
  }

  /**
   An authorization comes back: the same time sync, 2^31 milliseconds after a deadline of 5 seconds, is refused, and
   a millisecond later it sets the RTC.
   */
  lemma AuthorizationReturns(sequence: uint32, tag: Tag)
    ensures Run(FULL_POLICY, LateRun(sequence, tag, 2147488647)).effects == []
    ensures ApplyRtc(0x42_0000) in Run(FULL_POLICY, LateRun(sequence, tag, 2147488648)).effects
  {
    hide Run;
    LateEffects(sequence, tag, 2147488647);
    LateEffects(sequence, tag, 2147488648);
  }

  lemma OldSyncParses(sequence: uint32)
    ensures var payload := OldSync(sequence).payload;
      |payload| == 8 && ParsePayload(payload) == Ok(TimeSyncPayload(0x42_0000, 2147488))
  {
    hide ToBe32, FromBe32;
    var payload := OldSync(sequence).payload;
    assert payload[..4] == ToBe32(0x42_0000) && payload[4..] == ToBe32(2147488);
    Be32RoundTrip(0x42_0000);
    Be32RoundTrip(2147488);
    assert DayCounts.FromReg(0x42_0000) == Calendar.DateTime(0, 0, 0, 1, 1, 0);
  }

  lemma LateEffects(sequence: uint32, tag: Tag, time: nat)
    requires time == 2147488647 || time == 2147488648
    ensures Run(FULL_POLICY, LateRun(sequence, tag, time)).effects
         == if time == 2147488648 then [ApplyRtc(0x42_0000), QueueAck(sequence)] else []
  {
    hide FrameBytes, Service, Justified, ParsePayload, ToBe32, Run;
    var ops, frame := LateRun(sequence, tag, time), OldSync(sequence);
    var s := New(FULL_POLICY).(until := Some(5000), state := Expired);
    OldSyncParses(sequence);
    BeforeServed(sequence, tag, time);
    FrameServed(s, frame, Some(tag), time, Some(Trusting()), true);
    LateJustified(sequence, time, Service(s, FrameBytes(TimeSync, sequence, frame.payload, Some(tag)), time,
                                          Some(Trusting()), true).effects);
  }

  lemma BeforeServed(sequence: uint32, tag: Tag, time: nat)
    ensures
      var ops := LateRun(sequence, tag, time);
      var t := Run(FULL_POLICY, ops[..2]);
      && t.session == New(FULL_POLICY).(until := Some(5000), state := Expired) && t.effects == []
      && Run(FULL_POLICY, ops) == Step(t, 2, ops[2])
  {
    hide FrameBytes, Service, Step;
    var ops := LateRun(sequence, tag, time);
    assert ops[..2][..1] == ops[..1] && ops[..1][..0] == [] && ops[..|ops| - 1] == ops[..2];
    var t0 := Trace(New(FULL_POLICY), [], [], 0, []);
    assert Run(FULL_POLICY, ops[..1]) == Step(t0, 0, ops[0]);
    assert Run(FULL_POLICY, ops[..2]) == Step(Step(t0, 0, ops[0]), 1, ops[1]);
    TwoSteps(t0);
  }

  lemma TwoSteps(t: Trace)
    requires t.session == New(FULL_POLICY)
    ensures Step(Step(t, 0, Authorize(0, 5000)), 1, ExpireNow(6000))
         == t.(session := New(FULL_POLICY).(until := Some(5000), state := Expired))
  {
  }

  lemma LateJustified(sequence: uint32, time: uint32, effects: seq<Effect>)
    requires time == 2147488647 || time == 2147488648
    requires Justified(FULL_POLICY, Some(5000), OldSync(sequence), time, true, effects)
    ensures effects == if time == 2147488648 then [ApplyRtc(0x42_0000), QueueAck(sequence)] else []
  {
    hide ParsePayload, DayCounts.FromReg;
    OldSyncParses(sequence);
    DateIsValid(sequence);
    assert time / 1000 == 2147488;
    assert Passed(time, 5000) <==> time == 2147488647;
    assert MaySet(FULL_POLICY, Some(5000), OldSync(sequence), time) <==> time == 2147488648;
    var none: seq<Effect> := [];
    assert none + none == none;
    assert [ApplyRtc(0x42_0000)] + [QueueAck(sequence)] == [ApplyRtc(0x42_0000), QueueAck(sequence)];
  }

  lemma DateIsValid(sequence: uint32)
    ensures var payload := OldSync(sequence).payload;
      |payload| == 8 && FromBe32(payload[..4]) == 0x42_0000 && Calendar.ValidRtc(DayCounts.FromReg(0x42_0000))
  {
    var payload := OldSync(sequence).payload;
    assert payload[..4] == ToBe32(0x42_0000);
    Be32RoundTrip(0x42_0000);
    assert DayCounts.FromReg(0x42_0000) == Calendar.DateTime(0, 0, 0, 1, 1, 0);
  }

  /** A session that only receives never sets the RTC. */
  lemma ReceiveOnlyNeverApplies(ops: seq<Op>, packed: uint32)
    ensures ApplyRtc(packed) !in Run(RECEIVE_ONLY, ops).effects
  {
    hide Run;
    if ApplyRtc(packed) in Run(RECEIVE_ONLY, ops).effects {
      var _, _ := RtcOnlyWhenAllowed(RECEIVE_ONLY, ops, packed);
    }
  }

  // The acknowledgement that is pending, and the states between frames.

  /** The deadline in force has passed, by less than half a turn modulo 2^32. */
  predicate Lapsed(ops: seq<Op>, time: nat) {
    var granted := InForce(ops);
    granted.Some? && (time - ops[granted.value].deadline) % TWO_32 < HALF_TURN
  }

  /** The last frame acknowledged, unless the session restarted or a deadline was seen to pass since. */
  function PendingAck(policy: Policy, ops: seq<Op>): Option<uint32> {
    if ops == [] then None
    else
      var before, op := ops[..|ops| - 1], ops[|ops| - 1];
      var pending := PendingAck(policy, before);
      match op
      case Authorize(_, _) => pending
      case Withdraw(_) => pending
      case Restart(_) => None
      case ExpireNow(time) => if Lapsed(before, time) then None else pending
      case Serve(time, _, _, _) =>
        var log := Run(policy, ops).log;
        if |log| > |Run(policy, before).log| && QueueAck(log[|log| - 1].frame.sequence) in log[|log| - 1].effects
        then Some(log[|log| - 1].frame.sequence)
        else if Lapsed(before, time) then None else pending
  }

  lemma ExpiresExactly(ops: seq<Op>, s: Session, time: nat)
    requires s.until == Until(ops)
    ensures Expire(s, time % TWO_32) == if Lapsed(ops, time) then s.(state := Expired, ack := None) else s
  {
    hide InForce;
    if InForce(ops).Some? {
      PassedExactly(0, time, ops[InForce(ops).value].deadline);
    }
  }

  lemma {:induction false} AckExactly(policy: Policy, ops: seq<Op>)
    ensures Run(policy, ops).session.ack == PendingAck(policy, ops)
    decreases |ops|
  {
    hide Service, Justified, Received, InStream, EndOf, EffectsOf, Until, InOrder, Lapsed, Expire;
    if ops != [] {
      var before, op := ops[..|ops| - 1], ops[|ops| - 1];
      AckExactly(policy, before);
      RunAllowed(policy, before);
      var t := Run(policy, before);
      ExpiresExactly(before, t.session, op.time);
      if op.Serve? {
        ServiceJustified(t.session, t.stream, op);
      }
    }
  }

  /** What the calls that serve nothing do to the state. */
  lemma QuietStates(policy: Policy, ops: seq<Op>, op: Op)
    requires !op.Serve?
    ensures
      var before, after := Run(policy, ops).session.state, Run(policy, ops + [op]).session.state;
      match op
      case Authorize(_, _) => after == before
      case Withdraw(_) => after == if before == Authorized then Expired else before
      case Restart(_) => after == Idle
      case ExpireNow(time) => after == if Lapsed(ops, time) then Expired else before
  {
    hide Run, Lapsed, Expire;
    RunOneMore(policy, ops, op);
    RunAllowed(policy, ops);
    ExpiresExactly(ops, Run(policy, ops).session, op.time);
  }

  // Sequence numbers.

  /** The last sequence number is remembered until a restart. */
  predicate Remembers(t: Trace) {
    && (t.log != [] && t.log[|t.log| - 1].restarts == t.restarts ==>
          t.session.decoder.core.guard.last == Some(t.log[|t.log| - 1].frame.sequence))
    && (forall i :: 0 <= i < |t.log| ==> t.log[i].restarts <= t.restarts)
    && forall i :: 0 < i < |t.log| && t.log[i - 1].restarts == t.log[i].restarts ==>
         Ahead(Some(t.log[i - 1].frame.sequence), t.log[i].frame.sequence)
  }

  /** Between restarts, the frames a session accepts, hence those it applies, come in advancing sequence. */
  lemma {:induction false} RunAdvances(policy: Policy, ops: seq<Op>)
    ensures Remembers(Run(policy, ops))
    decreases |ops|
  {
    hide Step, Remembers;
    if ops == [] {
      NothingRemembered(policy);
    } else {
      var n := |ops| - 1;
      RunAdvances(policy, ops[..n]);
      RunAllowed(policy, ops[..n]);
      if ops[n].Serve? {
        ServeRemembers(policy, ops[..n], ops[n], Run(policy, ops[..n]));
      } else {
        QuietRemembers(ops[..n], ops[n], Run(policy, ops[..n]));
      }
    }
  }

  lemma NothingRemembered(policy: Policy)
    ensures Remembers(Run(policy, []))
  {
  }

  lemma QuietRemembers(ops: seq<Op>, op: Op, t: Trace)
    requires Remembers(t) && !op.Serve?
    ensures Remembers(Step(t, |ops|, op))
  {
    hide Ahead;
  }

  lemma ServeRemembers(policy: Policy, ops: seq<Op>, op: Op, t: Trace)
    requires Remembers(t) && RunInv(policy, ops, t) && op.Serve?
    ensures Remembers(Step(t, |ops|, op))
  {
    hide Service, Justified, Answered, Received, Ahead, InStream, EndOf, EffectsOf, Until, InOrder;
    ServiceJustified(t.session, t.stream, op);
  }
}
