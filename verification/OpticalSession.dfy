/**
 The optical synchronisation session: which frames it acknowledges, and which may set the RTC, over any
 sequence of calls.
 */
module OpticalSession {
  import opened Wrappers
  import opened Words
  import opened OpticalCodec
  import opened OpticalDecoder
  import opened OpticalRuns
  import opened OpticalBatch
  import Calendar
  import DayCounts

  const TIME_SYNC_PAYLOAD_LEN := 8
  const MAX_TIME_SYNC_SKEW_SECONDS := 300
  const MAX_POLL_BYTES := 64

  datatype TimeSyncError = BadLength | InvalidDateTime | Stale | NotAuthenticated

  datatype TimeSyncPayload = TimeSyncPayload(packedDateTime: uint32, freshness: uint32)

  /** The validity check on the packed register, field by field. */
  predicate ValidPackedDateTime(reg: uint32) {
    var d := DayCounts.FromReg(reg);
    if d.second > 59 || d.minute > 59 || d.hour > 23 || d.month == 0 || d.month > 12 || d.day == 0 then false
    else
      var fullYear := 2020 + d.year as int;
      var leap := fullYear % 4 == 0 && (fullYear % 100 != 0 || fullYear % 400 == 0);
      var days :=
        if d.month == 2 then (if leap then 29 else 28)
        else if d.month == 4 || d.month == 6 || d.month == 9 || d.month == 11 then 30
        else 31;
      d.day <= days
  }

  function ParsePayload(bytes: seq<uint8>): Result<TimeSyncPayload, TimeSyncError> {
    if |bytes| != TIME_SYNC_PAYLOAD_LEN then Err(BadLength)
    else
      var packed := FromBe32(bytes[..4]);
      if !ValidPackedDateTime(packed) then Err(InvalidDateTime)
      else Ok(TimeSyncPayload(packed, FromBe32(bytes[4..])))
  }

  predicate IsFresh(payload: TimeSyncPayload, now: uint32) {
    (if now >= payload.freshness then now - payload.freshness else payload.freshness - now)
      <= MAX_TIME_SYNC_SKEW_SECONDS
  }

  datatype Policy =
    Policy(cryptoProvisioned: bool, authenticated: bool, physicallyAuthorized: bool, rtcMutationEnabled: bool)
  {
    predicate AllSet() {
      cryptoProvisioned && authenticated && physicallyAuthorized && rtcMutationEnabled
    }
  }

  const RECEIVE_ONLY := Policy(false, false, false, false)

  datatype SessionState = Idle | Receiving | Authenticated | Authorized | Applied | AckQueued | Expired

  datatype SessionError =
    Decoding(decode: DecodeError) | Payload(payload: TimeSyncError) | AuthorizationExpired | RtcApply

  /** What the session does to the outside. */
  datatype Effect = ApplyRtc(packedDateTime: uint32) | QueueAck(sequence: uint32)

  datatype Session =
    Session(decoder: State, policy: Policy, state: SessionState, until: Option<uint32>, ack: Option<uint32>)

  type Reply = Result<SessionState, SessionError>

  type Answer = Option<Reply>

  /** What an accepted frame does. */
  datatype Handled = Handled(session: Session, effects: seq<Effect>, reply: Reply)

  /** An accepted frame, and the bytes it came in. */
  datatype Arrival = Arrival(raw: seq<uint8>, frame: Frame)

  /** One call: how many bytes it took, the frame the decoder accepted in it, if any, its effects and its answer. */
  datatype Served =
    Served(session: Session, taken: nat, accepted: Option<Arrival>, effects: seq<Effect>, answer: Answer)

  function New(policy: Policy): Session {
    Session(INITIAL, policy, Idle, None, None)
  }

  /** The wrapping deadline has passed. */
  predicate Passed(now: uint32, deadline: uint32) {
    WrappingSub32(now, deadline) < 0x8000_0000
  }

  function Expire(s: Session, now: uint32): Session {
    if s.until.Some? && Passed(now, s.until.value) then s.(state := Expired, ack := None) else s
  }

  function Acknowledge(s: Session, frame: Frame, effects: seq<Effect>): Handled {
    Handled(s.(ack := Some(frame.sequence), state := AckQueued), effects + [QueueAck(frame.sequence)], Ok(AckQueued))
  }

  /** What an accepted frame leads to; `rtcOk` is the answer of the RTC if it is asked. */
  function Handle(s: Session, frame: Frame, now: uint32, rtcOk: bool): Handled {
    var s1 := s.(state := Authenticated);
    if !frame.command.TimeSync? then Acknowledge(s1, frame, [])
    else
      match ParsePayload(frame.payload)
      case Err(e) => Handled(s1, [], Err(Payload(e)))
      case Ok(payload) =>
        if !IsFresh(payload, now / 1000) then Handled(s1, [], Err(Payload(Stale)))
        else if !s.policy.cryptoProvisioned || !s.policy.authenticated || !s.policy.physicallyAuthorized then
          Handled(s1, [], Err(Payload(NotAuthenticated)))
        else if s.until.None? || Passed(now, s.until.value) then
          Handled(s1.(state := Expired), [], Err(AuthorizationExpired))
        else
          var s2 := s1.(state := Authorized);
          if !s.policy.rtcMutationEnabled then Acknowledge(s2, frame, [])
          else if !rtcOk then Handled(s2, [ApplyRtc(payload.packedDateTime)], Err(RtcApply))
          else Acknowledge(s2, frame, [ApplyRtc(payload.packedDateTime)])
  }

  /** One byte of a call. */
  function TakeByte(s: Session, b: uint8, now: uint32, auth: Option<Verifier>, rtcOk: bool): (r: Served)
    ensures r.taken == 1
  {
    var s1 := if s.state == Idle then s.(state := Receiving) else s;
    var (d, o) := Push(s1.decoder, b, now, auth);
    var s2 := s1.(decoder := d);
    match o
    case None => Served(s2, 1, None, [], None)
    case Some(Err(e)) => Served(s2, 1, None, [], Some(Err(Decoding(e))))
    case Some(Ok(frame)) =>
      var h := Handle(s2, frame, now, rtcOk);
      Served(h.session, 1, Some(Arrival(s.decoder.core.buffer + [b], frame)), h.effects, Some(h.reply))
  }

  /** The bytes of one call, until one of them gives an answer. */
  function Poll(s: Session, bytes: seq<uint8>, now: uint32, auth: Option<Verifier>, rtcOk: bool): (r: Served)
    ensures r.taken <= |bytes|
    decreases |bytes|
  {
    if bytes == [] then Served(s, 0, None, [], None)
    else
      var one := TakeByte(s, bytes[0], now, auth, rtcOk);
      if one.answer.Some? then one
      else
        var r := Poll(one.session, bytes[1..], now, auth, rtcOk);
        r.(taken := r.taken + 1)
  }

  function FirstBytes(available: seq<uint8>, n: nat): seq<uint8> {
    if |available| > n then available[..n] else available
  }

  function Service(s: Session, available: seq<uint8>, now: uint32, auth: Option<Verifier>, rtcOk: bool): (r: Served)
    ensures r.taken <= |available| && r.taken <= MAX_POLL_BYTES
  {
    Poll(Expire(s, now), FirstBytes(available, MAX_POLL_BYTES), now, auth, rtcOk)
  }

  // The session as the firmware updates it.

  /** The session's view of the hardware: bytes waiting, a clock, the RTC's answer, and a record of effects. */
  class OpticalIo {
    var waiting: seq<uint8>
    var now: uint32
    var rtcOk: bool
    var effects: seq<Effect>

    constructor (waiting: seq<uint8>, now: uint32, rtcOk: bool)
      ensures this.waiting == waiting && this.now == now && this.rtcOk == rtcOk && effects == []
    {
      this.waiting, this.now, this.rtcOk, effects := waiting, now, rtcOk, [];
    }

    method ReadByte() returns (b: Option<uint8>)
      modifies this`waiting
      ensures old(waiting) == [] ==> b == None && waiting == []
      ensures old(waiting) != [] ==> b == Some(old(waiting)[0]) && waiting == old(waiting)[1..]
    {
      if waiting == [] {
        return None;
      }
      b := Some(waiting[0]);
      waiting := waiting[1..];
    }

    method Queue(sequence: uint32)
      modifies this`effects
      ensures effects == old(effects) + [QueueAck(sequence)]
    {
      effects := effects + [QueueAck(sequence)];
    }

    method Apply(packedDateTime: uint32) returns (ok: bool)
      modifies this`effects
      ensures effects == old(effects) + [ApplyRtc(packedDateTime)] && ok == rtcOk
    {
      effects := effects + [ApplyRtc(packedDateTime)];
      ok := rtcOk;
    }
  }

  class OpticalSession {
    var decoder: Decoder
    const policy: Policy
    var state: SessionState
    var until: Option<uint32>
    var ack: Option<uint32>

    ghost predicate Valid()
      reads this, decoder
    {
      decoder.Valid()
    }

    ghost function Abs(): Session
      requires Valid()
      reads this, decoder, decoder.buffer
    {
      Session(decoder.Abs(), policy, state, until, ack)
    }

    constructor (policy: Policy)
      ensures Valid() && fresh(decoder) && fresh(decoder.buffer)
      ensures Abs() == New(policy)
    {
      decoder := new Decoder();
      this.policy := policy;
      state, until, ack := Idle, None, None;
    }

    method AuthorizeUntil(deadline: uint32)
      requires Valid()
      modifies this`until
      ensures Valid() && Abs() == old(Abs()).(until := Some(deadline))
    {
      until := Some(deadline);
    }

    method ClearAuthorization()
      requires Valid()
      modifies this`until, this`state
      ensures Valid() && Abs() == Clear(old(Abs()))
    {
      until := None;
      if state == Authorized {
        state := Expired;
      }
    }

    method Reset()
      requires Valid()
      modifies this
      ensures Valid() && fresh(decoder) && fresh(decoder.buffer)
      ensures Abs() == New(policy)
    {
      decoder := new Decoder();
      state, until, ack := Idle, None, None;
    }

    method ExpireAt(now: uint32)
      requires Valid()
      modifies this`state, this`ack
      ensures Valid() && Abs() == Expire(old(Abs()), now)
    {
      if until.Some? && WrappingSub32(now, until.value) < 0x8000_0000 {
        state := Expired;
        ack := None;
      }
    }

    /** What `service` does with an accepted frame. */
    method HandleFrame(io: OpticalIo, frame: Frame, now: uint32) returns (r: Reply)
      requires Valid()
      modifies this`state, this`ack, io`effects
      ensures Valid()
      ensures var h := Handle(old(Abs()), frame, now, io.rtcOk);
        Abs() == h.session && io.effects == old(io.effects) + h.effects && r == h.reply
    {
      hide ParsePayload;
      state := Authenticated;
      if frame.command == TimeSync {
        var parsed := ParsePayload(frame.payload);
        if parsed.Err? {
          return Err(Payload(parsed.error));
        }
        var payload := parsed.value;
        if !IsFresh(payload, now / 1000) {
          return Err(Payload(Stale));
        }
        if !policy.cryptoProvisioned || !policy.authenticated || !policy.physicallyAuthorized {
          return Err(Payload(NotAuthenticated));
        }
        if until.None? || WrappingSub32(now, until.value) < 0x8000_0000 {
          state := Expired;
          return Err(AuthorizationExpired);
        }
        state := Authorized;
        if policy.rtcMutationEnabled {
          var ok := io.Apply(payload.packedDateTime);
          if !ok {
            return Err(RtcApply);
          }
        }
      }
      ack := Some(frame.sequence);
      if policy.rtcMutationEnabled {
        state := Applied;
      }
      io.Queue(frame.sequence);
      state := AckQueued;
      return Ok(state);
    }

    method ReceiveByte(io: OpticalIo, b: uint8, now: uint32, auth: Option<Verifier>) returns (r: Answer)
      requires Valid()
      modifies this`state, this`ack, decoder, decoder.buffer, io`effects
      ensures Valid()
      ensures var served := TakeByte(old(Abs()), b, now, auth, io.rtcOk);
        Abs() == served.session && io.effects == old(io.effects) + served.effects && r == served.answer
    {
      hide Handle, Push;
      if state == Idle {
        state := Receiving;
      }
      var result := decoder.Receive(b, now, auth);
      if result.None? {
        return None;
      }
      if result.value.Err? {
        return Some(Err(Decoding(result.value.error)));
      }
      var reply := HandleFrame(io, result.value.value, now);
      return Some(reply);
    }

    method ServiceIo(io: OpticalIo, auth: Option<Verifier>) returns (r: Answer)
      requires Valid()
      modifies this`state, this`ack, decoder, decoder.buffer, io`waiting, io`effects
      ensures Valid()
      ensures var served := Service(old(Abs()), old(io.waiting), io.now, auth, io.rtcOk);
        && Abs() == served.session && io.effects == old(io.effects) + served.effects && r == served.answer
        && io.waiting == old(io.waiting)[served.taken..]
    {
      hide TakeByte, Expire, PollFrom;
      var now := io.now;
      ExpireAt(now);
      ghost var bytes := FirstBytes(io.waiting, MAX_POLL_BYTES);
      ghost var start := Abs();
      PollAll(start, bytes, now, auth, io.rtcOk);
      for i := 0 to MAX_POLL_BYTES
        invariant Valid() && decoder == old(decoder)
        invariant io.effects == old(io.effects)
        invariant i <= |bytes| && io.waiting == old(io.waiting)[i..]
        invariant PollFrom(start, bytes, 0, now, auth, io.rtcOk) == PollFrom(Abs(), bytes, i, now, auth, io.rtcOk)
      {
        PollStep(Abs(), bytes, i, now, auth, io.rtcOk);
        var b := io.ReadByte();
        if b.None? {
          break;
        }
        ghost var before := Abs();
        var answer := ReceiveByte(io, b.value, now, auth);
        if answer.Some? {
          return answer;
        }
        TakeByteQuiet(before, b.value, now, auth, io.rtcOk);
      }
      PollStep(Abs(), bytes, |bytes|, now, auth, io.rtcOk);
      return None;
    }
  }

  /** The rest of a call that has taken `i` bytes without an answer. */
  function PollFrom(s: Session, bytes: seq<uint8>, i: nat, now: uint32, auth: Option<Verifier>, rtcOk: bool): Served
    requires i <= |bytes|
  {
    var r := Poll(s, bytes[i..], now, auth, rtcOk);
    r.(taken := r.taken + i)
  }

  lemma PollAll(s: Session, bytes: seq<uint8>, now: uint32, auth: Option<Verifier>, rtcOk: bool)
    ensures PollFrom(s, bytes, 0, now, auth, rtcOk) == Poll(s, bytes, now, auth, rtcOk)
  {
    hide Poll;
    assert bytes[0..] == bytes;
  }

  lemma PollStep(s: Session, bytes: seq<uint8>, i: nat, now: uint32, auth: Option<Verifier>, rtcOk: bool)
    requires i <= |bytes|
    ensures i == |bytes| ==> PollFrom(s, bytes, i, now, auth, rtcOk) == Served(s, i, None, [], None)
    ensures i < |bytes| ==>
      var one := TakeByte(s, bytes[i], now, auth, rtcOk);
      PollFrom(s, bytes, i, now, auth, rtcOk)
        == if one.answer.Some? then one.(taken := i + 1) else PollFrom(one.session, bytes, i + 1, now, auth, rtcOk)
  {
    hide TakeByte;
    if i < |bytes| {
      assert bytes[i..][0] == bytes[i] && bytes[i..][1..] == bytes[i + 1..];
    } else {
      assert bytes[i..] == [];
    }
  }

  function Clear(s: Session): Session {
    s.(until := None, state := if s.state == Authorized then Expired else s.state)
  }

  // What may set the RTC.

  /** The check on the packed register accepts exactly the registers of valid RTC dates. */
  lemma PackedIsRtcDate(reg: uint32)
    ensures ValidPackedDateTime(reg) <==> Calendar.ValidRtc(DayCounts.FromReg(reg))
  {
    hide DayCounts.FromReg, DayCounts.ToReg;
    DayCounts.RegSurjective(reg);
  }

  /** The frame carries a date for the RTC that is valid and fresh, and the session may act on it. */
  predicate MaySet(policy: Policy, until: Option<uint32>, frame: Frame, now: uint32) {
    && frame.command.TimeSync?
    && ParsePayload(frame.payload).Ok?
    && Calendar.ValidRtc(DayCounts.FromReg(FromBe32(frame.payload[..4])))
    && IsFresh(ParsePayload(frame.payload).value, now / 1000)
    && policy.cryptoProvisioned && policy.authenticated && policy.physicallyAuthorized
    && until.Some? && !Passed(now, until.value)
  }

  /** The bytes decode to the frame, and for a time sync the hook verified the tag they carry. */
  predicate Received(raw: seq<uint8>, frame: Frame, auth: Option<Verifier>) {
    && Decode(raw, auth) == Ok(frame)
    && (frame.command.TimeSync? ==>
          var tagEnd := |raw| - CRC_LEN;
          var signed := tagEnd - AUTH_TAG_LEN;
          signed >= HEADER_LEN && auth.Some? && auth.value(raw[..signed], raw[signed..tagEnd]))
  }

  lemma ReceivedWhenDecoded(raw: seq<uint8>, frame: Frame, auth: Option<Verifier>)
    requires Decode(raw, auth) == Ok(frame)
    ensures Received(raw, frame, auth)
  {
    hide Crc16.Crc, FromBe32;
  }

  /** Every effect of an accepted frame, and exactly when it happens. */
  predicate Justified(policy: Policy, until: Option<uint32>, frame: Frame, now: uint32, rtcOk: bool, effects: seq<Effect>) {
    effects ==
      (if policy.rtcMutationEnabled && MaySet(policy, until, frame, now)
       then [ApplyRtc(FromBe32(frame.payload[..4]))] else [])
      + (if !frame.command.TimeSync? || (MaySet(policy, until, frame, now) && (policy.rtcMutationEnabled ==> rtcOk))
         then [QueueAck(frame.sequence)] else [])
  }

  lemma HandleJustified(s: Session, frame: Frame, now: uint32, rtcOk: bool)
    ensures var h := Handle(s, frame, now, rtcOk);
      && Justified(s.policy, s.until, frame, now, rtcOk, h.effects)
      && h.session.decoder == s.decoder && h.session.policy == s.policy && h.session.until == s.until
  {
    hide ValidPackedDateTime, DayCounts.FromReg, IsFresh, Passed;
    if frame.command.TimeSync? && |frame.payload| == TIME_SYNC_PAYLOAD_LEN {
      PackedIsRtcDate(FromBe32(frame.payload[..4]));
    }
  }

  /** The seconds of the session's clock are within five minutes of the stamp. */
  predicate Stamped(stamp: uint32, now: uint32) {
    -300 <= now / 1000 - stamp <= 300
  }

  /**
   The answer to an accepted frame: each error in its order, and success exactly when the frame is acknowledged. A
   time sync must have eight bytes, a valid date, a recent stamp, a policy that permits it, and a deadline ahead.
   */
  predicate Answered(policy: Policy, until: Option<uint32>, frame: Frame, now: uint32, rtcOk: bool,
                     effects: seq<Effect>, reply: Reply)
  {
    var sync := frame.command.TimeSync?;
    var sized := |frame.payload| == 8;
    var dated := sized && Calendar.ValidRtc(DayCounts.FromReg(FromBe32(frame.payload[..4])));
    var recent := dated && Stamped(FromBe32(frame.payload[4..]), now);
    var permitted := recent && policy.cryptoProvisioned && policy.authenticated && policy.physicallyAuthorized;
    var authorized := permitted && until.Some? && !Passed(now, until.value);
    && (reply == Err(Payload(BadLength)) <==> sync && !sized)
    && (reply == Err(Payload(InvalidDateTime)) <==> sync && sized && !dated)
    && (reply == Err(Payload(Stale)) <==> sync && dated && !recent)
    && (reply == Err(Payload(NotAuthenticated)) <==> sync && recent && !permitted)
    && (reply == Err(AuthorizationExpired) <==> sync && permitted && !authorized)
    && (reply == Err(RtcApply) <==> sync && authorized && policy.rtcMutationEnabled && !rtcOk)
    && (reply == Ok(AckQueued) <==> QueueAck(frame.sequence) in effects)
    && (reply.Ok? ==> reply == Ok(AckQueued))
  }

  /** What the answer leaves in the session. */
  predicate LeftBehind(s: Session, frame: Frame, reply: Reply, after: Session) {
    match reply
    case Ok(_) => after.state == AckQueued && after.ack == Some(frame.sequence)
    case Err(e) =>
      && after.ack == s.ack
      && after.state == if e.AuthorizationExpired? then Expired else if e.RtcApply? then Authorized else Authenticated
  }

  lemma FreshIsStamped(payload: TimeSyncPayload, now: uint32)
    ensures IsFresh(payload, now / 1000) <==> Stamped(payload.freshness, now)
  {
  }

  lemma HandleAnswers(s: Session, frame: Frame, now: uint32, rtcOk: bool)
    ensures var h := Handle(s, frame, now, rtcOk);
      && Answered(s.policy, s.until, frame, now, rtcOk, h.effects, h.reply)
      && LeftBehind(s, frame, h.reply, h.session)
  {
    hide ValidPackedDateTime, DayCounts.FromReg, IsFresh, Passed, Stamped, Calendar.ValidRtc;
    if frame.command.TimeSync? && |frame.payload| == TIME_SYNC_PAYLOAD_LEN {
      PackedIsRtcDate(FromBe32(frame.payload[..4]));
      FreshIsStamped(TimeSyncPayload(FromBe32(frame.payload[..4]), FromBe32(frame.payload[4..])), now);
    }
  }

  // The bytes behind a frame.

  predicate EndOf(part: seq<uint8>, stream: seq<uint8>) {
    |part| <= |stream| && stream[|stream| - |part|..] == part
  }

  /** The decoder holds the end of the bytes it was fed, and they are not a whole frame yet. */
  predicate InStream(buffer: Buffer, stream: seq<uint8>) {
    && EndOf(buffer, stream)
    && (|buffer| >= HEADER_LEN ==> |buffer| < HEADER_LEN + buffer[4] as nat + CRC_LEN)
  }

  lemma EndGrows(part: seq<uint8>, stream: seq<uint8>, b: uint8)
    requires EndOf(part, stream)
    ensures EndOf(part + [b], stream + [b]) && EndOf([b], stream + [b]) && EndOf([], stream + [b])
  {
  }

  /** The decoder accepts a byte only as the last of the latest bytes it was fed, which decode to the frame. */
  lemma PushReceived(d: State, stream: seq<uint8>, b: uint8, now: uint32, auth: Option<Verifier>)
    requires InStream(d.core.buffer, stream)
    ensures var (d1, o) := Push(d, b, now, auth);
      && InStream(d1.core.buffer, stream + [b])
      && (o.Some? && o.value.Ok? ==>
           && EndOf(d.core.buffer + [b], stream + [b])
           && Received(d.core.buffer + [b], o.value.value, auth)
           && Ahead(d.core.guard.last, o.value.value.sequence)
           && d1.core.guard.last == Some(o.value.value.sequence))
      && (!(o.Some? && o.value.Ok?) ==> d1.core.guard.last == d.core.guard.last)
  {
    hide Decode, Received, EndOf;
    var frame := PushGuard(d, b, now, auth);
    var (d1, o) := Push(d, b, now, auth);
    EndGrows(d.core.buffer, stream, b);
    var buffer := d.core.buffer + [b];
    if o.Some? && o.value.Ok? {
      assert buffer[..HEADER_LEN + buffer[4] as nat + CRC_LEN] == buffer;
      ReceivedWhenDecoded(buffer, o.value.value, auth);
    }
  }

  /** What one call does, given the bytes taken by the calls before it. */
  ghost predicate Polled(s: Session, stream: seq<uint8>, bytes: seq<uint8>, now: uint32, auth: Option<Verifier>,
                         rtcOk: bool, r: Served)
  {
    && r.taken <= |bytes|
    && InStream(r.session.decoder.core.buffer, stream + bytes[..r.taken])
    && r.session.policy == s.policy && r.session.until == s.until
    && match r.accepted {
      case None =>
        && r.effects == [] && r.session.decoder.core.guard.last == s.decoder.core.guard.last
        && r.session.ack == s.ack
        && r.session.state == if s.state == Idle && r.taken > 0 then Receiving else s.state
      case Some(Arrival(raw, frame)) =>
        && r.answer.Some? && Answered(s.policy, s.until, frame, now, rtcOk, r.effects, r.answer.value)
        && LeftBehind(s, frame, r.answer.value, r.session)
        && r.taken >= 1 && EndOf(raw, stream + bytes[..r.taken]) && Received(raw, frame, auth)
        && Justified(s.policy, s.until, frame, now, rtcOk, r.effects)
        && Ahead(s.decoder.core.guard.last, frame.sequence)
        && r.session.decoder.core.guard.last == Some(frame.sequence)
    }
  }

  lemma TakeByteJustified(s: Session, stream: seq<uint8>, b: uint8, now: uint32, auth: Option<Verifier>, rtcOk: bool)
    requires InStream(s.decoder.core.buffer, stream)
    ensures Polled(s, stream, [b], now, auth, rtcOk, TakeByte(s, b, now, auth, rtcOk))
  {
    hide Push, Handle, Justified, Answered, Received, Ahead, InStream, EndOf;
    var s1 := if s.state == Idle then s.(state := Receiving) else s;
    var (d, o) := Push(s1.decoder, b, now, auth);
    PushReceived(s1.decoder, stream, b, now, auth);
    assert [b][..1] == [b];
    if o.Some? && o.value.Ok? {
      HandleJustified(s1.(decoder := d), o.value.value, now, rtcOk);
      HandleAnswers(s1.(decoder := d), o.value.value, now, rtcOk);
    }
  }

  lemma TakeByteQuiet(s: Session, b: uint8, now: uint32, auth: Option<Verifier>, rtcOk: bool)
    requires TakeByte(s, b, now, auth, rtcOk).answer == None
    ensures TakeByte(s, b, now, auth, rtcOk).accepted == None && TakeByte(s, b, now, auth, rtcOk).effects == []
  {
    hide Push, Handle;
  }

  lemma {:induction false} PollJustified(s: Session, stream: seq<uint8>, bytes: seq<uint8>, now: uint32,
                                         auth: Option<Verifier>, rtcOk: bool)
    requires InStream(s.decoder.core.buffer, stream)
    ensures Polled(s, stream, bytes, now, auth, rtcOk, Poll(s, bytes, now, auth, rtcOk))
    decreases |bytes|
  {
    hide TakeByte, Justified, Answered, Received, Ahead, InStream, EndOf;
    if bytes == [] {
      assert stream + bytes[..0] == stream;
    } else {
      TakeByteJustified(s, stream, bytes[0], now, auth, rtcOk);
      var one := TakeByte(s, bytes[0], now, auth, rtcOk);
      assert bytes[..1] == [bytes[0]] && [bytes[0]][..1] == [bytes[0]];
      if one.answer == None {
        TakeByteQuiet(s, bytes[0], now, auth, rtcOk);
        PollJustified(one.session, stream + [bytes[0]], bytes[1..], now, auth, rtcOk);
        var r := Poll(one.session, bytes[1..], now, auth, rtcOk);
        assert stream + bytes[..r.taken + 1] == (stream + [bytes[0]]) + bytes[1..][..r.taken];
      }
    }
  }

  /** A call takes every byte it may, or no byte behind the one that answers; the bytes before that do not answer. */
  lemma {:induction false} PollTakes(s: Session, bytes: seq<uint8>, now: uint32, auth: Option<Verifier>, rtcOk: bool)
    ensures
      var r := Poll(s, bytes, now, auth, rtcOk);
      && (r.answer == None ==> r.taken == |bytes|)
      && (r.answer.Some? ==>
            && r.taken >= 1
            && Poll(s, bytes[..r.taken - 1], now, auth, rtcOk).answer == None
            && Poll(s, bytes[..r.taken], now, auth, rtcOk) == r)
    decreases |bytes|
  {
    hide TakeByte;
    if bytes != [] {
      var one := TakeByte(s, bytes[0], now, auth, rtcOk);
      if one.answer == None {
        var r := Poll(one.session, bytes[1..], now, auth, rtcOk);
        PollTakes(one.session, bytes[1..], now, auth, rtcOk);
        if r.answer.Some? {
          assert bytes[..r.taken + 1][1..] == bytes[1..][..r.taken];
          assert bytes[..r.taken][1..] == bytes[1..][..r.taken - 1];
        }
      }
    }
  }

  /** A call takes 64 bytes or all there are, or stops at the first byte that answers. */
  lemma ServiceTakes(s: Session, available: seq<uint8>, now: uint32, auth: Option<Verifier>, rtcOk: bool)
    ensures
      var r := Service(s, available, now, auth, rtcOk);
      && (r.answer == None ==> r.taken == if |available| < 64 then |available| else 64)
      && (r.answer.Some? ==>
            && r.taken >= 1
            && Service(s, available[..r.taken - 1], now, auth, rtcOk).answer == None
            && Service(s, available[..r.taken], now, auth, rtcOk) == r)
  {
    hide Poll, Expire;
    var bytes := FirstBytes(available, MAX_POLL_BYTES);
    var r := Service(s, available, now, auth, rtcOk);
    PollTakes(Expire(s, now), bytes, now, auth, rtcOk);
    if r.answer.Some? {
      assert bytes[..r.taken] == available[..r.taken] && bytes[..r.taken - 1] == available[..r.taken - 1];
    }
  }

  // A whole frame in one call.

  /**
   A call feeds its bytes to the decoder up to the first that is reported; an error is answered as it is, and a
   frame is the one accepted.
   */
  lemma {:induction false} PollIsFeed(s: Session, t: seq<Tick>, now: uint32, auth: Option<Verifier>, rtcOk: bool)
    requires forall i :: 0 <= i < |t| ==> t[i].Now() == now && t[i].auth == auth
    ensures
      var r := Poll(s, Bytes(t), now, auth, rtcOk);
      var fed := Feed(s.decoder, t[..r.taken]);
      && r.session.decoder == fed.0
      && (r.answer == None ==> r.taken == |t| && r.accepted == None && fed.1 == Silence(|t|))
      && (r.answer.Some? ==> r.taken >= 1 && Concluded(fed.1, r))
    decreases |t|
  {
    hide TakeByte, Push, Concluded, Feed, Silence;
    FedNone(s.decoder);
    if t == [] {
      assert t[..0] == [];
    } else {
      var x, rest := t[0], t[1..];
      TakesOne(s, x, rtcOk);
      var one := TakeByte(s, x.b, now, auth, rtcOk);
      FedNone(one.session.decoder);
      FedOne(s.decoder, t, 0);
      assert rest[..0] == [] && Bytes(t)[1..] == Bytes(rest) && Bytes(t)[0] == x.b;
      var o := Push(s.decoder, x.b, x.Now(), x.auth).1;
      assert [o] + [] == [o];
      assert one.answer.Some? ==> Poll(s, Bytes(t), now, auth, rtcOk) == one;
      if one.answer == None {
        PollIsFeed(one.session, rest, now, auth, rtcOk);
        var r := Poll(one.session, Bytes(rest), now, auth, rtcOk);
        FedOne(s.decoder, t, r.taken);
        SilenceMore(|rest|);
        if r.answer.Some? {
          ConcludedLater(Feed(one.session.decoder, rest[..r.taken]).1, r);
        }
      }
    }
  }

  lemma SilenceMore(n: nat)
    ensures Silence(n + 1) == [None] + Silence(n)
  {
  }

  /** The last of the decoder's reports, and the only one, gives the answer. */
  predicate Concluded(outputs: Outputs, r: Served) {
    && r.taken == |outputs| > 0
    && outputs[..|outputs| - 1] == Silence(|outputs| - 1)
    && match outputs[|outputs| - 1] {
      case None => false
      case Some(Err(e)) => r.answer == Some(Err(Decoding(e))) && r.accepted == None
      case Some(Ok(frame)) => r.accepted.Some? && r.accepted.value.frame == frame
    }
  }

  lemma ConcludedLater(outputs: Outputs, r: Served)
    requires Concluded(outputs, r)
    ensures Concluded([None] + outputs, r.(taken := r.taken + 1))
  {
    var more := [None] + outputs;
    assert more[..|more| - 1] == [None] + outputs[..|outputs| - 1];
    assert Silence(|more| - 1) == [None] + Silence(|outputs| - 1);
  }

  lemma TakesOne(s: Session, x: Tick, rtcOk: bool)
    ensures
      var one := TakeByte(s, x.b, x.Now(), x.auth, rtcOk);
      var (d, o) := Push(s.decoder, x.b, x.Now(), x.auth);
      && one.session.decoder == d && (one.answer == None <==> o == None)
      && (o == None ==> one.accepted == None)
      && (o.Some? ==> Concluded([o], one))
  {
    hide Push, Handle, Justified;
    var s1 := if s.state == Idle then s.(state := Receiving) else s;
    var (d, o) := Push(s1.decoder, x.b, x.Now(), x.auth);
    if o.Some? && o.value.Ok? {
      HandleJustified(s1.(decoder := d), o.value.value, x.Now(), rtcOk);
    }
    assert [o][..0] == Silence(0);
  }

  lemma FedOne(d: State, t: seq<Tick>, n: nat)
    requires n < |t|
    ensures var (d1, o) := Push(d, t[0].b, t[0].Now(), t[0].auth);
      && Feed(d, t[..n + 1]).0 == Feed(d1, t[1..][..n]).0
      && Feed(d, t[..n + 1]).1 == [o] + Feed(d1, t[1..][..n]).1
  {
    hide Push;
    assert t[..n + 1][1..] == t[1..][..n];
  }

  lemma FedNone(d: State)
    ensures Feed(d, []) == (d, []) && Silence(0) == []
  {
  }

  /** Feeding a frame whose last byte makes it accepted is a call that accepts it. */
  lemma PollFeeds(s: Session, t: seq<Tick>, now: uint32, auth: Option<Verifier>, rtcOk: bool, frame: Frame)
    requires t != [] && forall i :: 0 <= i < |t| ==> t[i].Now() == now && t[i].auth == auth
    requires Feed(s.decoder, t).1 == Silence(|t| - 1) + [Some(Ok(frame))]
    ensures var r := Poll(s, Bytes(t), now, auth, rtcOk); r.accepted.Some? && r.accepted.value.frame == frame
  {
    hide Poll, Feed, Bytes;
    PollIsFeed(s, t, now, auth, rtcOk);
    var r := Poll(s, Bytes(t), now, auth, rtcOk);
    var n := r.taken;
    assert t == t[..n] + t[n..];
    FeedConcat(s.decoder, t[..n], t[n..]);
    var whole, part := Feed(s.decoder, t).1, Feed(s.decoder, t[..n]).1;
    assert part == whole[..n];
    assert whole[|t| - 1] == Some(Ok(frame));
    assert forall i :: 0 <= i < |t| - 1 ==> whole[i] == None;
    assert n > 0 ==> part[n - 1] == whole[n - 1];
  }

  /** Bytes that arrive at one instant. */
  function AtOnce(bytes: seq<uint8>, time: nat, auth: Option<Verifier>): (t: seq<Tick>)
    ensures |t| == |bytes| && forall i :: 0 <= i < |t| ==> t[i] == Tick(bytes[i], time, auth)
  {
    seq(|bytes|, i requires 0 <= i < |bytes| => Tick(bytes[i], time, auth))
  }

  lemma {:induction false} AtOnceInTime(last: Option<uint32>, t: seq<Tick>, now: uint32)
    requires forall i :: 0 <= i < |t| ==> t[i].Now() == now
    requires !Late(last, now)
    ensures FirstLate(last, t) == |t|
    decreases |t|
  {
    if t != [] {
      AtOnceInTime(Some(now), t[1..], now);
    }
  }

  lemma FeedWhole(d: State, frame: Frame, tag: Option<Tag>, time: nat, auth: Option<Verifier>)
    requires Encodable(frame.command, frame.payload, tag) && Verified(frame, tag, auth)
    requires d.core.buffer == [] && !Late(d.lastByteMs, time % TWO_32)
    requires AcceptSequence(d.core.guard, frame, time % TWO_32).1 == Ok(frame)
    ensures
      var t := AtOnce(FrameBytes(frame.command, frame.sequence, frame.payload, tag), time, auth);
      && t != [] && Bytes(t) == FrameBytes(frame.command, frame.sequence, frame.payload, tag)
      && Feed(d, t).1 == Silence(|t| - 1) + [Some(Ok(frame))]
  {
    hide Feed, FrameBytes, Verified, Late, AcceptSequence, FirstLate, Silence;
    var bytes := FrameBytes(frame.command, frame.sequence, frame.payload, tag);
    var t := AtOnce(bytes, time, auth);
    assert Bytes(t) == bytes && [] + t == t;
    AtOnceInTime(d.lastByteMs, t, time % TWO_32);
    FrameThroughNoise(d, [], t, frame, tag);
  }

  /**
   A verified frame that waits whole, for a decoder in no frame and within no gap, is accepted by the call that
   serves it whenever the replay and duty-cycle rules accept it, and has the effects the rules call for.
   */
  lemma FrameServed(s: Session, frame: Frame, tag: Option<Tag>, time: nat, auth: Option<Verifier>, rtcOk: bool)
    requires Encodable(frame.command, frame.payload, tag) && Verified(frame, tag, auth)
    requires s.decoder.core.buffer == [] && !Late(s.decoder.lastByteMs, time % TWO_32)
    requires AcceptSequence(s.decoder.core.guard, frame, time % TWO_32).1 == Ok(frame)
    ensures
      var now := time % TWO_32;
      var r := Service(s, FrameBytes(frame.command, frame.sequence, frame.payload, tag), now, auth, rtcOk);
      && r.accepted.Some? && r.accepted.value.frame == frame
      && Justified(s.policy, s.until, frame, now, rtcOk, r.effects)
  {
    hide Feed, FrameBytes, Poll, Justified, Verified, Late, AcceptSequence, Received, Ahead, Bytes, Silence, Passed,
      AtOnce;
    var now := time % TWO_32;
    var bytes := FrameBytes(frame.command, frame.sequence, frame.payload, tag);
    FitsCall(frame, tag);
    FeedWhole(s.decoder, frame, tag, time, auth);
    var s1 := Expire(s, now);
    PollFeeds(s1, AtOnce(bytes, time, auth), now, auth, rtcOk, frame);
    PollJustified(s1, [], bytes, now, auth, rtcOk);
  }

  lemma FitsCall(frame: Frame, tag: Option<Tag>)
    requires |frame.payload| <= MAX_PAYLOAD
    ensures
      var bytes := FrameBytes(frame.command, frame.sequence, frame.payload, tag);
      |bytes| == TotalLength(frame.payload, tag) && FirstBytes(bytes, MAX_POLL_BYTES) == bytes
  {
    hide FrameBytes;
    FrameLayout(frame.command, frame.sequence, frame.payload, tag);
  }

  // The freshness stamp.

  /** The stamp is compared with the seconds of the millisecond clock. */
  predicate FreshAt(stamp: uint32, now: uint32) {
    IsFresh(TimeSyncPayload(0, stamp), now / 1000)
  }

  /** A stamp can be fresh, at some reading of the clock, exactly up to 4295267; so no UTC time from 2020 on can. */
  lemma FreshStamps(stamp: uint32)
    ensures (exists now: uint32 :: FreshAt(stamp, now)) <==> stamp <= 4295267
    ensures stamp >= Calendar.FIRST ==> forall now: uint32 :: !FreshAt(stamp, now)
  {
    if stamp <= 4294967 {
      assert FreshAt(stamp, stamp as int * 1000);
    } else if stamp <= 4295267 {
      assert FreshAt(stamp, 4294967000);
    }
  }
}
