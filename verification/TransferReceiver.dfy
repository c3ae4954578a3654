/** The transfer receiver, the store it drives, and what whole transfers do. */
module TransferReceiver {
  import opened Wrappers
  import opened Words
  import opened Transfer

  /** A transfer in progress in the store; bytes not yet written are absent. */
  datatype Staged = Staged(object_: ObjectId, data: seq<Option<uint8>>)

  /** The atomic store: durable objects, and at most one transfer that is not durable yet. */
  datatype Store = Store(durable: map<ObjectId, seq<Option<uint8>>>, staged: Option<Staged>)

  /** Whether the store grants each of its operations during one call. */
  datatype Grants = Grants(begin: bool, write: bool, commit: bool)

  const ALL_GRANTED := Grants(true, true, true)

  datatype ReceiveError = Decoding(decode: DecodeError) | Unauthenticated | Sequence | State | Storage

  type Answer = Option<ReceiveError>  // `None` is success

  datatype Receiver = Receiver(object_: Option<ObjectId>, totalLen: uint32, nextOffset: uint32, nextSequence: uint16)

  const IDLE := Receiver(None, 0, 0, 0)

  type Authenticator = Frame -> bool

  function Begin(st: Store, object_: ObjectId, totalLen: nat): Store {
    st.(staged := Some(Staged(object_, seq(totalLen, i => None))))
  }

  /** Overlays `data` at `offset`; writes outside the object are dropped. */
  function Write(st: Store, offset: nat, data: seq<uint8>): Store {
    if st.staged.None? then st
    else
      var old_ := st.staged.value.data;
      st.(staged := Some(st.staged.value.(data := seq(|old_|, i requires 0 <= i < |old_| =>
        if offset <= i < offset + |data| then Some(data[i - offset]) else old_[i]))))
  }

  function CommitStaged(st: Store): Store {
    if st.staged.None? then st
    else Store(st.durable[st.staged.value.object_ := st.staged.value.data], None)
  }

  function Discard(st: Store): Store {
    st.(staged := None)
  }

  /** One received frame. */
  function Receive(r: Receiver, st: Store, bytes: seq<uint8>, auth: Authenticator, g: Grants): (Receiver, Store, Answer)
    requires |bytes| == FRAME_SIZE
  {
    match Decode(bytes)
    case Err(e) => (r, st, Some(Decoding(e)))
    case Ok(frame) =>
      if !auth(frame) then (r, st, Some(Unauthenticated))
      else if frame.command.WriteData? then
        if frame.sequence != r.nextSequence || frame.offset != r.nextOffset || frame.totalLen == 0
           || frame.payload == []
        then (r, st, Some(Sequence))
        else if r.object_.None? && !g.begin then (r, st, Some(Storage))
        else
          var r1 := if r.object_.None? then r.(object_ := Some(frame.object_), totalLen := frame.totalLen) else r;
          var st1 := if r.object_.None? then Begin(st, frame.object_, frame.totalLen) else st;
          if r1.object_ != Some(frame.object_) || r1.totalLen != frame.totalLen then (r1, st1, Some(State))
          else if !g.write then (r1, st1, Some(Storage))
          else
            (r1.(nextOffset := (r1.nextOffset + |frame.payload|) % TWO_32,
                 nextSequence := (r1.nextSequence + 1) % TWO_16),
             Write(st1, frame.offset, frame.payload), None)
      else if frame.command.Commit? && frame.sequence == r.nextSequence && frame.offset == r.totalLen
              && frame.payload == []
      then
        if r.object_ != Some(frame.object_) then (r, st, Some(State))
        else if !g.commit then (r, st, Some(Storage))
        else (IDLE, CommitStaged(st), None)
      else if frame.command.Abort? then (IDLE, Discard(st), Some(State))
      else (r, st, Some(State))
  }

  // The receiver as the firmware updates it.

  class AtomicStore {
    var durable: map<ObjectId, seq<Option<uint8>>>
    var staged: Option<Staged>

    ghost function Abs(): Store
      reads this
    {
      Store(durable, staged)
    }

    constructor ()
      ensures Abs() == Store(map[], None)
    {
      durable, staged := map[], None;
    }

    method BeginObject(object_: ObjectId, totalLen: nat, granted: bool) returns (ok: bool)
      modifies this
      ensures ok == granted && Abs() == if granted then Begin(old(Abs()), object_, totalLen) else old(Abs())
    {
      if granted {
        staged := Some(Staged(object_, seq(totalLen, i => None)));
      }
      return granted;
    }

    method WriteChunk(offset: nat, data: seq<uint8>, granted: bool) returns (ok: bool)
      modifies this
      ensures ok == granted && Abs() == if granted then Write(old(Abs()), offset, data) else old(Abs())
    {
      if granted && staged.Some? {
        var was := staged.value.data;
        staged := Some(staged.value.(data := seq(|was|, i requires 0 <= i < |was| =>
          if offset <= i < offset + |data| then Some(data[i - offset]) else was[i])));
      }
      return granted;
    }

    method CommitObject(granted: bool) returns (ok: bool)
      modifies this
      ensures ok == granted && Abs() == if granted then CommitStaged(old(Abs())) else old(Abs())
    {
      if granted && staged.Some? {
        durable := durable[staged.value.object_ := staged.value.data];
        staged := None;
      }
      return granted;
    }

    method AbortObject()
      modifies this
      ensures Abs() == Discard(old(Abs()))
    {
      staged := None;
    }
  }

  class TransferReceiver {
    const store: AtomicStore
    const auth: Authenticator
    var object_: Option<ObjectId>
    var totalLen: uint32
    var nextOffset: uint32
    var nextSequence: uint16

    ghost function Abs(): Receiver
      reads this
    {
      Receiver(object_, totalLen, nextOffset, nextSequence)
    }

    constructor (store: AtomicStore, auth: Authenticator)
      ensures this.store == store && this.auth == auth && Abs() == IDLE
    {
      this.store, this.auth := store, auth;
      object_, totalLen, nextOffset, nextSequence := None, 0, 0, 0;
    }

    method Restart()
      modifies this
      ensures Abs() == IDLE
    {
      object_, totalLen, nextOffset, nextSequence := None, 0, 0, 0;
    }

    method ReceiveFrame(bytes: seq<uint8>, g: Grants) returns (answer: Answer)
      requires |bytes| == FRAME_SIZE
      modifies this, store
      ensures (Abs(), store.Abs(), answer) == Receive(old(Abs()), old(store.Abs()), bytes, auth, g)
    {
      hide Decode, Begin, Write, CommitStaged, Discard;
      var decoded := Decode(bytes);
      if decoded.Err? {
        return Some(Decoding(decoded.error));
      }
      var frame := decoded.value;
      if !auth(frame) {
        return Some(Unauthenticated);
      }
      match frame.command {
        case WriteData =>
          if frame.sequence != nextSequence || frame.offset != nextOffset || frame.totalLen == 0 || frame.payload == [] {
            return Some(Sequence);
          }
          if object_.None? {
            var ok := store.BeginObject(frame.object_, frame.totalLen, g.begin);
            if !ok {
              return Some(Storage);
            }
            object_ := Some(frame.object_);
            totalLen := frame.totalLen;
          }
          if object_ != Some(frame.object_) || totalLen != frame.totalLen {
            return Some(State);
          }
          var ok := store.WriteChunk(frame.offset, frame.payload, g.write);
          if !ok {
            return Some(Storage);
          }
          nextOffset := (nextOffset + |frame.payload|) % TWO_32;
          nextSequence := (nextSequence + 1) % TWO_16;
          return None;
        case Commit =>
          if frame.sequence == nextSequence && frame.offset == totalLen && frame.payload == [] {
            if object_ != Some(frame.object_) {
              return Some(State);
            }
            var ok := store.CommitObject(g.commit);
            if !ok {
              return Some(Storage);
            }
            Restart();
            return None;
          }
          return Some(State);
        case Abort =>
          store.AbortObject();
          Restart();
          return Some(State);
        case Read =>
          return Some(State);
      }
    }
  }

  // Safety of every run.

  /** The store holds exactly the bytes below the receiver's offset of the object it is receiving. */
  ghost predicate Consistent(r: Receiver, st: Store) {
    match r.object_
    case None => r == IDLE && st.staged == None
    case Some(object_) =>
      && st.staged.Some? && st.staged.value.object_ == object_
      && var data := st.staged.value.data;
      && |data| == r.totalLen as int && 0 < r.totalLen <= object_.MaxSize()
      && r.nextOffset <= r.totalLen
      && forall i :: 0 <= i < |data| ==> (data[i].Some? <==> i < r.nextOffset as int)
  }

  lemma DecodedBounded(bytes: seq<uint8>)
    requires |bytes| == FRAME_SIZE
    ensures Decode(bytes).Ok? ==> WellFormed(Decode(bytes).value)
  {
  }

  /** Every frame, whatever its bytes and whatever the store grants, keeps the receiver and store consistent. */
  lemma ReceiveConsistent(r: Receiver, st: Store, bytes: seq<uint8>, auth: Authenticator, g: Grants)
    requires |bytes| == FRAME_SIZE && Consistent(r, st)
    ensures var (r1, st1, _) := Receive(r, st, bytes, auth, g); Consistent(r1, st1)
  {
    hide Decode;
    DecodedBounded(bytes);
  }

  /** Everything in an object has been written. */
  predicate Complete(data: seq<Option<uint8>>) {
    forall i :: 0 <= i < |data| ==> data[i].Some?
  }

  /**
   A commit makes exactly what was staged durable; that is a complete object if and only if the
   receiver's offset has reached the total length, which the receiver itself does not check.
   */
  lemma CommitComplete(r: Receiver, st: Store, bytes: seq<uint8>, auth: Authenticator, g: Grants)
    requires |bytes| == FRAME_SIZE && Consistent(r, st)
    requires Decode(bytes).Ok? && Decode(bytes).value.command.Commit?
    requires Receive(r, st, bytes, auth, g).2 == None
    ensures r.object_.Some? && Receive(r, st, bytes, auth, g).0 == IDLE
    ensures var (_, st1, _) := Receive(r, st, bytes, auth, g);
      && st1.staged == None
      && st1.durable == st.durable[r.object_.value := st.staged.value.data]
      && (Complete(st1.durable[r.object_.value]) <==> r.nextOffset == r.totalLen)
  {
    hide Decode;
    var data := st.staged.value.data;
    if r.nextOffset < r.totalLen {
      assert data[r.nextOffset].None?;
    }
  }

  /** Durable objects change only by a successful commit. */
  lemma DurableOnlyByCommit(r: Receiver, st: Store, bytes: seq<uint8>, auth: Authenticator, g: Grants)
    requires |bytes| == FRAME_SIZE
    requires Receive(r, st, bytes, auth, g).1.durable != st.durable
    ensures Decode(bytes).Ok? && Decode(bytes).value.command.Commit? && auth(Decode(bytes).value)
    ensures Receive(r, st, bytes, auth, g).2 == None
  {
    hide Decode;
  }

  /** The frame is an abort that the receiver would obey. */
  predicate IsAbort(bytes: seq<uint8>, auth: Authenticator)
    requires |bytes| == FRAME_SIZE
  {
    Decode(bytes).Ok? && auth(Decode(bytes).value) && Decode(bytes).value.command.Abort?
  }

  /** A frame answered with an error that is neither an abort nor the store's refusal changes nothing. */
  lemma RejectedUnchanged(r: Receiver, st: Store, bytes: seq<uint8>, auth: Authenticator, g: Grants)
    requires |bytes| == FRAME_SIZE && !IsAbort(bytes, auth)
    requires Receive(r, st, bytes, auth, g).2.Some? && Receive(r, st, bytes, auth, g).2 != Some(Storage)
    ensures Receive(r, st, bytes, auth, g).0 == r && Receive(r, st, bytes, auth, g).1 == st
  {
    hide Decode;
  }

  // A whole transfer.

  /** The bytes of the first `i` chunks. */
  function Joined(chunks: seq<seq<uint8>>, i: nat): seq<uint8>
    requires i <= |chunks|
  {
    if i == 0 then [] else Joined(chunks, i - 1) + chunks[i - 1]
  }

  /** What a sender transfers: an object cut into chunks, with a tag for every frame. */
  datatype Sending = Sending(object_: ObjectId, chunks: seq<seq<uint8>>, tags: seq<seq<uint8>>) {
    function Content(): seq<uint8> {
      Joined(chunks, |chunks|)
    }

    predicate Valid() {
      && 0 < |Content()| <= object_.MaxSize()
      && (forall i :: 0 <= i < |chunks| ==> 1 <= |chunks[i]| <= MAX_PAYLOAD)
      && |tags| == |chunks| + 1
      && (forall i :: 0 <= i < |tags| ==> |tags[i]| == 8)
    }

    /** Frame `i`: a chunk, and the commit after the last chunk. */
    ghost function FrameAt(i: nat): Frame
      requires Valid() && i <= |chunks|
      ensures WellFormed(FrameAt(i))
    {
      JoinedLength(chunks, i);
      JoinedLength(chunks, |chunks|);
      JoinedPrefix(chunks, i, |chunks|);
      if i < |chunks|
      then (JoinedPrefix(chunks, i + 1, |chunks|);
            Frame(WriteData, object_, i, |Joined(chunks, i)|, |Content()|, chunks[i], tags[i]))
      else Frame(Commit, object_, i, |Content()|, |Content()|, [], tags[i])
    }
  }

  lemma {:induction false} JoinedLength(chunks: seq<seq<uint8>>, i: nat)
    requires i <= |chunks|
    requires forall k :: 0 <= k < |chunks| ==> 1 <= |chunks[k]|
    ensures i <= |Joined(chunks, i)|
  {
    if i > 0 {
      JoinedLength(chunks, i - 1);
    }
  }

  lemma {:induction false} JoinedPrefix(chunks: seq<seq<uint8>>, i: nat, j: nat)
    requires i <= j <= |chunks|
    ensures Joined(chunks, i) <= Joined(chunks, j)
    decreases j
  {
    if i < j {
      JoinedPrefix(chunks, i, j - 1);
    }
  }

  /** The first `n` bytes of an object written, the others not. */
  function Partly(content: seq<uint8>, n: nat): (data: seq<Option<uint8>>)
    ensures |data| == |content|
  {
    seq(|content|, i requires 0 <= i < |content| => if i < n then Some(content[i]) else None)
  }

  function Whole(content: seq<uint8>): seq<Option<uint8>> {
    Partly(content, |content|)
  }

  /** Receiver and store after the first `i` chunks of a transfer. */
  predicate Underway(s: Sending, i: nat, durable: map<ObjectId, seq<Option<uint8>>>, r: Receiver, st: Store)
    requires s.Valid() && i <= |s.chunks|
  {
    var n := |Joined(s.chunks, i)|;
    if i == 0 then r == IDLE && st == Store(durable, None)
    else
      && r.object_ == Some(s.object_) && r.totalLen as int == |s.Content()|
      && r.nextOffset as int == n && r.nextSequence as int == i
      && st == Store(durable, Some(Staged(s.object_, Partly(s.Content(), n))))
  }

  lemma FramesFit(s: Sending, i: nat)
    requires s.Valid() && i <= |s.chunks|
    ensures i <= |s.chunks| <= |s.Content()| <= 4096 && |Joined(s.chunks, i)| <= |s.Content()|
  {
    JoinedLength(s.chunks, |s.chunks|);
    JoinedPrefix(s.chunks, i, |s.chunks|);
  }

  /** Writing chunk `i` behind the chunks before it. */
  lemma WriteExtends(s: Sending, i: nat, st: Store)
    requires s.Valid() && i < |s.chunks|
    requires st.staged == Some(Staged(s.object_, Partly(s.Content(), |Joined(s.chunks, i)|)))
    ensures Write(st, |Joined(s.chunks, i)|, s.chunks[i])
         == st.(staged := Some(Staged(s.object_, Partly(s.Content(), |Joined(s.chunks, i + 1)|))))
  {
    var n := |Joined(s.chunks, i)|;
    JoinedPrefix(s.chunks, i + 1, |s.chunks|);
    var content := s.Content();
    assert content[..n + |s.chunks[i]|] == Joined(s.chunks, i) + s.chunks[i];
    assert forall k :: n <= k < n + |s.chunks[i]| ==> content[k] == s.chunks[i][k - n];
    assert Write(st, n, s.chunks[i]).staged.value.data == Partly(content, |Joined(s.chunks, i + 1)|);
  }

  /** The next frame of a transfer is accepted and moves it one chunk on; the last one makes it durable. */
  lemma NextFrame(s: Sending, i: nat, durable: map<ObjectId, seq<Option<uint8>>>, r: Receiver, st: Store,
                  auth: Authenticator)
    requires s.Valid() && i <= |s.chunks| && Underway(s, i, durable, r, st)
    requires auth(s.FrameAt(i))
    ensures var (r1, st1, answer) := Receive(r, st, Encoded(s.FrameAt(i)), auth, ALL_GRANTED);
      && answer == None
      && (i < |s.chunks| ==> Underway(s, i + 1, durable, r1, st1))
      && (i == |s.chunks| ==> r1 == IDLE && st1 == Store(durable[s.object_ := Whole(s.Content())], None))
  {
    hide Decode, Encoded, Write, Begin, Partly, Joined;
    var frame := s.FrameAt(i);
    DecodeEncoded(frame);
    FramesFit(s, i);
    if i < |s.chunks| {
      FramesFit(s, i + 1);
      if i == 0 {
        EmptyTransfer(s, st);
        WriteExtends(s, 0, Begin(st, s.object_, |s.Content()|));
      } else {
        WriteExtends(s, i, st);
      }
      JoinedStep(s.chunks, i);
    } else {
      NotEmpty(s);
    }
  }

  lemma JoinedStep(chunks: seq<seq<uint8>>, i: nat)
    requires i < |chunks|
    ensures Joined(chunks, 0) == [] && Joined(chunks, i + 1) == Joined(chunks, i) + chunks[i]
  {
  }

  lemma NotEmpty(s: Sending)
    requires s.Valid()
    ensures |s.chunks| > 0
  {
  }

  lemma EmptyTransfer(s: Sending, st: Store)
    requires s.Valid() && |s.chunks| > 0
    ensures Begin(st, s.object_, |s.Content()|)
         == st.(staged := Some(Staged(s.object_, Partly(s.Content(), |Joined(s.chunks, 0)|))))
  {
    assert Begin(st, s.object_, |s.Content()|).staged.value.data == Partly(s.Content(), 0);
  }

  // Whole runs of any frames.

  /** A received frame, and what the store grants while it is handled. */
  datatype Delivery = Delivery(bytes: seq<uint8>, grants: Grants)

  predicate Deliverable(deliveries: seq<Delivery>) {
    forall i :: 0 <= i < |deliveries| ==> |deliveries[i].bytes| == FRAME_SIZE
  }

  /** The receiver, its store, and the answer to the last frame. */
  datatype Trace = Trace(receiver: Receiver, store: Store, answer: Answer)

  function Run(durable: map<ObjectId, seq<Option<uint8>>>, deliveries: seq<Delivery>, auth: Authenticator): Trace
    requires Deliverable(deliveries)
  {
    if deliveries == [] then Trace(IDLE, Store(durable, None), None)
    else
      var t := Run(durable, deliveries[..|deliveries| - 1], auth);
      var last := deliveries[|deliveries| - 1];
      var (r, st, answer) := Receive(t.receiver, t.store, last.bytes, auth, last.grants);
      Trace(r, st, answer)
  }

  /** An object of `length` bytes of which the first are `written`. */
  function Filled(written: seq<uint8>, length: nat): (data: seq<Option<uint8>>)
    ensures |data| == length
  {
    seq(length, i requires 0 <= i < length => if i < |written| then Some(written[i]) else None)
  }

  /** An object in progress, and its length. */
  datatype Open = Open(object_: ObjectId, length: nat)

  /**
   What a run has achieved: the object begun, the bytes written to it and the deliveries they came in, and the durable
   objects with the deliveries that made them.
   */
  datatype Ledger = Ledger(
    open: Option<Open>, written: seq<uint8>, sources: seq<nat>,
    durable: map<ObjectId, seq<Option<uint8>>>, origins: map<ObjectId, seq<nat>>)

  /** The write continues the object: its number is the count of writes before it, its offset that of their bytes. */
  predicate Continues(l: Ledger, frame: Frame) {
    && frame.sequence == |l.sources| % TWO_16 && frame.offset == |l.written|
    && frame.totalLen > 0 && frame.payload != []
  }

  /** The write begins an object, or is for the one begun. */
  predicate Belongs(l: Ledger, frame: Frame) {
    l.open.Some? ==> l.open.value == Open(frame.object_, frame.totalLen)
  }

  /** The commit is for the object begun, states its length, and comes in its turn. */
  predicate Concludes(l: Ledger, frame: Frame) {
    && l.open.Some? && l.open.value == Open(frame.object_, frame.offset)
    && frame.sequence == |l.sources| % TWO_16 && frame.payload == []
  }

  /** A frame the store is asked to write, or to commit. */
  predicate Accepts(l: Ledger, frame: Frame, g: Grants) {
    match frame.command
    case WriteData => Continues(l, frame) && Belongs(l, frame) && (l.open.None? ==> g.begin) && g.write
    case Commit => Concludes(l, frame) && g.commit
    case _ => false
  }

  /** What delivery `index` changes. */
  function Enter(l: Ledger, index: nat, bytes: seq<uint8>, auth: Authenticator, g: Grants): Ledger
    requires |bytes| == FRAME_SIZE
  {
    match Decode(bytes)
    case Err(_) => l
    case Ok(frame) =>
      if !auth(frame) then l
      else
        match frame.command
        case WriteData =>
          if !Continues(l, frame) || !Belongs(l, frame) || (l.open.None? && !g.begin) then l
          else
            var begun := l.(open := Some(Open(frame.object_, frame.totalLen)));
            if g.write then begun.(written := l.written + frame.payload, sources := l.sources + [index]) else begun
        case Commit =>
          if !Concludes(l, frame) || !g.commit then l
          else
            Ledger(None, [], [], l.durable[frame.object_ := Filled(l.written, frame.offset)],
                   l.origins[frame.object_ := l.sources])
        case Abort => l.(open := None, written := [], sources := [])
        case Read => l
  }

  function Entered(durable: map<ObjectId, seq<Option<uint8>>>, deliveries: seq<Delivery>, auth: Authenticator): Ledger
    requires Deliverable(deliveries)
  {
    if deliveries == [] then Ledger(None, [], [], durable, map[])
    else
      var n := |deliveries| - 1;
      Enter(Entered(durable, deliveries[..n], auth), n, deliveries[n].bytes, auth, deliveries[n].grants)
  }

  /** The receiver and the store are in the state of the ledger. */
  predicate Holds(r: Receiver, st: Store, l: Ledger) {
    && st.durable == l.durable
    && match l.open {
      case None => r == IDLE && st.staged == None && l.written == [] && l.sources == []
      case Some(Open(object_, length)) =>
        && r.object_ == Some(object_) && r.totalLen as int == length
        && r.nextOffset as int == |l.written| && r.nextSequence == |l.sources| % TWO_16
        && 0 < length <= object_.MaxSize() && |l.written| <= length
        && st.staged == Some(Staged(object_, Filled(l.written, length)))
    }
  }

  /** The answer to a frame, in the terms of the ledger. */
  predicate AnsweredAs(l: Ledger, bytes: seq<uint8>, auth: Authenticator, g: Grants, answer: Answer)
    requires |bytes| == FRAME_SIZE
  {
    match Decode(bytes)
    case Err(e) => answer == Some(Decoding(e))
    case Ok(frame) =>
      var write, commit := frame.command.WriteData?, frame.command.Commit?;
      && (answer == None <==> auth(frame) && Accepts(l, frame, g))
      && (answer == Some(Unauthenticated) <==> !auth(frame))
      && (answer == Some(Sequence) <==> auth(frame) && write && !Continues(l, frame))
      && (answer == Some(Storage) <==>
            && auth(frame)
            && ((write && Continues(l, frame) && ((l.open.None? && !g.begin) || (Belongs(l, frame) && !g.write)))
                || (commit && Concludes(l, frame) && !g.commit)))
      && (answer.Some? ==> !answer.value.Decoding?)
  }

  lemma WriteFills(st: Store, written: seq<uint8>, payload: seq<uint8>, length: nat)
    requires st.staged.Some? && st.staged.value.data == Filled(written, length) && |written| + |payload| <= length
    ensures Write(st, |written|, payload)
         == st.(staged := Some(Staged(st.staged.value.object_, Filled(written + payload, length))))
  {
    assert Write(st, |written|, payload).staged.value.data == Filled(written + payload, length);
  }

  lemma BeginFills(st: Store, object_: ObjectId, length: nat)
    ensures Begin(st, object_, length) == st.(staged := Some(Staged(object_, Filled([], length))))
  {
    assert Begin(st, object_, length).staged.value.data == Filled([], length);
  }

  /** The receiver answers each frame as the ledger calls for, and stays in its state. */
  lemma ReceiveHolds(r: Receiver, st: Store, l: Ledger, index: nat, bytes: seq<uint8>, auth: Authenticator, g: Grants)
    requires |bytes| == FRAME_SIZE && Holds(r, st, l)
    ensures var (r1, st1, answer) := Receive(r, st, bytes, auth, g);
      Holds(r1, st1, Enter(l, index, bytes, auth, g)) && AnsweredAs(l, bytes, auth, g, answer)
  {
    hide Receive, Enter, Holds, AnsweredAs;
    ReceiveAnswers(r, st, l, bytes, auth, g);
    if Decode(bytes).Ok? && Decode(bytes).value.command.WriteData? {
      WriteHolds(r, st, l, index, bytes, auth, g);
    } else {
      OtherHolds(r, st, l, index, bytes, auth, g);
    }
  }

  lemma ReceiveAnswers(r: Receiver, st: Store, l: Ledger, bytes: seq<uint8>, auth: Authenticator, g: Grants)
    requires |bytes| == FRAME_SIZE && Holds(r, st, l)
    ensures AnsweredAs(l, bytes, auth, g, Receive(r, st, bytes, auth, g).2)
  {
    hide Decode, Begin, Write, Filled;
  }

  lemma WriteHolds(r: Receiver, st: Store, l: Ledger, index: nat, bytes: seq<uint8>, auth: Authenticator, g: Grants)
    requires |bytes| == FRAME_SIZE && Holds(r, st, l)
    requires Decode(bytes).Ok? && Decode(bytes).value.command.WriteData?
    ensures var (r1, st1, _) := Receive(r, st, bytes, auth, g); Holds(r1, st1, Enter(l, index, bytes, auth, g))
  {
    hide Decode, Begin, Write, Filled;
    DecodedBounded(bytes);
    var frame := Decode(bytes).value;
    BeginFills(st, frame.object_, frame.totalLen);
    var begun := if r.object_.None? then Begin(st, frame.object_, frame.totalLen) else st;
    if frame.offset == r.nextOffset && (r.object_.None? || r.totalLen == frame.totalLen) {
      WriteFills(begun, l.written, frame.payload, frame.totalLen);
    }
    OneWriteMore(|l.sources|);
  }

  lemma OtherHolds(r: Receiver, st: Store, l: Ledger, index: nat, bytes: seq<uint8>, auth: Authenticator, g: Grants)
    requires |bytes| == FRAME_SIZE && Holds(r, st, l)
    requires Decode(bytes).Ok? ==> !Decode(bytes).value.command.WriteData?
    ensures var (r1, st1, _) := Receive(r, st, bytes, auth, g); Holds(r1, st1, Enter(l, index, bytes, auth, g))
  {
    hide Decode, Filled;
  }

  lemma OneWriteMore(n: nat)
    ensures (n % TWO_16 + 1) % TWO_16 == (n + 1) % TWO_16
  {
  }

  /**
   In every run of frames, whatever their bytes and whatever the store grants, the receiver and the store are in the
   state of the ledger: the object in progress holds exactly the payloads of the writes accepted since it was begun,
   and every durable object the run made exactly those accepted up to its commit.
   */
  lemma {:induction false} RunHolds(durable: map<ObjectId, seq<Option<uint8>>>, deliveries: seq<Delivery>,
                                    auth: Authenticator)
    requires Deliverable(deliveries)
    ensures var t := Run(durable, deliveries, auth); Holds(t.receiver, t.store, Entered(durable, deliveries, auth))
    decreases |deliveries|
  {
    hide Receive, Holds, Enter, AnsweredAs;
    if deliveries == [] {
      IdleHolds(durable);
    } else {
      var before := deliveries[..|deliveries| - 1];
      RunHolds(durable, before, auth);
      var t, last := Run(durable, before, auth), deliveries[|deliveries| - 1];
      ReceiveHolds(t.receiver, t.store, Entered(durable, before, auth), |before|, last.bytes, auth, last.grants);
    }
  }

  lemma IdleHolds(durable: map<ObjectId, seq<Option<uint8>>>)
    ensures Holds(IDLE, Store(durable, None), Ledger(None, [], [], durable, map[]))
  {
  }

  /**
   In every run a frame is accepted if and only if the hook passes it, its number, offset, object and length continue
   the object in progress, and the store grants it; and each error has its own reason.
   */
  lemma AcceptedExactly(durable: map<ObjectId, seq<Option<uint8>>>, deliveries: seq<Delivery>, last: Delivery,
                        auth: Authenticator)
    requires Deliverable(deliveries) && |last.bytes| == FRAME_SIZE
    ensures Deliverable(deliveries + [last])
    ensures AnsweredAs(Entered(durable, deliveries, auth), last.bytes, auth, last.grants,
                       Run(durable, deliveries + [last], auth).answer)
  {
    hide Receive, Holds, Enter, AnsweredAs;
    assert (deliveries + [last])[..|deliveries|] == deliveries;
    RunHolds(durable, deliveries, auth);
    var t := Run(durable, deliveries, auth);
    ReceiveHolds(t.receiver, t.store, Entered(durable, deliveries, auth), 0, last.bytes, auth, last.grants);
  }

  // Where the bytes of an object come from.

  /** The payloads of some deliveries, one after the other, each an authenticated write for the object. */
  function Payloads(deliveries: seq<Delivery>, sources: seq<nat>): seq<uint8>
    requires Deliverable(deliveries)
  {
    if sources == [] then []
    else
      var k := sources[|sources| - 1];
      Payloads(deliveries, sources[..|sources| - 1])
      + if k < |deliveries| && Decode(deliveries[k].bytes).Ok? then Decode(deliveries[k].bytes).value.payload else []
  }

  /** The deliveries are, in order, authenticated writes for the object. */
  predicate Authentic(deliveries: seq<Delivery>, sources: seq<nat>, object_: ObjectId, auth: Authenticator)
    requires Deliverable(deliveries)
  {
    && (forall i, j :: 0 <= i < j < |sources| ==> sources[i] < sources[j])
    && forall i :: 0 <= i < |sources| ==> AuthenticWrite(deliveries, sources[i], object_, auth)
  }

  predicate AuthenticWrite(deliveries: seq<Delivery>, k: nat, object_: ObjectId, auth: Authenticator)
    requires Deliverable(deliveries)
  {
    && k < |deliveries|
    && match Decode(deliveries[k].bytes) {
      case Err(_) => false
      case Ok(frame) => auth(frame) && frame.command.WriteData? && frame.object_ == object_
    }
  }

  /** Every byte written came in an authenticated write for its object. */
  ghost predicate Sourced(durable: map<ObjectId, seq<Option<uint8>>>, deliveries: seq<Delivery>, auth: Authenticator,
                          l: Ledger)
    requires Deliverable(deliveries)
  {
    && l.written == Payloads(deliveries, l.sources)
    && (l.open.None? ==> l.sources == [])
    && (l.open.Some? ==> Authentic(deliveries, l.sources, l.open.value.object_, auth))
    && forall o :: (o in l.durable <==> o in durable || o in l.origins)
        && (o in l.origins ==>
              && Authentic(deliveries, l.origins[o], o, auth)
              && l.durable[o] == Filled(Payloads(deliveries, l.origins[o]), |l.durable[o]|))
        && (o in durable && o !in l.origins ==> l.durable[o] == durable[o])
  }

  lemma {:induction false} PayloadsLater(deliveries: seq<Delivery>, last: Delivery, sources: seq<nat>)
    requires Deliverable(deliveries) && |last.bytes| == FRAME_SIZE
    requires forall i :: 0 <= i < |sources| ==> sources[i] < |deliveries|
    ensures Payloads(deliveries + [last], sources) == Payloads(deliveries, sources)
    decreases |sources|
  {
    hide Decode;
    if sources != [] {
      PayloadsLater(deliveries, last, sources[..|sources| - 1]);
    }
  }

  lemma AuthenticLater(deliveries: seq<Delivery>, last: Delivery, sources: seq<nat>, object_: ObjectId, auth: Authenticator)
    requires Deliverable(deliveries) && |last.bytes| == FRAME_SIZE && Authentic(deliveries, sources, object_, auth)
    ensures Authentic(deliveries + [last], sources, object_, auth)
    ensures Payloads(deliveries + [last], sources) == Payloads(deliveries, sources)
  {
    hide Decode, Payloads;
    PayloadsLater(deliveries, last, sources);
  }

  lemma AuthenticMore(deliveries: seq<Delivery>, last: Delivery, sources: seq<nat>, object_: ObjectId, auth: Authenticator)
    requires Deliverable(deliveries) && |last.bytes| == FRAME_SIZE && Authentic(deliveries, sources, object_, auth)
    requires AuthenticWrite(deliveries + [last], |deliveries|, object_, auth)
    ensures Authentic(deliveries + [last], sources + [|deliveries|], object_, auth)
    ensures Payloads(deliveries + [last], sources + [|deliveries|])
         == Payloads(deliveries, sources) + Decode(last.bytes).value.payload
  {
    hide Decode, Payloads;
    AuthenticLater(deliveries, last, sources, object_, auth);
    PayloadsMore(deliveries + [last], sources, |deliveries|);
  }

  lemma PayloadsMore(deliveries: seq<Delivery>, sources: seq<nat>, k: nat)
    requires Deliverable(deliveries) && k < |deliveries| && Decode(deliveries[k].bytes).Ok?
    ensures Payloads(deliveries, sources + [k])
         == Payloads(deliveries, sources) + Decode(deliveries[k].bytes).value.payload
  {
    hide Decode;
    assert (sources + [k])[..|sources|] == sources;
  }

  lemma SourcedLater(durable: map<ObjectId, seq<Option<uint8>>>, deliveries: seq<Delivery>, last: Delivery,
                     auth: Authenticator, l: Ledger)
    requires Deliverable(deliveries) && |last.bytes| == FRAME_SIZE && Sourced(durable, deliveries, auth, l)
    ensures Sourced(durable, deliveries + [last], auth, l)
  {
    hide Decode, Payloads, Authentic, Filled;
    NoPayloads(deliveries);
    NoPayloads(deliveries + [last]);
    if l.open.Some? {
      AuthenticLater(deliveries, last, l.sources, l.open.value.object_, auth);
    }
    forall o | o in l.origins
      ensures Authentic(deliveries + [last], l.origins[o], o, auth)
      ensures Payloads(deliveries + [last], l.origins[o]) == Payloads(deliveries, l.origins[o])
    {
      AuthenticLater(deliveries, last, l.origins[o], o, auth);
    }
  }

  lemma NoPayloads(deliveries: seq<Delivery>)
    requires Deliverable(deliveries)
    ensures Payloads(deliveries, []) == []
    ensures forall o, auth :: Authentic(deliveries, [], o, auth)
  {
  }

  lemma EnterSourced(durable: map<ObjectId, seq<Option<uint8>>>, deliveries: seq<Delivery>, last: Delivery,
                     auth: Authenticator, l: Ledger)
    requires Deliverable(deliveries) && |last.bytes| == FRAME_SIZE && Sourced(durable, deliveries, auth, l)
    ensures Sourced(durable, deliveries + [last], auth, Enter(l, |deliveries|, last.bytes, auth, last.grants))
  {
    hide Decode, Payloads, Authentic, Filled;
    SourcedLater(durable, deliveries, last, auth, l);
    var all, k := deliveries + [last], |deliveries|;
    NoPayloads(deliveries);
    NoPayloads(all);
    assert all[k] == last;
    if Decode(last.bytes).Ok? && auth(Decode(last.bytes).value) && Decode(last.bytes).value.command.WriteData?
       && Belongs(l, Decode(last.bytes).value)
    {
      AuthenticMore(deliveries, last, l.sources, Decode(last.bytes).value.object_, auth);
    }
  }

  /**
   In every run each durable object the run made holds exactly the payloads of some of its deliveries, in order, every
   one an authenticated write for that object; the other durable objects are as they were.
   */
  lemma {:induction false} RunSourced(durable: map<ObjectId, seq<Option<uint8>>>, deliveries: seq<Delivery>,
                                      auth: Authenticator)
    requires Deliverable(deliveries)
    ensures Sourced(durable, deliveries, auth, Entered(durable, deliveries, auth))
    ensures Run(durable, deliveries, auth).store.durable == Entered(durable, deliveries, auth).durable
    decreases |deliveries|
  {
    hide Enter, Sourced, Receive;
    RunHolds(durable, deliveries, auth);
    if deliveries == [] {
      NothingSourced(durable, auth);
    } else {
      var n := |deliveries| - 1;
      RunSourced(durable, deliveries[..n], auth);
      assert deliveries == deliveries[..n] + [deliveries[n]];
      EnterSourced(durable, deliveries[..n], deliveries[n], auth, Entered(durable, deliveries[..n], auth));
    }
  }

  lemma NothingSourced(durable: map<ObjectId, seq<Option<uint8>>>, auth: Authenticator)
    ensures Sourced(durable, [], auth, Ledger(None, [], [], durable, map[]))
  {
  }

  /** A durable object is complete exactly when everything was written before its commit, and then it is just that. */
  lemma FilledComplete(written: seq<uint8>, length: nat)
    requires |written| <= length
    ensures Complete(Filled(written, length)) <==> |written| == length
    ensures |written| == length ==> Filled(written, length) == Whole(written)
  {
    var data := Filled(written, length);
    if |written| < length {
      assert data[|written|] == None;
    }
  }

  // Interleaving with other frames.

  /** What arrives: the next frame of the transfer, or some other frame. */
  datatype Arrival = Next | Other(bytes: seq<uint8>)

  function CountNext(arrivals: seq<Arrival>): nat {
    if arrivals == [] then 0 else (if arrivals[0].Next? then 1 else 0) + CountNext(arrivals[1..])
  }

  /** The run of a transfer from frame `i`, and whether every other frame in it was harmlessly rejected. */
  ghost function Arrive(s: Sending, i: nat, arrivals: seq<Arrival>, r: Receiver, st: Store, auth: Authenticator)
    : (Receiver, Store, bool)
    requires s.Valid() && i + CountNext(arrivals) <= |s.chunks| + 1
    decreases |arrivals|
  {
    if arrivals == [] then (r, st, true)
    else if arrivals[0].Next? then
      var (r1, st1, _) := Receive(r, st, Encoded(s.FrameAt(i)), auth, ALL_GRANTED);
      Arrive(s, i + 1, arrivals[1..], r1, st1, auth)
    else if |arrivals[0].bytes| != FRAME_SIZE then (r, st, false)
    else
      var bytes := arrivals[0].bytes;
      var (r1, st1, answer) := Receive(r, st, bytes, auth, ALL_GRANTED);
      var (r2, st2, ok) := Arrive(s, i, arrivals[1..], r1, st1, auth);
      (r2, st2, ok && answer.Some? && !IsAbort(bytes, auth))
  }

  lemma NoRefusal(r: Receiver, st: Store, bytes: seq<uint8>, auth: Authenticator)
    requires |bytes| == FRAME_SIZE
    ensures Receive(r, st, bytes, auth, ALL_GRANTED).2 != Some(Storage)
  {
    hide Decode;
  }

  lemma {:induction false} ArriveFrom(s: Sending, i: nat, arrivals: seq<Arrival>, durable: map<ObjectId, seq<Option<uint8>>>,
                                      r: Receiver, st: Store, auth: Authenticator)
    requires s.Valid() && i + CountNext(arrivals) == |s.chunks| + 1
    requires forall k: nat :: k <= |s.chunks| ==> auth(s.FrameAt(k))
    requires if i <= |s.chunks| then Underway(s, i, durable, r, st)
             else r == IDLE && st == Store(durable[s.object_ := Whole(s.Content())], None)
    requires Arrive(s, i, arrivals, r, st, auth).2
    ensures Arrive(s, i, arrivals, r, st, auth).0 == IDLE
    ensures Arrive(s, i, arrivals, r, st, auth).1 == Store(durable[s.object_ := Whole(s.Content())], None)
    decreases |arrivals|
  {
    hide Receive, Underway, Whole, Encoded, IsAbort;
    if arrivals != [] {
      if arrivals[0].Next? {
        var (r1, st1, _) := Receive(r, st, Encoded(s.FrameAt(i)), auth, ALL_GRANTED);
        NextFrame(s, i, durable, r, st, auth);
        ArriveFrom(s, i + 1, arrivals[1..], durable, r1, st1, auth);
      } else {
        var bytes := arrivals[0].bytes;
        NoRefusal(r, st, bytes, auth);
        RejectedUnchanged(r, st, bytes, auth, ALL_GRANTED);
        ArriveFrom(s, i, arrivals[1..], durable, r, st, auth);
      }
    }
  }

  /**
   Sending any content in any chunks, then the commit, leaves the store holding exactly that content and
   the receiver as it was at the start, even with any other frames in between that are answered with an
   error other than an abort.
   */
  lemma EndToEnd(s: Sending, arrivals: seq<Arrival>, durable: map<ObjectId, seq<Option<uint8>>>, auth: Authenticator)
    requires s.Valid() && CountNext(arrivals) == |s.chunks| + 1
    requires forall k: nat :: k <= |s.chunks| ==> auth(s.FrameAt(k))
    requires Arrive(s, 0, arrivals, IDLE, Store(durable, None), auth).2
    ensures var (r, st, _) := Arrive(s, 0, arrivals, IDLE, Store(durable, None), auth);
      r == IDLE && st.staged == None && st.durable == durable[s.object_ := Whole(s.Content())]
  {
    hide Arrive, Whole;
    ArriveFrom(s, 0, arrivals, durable, IDLE, Store(durable, None), auth);
  }

  /** A transfer of three bytes can be committed after two of them. */
  lemma IncompleteCommit(auth: Authenticator, tag: seq<uint8>)
    requires |tag| == 8
    requires forall f: Frame :: auth(f)
    ensures var write := Frame(WriteData, Settings, 0, 0, 3, [0x61, 0x62], tag);
      var commit := Frame(Commit, Settings, 1, 3, 3, [], tag);
      var (r, st, first) := Receive(IDLE, Store(map[], None), Encoded(write), auth, ALL_GRANTED);
      var (r', st', second) := Receive(r, st, Encoded(commit), auth, ALL_GRANTED);
      && first == None && second == None
      && Settings in st'.durable && !Complete(st'.durable[Settings])
  {
    hide Decode, Encoded;
    DecodeEncoded(Frame(WriteData, Settings, 0, 0, 3, [0x61, 0x62], tag));
    DecodeEncoded(Frame(Commit, Settings, 1, 3, 3, [], tag));
    var st := Receive(IDLE, Store(map[], None), Encoded(Frame(WriteData, Settings, 0, 0, 3, [0x61, 0x62], tag)), auth,
                      ALL_GRANTED).1;
    assert st.staged.value.data[2] == None;
  }
}
