/** The diagnostic event ring: new events replace the oldest when it is full. */
module EventLog {
  import opened Words
  import opened Wrappers
  import opened Rings

  datatype Event = Event(sequence: uint32, timestamp: uint32, code: uint8, data: uint16)

  function Next(sequence: uint32): uint32 {
    (sequence + 1) % TWO_32
  }

  /** The `len` entries written last. */
  function Retained(entries: seq<Event>, next: nat, len: nat): (s: seq<Event>)
    requires len <= |entries| && next <= |entries|
    ensures |s| == len
  {
    Last(Rotated(entries, next), len)
  }

  lemma RetainedAt(entries: seq<Event>, next: nat, len: nat, i: nat)
    requires i < len <= |entries| && next < |entries|
    ensures
      var oldest := Slot(next + |entries| - len, |entries|);
      Retained(entries, next, len)[i] == entries[Slot(oldest + i, |entries|)]
  {
  }

  lemma PushRetains(entries: seq<Event>, next: nat, len: nat, event: Event)
    requires len <= |entries| && next < |entries|
    ensures
      var n := |entries|;
      Retained(entries[next := event], Slot(next + 1, n), if len + 1 < n then len + 1 else n)
        == Last(Retained(entries, next, len) + [event], n)
  {
    hide Last, Rotated;
    var n := |entries|;
    PushRotates(entries, next, event);
    LastShift(Rotated(entries, next), event, len);
  }

  lemma LastShift<T>(s: seq<T>, x: T, len: nat)
    requires 0 < |s| && len <= |s|
    ensures Last(s[1..] + [x], if len + 1 < |s| then len + 1 else |s|) == Last(Last(s, len) + [x], |s|)
  {
  }

  class EventRing {
    var entries: array<Event>
    var next: nat
    var len: nat
    var sequence: uint32

    ghost predicate Valid()
      reads this
    {
      len <= entries.Length && (if entries.Length > 0 then next < entries.Length else next == 0)
    }

    /** The events retained, oldest first. */
    ghost function Contents(): (s: seq<Event>)
      reads this, entries
      requires Valid()
      ensures |s| == len
    {
      Retained(entries[..], next, len)
    }

    constructor (capacity: nat)
      ensures Valid() && fresh(entries) && entries.Length == capacity
      ensures Contents() == [] && sequence == 0
    {
      entries := new Event[capacity](i => Event(0, 0, 0, 0));
      next, len, sequence := 0, 0, 0;
    }

    method Push(timestamp: uint32, code: uint8, data: uint16) returns (number: uint32)
      requires Valid()
      modifies this`next, this`len, this`sequence, entries
      ensures Valid() && number == old(sequence) && sequence == Next(number)
      ensures Contents() == Last(old(Contents()) + [Event(number, timestamp, code, data)], entries.Length)
    {
      number := sequence;
      sequence := (sequence + 1) % TWO_32;
      var n := entries.Length;
      if n == 0 {
        return;
      }
      var event := Event(number, timestamp, code, data);
      entries[next] := event;
      PushRetains(old(entries[..]), next, len, event);
      assert entries[..] == old(entries[..])[next := event];
      next := Slot(next + 1, n);
      len := if len + 1 < n then len + 1 else n;
    }

    method Clear()
      requires Valid()
      modifies this`next, this`len
      ensures Valid() && Contents() == []
    {
      next := 0;
      len := 0;
    }

    method Get(index: nat) returns (event: Option<Event>)
      requires Valid()
      ensures event == if index < |Contents()| then Some(Contents()[index]) else None
    {
      var n := entries.Length;
      if index >= len || n == 0 {
        return None;
      }
      var oldest := Slot(next + n - len, n);
      RetainedAt(entries[..], next, len, index);
      event := Some(entries[Slot(oldest + index, n)]);
    }
  }

  // Whole runs.

  datatype Operation = Push(timestamp: uint32, code: uint8, data: uint16) | Clear

  datatype Log = Log(contents: seq<Event>, sequence: uint32)

  /** What the ring's operations do to its contents. */
  function Run(capacity: nat, operations: seq<Operation>): Log {
    if operations == [] then Log([], 0)
    else
      var before := Run(capacity, operations[..|operations| - 1]);
      match operations[|operations| - 1]
      case Push(timestamp, code, data) =>
        var event := Event(before.sequence, timestamp, code, data);
        Log(Last(before.contents + [event], capacity), Next(before.sequence))
      case Clear => before.(contents := [])
  }

  function Pushes(operations: seq<Operation>): nat {
    if operations == [] then 0
    else Pushes(operations[..|operations| - 1]) + if operations[|operations| - 1].Push? then 1 else 0
  }

  /** Every event pushed since the last clear, numbered by the pushes before it. */
  function SinceClear(operations: seq<Operation>): seq<Event> {
    if operations == [] then []
    else
      var before := operations[..|operations| - 1];
      match operations[|operations| - 1]
      case Push(timestamp, code, data) =>
        SinceClear(before) + [Event(Pushes(before) % TWO_32, timestamp, code, data)]
      case Clear => []
  }

  lemma LastOfLast<T>(s: seq<T>, x: T, n: nat)
    ensures Last(Last(s, n) + [x], n) == Last(s + [x], n)
  {
  }

  lemma NextOf(n: nat)
    ensures Next(n % TWO_32) == (n + 1) % TWO_32
  {
    ModShift(n % TWO_32 + 1, n / TWO_32);
  }

  /** The ring holds exactly the last events pushed since the last clear, as many as fit; any capacity, zero included. */
  lemma {:induction false} KeepsTheLatest(capacity: nat, operations: seq<Operation>)
    ensures Run(capacity, operations).contents == Last(SinceClear(operations), capacity)
    ensures Run(capacity, operations).sequence == Pushes(operations) % TWO_32
    decreases |operations|
  {
    hide Last, Next;
    if operations == [] {
      assert Last<Event>([], capacity) == [];
    } else {
      var before := operations[..|operations| - 1];
      KeepsTheLatest(capacity, before);
      NextOf(Pushes(before));
      if operations[|operations| - 1].Push? {
        var op := operations[|operations| - 1];
        LastOfLast(SinceClear(before), Event(Pushes(before) % TWO_32, op.timestamp, op.code, op.data), capacity);
      } else {
        assert Last<Event>([], capacity) == [];
      }
    }
  }

  lemma {:induction false} Numbered(operations: seq<Operation>)
    ensures |SinceClear(operations)| <= Pushes(operations)
    ensures forall i :: 0 <= i < |SinceClear(operations)| ==>
      SinceClear(operations)[i].sequence == (Pushes(operations) - |SinceClear(operations)| + i) % TWO_32
    decreases |operations|
  {
    if operations != [] {
      Numbered(operations[..|operations| - 1]);
    }
  }

  /** Retained events carry consecutive sequence numbers, also across the wrap, up to the last one assigned. */
  lemma Consecutive(capacity: nat, operations: seq<Operation>)
    ensures
      var log := Run(capacity, operations);
      |log.contents| <= Pushes(operations)
      && forall i :: 0 <= i < |log.contents| ==>
        log.contents[i].sequence == (Pushes(operations) - |log.contents| + i) % TWO_32
  {
    hide Run, SinceClear, Pushes;
    KeepsTheLatest(capacity, operations);
    Numbered(operations);
  }
}
