/** Ring buffers: a fixed array and the slot that is written next. */
module Rings {
  import opened Words

  /** The last `n` elements. */
  function Last<T>(s: seq<T>, n: nat): (r: seq<T>)
    ensures |r| == if |s| < n then |s| else n
  {
    if |s| <= n then s else s[|s| - n..]
  }

  /** A slot of the ring. */
  function Slot(position: nat, capacity: nat): (slot: nat)
    requires capacity > 0 && position < 2 * capacity
    ensures slot < capacity && slot == position % capacity
  {
    if position < capacity then position
    else
      QuotientUnique(position, capacity, 1, position - capacity);
      position - capacity
  }

  /** The whole ring, the slot written next first: the oldest entry of a full ring. */
  function Rotated<T>(entries: seq<T>, next: nat): (s: seq<T>)
    requires next <= |entries|
    ensures |s| == |entries|
  {
    entries[next..] + entries[..next]
  }

  lemma PushRotates<T>(entries: seq<T>, next: nat, x: T)
    requires next < |entries|
    ensures Rotated(entries[next := x], Slot(next + 1, |entries|)) == Rotated(entries, next)[1..] + [x]
  {
    var after := entries[next := x];
    assert after[..next] == entries[..next];
    if next + 1 == |entries| {
      assert after == entries[..next] + [x];
      assert entries[next..] == [entries[next]];
    } else {
      assert after[next + 1..] == entries[next..][1..];
      assert after[..next + 1] == entries[..next] + [x];
    }
  }

  lemma PopRotates<T>(entries: seq<T>, next: nat, x: T)
    requires next < |entries|
    ensures
      var last := if next == 0 then |entries| - 1 else next - 1;
      entries[last] == Rotated(entries, next)[|entries| - 1]
      && Rotated(entries[last := x], last) == [x] + Rotated(entries, next)[..|entries| - 1]
  {
    if next == 0 {
      assert Rotated(entries, 0) == entries;
    } else {
      var after := entries[next - 1 := x];
      assert after[next - 1..] == [x] + entries[next..];
      assert entries[..next] == entries[..next - 1] + [entries[next - 1]];
    }
  }
}
