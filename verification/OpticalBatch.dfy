/**
 The batch parser of an optical byte stream, written without any state between bytes, and the proof
 that feeding the decoder one byte at a time gives the same results.
 */
module OpticalBatch {
  import opened Wrappers
  import opened Words
  import opened OpticalCodec
  import opened OpticalDecoder

  function Bytes(t: seq<Tick>): (bytes: seq<uint8>)
    ensures |bytes| == |t| && forall i :: 0 <= i < |t| ==> bytes[i] == t[i].b
  {
    seq(|t|, i requires 0 <= i < |t| => t[i].b)
  }

  predicate PairAt(bytes: seq<uint8>, i: nat) {
    i + 1 < |bytes| && bytes[i] == PREAMBLE[0] && bytes[i + 1] == PREAMBLE[1]
  }

  /** Where the first preamble starts, or the length if there is none. */
  function FindPair(bytes: seq<uint8>): (i: nat)
    ensures i <= |bytes|
    ensures i < |bytes| ==> PairAt(bytes, i)
    ensures forall j: nat :: j < i ==> !PairAt(bytes, j)
    decreases |bytes|
  {
    if bytes == [] then 0
    else if PairAt(bytes, 0) then 0
    else
      var i := FindPair(bytes[1..]);
      assert forall j: nat :: j > 0 ==> PairAt(bytes, j) == PairAt(bytes[1..], j - 1);
      i + 1
  }

  function Silence(n: nat): (o: Outputs)
    ensures |o| == n && forall i :: 0 <= i < n ==> o[i] == None
  {
    seq(n, i => None)
  }

  /** How a stream starting with a preamble is cut: nothing yet, an impossible length, or a whole frame. */
  datatype Cut = Incomplete | TooLong | Whole(expected: nat)

  function CutFrame(bytes: seq<uint8>): (c: Cut)
    ensures c.Whole? ==> HEADER_LEN + CRC_LEN <= c.expected <= |bytes| && c.expected <= MAX_FRAME_LEN
    ensures c.TooLong? ==> HEADER_LEN <= |bytes|
  {
    if |bytes| < HEADER_LEN then Incomplete
    else
      var expected := HEADER_LEN + bytes[4] as nat + CRC_LEN;
      if expected > MAX_FRAME_LEN then TooLong
      else if |bytes| < expected then Incomplete
      else Whole(expected)
  }

  /** Find a preamble, cut by the length byte, decode, apply the replay and duty-cycle rules, go on behind. */
  function Batch(g: Guard, t: seq<Tick>): (r: (Guard, Outputs))
    ensures |r.1| == |t|
    decreases |t|
  {
    var i := FindPair(Bytes(t));
    var rest := t[i..];
    match CutFrame(Bytes(rest))
    case Incomplete => (g, Silence(|t|))
    case TooLong =>
      var (g1, out) := Batch(g, rest[HEADER_LEN..]);
      (g1, Silence(i + HEADER_LEN - 1) + [Some(Err(FrameTooLong))] + out)
    case Whole(expected) =>
      var last := rest[expected - 1];
      var (g1, r) := Conclude(g, Bytes(rest[..expected]), last.Now(), last.auth);
      var (g2, out) := Batch(g1, rest[expected..]);
      (g2, Silence(i + expected - 1) + [Some(r)] + out)
  }

  /** A byte is late exactly when the gap before it exceeds the timeout modulo 2^32, so some gaps of 49 days are not seen. */
  lemma LateExactly(before: nat, time: nat)
    ensures Late(Some(before % TWO_32), time % TWO_32) <==> (time - before) % TWO_32 > 100
    ensures before <= time < before + TWO_32 ==>
      (Late(Some(before % TWO_32), time % TWO_32) <==> time - before > 100)
  {
    DifferenceModulo(time, before);
  }

  /** The first byte after a gap over the timeout, or the length if there is none. */
  function FirstLate(last: Option<uint32>, t: seq<Tick>): (j: nat)
    ensures j <= |t|
    decreases |t|
  {
    if t == [] || Late(last, t[0].Now()) then 0 else 1 + FirstLate(Some(t[0].Now()), t[1..])
  }

  /** The whole stream: each late byte is reported as a timeout, and the parts between are parsed on their own. */
  function Parse(g: Guard, last: Option<uint32>, t: seq<Tick>): (r: (Guard, Outputs))
    ensures |r.1| == |t|
    decreases |t|
  {
    var j := FirstLate(last, t);
    if j == |t| then Batch(g, t)
    else
      var (g1, before) := Batch(g, t[..j]);
      var (g2, after) := Parse(g1, Some(t[j].Now()), t[j + 1..]);
      (g2, before + [Some(Err(Timeout))] + after)
  }

  // Noise.

  function Held(bytes: seq<uint8>): (b: Buffer)
    ensures |b| <= 1
  {
    if bytes != [] && bytes[|bytes| - 1] == PREAMBLE[0] then [PREAMBLE[0]] else []
  }

  predicate NoPair(bytes: seq<uint8>) {
    forall j :: 0 <= j < |bytes| ==> !PairAt(bytes, j)
  }

  lemma NoiseByte(held: Buffer, g: Guard, x: Tick)
    requires held == [] || (held == [PREAMBLE[0]] && x.b != PREAMBLE[1])
    ensures Collect(Core(held, g), x.b, x.Now(), x.auth) == (Core(Held([x.b]), g), None)
  {
  }

  lemma NoPairTail(held: Buffer, b: uint8, rest: seq<uint8>)
    requires held == [] || held == [PREAMBLE[0]]
    requires NoPair(held + ([b] + rest))
    ensures held == [] || b != PREAMBLE[1]
    ensures NoPair(Held([b]) + rest)
    ensures Held(held + ([b] + rest)) == Held(Held([b]) + rest)
  {
    hide NoPair;
    var all := held + ([b] + rest);
    assert all[|held|] == b;
    NoPairPart(all, 0, 0);
    if b == PREAMBLE[0] {
      assert Held([b]) + rest == all[|held|..|all|];
      NoPairPart(all, |held|, |all|);
    } else {
      assert Held([b]) + rest == all[|held| + 1..|all|];
      NoPairPart(all, |held| + 1, |all|);
    }
  }

  lemma NoPairPart(bytes: seq<uint8>, k: nat, m: nat)
    requires NoPair(bytes)
    requires k <= m <= |bytes|
    ensures NoPair(bytes[k..m])
    ensures bytes != [] ==> !PairAt(bytes, 0)
  {
    forall j | 0 <= j < m - k
      ensures !PairAt(bytes[k..m], j)
    {
      assert !PairAt(bytes, j + k);
    }
  }

  /** Bytes without a preamble are skipped in silence; only a last 0xA5 is kept. */
  lemma {:induction false} Noise(held: Buffer, g: Guard, t: seq<Tick>)
    requires held == [] || held == [PREAMBLE[0]]
    requires NoPair(held + Bytes(t))
    ensures FeedCore(Core(held, g), t) == (Core(Held(held + Bytes(t)), g), Silence(|t|))
    decreases |t|
  {
    hide Collect, Bytes, Silence, NoPair;
    if t == [] {
      assert held + Bytes(t) == held;
      assert Silence(0) == [];
    } else {
      var b, rest := t[0].b, t[1..];
      assert Bytes(t) == [b] + Bytes(rest);
      NoPairTail(held, b, Bytes(rest));
      NoiseByte(held, g, t[0]);
      Noise(Held([b]), g, rest);
      assert Silence(|t|) == [None] + Silence(|rest|);
    }
  }

  // Collecting a frame.

  /** After a preamble, bytes are only collected until a frame is complete or its length is impossible. */
  lemma {:induction false} Filling(g: Guard, t: seq<Tick>, k: nat, m: nat)
    requires PairAt(Bytes(t), 0)
    requires 1 <= k <= m <= |t| && CutFrame(Bytes(t[..m])).Incomplete?
    ensures m <= MAX_FRAME_LEN
    ensures FeedCore(Core(Bytes(t[..k]), g), t[k..m]) == (Core(Bytes(t[..m]), g), Silence(m - k))
    decreases m - k
  {
    hide Conclude, Bytes;
    if k < m {
      assert t[k..m][0] == t[k] && t[k..m][1..] == t[k + 1..m];
      assert Bytes(t[..k + 1]) == Bytes(t[..k]) + [t[k].b];
      Filling(g, t, k + 1, m);
      assert Silence(m - k) == [None] + Silence(m - k - 1);
    } else {
      assert t[k..m] == [];
    }
  }

  /** Everything up to the byte that decides the fate of the first frame is silent. */
  lemma UpToFrame(g: Guard, t: seq<Tick>, m: nat)
    requires var i := FindPair(Bytes(t));
      i < |t| && 1 <= m <= |t| - i && CutFrame(Bytes(t[i..][..m])).Incomplete?
    ensures var i := FindPair(Bytes(t));
      && m <= MAX_FRAME_LEN
      && FeedCore(Core([], g), t[..i + m]) == (Core(Bytes(t[i..][..m]), g), Silence(i + m))
  {
    hide Collect, Bytes, FeedCore, CutFrame, FindPair, Silence, NoPair;
    var i := FindPair(Bytes(t));
    var noise, rest := t[..i + 1], t[i..];
    AroundPair(t);
    Noise([], g, noise);
    Filling(g, rest, 1, m);
    assert t[..i + m] == noise + rest[1..m];
    FeedCoreConcat(Core([], g), noise, rest[1..m]);
    assert Silence(i + m) == Silence(i + 1) + Silence(m - 1);
  }

  lemma AroundPair(t: seq<Tick>)
    requires FindPair(Bytes(t)) < |t|
    ensures var i := FindPair(Bytes(t));
      && NoPair([] + Bytes(t[..i + 1]))
      && Held([] + Bytes(t[..i + 1])) == Bytes(t[i..][..1])
      && PairAt(Bytes(t[i..]), 0)
  {
    hide Bytes, FindPair, NoPair;
    var i := FindPair(Bytes(t));
    var noise := t[..i + 1];
    assert [] + Bytes(noise) == Bytes(noise) && Bytes(noise) == Bytes(t)[..i + 1];
    FirstPairEnds(Bytes(t), i);
    assert Bytes(t[i..])[0] == Bytes(t)[i] && Bytes(t[i..])[1] == Bytes(t)[i + 1];
    assert Bytes(t[i..][..1]) == [PREAMBLE[0]];
  }

  lemma FirstPairEnds(bytes: seq<uint8>, i: nat)
    requires i < |bytes| && forall j: nat :: j < i ==> !PairAt(bytes, j)
    ensures NoPair(bytes[..i + 1])
  {
    var part := bytes[..i + 1];
    forall j | 0 <= j < |part|
      ensures !PairAt(part, j)
    {
      if j < i {
        assert !PairAt(bytes, j);
      }
    }
  }

  lemma NoPreamble(g: Guard, t: seq<Tick>)
    requires FindPair(Bytes(t)) == |t|
    ensures FeedCore(Core([], g), t).0.guard == g && FeedCore(Core([], g), t).1 == Silence(|t|)
    ensures CutFrame(Bytes(t[|t|..])).Incomplete?
  {
    hide Collect, FeedCore, FindPair, Silence;
    assert [] + Bytes(t) == Bytes(t);
    Noise([], g, t);
  }

  lemma FeedOne(c: Core, x: Tick)
    ensures var (c1, o) := Collect(c, x.b, x.Now(), x.auth);
      FeedCore(c, [x]) == (c1, [o])
  {
    hide Collect;
    var (c1, o) := Collect(c, x.b, x.Now(), x.auth);
    assert [x][1..] == [];
    assert FeedCore(c1, []) == (c1, []);
    assert [o] + [] == [o];
  }

  /** The byte at `n` that completes or rejects the first frame leaves the decoder idle. */
  lemma Deciding(g: Guard, t: seq<Tick>, n: nat, g1: Guard, r: Outcome)
    requires n < |t|
    requires FeedCore(Core([], g), t[..n]).1 == Silence(n)
    requires Collect(FeedCore(Core([], g), t[..n]).0, t[n].b, t[n].Now(), t[n].auth) == (Core([], g1), Some(r))
    ensures FeedCore(Core([], g), t[..n + 1]) == (Core([], g1), Silence(n) + [Some(r)])
  {
    hide Collect, FeedCore, Silence;
    assert t[..n + 1] == t[..n] + [t[n]];
    FeedCoreConcat(Core([], g), t[..n], [t[n]]);
    FeedOne(FeedCore(Core([], g), t[..n]).0, t[n]);
  }

  lemma FrameTooLongAt(g: Guard, t: seq<Tick>)
    requires var i := FindPair(Bytes(t));
      i < |t| && CutFrame(Bytes(t[i..])).TooLong?
    ensures var n := FindPair(Bytes(t)) + HEADER_LEN - 1;
      FeedCore(Core([], g), t[..n + 1]) == (Core([], g), Silence(n) + [Some(Err(FrameTooLong))])
  {
    hide FeedCore, Conclude, Bytes;
    var i := FindPair(Bytes(t));
    var rest := t[i..];
    UpToFrame(g, t, HEADER_LEN - 1);
    assert Bytes(rest[..HEADER_LEN - 1]) + [rest[HEADER_LEN - 1].b] == Bytes(rest)[..HEADER_LEN];
    Deciding(g, t, i + HEADER_LEN - 1, g, Err(FrameTooLong));
  }

  lemma FrameWholeAt(g: Guard, t: seq<Tick>)
    requires var i := FindPair(Bytes(t));
      i < |t| && CutFrame(Bytes(t[i..])).Whole?
    ensures var i := FindPair(Bytes(t));
      var rest := t[i..];
      var expected := CutFrame(Bytes(rest)).expected;
      var last := rest[expected - 1];
      var (g1, r) := Conclude(g, Bytes(rest[..expected]), last.Now(), last.auth);
      FeedCore(Core([], g), t[..i + expected]) == (Core([], g1), Silence(i + expected - 1) + [Some(r)])
  {
    hide FeedCore, Conclude, Bytes;
    var i := FindPair(Bytes(t));
    var rest := t[i..];
    var expected := CutFrame(Bytes(rest)).expected;
    UpToFrame(g, t, expected - 1);
    var last := rest[expected - 1];
    assert Bytes(rest[..expected - 1]) + [last.b] == Bytes(rest[..expected]);
    assert Bytes(rest[..expected])[..expected] == Bytes(rest[..expected]);
    assert Bytes(rest[..expected])[4] == Bytes(rest)[4];
    var (g1, r) := Conclude(g, Bytes(rest[..expected]), last.Now(), last.auth);
    Deciding(g, t, i + expected - 1, g1, r);
  }

  lemma FeedCoreSplit(c: Core, t: seq<Tick>, n: nat)
    requires n < |t|
    ensures FeedCore(c, t).0 == FeedCore(FeedCore(c, t[..n + 1]).0, t[n + 1..]).0
    ensures FeedCore(c, t).1 == FeedCore(c, t[..n + 1]).1 + FeedCore(FeedCore(c, t[..n + 1]).0, t[n + 1..]).1
  {
    hide *;
    assert t[..n + 1] + t[n + 1..] == t;
    FeedCoreConcat(c, t[..n + 1], t[n + 1..]);
  }

  lemma Continue(g: Guard, t: seq<Tick>, n: nat, g1: Guard, r: Outcome)
    requires n < |t|
    requires FeedCore(Core([], g), t[..n + 1]) == (Core([], g1), Silence(n) + [Some(r)])
    ensures FeedCore(Core([], g), t).0 == FeedCore(Core([], g1), t[n + 1..]).0
    ensures FeedCore(Core([], g), t).1 == Silence(n) + [Some(r)] + FeedCore(Core([], g1), t[n + 1..]).1
  {
    hide *;
    FeedCoreSplit(Core([], g), t, n);
  }

  /** Without timeouts, one byte at a time agrees with the batch parser. */
  lemma {:induction false} CoreRefinesBatch(g: Guard, t: seq<Tick>)
    ensures FeedCore(Core([], g), t).0.guard == Batch(g, t).0
    ensures FeedCore(Core([], g), t).1 == Batch(g, t).1
    decreases |t|
  {
    hide Collect, Bytes, FeedCore, CutFrame, Conclude, FindPair, Silence;
    var i := FindPair(Bytes(t));
    var rest := t[i..];
    if i == |t| {
      NoPreamble(g, t);
    } else {
      match CutFrame(Bytes(rest))
      case Incomplete =>
        assert rest == rest[..|rest|] && t == t[..i + |rest|];
        UpToFrame(g, t, |rest|);
      case TooLong =>
        FrameTooLongAt(g, t);
        Continue(g, t, i + HEADER_LEN - 1, g, Err(FrameTooLong));
        assert rest[HEADER_LEN..] == t[i + HEADER_LEN..];
        CoreRefinesBatch(g, rest[HEADER_LEN..]);
      case Whole(expected) =>
        FrameWholeAt(g, t);
        var last := rest[expected - 1];
        var (g1, r) := Conclude(g, Bytes(rest[..expected]), last.Now(), last.auth);
        Continue(g, t, i + expected - 1, g1, r);
        assert rest[expected..] == t[i + expected..];
        CoreRefinesBatch(g1, rest[expected..]);
    }
  }

  // Timeouts.

  /** Bytes that arrive in time are collected. */
  lemma {:induction false} InTime(s: State, t: seq<Tick>)
    requires FirstLate(s.lastByteMs, t) == |t|
    ensures Feed(s, t).1 == FeedCore(s.core, t).1
    ensures Feed(s, t).0.core == FeedCore(s.core, t).0
    ensures Feed(s, t).0.lastByteMs == if t == [] then s.lastByteMs else Some(t[|t| - 1].Now())
    decreases |t|
  {
    hide Collect;
    if t != [] {
      InTime(Push(s, t[0].b, t[0].Now(), t[0].auth).0, t[1..]);
    }
  }

  lemma {:induction false} LateAt(last: Option<uint32>, t: seq<Tick>)
    ensures var j := FirstLate(last, t);
      && FirstLate(last, t[..j]) == j
      && (j < |t| ==> Late(if j == 0 then last else Some(t[j - 1].Now()), t[j].Now()))
    decreases |t|
  {
    var j := FirstLate(last, t);
    if j > 0 {
      LateAt(Some(t[0].Now()), t[1..]);
      assert t[1..][..j - 1] == t[..j][1..];
    }
  }

  /** A late byte is consumed by a timeout and leaves the decoder idle. */
  lemma LateByte(s: State, t: seq<Tick>)
    requires t != [] && Late(s.lastByteMs, t[0].Now())
    ensures
      var after := State(s.core.(buffer := []), Some(t[0].Now()));
      && Feed(s, t).0 == Feed(after, t[1..]).0
      && Feed(s, t).1 == [Some(Err(Timeout))] + Feed(after, t[1..]).1
  {
    hide Collect, Late;
  }

  /**
   Feeding any stream, one byte at a time, to an idle decoder gives at every byte what parsing the whole
   stream gives, and leaves the same replay and duty-cycle state.
   */
  lemma {:induction false} DecoderRefinesParser(s: State, t: seq<Tick>)
    requires s.core.buffer == []
    ensures Feed(s, t).1 == Parse(s.core.guard, s.lastByteMs, t).1
    ensures Feed(s, t).0.core.guard == Parse(s.core.guard, s.lastByteMs, t).0
    decreases |t|
  {
    hide Push, Feed, FeedCore, Batch, Late, FirstLate;
    var g := s.core.guard;
    var j := FirstLate(s.lastByteMs, t);
    LateAt(s.lastByteMs, t);
    InTime(s, t[..j]);
    CoreRefinesBatch(g, t[..j]);
    if j == |t| {
      assert t[..j] == t;
    } else {
      var before := Feed(s, t[..j]).0;
      LateByte(before, t[j..]);
      assert t == t[..j] + t[j..] && t[j..][1..] == t[j + 1..];
      DecoderRefinesParser(State(before.core.(buffer := []), Some(t[j].Now())), t[j + 1..]);
      FeedConcat(s, t[..j], t[j..]);
    }
  }

  lemma FirstPair(noise: seq<Tick>, f: seq<Tick>)
    requires NoPair(Bytes(noise))
    requires PairAt(Bytes(f), 0)
    ensures FindPair(Bytes(noise + f)) == |noise|
  {
    hide Bytes, FindPair;
    var all := Bytes(noise + f);
    assert all[|noise|] == f[0].b && all[|noise| + 1] == f[1].b;
    assert Bytes(f)[0] == f[0].b && Bytes(f)[1] == f[1].b;
    assert PairAt(all, |noise|);
    forall j: nat | j < |noise|
      ensures !PairAt(all, j)
    {
      assert !PairAt(Bytes(noise), j);
    }
  }

  /** A tick sequence that carries one encoded frame is cut and decoded as that frame. */
  lemma FrameAlone(g: Guard, f: seq<Tick>, frame: Frame, tag: Option<Tag>)
    requires Encodable(frame.command, frame.payload, tag)
    requires Bytes(f) == FrameBytes(frame.command, frame.sequence, frame.payload, tag)
    ensures PairAt(Bytes(f), 0) && CutFrame(Bytes(f)) == Whole(|f|)
    ensures Verified(frame, tag, f[|f| - 1].auth) ==>
      Conclude(g, Bytes(f), f[|f| - 1].Now(), f[|f| - 1].auth) == AcceptSequence(g, frame, f[|f| - 1].Now())
  {
    hide Bytes, FrameBytes, Decode, AcceptSequence, Verified;
    FrameLayout(frame.command, frame.sequence, frame.payload, tag);
    var b := Bytes(f);
    assert b[0] == b[..2][0] && b[1] == b[..2][1];
    DecodeEncode(frame, tag, f[|f| - 1].auth);
  }

  /**
   An encoded frame behind noise without a preamble reaches the replay and duty-cycle rules exactly as
   encoded, and nothing is reported before its last byte.
   */
  lemma FrameThroughNoise(s: State, noise: seq<Tick>, f: seq<Tick>, frame: Frame, tag: Option<Tag>)
    requires s.core.buffer == []
    requires FirstLate(s.lastByteMs, noise + f) == |noise + f|
    requires NoPair(Bytes(noise))
    requires Encodable(frame.command, frame.payload, tag)
    requires Bytes(f) == FrameBytes(frame.command, frame.sequence, frame.payload, tag)
    ensures f != []
    ensures Verified(frame, tag, f[|f| - 1].auth) ==>
      var (g, r) := AcceptSequence(s.core.guard, frame, f[|f| - 1].Now());
      && Feed(s, noise + f).1 == Silence(|noise| + |f| - 1) + [Some(r)]
      && Feed(s, noise + f).0.core == Core([], g)
  {
    hide Feed, FeedCore, Bytes, FrameBytes, Decode, AcceptSequence, Collect, FindPair, Silence, NoPair, FirstLate,
      CutFrame, Encodable, Verified, Conclude;
    var t := noise + f;
    var n, m := |noise|, |f|;
    FrameAlone(s.core.guard, f, frame, tag);
    FirstPair(noise, f);
    assert t[n..] == f && f[..m] == f && t[n..][..m] == f && t[..n + m] == t;
    FrameWholeAt(s.core.guard, t);
    InTime(s, t);
  }
}
