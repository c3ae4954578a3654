/** The optical frame format: the encoder, the batch decoder, and what each accepts. */
module OpticalCodec {
  import opened Wrappers
  import opened Words
  import opened Crc16
  import Bits
  import CrcBursts
  import opened Buffers

  const PREAMBLE: seq<uint8> := [0xA5, 0x5A]
  const VERSION: uint8 := 1
  const MAX_PAYLOAD := 32
  const AUTH_TAG_LEN := 8
  const HEADER_LEN := 9
  const CRC_LEN := 2
  const MAX_FRAME_LEN := 51

  datatype CommandType = TimeSync | TimeQuery | Status {
    function Byte(): uint8 {
      match this
      case TimeSync => 1
      case TimeQuery => 2
      case Status => 3
    }

    static function FromByte(value: uint8): Option<CommandType> {
      match value
      case 1 => Some(TimeSync)
      case 2 => Some(TimeQuery)
      case 3 => Some(Status)
      case _ => None
    }
  }

  /** A decoded frame; `payload` is the used part of the fixed array. */
  datatype Frame = Frame(command: CommandType, sequence: uint32, payload: seq<uint8>)

  /** The authentication hook: verifies a tag over header and payload. */
  type Verifier = (seq<uint8>, seq<uint8>) -> bool

  type Tag = t: seq<uint8> | |t| == AUTH_TAG_LEN witness [0, 0, 0, 0, 0, 0, 0, 0]

  datatype EncodeError =
    PayloadTooLarge | OutputTooSmall | AuthenticationRequired | AuthenticationNotAllowed

  datatype DecodeError =
    | Timeout
    | FrameTooLong
    | UnsupportedVersion
    | UnsupportedCommand
    | InvalidLength
    | Crc
    | Authentication
    | Replay
    | DutyCycle

  function TagBytes(tag: Option<Tag>): seq<uint8> {
    if tag.Some? then tag.value else []
  }

  function Header(command: CommandType, length: uint8, sequence: uint32): (h: seq<uint8>)
    ensures |h| == HEADER_LEN
  {
    PREAMBLE + [VERSION, command.Byte(), length] + ToBe32(sequence)
  }

  /** Header and payload, the part a tag authenticates. */
  function Signed(command: CommandType, sequence: uint32, payload: seq<uint8>, tag: Option<Tag>): seq<uint8>
    requires |payload| <= MAX_PAYLOAD
  {
    Header(command, |payload| + |TagBytes(tag)|, sequence) + payload
  }

  function Body(command: CommandType, sequence: uint32, payload: seq<uint8>, tag: Option<Tag>): seq<uint8>
    requires |payload| <= MAX_PAYLOAD
  {
    Signed(command, sequence, payload, tag) + TagBytes(tag)
  }

  /** The frame on the wire. */
  function FrameBytes(command: CommandType, sequence: uint32, payload: seq<uint8>, tag: Option<Tag>): seq<uint8>
    requires |payload| <= MAX_PAYLOAD
  {
    var body := Body(command, sequence, payload, tag);
    body + BeBytes(Crc16.Crc(body))
  }

  /** A tag is present exactly on time-sync frames. */
  predicate Encodable(command: CommandType, payload: seq<uint8>, tag: Option<Tag>) {
    |payload| <= MAX_PAYLOAD && (command.TimeSync? <==> tag.Some?)
  }

  function TotalLength(payload: seq<uint8>, tag: Option<Tag>): nat {
    HEADER_LEN + |payload| + |TagBytes(tag)| + CRC_LEN
  }

  method WriteHeader(command: CommandType, length: uint8, sequence: uint32, output: array<uint8>)
    requires HEADER_LEN <= output.Length
    modifies output
    ensures output[..] == Header(command, length, sequence) + old(output[..])[HEADER_LEN..]
  {
    hide ToBe32;
    ghost var was := output[..];
    assert output[..] == [] + was[0..];
    Append(output, 0, PREAMBLE, [], was);
    assert [] + PREAMBLE == PREAMBLE;
    Append(output, 2, [VERSION, command.Byte(), length], PREAMBLE, was);
    Append(output, 5, ToBe32(sequence), PREAMBLE + [VERSION, command.Byte(), length], was);
  }

  method WriteFrame(command: CommandType, sequence: uint32, payload: seq<uint8>, tag: Option<Tag>, output: array<uint8>)
    requires |payload| <= MAX_PAYLOAD && TotalLength(payload, tag) <= output.Length
    modifies output
    ensures output[..] == FrameBytes(command, sequence, payload, tag) + old(output[..])[TotalLength(payload, tag)..]
  {
    hide Header, BeBytes, Crc16.Crc;
    ghost var was := output[..];
    var length := |payload| + |TagBytes(tag)|;
    WriteHeader(command, length, sequence, output);
    Append(output, 9, payload, Header(command, length, sequence), was);
    Append(output, 9 + |payload|, TagBytes(tag), Signed(command, sequence, payload, tag), was);
    ghost var body := Body(command, sequence, payload, tag);
    assert output[..HEADER_LEN + length] == body;
    var crc := Crc16.Compute(output[..HEADER_LEN + length]);
    Append(output, HEADER_LEN + length, BeBytes(crc), body, was);
  }

  method Encode(command: CommandType, sequence: uint32, payload: seq<uint8>, tag: Option<Tag>, output: array<uint8>)
    returns (r: Result<nat, EncodeError>)
    modifies output
    ensures r.Ok? <==> Encodable(command, payload, tag) && TotalLength(payload, tag) <= output.Length
    ensures r.Ok? ==> r.value == TotalLength(payload, tag)
    ensures r.Ok? ==> output[..] == FrameBytes(command, sequence, payload, tag) + old(output[..])[r.value..]
    ensures r.Err? ==> output[..] == old(output[..])
    ensures |payload| > MAX_PAYLOAD ==> r == Err(PayloadTooLarge)
    ensures |payload| <= MAX_PAYLOAD && command.TimeSync? && tag.None? ==> r == Err(AuthenticationRequired)
    ensures |payload| <= MAX_PAYLOAD && !command.TimeSync? && tag.Some? ==> r == Err(AuthenticationNotAllowed)
    ensures Encodable(command, payload, tag) && r.Err? ==> r == Err(OutputTooSmall)
  {
    hide FrameBytes;
    if |payload| > MAX_PAYLOAD {
      return Err(PayloadTooLarge);
    }
    var requiresAuth := command.TimeSync?;
    if requiresAuth && tag.None? {
      return Err(AuthenticationRequired);
    }
    if !requiresAuth && tag.Some? {
      return Err(AuthenticationNotAllowed);
    }
    var total := TotalLength(payload, tag);
    if output.Length < total {
      return Err(OutputTooSmall);
    }
    WriteFrame(command, sequence, payload, tag, output);
    return Ok(total);
  }

  function Decode(bytes: seq<uint8>, auth: Option<Verifier>): Result<Frame, DecodeError> {
    if |bytes| < HEADER_LEN + CRC_LEN then Err(InvalidLength)
    else if bytes[..2] != PREAMBLE then Err(InvalidLength)
    else if bytes[2] != VERSION then Err(UnsupportedVersion)
    else
      var length := bytes[4] as nat;
      var total := HEADER_LEN + length + CRC_LEN;
      if length > MAX_PAYLOAD + AUTH_TAG_LEN || |bytes| != total then Err(InvalidLength)
      else if BeBytes(Crc16.Crc(bytes[..HEADER_LEN + length])) != bytes[total - 2..] then Err(DecodeError.Crc)
      else
        match CommandType.FromByte(bytes[3])
        case None => Err(UnsupportedCommand)
        case Some(command) =>
          if command.TimeSync? then
            if auth.None? || length < AUTH_TAG_LEN then Err(Authentication)
            else
              var payloadLen := length - AUTH_TAG_LEN;
              var tag := bytes[HEADER_LEN + payloadLen..HEADER_LEN + length];
              if !auth.value(bytes[..HEADER_LEN + payloadLen], tag) then Err(Authentication)
              else Ok(Frame(command, FromBe32(bytes[5..9]), bytes[9..9 + payloadLen]))
          else if length > MAX_PAYLOAD then Err(InvalidLength)
          else Ok(Frame(command, FromBe32(bytes[5..9]), bytes[9..9 + length]))
  }

  /** The hook accepts what the sender signed. */
  predicate Verified(frame: Frame, tag: Option<Tag>, auth: Option<Verifier>)
    requires |frame.payload| <= MAX_PAYLOAD
  {
    tag.Some? ==>
      auth.Some? && auth.value(Signed(frame.command, frame.sequence, frame.payload, tag), tag.value)
  }

  lemma FrameLayout(command: CommandType, sequence: uint32, payload: seq<uint8>, tag: Option<Tag>)
    requires |payload| <= MAX_PAYLOAD
    ensures var b := FrameBytes(command, sequence, payload, tag);
      var n := |payload| + |TagBytes(tag)|;
      && |b| == TotalLength(payload, tag)
      && b[..2] == PREAMBLE && b[2] == VERSION && b[3] == command.Byte() && b[4] == n
      && b[5..9] == ToBe32(sequence) && b[9..9 + |payload|] == payload
      && b[..9 + |payload|] == Signed(command, sequence, payload, tag)
      && b[9 + |payload|..9 + n] == TagBytes(tag)
      && b[..9 + n] == Body(command, sequence, payload, tag)
      && b[9 + n..] == BeBytes(Crc16.Crc(b[..9 + n]))
  {
    hide Crc16.Crc, BeBytes, ToBe32;
    var head := Header(command, |payload| + |TagBytes(tag)|, sequence);
    var t := TagBytes(tag);
    var c := BeBytes(Crc16.Crc(Body(command, sequence, payload, tag)));
    var b := FrameBytes(command, sequence, payload, tag);
    assert b == head + payload + t + c;
    assert head[..2] == PREAMBLE && head[5..9] == ToBe32(sequence);
    assert b[..9] == head;
    assert b[..2] == b[..9][..2] && b[5..9] == b[..9][5..9];
  }

  /** Decoding what was encoded gives the frame back, unless a time-sync tag is not verified. */
  lemma DecodeEncode(frame: Frame, tag: Option<Tag>, auth: Option<Verifier>)
    requires Encodable(frame.command, frame.payload, tag)
    ensures Decode(FrameBytes(frame.command, frame.sequence, frame.payload, tag), auth)
         == if Verified(frame, tag, auth) then Ok(frame) else Err(Authentication)
  {
    hide Crc16.Crc, BeBytes, ToBe32, FromBe32, FrameBytes;
    FrameLayout(frame.command, frame.sequence, frame.payload, tag);
    Be32RoundTrip(frame.sequence);
  }

  /** The tag carried by an accepted frame. */
  ghost function TagOf(bytes: seq<uint8>, frame: Frame): Option<Tag>
    requires frame.command.TimeSync? ==> |bytes| >= HEADER_LEN + AUTH_TAG_LEN + CRC_LEN
  {
    if frame.command.TimeSync? then Some(bytes[|bytes| - CRC_LEN - AUTH_TAG_LEN..|bytes| - CRC_LEN]) else None
  }

  /** Every accepted byte string is the encoding of the frame it decodes to. */
  lemma EncodeDecode(bytes: seq<uint8>, auth: Option<Verifier>, frame: Frame)
    requires Decode(bytes, auth) == Ok(frame)
    ensures frame.command.TimeSync? ==> |bytes| >= HEADER_LEN + AUTH_TAG_LEN + CRC_LEN
    ensures var tag := TagOf(bytes, frame);
      && Encodable(frame.command, frame.payload, tag)
      && bytes == FrameBytes(frame.command, frame.sequence, frame.payload, tag)
      && Verified(frame, tag, auth)
  {
    hide Crc16.Crc, BeBytes, ToBe32, FromBe32;
    var tag := TagOf(bytes, frame);
    var n := |bytes| - CRC_LEN;
    Be32Injective(bytes[5..9]);
    var p := |frame.payload|;
    assert bytes[..9] == bytes[..2] + [bytes[2], bytes[3], bytes[4]] + bytes[5..9];
    assert bytes[..9 + p] == bytes[..9] + bytes[9..9 + p];
    assert bytes[..9 + p] == Signed(frame.command, frame.sequence, frame.payload, tag);
    assert bytes[..n] == bytes[..9 + p] + bytes[9 + p..n];
    assert bytes[9 + p..n] == TagBytes(tag);
    assert bytes == bytes[..n] + bytes[n..];
  }

  /** The decoder accepts exactly the encoder's frames whose tag, if any, the hook verifies. */
  lemma DecodeAccepts(bytes: seq<uint8>, auth: Option<Verifier>, frame: Frame)
    ensures Decode(bytes, auth) == Ok(frame) <==>
      exists tag: Option<Tag> ::
        && Encodable(frame.command, frame.payload, tag)
        && bytes == FrameBytes(frame.command, frame.sequence, frame.payload, tag)
        && Verified(frame, tag, auth)
  {
    hide FrameBytes, Decode, Verified;
    if Decode(bytes, auth) == Ok(frame) {
      EncodeDecode(bytes, auth, frame);
      var tag := TagOf(bytes, frame);
      assert Encodable(frame.command, frame.payload, tag);
    }
    forall tag: Option<Tag> |
      && Encodable(frame.command, frame.payload, tag)
      && bytes == FrameBytes(frame.command, frame.sequence, frame.payload, tag)
      && Verified(frame, tag, auth)
      ensures Decode(bytes, auth) == Ok(frame)
    {
      DecodeEncode(frame, tag, auth);
    }
  }

  /** Which error refused bytes get: lengths and preamble, version, CRC, command, then the tag of a time sync. */
  lemma RefusedAs(bytes: seq<uint8>, auth: Option<Verifier>)
    ensures
      var r := Decode(bytes, auth);
      var begun := |bytes| >= HEADER_LEN + CRC_LEN && bytes[0] == 0xA5 && bytes[1] == 0x5A;
      var sized := begun && bytes[2] == 1 && bytes[4] <= 40 && |bytes| == HEADER_LEN + bytes[4] as nat + CRC_LEN;
      var checked := sized && Crc16.Crc(bytes) == Bits.Zeros(16);
      && (r == Err(UnsupportedVersion) <==> begun && bytes[2] != 1)
      && (r == Err(DecodeError.Crc) <==> sized && !checked)
      && (r == Err(UnsupportedCommand) <==> checked && !(1 <= bytes[3] <= 3))
      && (r == Err(Authentication) ==> checked && bytes[3] == 1)
      && (r == Err(InvalidLength) <==>
            !begun || (bytes[2] == 1 && !sized) || (checked && 2 <= bytes[3] <= 3 && bytes[4] > MAX_PAYLOAD))
      && (r.Err? ==> r.error in {UnsupportedVersion, DecodeError.Crc, UnsupportedCommand, Authentication, InvalidLength})
  {
    hide Crc16.Crc, BeBytes, FromBe32;
    if |bytes| >= HEADER_LEN + CRC_LEN {
      var m := bytes[..2];
      assert m[0] == bytes[0] && m[1] == bytes[1];
      assert m == PREAMBLE <==> m[0] == 0xA5 && m[1] == 0x5A;
      ResidueExactly(bytes);
    }
  }

  /** The last two bytes are the CRC of the others exactly when the CRC of all is zero. */
  lemma ResidueExactly(bytes: seq<uint8>)
    requires |bytes| >= CRC_LEN
    ensures var n := |bytes| - CRC_LEN;
      Crc16.Crc(bytes) == Bits.Zeros(16) <==> BeBytes(Crc16.Crc(bytes[..n])) == bytes[n..]
  {
    hide Crc16.Crc, BeBytes, CrcBursts.AllBits;
    var n := |bytes| - CRC_LEN;
    var message := bytes[..n];
    var right := message + BeBytes(Crc16.Crc(message));
    CrcBursts.Residue(message);
    assert bytes == message + bytes[n..];
    if Crc16.Crc(bytes) == Bits.Zeros(16) {
      CrcBursts.TailDiffers(message, bytes[n..], BeBytes(Crc16.Crc(message)));
      CrcBursts.BytesBurstDetected(bytes, right, 8 * n);
      assert bytes[n..] == right[n..];
    }
  }

  /** What the decoder has checked of a frame it accepts. */
  lemma AcceptedShape(bytes: seq<uint8>, auth: Option<Verifier>)
    requires Decode(bytes, auth).Ok?
    ensures HEADER_LEN + CRC_LEN <= |bytes| == HEADER_LEN + bytes[4] as nat + CRC_LEN
    ensures BeBytes(Crc16.Crc(bytes[..|bytes| - CRC_LEN])) == bytes[|bytes| - CRC_LEN..]
  {
  }

  /** Corruption confined to two adjacent bytes anywhere in an accepted frame is rejected, whatever the hook. */
  lemma BurstRejected(bytes: seq<uint8>, auth: Option<Verifier>, corrupt: seq<uint8>, auth': Option<Verifier>, k: nat)
    requires Decode(bytes, auth).Ok?
    requires DifferAtPair(bytes, corrupt, k)
    requires bytes != corrupt
    ensures Decode(corrupt, auth').Err?
  {
    hide Crc16.Crc, BeBytes, Decode;
    if Decode(corrupt, auth').Ok? {
      AcceptedShape(bytes, auth);
      AcceptedShape(corrupt, auth');
      var n := |bytes| - CRC_LEN;
      assert bytes == bytes[..n] + bytes[n..] && corrupt == corrupt[..n] + corrupt[n..];
      StoredCrcDetects(bytes[..n], bytes[n..], corrupt[..n], corrupt[n..], k);
    }
  }

  /**
   Corruption confined to sixteen consecutive bits anywhere in an accepted frame is rejected, whatever the hook; the
   bits may begin within a byte and reach into the third.
   */
  lemma BitBurstRejected(bytes: seq<uint8>, auth: Option<Verifier>, corrupt: seq<uint8>, auth': Option<Verifier>, k: nat)
    requires Decode(bytes, auth).Ok?
    requires CrcBursts.DifferInBurst(CrcBursts.AllBits(bytes), CrcBursts.AllBits(corrupt), k)
    requires bytes != corrupt
    ensures Decode(corrupt, auth').Err?
  {
    hide Crc16.Crc, BeBytes, Decode, CrcBursts.AllBits;
    if Decode(corrupt, auth').Ok? {
      AcceptedResidue(bytes, auth);
      AcceptedResidue(corrupt, auth');
      CrcBursts.BytesBurstDetected(bytes, corrupt, k);
    }
  }

  lemma AcceptedResidue(bytes: seq<uint8>, auth: Option<Verifier>)
    requires Decode(bytes, auth).Ok?
    ensures Crc16.Crc(bytes) == Bits.Zeros(16)
  {
    hide Crc16.Crc, BeBytes, Decode;
    AcceptedShape(bytes, auth);
    var n := |bytes| - CRC_LEN;
    CrcBursts.Residue(bytes[..n]);
    assert bytes == bytes[..n] + bytes[n..];
  }

  /** A message followed by its CRC, high byte first, differs from every other such in more than a pair. */
  lemma StoredCrcDetects(s: seq<uint8>, c: seq<uint8>, t: seq<uint8>, d: seq<uint8>, k: nat)
    requires |s| == |t| > 0 && |c| == |d| == 2
    requires DifferAtPair(s + c, t + d, k)
    requires BeBytes(Crc16.Crc(s)) == c && BeBytes(Crc16.Crc(t)) == d
    ensures s == t && c == d
  {
    hide Crc16.Crc;
    var n := |s|;
    assert forall i :: 0 <= i < n ==> (s + c)[i] == s[i] && (t + d)[i] == t[i];
    assert (s + c)[n] == c[0] && (s + c)[n + 1] == c[1] && (t + d)[n] == d[0] && (t + d)[n + 1] == d[1];
    if k + 1 < n {
      ByteOfInjective(Crc16.Crc(s)[..8], Crc16.Crc(t)[..8]);
      ByteOfInjective(Crc16.Crc(s)[8..], Crc16.Crc(t)[8..]);
      HalvesInjective(Crc16.Crc(s), Crc16.Crc(t));
      AdjacentPairDetected(s, t, k);
    } else if k + 1 == n {
      ByteOfInjective(Crc16.Crc(s)[..8], Crc16.Crc(t)[..8]);
      LastByteDetected(s, t);
    } else {
      assert s == t;
    }
  }
}
