/** The transfer protocol: the fixed 256-byte frame and the receiver that drives an atomic store. */
module Transfer {
  import opened Wrappers
  import opened Words
  import opened Buffers
  import opened Crc16
  import CrcBursts

  const FRAME_SIZE := 256
  const MAX_PAYLOAD := 228
  const MAGIC: seq<uint8> := [0x53, 0x57]  // "SW"
  const VERSION: uint8 := 1
  const HEADER_SIZE := 26
  const BODY_SIZE := 254

  datatype ObjectId = Settings | Activity | TotpMetadata {
    function Byte(): uint8 {
      match this
      case Settings => 1
      case Activity => 2
      case TotpMetadata => 3
    }

    static function FromByte(value: uint8): Option<ObjectId> {
      match value
      case 1 => Some(Settings)
      case 2 => Some(Activity)
      case 3 => Some(TotpMetadata)
      case _ => None
    }

    function MaxSize(): uint32 {
      match this
      case Settings => 512
      case Activity => 4096
      case TotpMetadata => 2048
    }
  }

  datatype Command = Read | WriteData | Commit | Abort {
    function Byte(): uint8 {
      match this
      case Read => 1
      case WriteData => 2
      case Commit => 3
      case Abort => 4
    }

    static function FromByte(value: uint8): Option<Command> {
      match value
      case 1 => Some(Read)
      case 2 => Some(WriteData)
      case 3 => Some(Commit)
      case 4 => Some(Abort)
      case _ => None
    }
  }

  /** A frame; `payload` is the used part of the fixed array. */
  datatype Frame = Frame(command: Command, object_: ObjectId, sequence: uint16, offset: uint32, totalLen: uint32,
                         payload: seq<uint8>, authTag: seq<uint8>)

  datatype DecodeError = BadMagic | BadVersion | BadCommand | BadObject | BadLength | BadCrc

  /** The payload stays inside the object, and the object within its limit. */
  predicate Bounded(object_: ObjectId, offset: uint32, totalLen: uint32, payloadLen: nat) {
    totalLen <= object_.MaxSize() && offset + payloadLen < TWO_32 && offset + payloadLen <= totalLen
  }

  predicate WellFormed(f: Frame) {
    |f.payload| <= MAX_PAYLOAD && |f.authTag| == 8 && Bounded(f.object_, f.offset, f.totalLen, |f.payload|)
  }

  function NewFrame(command: Command, object_: ObjectId, sequence: uint16, offset: uint32, totalLen: uint32,
                    payload: seq<uint8>, authTag: seq<uint8>): (f: Option<Frame>)
    requires |authTag| == 8
    ensures f.Some? <==> WellFormed(Frame(command, object_, sequence, offset, totalLen, payload, authTag))
    ensures f.Some? ==> f.value == Frame(command, object_, sequence, offset, totalLen, payload, authTag)
  {
    if |payload| > MAX_PAYLOAD || totalLen > object_.MaxSize() || offset > totalLen
       || offset + |payload| >= TWO_32 || offset + |payload| > totalLen
    then None
    else Some(Frame(command, object_, sequence, offset, totalLen, payload, authTag))
  }

  /** The limits of a frame: 228 payload bytes, and objects of 512, 4096 and 2048 bytes. */
  lemma LimitsAre(f: Frame)
    ensures WellFormed(f)
       <==> && |f.payload| <= 228 && |f.authTag| == 8 && f.offset + |f.payload| <= f.totalLen
            && f.totalLen <= if f.object_.Settings? then 512 else if f.object_.Activity? then 4096 else 2048
  {
  }

  function Header(f: Frame): (h: seq<uint8>)
    requires |f.payload| <= MAX_PAYLOAD && |f.authTag| == 8
    ensures |h| == HEADER_SIZE
  {
    MAGIC + [VERSION, f.command.Byte(), f.object_.Byte(), 0] + ToLe16(f.sequence) + ToLe32(f.offset)
    + ToLe32(f.totalLen) + ToLe16(|f.payload|) + f.authTag
  }

  function Body(f: Frame): (b: seq<uint8>)
    requires |f.payload| <= MAX_PAYLOAD && |f.authTag| == 8
    ensures |b| == BODY_SIZE
  {
    Header(f) + f.payload + ZeroBytes(MAX_PAYLOAD - |f.payload|)
  }

  /** The frame on the wire. */
  function Encoded(f: Frame): (b: seq<uint8>)
    requires |f.payload| <= MAX_PAYLOAD && |f.authTag| == 8
    ensures |b| == FRAME_SIZE
  {
    Body(f) + LeBytes(Crc16.Crc(Body(f)))
  }

  /** Writes the header fields into a zeroed frame. */
  method PutHeader(f: Frame, output: array<uint8>)
    requires |f.payload| <= MAX_PAYLOAD && |f.authTag| == 8
    requires HEADER_SIZE <= output.Length
    modifies output
    ensures output[..] == Header(f) + old(output[..])[HEADER_SIZE..]
  {
    hide ToLe16, ToLe32;
    ghost var was := output[..];
    ghost var h6 := MAGIC + [VERSION, f.command.Byte(), f.object_.Byte(), 0];
    ghost var h8 := h6 + ToLe16(f.sequence);
    ghost var h12 := h8 + ToLe32(f.offset);
    ghost var h16 := h12 + ToLe32(f.totalLen);
    ghost var h18 := h16 + ToLe16(|f.payload|);
    assert output[..] == [] + was[0..] && [] + MAGIC == MAGIC;
    Append(output, 0, MAGIC, [], was);
    Append(output, 2, [VERSION, f.command.Byte(), f.object_.Byte(), 0], MAGIC, was);
    Append(output, 6, ToLe16(f.sequence), h6, was);
    Append(output, 8, ToLe32(f.offset), h8, was);
    Append(output, 12, ToLe32(f.totalLen), h12, was);
    Append(output, 16, ToLe16(|f.payload|), h16, was);
    Append(output, 18, f.authTag, h18, was);
    assert h18 + f.authTag == Header(f);
  }

  lemma PaddedBody(f: Frame, was: seq<uint8>)
    requires |f.payload| <= MAX_PAYLOAD && |f.authTag| == 8 && was == ZeroBytes(FRAME_SIZE)
    ensures (Header(f) + f.payload) + was[HEADER_SIZE + |f.payload|..] == Body(f) + was[BODY_SIZE..]
  {
    hide Header;
    var n := HEADER_SIZE + |f.payload|;
    assert was[n..] == ZeroBytes(MAX_PAYLOAD - |f.payload|) + was[BODY_SIZE..];
  }

  method Encode(f: Frame) returns (output: array<uint8>)
    requires |f.payload| <= MAX_PAYLOAD && |f.authTag| == 8
    ensures fresh(output) && output[..] == Encoded(f)
  {
    hide Header, Body, LeBytes, Crc16.Crc;
    output := new uint8[FRAME_SIZE](_ => 0);
    ghost var was := output[..];
    PutHeader(f, output);
    Append(output, HEADER_SIZE, f.payload, Header(f), was);
    assert was == ZeroBytes(FRAME_SIZE);
    PaddedBody(f, was);
    assert output[..BODY_SIZE] == Body(f);
    var crc := Crc16.Compute(output[..BODY_SIZE]);
    Append(output, BODY_SIZE, LeBytes(crc), Body(f), was);
  }

  function Decode(bytes: seq<uint8>): Result<Frame, DecodeError>
    requires |bytes| == FRAME_SIZE
  {
    if bytes[0..2] != MAGIC then Err(BadMagic)
    else if bytes[2] != VERSION then Err(BadVersion)
    else if bytes[5] != 0 then Err(BadLength)
    else if LeBytes(Crc16.Crc(bytes[..BODY_SIZE])) != bytes[BODY_SIZE..] then Err(BadCrc)
    else
      var command := Command.FromByte(bytes[3]);
      var object_ := ObjectId.FromByte(bytes[4]);
      if command.None? then Err(BadCommand)
      else if object_.None? then Err(BadObject)
      else
        var payloadLen := FromLe16(bytes[16..18]);
        if payloadLen > MAX_PAYLOAD then Err(BadLength)
        else
          var totalLen := FromLe32(bytes[12..16]);
          var offset := FromLe32(bytes[8..12]);
          if !Bounded(object_.value, offset, totalLen, payloadLen) then Err(BadLength)
          else Ok(Frame(command.value, object_.value, FromLe16(bytes[6..8]), offset, totalLen,
                        bytes[26..26 + payloadLen], bytes[18..26]))
  }

  lemma HeaderLayout(f: Frame)
    requires |f.payload| <= MAX_PAYLOAD && |f.authTag| == 8
    ensures var h := Header(f);
      && h[0..2] == MAGIC && h[2] == VERSION && h[3] == f.command.Byte() && h[4] == f.object_.Byte() && h[5] == 0
      && h[6..8] == ToLe16(f.sequence) && h[8..12] == ToLe32(f.offset) && h[12..16] == ToLe32(f.totalLen)
      && h[16..18] == ToLe16(|f.payload|) && h[18..26] == f.authTag
  {
    hide ToLe16, ToLe32;
  }

  lemma EncodedLayout(f: Frame)
    requires |f.payload| <= MAX_PAYLOAD && |f.authTag| == 8
    ensures var b := Encoded(f);
      && b[..HEADER_SIZE] == Header(f) && b[26..26 + |f.payload|] == f.payload
      && b[..BODY_SIZE] == Body(f) && b[BODY_SIZE..] == LeBytes(Crc16.Crc(Body(f)))
  {
    hide Header, LeBytes, Crc16.Crc;
    assert Body(f)[..HEADER_SIZE] == Header(f);
  }

  lemma Le16RoundTrip(x: uint16)
    ensures FromLe16(ToLe16(x)) == x
  {
  }

  /** Decoding an encoded frame gives the frame back. */
  lemma DecodeEncoded(f: Frame)
    requires WellFormed(f)
    ensures Decode(Encoded(f)) == Ok(f)
  {
    hide Header, Body, Encoded, LeBytes, Crc16.Crc, ToLe16, FromLe16, ToLe32, FromLe32, Bounded;
    var b := Encoded(f);
    var h := b[..HEADER_SIZE];
    HeaderLayout(f);
    EncodedLayout(f);
    assert b[0..2] == h[0..2] && b[6..8] == h[6..8] && b[8..12] == h[8..12] && b[12..16] == h[12..16];
    assert b[16..18] == h[16..18] && b[18..26] == h[18..26];
    assert b[2] == h[2] && b[3] == h[3] && b[4] == h[4] && b[5] == h[5];
    Le16RoundTrip(f.sequence);
    Le16RoundTrip(|f.payload|);
    Le32RoundTrip(f.offset);
    Le32RoundTrip(f.totalLen);
  }

  // Corruption of two adjacent bytes.

  predicate CrcMatches(bytes: seq<uint8>)
    requires |bytes| == FRAME_SIZE
  {
    LeBytes(Crc16.Crc(bytes[..BODY_SIZE])) == bytes[BODY_SIZE..]
  }

  lemma AcceptedMatches(bytes: seq<uint8>)
    requires |bytes| == FRAME_SIZE && Decode(bytes).Ok?
    ensures CrcMatches(bytes)
  {
  }

  /**
   The decoder accepts exactly what has the header of a well-formed frame, its payload behind it, and the CRC of
   the body; the bytes behind the payload do not matter.
   */
  lemma DecodeAccepts(bytes: seq<uint8>, frame: Frame)
    requires |bytes| == FRAME_SIZE
    ensures Decode(bytes) == Ok(frame)
       <==> && WellFormed(frame) && bytes[..HEADER_SIZE] == Header(frame)
            && bytes[HEADER_SIZE..HEADER_SIZE + |frame.payload|] == frame.payload && CrcMatches(bytes)
  {
    hide LeBytes, Crc16.Crc, ToLe16, ToLe32, FromLe16, FromLe32, Header;
    var h := bytes[..HEADER_SIZE];
    HeaderSlices(bytes);
    if Decode(bytes) == Ok(frame) {
      HeaderOf(h, frame);
    } else if WellFormed(frame) && h == Header(frame) && CrcMatches(bytes)
              && bytes[HEADER_SIZE..HEADER_SIZE + |frame.payload|] == frame.payload
    {
      HeaderLayout(frame);
      Le16RoundTrip(frame.sequence);
      Le16RoundTrip(|frame.payload|);
      Le32RoundTrip(frame.offset);
      Le32RoundTrip(frame.totalLen);
    }
  }

  lemma HeaderSlices(bytes: seq<uint8>)
    requires |bytes| == FRAME_SIZE
    ensures var h := bytes[..HEADER_SIZE];
      && bytes[0..2] == h[0..2] && bytes[2] == h[2] && bytes[3] == h[3] && bytes[4] == h[4] && bytes[5] == h[5]
      && bytes[6..8] == h[6..8] && bytes[8..12] == h[8..12] && bytes[12..16] == h[12..16]
      && bytes[16..18] == h[16..18] && bytes[18..26] == h[18..26]
  {
  }

  lemma HeaderOf(h: seq<uint8>, f: Frame)
    requires |h| == HEADER_SIZE && |f.payload| <= MAX_PAYLOAD && |f.authTag| == 8
    requires h[0..2] == MAGIC && h[2] == VERSION && h[5] == 0
    requires Command.FromByte(h[3]) == Some(f.command) && ObjectId.FromByte(h[4]) == Some(f.object_)
    requires FromLe16(h[6..8]) == f.sequence && FromLe32(h[8..12]) == f.offset && FromLe32(h[12..16]) == f.totalLen
    requires FromLe16(h[16..18]) == |f.payload| && h[18..26] == f.authTag
    ensures h == Header(f)
  {
    hide ToLe16, ToLe32, FromLe16, FromLe32;
    Le16Injective(h[6..8]);
    Le32Injective(h[8..12]);
    Le32Injective(h[12..16]);
    Le16Injective(h[16..18]);
    assert h == h[0..2] + [h[2], h[3], h[4], h[5]] + h[6..8] + h[8..12] + h[12..16] + h[16..18] + h[18..26];
  }

  lemma Le16Injective(bytes: seq<uint8>)
    requires |bytes| == 2
    ensures ToLe16(FromLe16(bytes)) == bytes
  {
  }

  /** Which error a refused frame gets: magic, version, reserved byte, CRC, command, object, lengths, in this order. */
  lemma RefusedAs(bytes: seq<uint8>)
    requires |bytes| == FRAME_SIZE
    ensures
      var r := Decode(bytes);
      var framed := bytes[0] == 0x53 && bytes[1] == 0x57 && bytes[2] == 1;
      var checked := framed && bytes[5] == 0 && CrcMatches(bytes);
      && (r == Err(BadMagic) <==> bytes[0] != 0x53 || bytes[1] != 0x57)
      && (r == Err(BadVersion) <==> bytes[0] == 0x53 && bytes[1] == 0x57 && bytes[2] != 1)
      && (r == Err(BadCrc) <==> framed && bytes[5] == 0 && !CrcMatches(bytes))
      && (r == Err(BadCommand) <==> checked && !(1 <= bytes[3] <= 4))
      && (r == Err(BadObject) <==> checked && 1 <= bytes[3] <= 4 && ObjectId.FromByte(bytes[4]).None?)
  {
    hide LeBytes, Crc16.Crc, FromLe16, FromLe32;
    var m := bytes[0..2];
    assert m[0] == bytes[0] && m[1] == bytes[1];
    assert m == MAGIC <==> m[0] == 0x53 && m[1] == 0x57;
  }

  /** Everything but the last body byte and the CRC decides the rest of the checks. */
  lemma SameChecks(bytes: seq<uint8>, corrupt: seq<uint8>)
    requires |bytes| == |corrupt| == FRAME_SIZE
    requires Decode(bytes).Ok? && bytes[..HEADER_SIZE] == corrupt[..HEADER_SIZE]
    ensures Decode(corrupt).Ok? <==> CrcMatches(corrupt)
  {
    hide LeBytes, Crc16.Crc;
    var h, g := bytes[..HEADER_SIZE], corrupt[..HEADER_SIZE];
    assert bytes[0..2] == h[0..2] && corrupt[0..2] == g[0..2];
    assert bytes[2] == h[2] && bytes[3] == h[3] && bytes[4] == h[4] && bytes[5] == h[5];
    assert corrupt[2] == g[2] && corrupt[3] == g[3] && corrupt[4] == g[4] && corrupt[5] == g[5];
    assert bytes[16..18] == h[16..18] && bytes[12..16] == h[12..16] && bytes[8..12] == h[8..12];
    assert corrupt[16..18] == g[16..18] && corrupt[12..16] == g[12..16] && corrupt[8..12] == g[8..12];
  }

  /** Corruption of two adjacent bytes is rejected when both are body bytes or both are CRC bytes. */
  lemma BurstRejected(bytes: seq<uint8>, corrupt: seq<uint8>, k: nat)
    requires |bytes| == FRAME_SIZE && Decode(bytes).Ok?
    requires DifferAtPair(bytes, corrupt, k) && k != BODY_SIZE - 1
    requires bytes != corrupt
    ensures Decode(corrupt).Err?
  {
    hide Crc16.Crc, LeBytes, Decode;
    if Decode(corrupt).Ok? {
      var s, t := bytes[..BODY_SIZE], corrupt[..BODY_SIZE];
      assert k >= BODY_SIZE ==> s == t;
      AcceptedMatches(bytes);
      AcceptedMatches(corrupt);
      assert bytes == s + bytes[BODY_SIZE..] && corrupt == t + corrupt[BODY_SIZE..];
      if k < BODY_SIZE {
        assert bytes[BODY_SIZE..] == corrupt[BODY_SIZE..];
        LeBytesInjective(Crc16.Crc(s), Crc16.Crc(t));
        AdjacentPairDetected(s, t, k);
      }
    }
  }

  /** Corruption confined to sixteen consecutive bits of the body is rejected. */
  lemma BitBurstRejected(bytes: seq<uint8>, corrupt: seq<uint8>, k: nat)
    requires |bytes| == |corrupt| == FRAME_SIZE && Decode(bytes).Ok?
    requires bytes[BODY_SIZE..] == corrupt[BODY_SIZE..] && bytes != corrupt
    requires CrcBursts.DifferInBurst(CrcBursts.AllBits(bytes[..BODY_SIZE]), CrcBursts.AllBits(corrupt[..BODY_SIZE]), k)
    ensures Decode(corrupt).Err?
  {
    hide Crc16.Crc, LeBytes, Decode, CrcBursts.AllBits;
    if Decode(corrupt).Ok? {
      var s, t := bytes[..BODY_SIZE], corrupt[..BODY_SIZE];
      assert bytes == s + bytes[BODY_SIZE..] && corrupt == t + corrupt[BODY_SIZE..];
      AcceptedMatches(bytes);
      AcceptedMatches(corrupt);
      LeBytesInjective(Crc16.Crc(s), Crc16.Crc(t));
      CrcBursts.BytesBurstDetected(s, t, k);
    }
  }

  lemma LeBytesInjective(c: Register, d: Register)
    ensures LeBytes(c)[0] == LeBytes(d)[0] <==> c[..8] == d[..8]
    ensures LeBytes(c)[1] == LeBytes(d)[1] <==> c[8..] == d[8..]
    ensures LeBytes(c) == LeBytes(d) ==> c == d
  {
    if LeBytes(c)[0] == LeBytes(d)[0] {
      ByteOfInjective(c[..8], d[..8]);
    }
    if LeBytes(c)[1] == LeBytes(d)[1] {
      ByteOfInjective(c[8..], d[8..]);
    }
    if LeBytes(c) == LeBytes(d) {
      HalvesInjective(c, d);
    }
  }

  lemma StoredLow(b: uint8, c: Register)
    ensures b == LeBytes(c)[0] <==> Bits.FromInt(b, 8) == c[..8]
  {
    hide Bits.FromInt;
    Bits.WordRoundTrip(c[..8]);
    if Bits.FromInt(b, 8) == c[..8] {
      ByteInjective(b, LeBytes(c)[0]);
    }
  }

  lemma SameDifference(v: Bits.Word, w: Bits.Word, x: Bits.Word, mask: Bits.Word)
    requires |x| == |v| && DifferBy(v, w, mask)
    ensures DifferBy(v, x, mask) <==> x == w
  {
  }

  lemma LastAbsorbed(s: seq<uint8>)
    requires s != []
    ensures Crc16.Crc(s) == Absorb(CrcFrom(INIT, s[..|s| - 1]), s[|s| - 1])
  {
  }

  lemma NotSelf(b: uint8)
    ensures !DifferBy(Bits.FromInt(b, 8), Bits.FromInt(b, 8), UNSEEN_LAST)
  {
    hide Bits.FromInt;
    assert UNSEEN_LAST[0];
  }

  /**
   Corruption of the last body byte and the first CRC byte passes exactly when they change by 0x89 and
   0xA1: the CRC is stored low byte first, so the two bytes are not adjacent in the division.
   */
  lemma BurstAtSeam(bytes: seq<uint8>, corrupt: seq<uint8>)
    requires |bytes| == FRAME_SIZE && Decode(bytes).Ok?
    requires DifferAtPair(bytes, corrupt, BODY_SIZE - 1)
    requires bytes != corrupt
    ensures Decode(corrupt).Ok? <==>
      && DifferBy(Bits.FromInt(bytes[BODY_SIZE - 1], 8), Bits.FromInt(corrupt[BODY_SIZE - 1], 8), UNSEEN_LAST)
      && DifferBy(Bits.FromInt(bytes[BODY_SIZE], 8), Bits.FromInt(corrupt[BODY_SIZE], 8), UNSEEN_LOW)
  {
    hide Crc16.Crc, LeBytes, Decode, Absorb, DifferBy, Bits.FromInt, CrcMatches;
    var n := BODY_SIZE - 1;
    var c := CrcFrom(INIT, bytes[..n]);
    var p, q := Absorb(c, bytes[n]), Absorb(c, corrupt[n]);
    assert bytes[..HEADER_SIZE] == corrupt[..HEADER_SIZE];
    SameChecks(bytes, corrupt);
    SeamMatches(bytes, c);
    assert bytes[..n] == corrupt[..n];
    SeamMatches(corrupt, c);
    AcceptedMatches(bytes);
    StoredLow(bytes[BODY_SIZE], p);
    StoredLow(corrupt[BODY_SIZE], q);
    LeBytesInjective(p, q);
    if bytes[n] == corrupt[n] {
      NotSelf(bytes[n]);
      assert bytes[BODY_SIZE] == corrupt[BODY_SIZE] ==> bytes == corrupt;
    } else {
      HighByteTellsLast(c, bytes[n], corrupt[n]);
      if p[8..] == q[8..] {
        SameDifference(p[..8], q[..8], Bits.FromInt(corrupt[BODY_SIZE], 8), UNSEEN_LOW);
      }
    }
  }

  /** The CRC check, byte by byte, seen from the last body byte. */
  lemma SeamMatches(bytes: seq<uint8>, c: Register)
    requires |bytes| == FRAME_SIZE && c == CrcFrom(INIT, bytes[..BODY_SIZE - 1])
    ensures var p := Absorb(c, bytes[BODY_SIZE - 1]);
      CrcMatches(bytes) <==> LeBytes(p)[0] == bytes[BODY_SIZE] && LeBytes(p)[1] == bytes[BODY_SIZE + 1]
  {
    hide Crc16.Crc, CrcFrom, LeBytes, Absorb;
    LastAbsorbed(bytes[..BODY_SIZE]);
    assert bytes[..BODY_SIZE][..BODY_SIZE - 1] == bytes[..BODY_SIZE - 1];
  }
}
