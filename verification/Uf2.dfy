/** UF2 firmware files: the converter and the validator. */
module Uf2 {
  import opened Words
  import opened Wrappers

  type Bytes = seq<uint8>

  const MAGIC_START0: uint32 := 0x0A32_4655
  const MAGIC_START1: uint32 := 0x9E5D_5157
  const MAGIC_END: uint32 := 0x0AB1_6F30
  const FAMILY: uint32 := 0x2C29_472F
  const APP_START := 0x2000
  const MAX_APPLICATION := 0x3A000
  const FLAGS: uint32 := 0x2000

  datatype Error = BadSize | BadCount | BadStartMagic | NoFamilyFlag | BadMetadata | BadEndMagic

  datatype ValidatedUf2 = ValidatedUf2(image: Bytes, blockCount: nat)

  // One block.

  function Header(blockNo: nat, blockCount: nat): (h: Bytes)
    requires blockNo < blockCount <= 928
    ensures |h| == 32
  {
    ToLe32(MAGIC_START0) + ToLe32(MAGIC_START1) + ToLe32(FLAGS) + ToLe32(APP_START + 256 * blockNo)
    + ToLe32(256) + ToLe32(blockNo) + ToLe32(blockCount) + ToLe32(FAMILY)
  }

  function Block(blockNo: nat, blockCount: nat, chunk: Bytes): (b: Bytes)
    requires blockNo < blockCount <= 928 && |chunk| <= 256
    ensures |b| == 512
  {
    Header(blockNo, blockCount) + (chunk + ZeroBytes(256 - |chunk|)) + ZeroBytes(220) + ToLe32(MAGIC_END)
  }

  function WordAt(block: Bytes, offset: nat): uint32
    requires offset + 4 <= |block|
  {
    FromLe32(block[offset..offset + 4])
  }

  predicate HasFamily(flags: uint32) {
    flags / 0x2000 % 2 == 1
  }

  function CheckBlock(block: Bytes, blockNo: nat, blockCount: nat): Option<Error>
    requires |block| == 512
  {
    if WordAt(block, 0) != MAGIC_START0 || WordAt(block, 4) != MAGIC_START1 then Some(BadStartMagic)
    else if !HasFamily(WordAt(block, 8)) then Some(NoFamilyFlag)
    else if WordAt(block, 12) as int != APP_START + 256 * blockNo || WordAt(block, 16) != 256
            || WordAt(block, 20) != blockNo || WordAt(block, 24) != blockCount || WordAt(block, 28) != FAMILY
    then Some(BadMetadata)
    else if WordAt(block, 508) != MAGIC_END then Some(BadEndMagic)
    else None
  }

  /** Two blocks are the same but for the flags and the filler. */
  predicate SameBlock(a: Bytes, b: Bytes)
    requires |a| == 512 && |b| == 512
  {
    a[0..8] == b[0..8] && a[12..288] == b[12..288] && a[508..512] == b[508..512]
  }

  lemma WordIs(block: Bytes, offset: nat, value: uint32)
    requires offset + 4 <= |block|
    ensures WordAt(block, offset) == value <==> block[offset..offset + 4] == ToLe32(value)
  {
    hide FromLe32, ToLe32;
    Le32RoundTrip(value);
    Le32Injective(block[offset..offset + 4]);
  }

  lemma BlockParts(blockNo: nat, blockCount: nat, chunk: Bytes)
    requires blockNo < blockCount <= 928 && |chunk| == 256
    ensures
      var b := Block(blockNo, blockCount, chunk);
      && b[0..4] == ToLe32(MAGIC_START0) && b[4..8] == ToLe32(MAGIC_START1) && b[8..12] == ToLe32(FLAGS)
      && b[12..16] == ToLe32(APP_START + 256 * blockNo) && b[16..20] == ToLe32(256)
      && b[20..24] == ToLe32(blockNo) && b[24..28] == ToLe32(blockCount) && b[28..32] == ToLe32(FAMILY)
      && b[32..288] == chunk && b[508..512] == ToLe32(MAGIC_END)
  {
    hide ToLe32;
    HeaderParts(blockNo, blockCount);
    var b, h := Block(blockNo, blockCount, chunk), Header(blockNo, blockCount);
    assert b[..32] == h;
    assert b[0..4] == h[0..4] && b[4..8] == h[4..8] && b[8..12] == h[8..12] && b[12..16] == h[12..16];
    assert b[16..20] == h[16..20] && b[20..24] == h[20..24] && b[24..28] == h[24..28] && b[28..32] == h[28..32];
  }

  lemma HeaderParts(blockNo: nat, blockCount: nat)
    requires blockNo < blockCount <= 928
    ensures
      var h := Header(blockNo, blockCount);
      && h[0..4] == ToLe32(MAGIC_START0) && h[4..8] == ToLe32(MAGIC_START1) && h[8..12] == ToLe32(FLAGS)
      && h[12..16] == ToLe32(APP_START + 256 * blockNo) && h[16..20] == ToLe32(256)
      && h[20..24] == ToLe32(blockNo) && h[24..28] == ToLe32(blockCount) && h[28..32] == ToLe32(FAMILY)
  {
    hide ToLe32;
  }

  /** A block passes the checks and carries a payload exactly when it is the encoder's, but for flags and filler. */
  lemma BlockAccepted(block: Bytes, blockNo: nat, blockCount: nat, payload: Bytes)
    requires |block| == 512 && blockNo < blockCount <= 928 && |payload| == 256
    ensures CheckBlock(block, blockNo, blockCount) == None && block[32..288] == payload
       <==> SameBlock(block, Block(blockNo, blockCount, payload)) && HasFamily(WordAt(block, 8))
  {
    hide ToLe32, FromLe32, Block, HasFamily;
    var b := Block(blockNo, blockCount, payload);
    BlockParts(blockNo, blockCount, payload);
    SameInParts(block, b);
    WordIs(block, 0, MAGIC_START0);
    WordIs(block, 4, MAGIC_START1);
    WordIs(block, 12, APP_START + 256 * blockNo);
    WordIs(block, 16, 256);
    WordIs(block, 20, blockNo);
    WordIs(block, 24, blockCount);
    WordIs(block, 28, FAMILY);
    WordIs(block, 508, MAGIC_END);
  }

  lemma SameInParts(a: Bytes, b: Bytes)
    requires |a| == 512 && |b| == 512
    ensures SameBlock(a, b) <==>
      && a[0..4] == b[0..4] && a[4..8] == b[4..8] && a[12..16] == b[12..16] && a[16..20] == b[16..20]
      && a[20..24] == b[20..24] && a[24..28] == b[24..28] && a[28..32] == b[28..32]
      && a[32..288] == b[32..288] && a[508..512] == b[508..512]
  {
    Halves(a, b, 0, 4, 8);
    Halves(a, b, 12, 16, 288);
    Halves(a, b, 16, 20, 288);
    Halves(a, b, 20, 24, 288);
    Halves(a, b, 24, 28, 288);
    Halves(a, b, 28, 32, 288);
  }

  lemma Halves(a: Bytes, b: Bytes, i: nat, j: nat, k: nat)
    requires i <= j <= k <= |a| == |b|
    ensures a[i..k] == b[i..k] <==> a[i..j] == b[i..j] && a[j..k] == b[j..k]
  {
    assert a[i..k] == a[i..j] + a[j..k] && b[i..k] == b[i..j] + b[j..k];
    assert a[i..j] == a[i..k][..j - i] && b[i..j] == b[i..k][..j - i];
    assert a[j..k] == a[i..k][j - i..] && b[j..k] == b[i..k][j - i..];
  }

  /** Which error a block gets: start magic "UF2" and a line feed, family flag, place and board, end magic, in this order. */
  lemma BlockRefusedAs(block: Bytes, blockNo: nat, blockCount: nat)
    requires |block| == 512 && blockNo < blockCount <= 928
    ensures
      var r := CheckBlock(block, blockNo, blockCount);
      var begun := block[0..4] == [0x55, 0x46, 0x32, 0x0A] && block[4..8] == [0x57, 0x51, 0x5D, 0x9E];
      var familiar := begun && block[9] / 0x20 % 2 == 1;
      var placed := familiar && block[12..16] == ToLe32(0x2000 + 256 * blockNo) && block[16..20] == [0, 1, 0, 0]
        && block[20..24] == ToLe32(blockNo) && block[24..28] == ToLe32(blockCount)
        && block[28..32] == [0x2F, 0x47, 0x29, 0x2C];
      && (r == Some(BadStartMagic) <==> !begun)
      && (r == Some(NoFamilyFlag) <==> begun && !familiar)
      && (r == Some(BadMetadata) <==> familiar && !placed)
      && (r == Some(BadEndMagic) <==> placed && block[508..512] != [0x30, 0x6F, 0xB1, 0x0A])
      && (r.Some? ==> r.value in {BadStartMagic, NoFamilyFlag, BadMetadata, BadEndMagic})
  {
    hide ToLe32, FromLe32, HasFamily;
    WordIs(block, 0, MAGIC_START0);
    WordIs(block, 4, MAGIC_START1);
    FlagByte(block);
    WordIs(block, 12, APP_START + 256 * blockNo);
    WordIs(block, 16, 256);
    WordIs(block, 20, blockNo);
    WordIs(block, 24, blockCount);
    WordIs(block, 28, FAMILY);
    WordIs(block, 508, MAGIC_END);
    MagicBytes();
  }

  lemma MagicBytes()
    ensures ToLe32(MAGIC_START0) == [0x55, 0x46, 0x32, 0x0A] && ToLe32(MAGIC_START1) == [0x57, 0x51, 0x5D, 0x9E]
    ensures ToLe32(256) == [0, 1, 0, 0] && ToLe32(FAMILY) == [0x2F, 0x47, 0x29, 0x2C]
    ensures ToLe32(MAGIC_END) == [0x30, 0x6F, 0xB1, 0x0A]
  {
  }

  /** The family flag is bit 5 of the second flag byte. */
  lemma FlagByte(block: Bytes)
    requires |block| == 512
    ensures HasFamily(WordAt(block, 8)) <==> block[9] / 0x20 % 2 == 1
  {
    var b0, b1, b2, b3 := block[8], block[9], block[10], block[11];
    var w := WordAt(block, 8);
    assert w == b3 as int * 0x100_0000 + b2 as int * 0x1_0000 + b1 as int * 0x100 + b0;
    QuotientUnique(w, 0x2000, b3 as int * 0x800 + b2 as int * 8 + b1 as int / 0x20, b1 as int % 0x20 * 0x100 + b0 as int);
  }

  /** Files of the wrong size, and of more than 928 blocks, are refused as such. */
  lemma SizeRefusedAs(uf2: Bytes)
    ensures Validated(uf2) == Err(BadSize) <==> uf2 == [] || |uf2| % 512 != 0
    ensures Validated(uf2) == Err(BadCount) <==> |uf2| > 928 * 512 && |uf2| % 512 == 0
  {
    NoSizeError(uf2, |uf2| / 512);
  }

  lemma {:induction false} NoSizeError(uf2: Bytes, n: nat)
    requires 512 * n <= |uf2|
    ensures FirstError(uf2, n).Some? ==> FirstError(uf2, n).value !in {BadSize, BadCount}
  {
    hide WordAt, HasFamily, BlockAt;
    if n > 0 {
      NoSizeError(uf2, n - 1);
    }
  }

  // Whole files.

  function BlocksFor(length: nat): nat {
    (length + 255) / 256
  }

  function Chunk(image: Bytes, blockNo: nat): (c: Bytes)
    requires 256 * blockNo < |image|
    ensures |c| <= 256
  {
    image[256 * blockNo..if 256 * (blockNo + 1) <= |image| then 256 * (blockNo + 1) else |image|]
  }

  function Blocks(image: Bytes, n: nat): (out: Bytes)
    requires |image| <= MAX_APPLICATION && n <= BlocksFor(|image|)
    ensures |out| == 512 * n
  {
    if n == 0 then [] else Blocks(image, n - 1) + Block(n - 1, BlocksFor(|image|), Chunk(image, n - 1))
  }

  /** The UF2 file of an image, or nothing for an empty or oversized image. */
  function Convert(image: Bytes): Bytes {
    if 0 < |image| <= MAX_APPLICATION then Blocks(image, BlocksFor(|image|)) else []
  }

  method ConvertToUf2(image: Bytes) returns (out: Bytes)
    ensures out == Convert(image)
  {
    hide ToLe32, Header, Block, Chunk, Blocks;
    if |image| == 0 || |image| > MAX_APPLICATION {
      return [];
    }
    NoBlocks(image);
    var blocks := (|image| + 255) / 256;
    out := [];
    for blockNo := 0 to blocks
      invariant out == Blocks(image, blockNo)
    {
      ghost var before := out;
      var ptr := 256 * blockNo;
      var chunk := image[ptr..if ptr + 256 <= |image| then ptr + 256 else |image|];
      out := out + ToLe32(MAGIC_START0);
      out := out + ToLe32(MAGIC_START1);
      out := out + ToLe32(FLAGS);
      out := out + ToLe32(ptr + APP_START);
      out := out + ToLe32(256);
      out := out + ToLe32(blockNo);
      out := out + ToLe32(blocks);
      out := out + ToLe32(FAMILY);
      AppendHeader(before, blockNo, blocks);
      assert out == before + Header(blockNo, blocks);
      out := out + chunk;
      out := out + ZeroBytes(256 - |chunk|);
      out := out + ZeroBytes(512 - 32 - 256 - 4);
      out := out + ToLe32(MAGIC_END);
      AppendBlock(before, image, blockNo);
    }
  }

  lemma NoBlocks(image: Bytes)
    requires |image| <= MAX_APPLICATION
    ensures Blocks(image, 0) == []
  {
  }

  lemma AppendHeader(before: Bytes, blockNo: nat, blockCount: nat)
    requires blockNo < blockCount <= 928
    ensures
      before + ToLe32(MAGIC_START0) + ToLe32(MAGIC_START1) + ToLe32(FLAGS) + ToLe32(256 * blockNo + APP_START)
      + ToLe32(256) + ToLe32(blockNo) + ToLe32(blockCount) + ToLe32(FAMILY)
        == before + Header(blockNo, blockCount)
  {
    hide ToLe32;
  }

  lemma AppendBlock(before: Bytes, image: Bytes, blockNo: nat)
    requires 0 < |image| <= MAX_APPLICATION && blockNo < BlocksFor(|image|) && before == Blocks(image, blockNo)
    ensures
      var chunk := Chunk(image, blockNo);
      before + Header(blockNo, BlocksFor(|image|)) + chunk + ZeroBytes(256 - |chunk|) + ZeroBytes(220) + ToLe32(MAGIC_END)
        == Blocks(image, blockNo + 1)
    ensures Chunk(image, blockNo)
         == image[256 * blockNo..if 256 * blockNo + 256 <= |image| then 256 * blockNo + 256 else |image|]
  {
    hide ToLe32, Header;
  }

  function BlockAt(uf2: Bytes, blockNo: nat): (b: Bytes)
    requires 512 * (blockNo + 1) <= |uf2|
    ensures |b| == 512
  {
    uf2[512 * blockNo..512 * (blockNo + 1)]
  }

  /** The first error in the first `n` blocks. */
  function FirstError(uf2: Bytes, n: nat): Option<Error>
    requires 512 * n <= |uf2|
  {
    if n == 0 then None
    else
      var before := FirstError(uf2, n - 1);
      if before.Some? then before else CheckBlock(BlockAt(uf2, n - 1), n - 1, |uf2| / 512)
  }

  function Payloads(uf2: Bytes, n: nat): (image: Bytes)
    requires 512 * n <= |uf2|
    ensures |image| == 256 * n
  {
    if n == 0 then [] else Payloads(uf2, n - 1) + BlockAt(uf2, n - 1)[32..288]
  }

  function Validated(uf2: Bytes): Result<ValidatedUf2, Error> {
    var n := |uf2| / 512;
    if uf2 == [] || |uf2| % 512 != 0 then Err(BadSize)
    else if n > 928 then Err(BadCount)
    else
      var error := FirstError(uf2, n);
      if error.Some? then Err(error.value) else Ok(ValidatedUf2(Payloads(uf2, n), n))
  }

  method Validate(uf2: Bytes) returns (r: Result<ValidatedUf2, Error>)
    ensures r == Validated(uf2)
  {
    hide FromLe32, FirstError, Payloads, HasFamily;
    if |uf2| == 0 || |uf2| % 512 != 0 {
      return Err(BadSize);
    }
    var blockCount := |uf2| / 512;
    if blockCount == 0 || blockCount > MAX_APPLICATION / 256 {
      return Err(BadCount);
    }
    var image := [];
    NothingChecked(uf2);
    for blockNo := 0 to blockCount
      invariant FirstError(uf2, blockNo) == None && image == Payloads(uf2, blockNo)
    {
      var block := uf2[blockNo * 512..(blockNo + 1) * 512];
      CheckNext(uf2, blockNo);
      if WordAt(block, 0) != MAGIC_START0 || WordAt(block, 4) != MAGIC_START1 {
        return Err(BadStartMagic);
      }
      if !HasFamily(WordAt(block, 8)) {
        return Err(NoFamilyFlag);
      }
      if WordAt(block, 12) as int != APP_START + blockNo * 256 || WordAt(block, 16) != 256
         || WordAt(block, 20) != blockNo || WordAt(block, 24) != blockCount || WordAt(block, 28) != FAMILY
      {
        return Err(BadMetadata);
      }
      if WordAt(block, 508) != MAGIC_END {
        return Err(BadEndMagic);
      }
      image := image + block[32..32 + 256];
    }
    return Ok(ValidatedUf2(image, blockCount));
  }

  lemma NothingChecked(uf2: Bytes)
    ensures FirstError(uf2, 0) == None && Payloads(uf2, 0) == []
  {
  }

  lemma CheckNext(uf2: Bytes, blockNo: nat)
    requires 512 * (blockNo + 1) <= |uf2|
    ensures
      var block := uf2[512 * blockNo..512 * (blockNo + 1)];
      var error := CheckBlock(block, blockNo, |uf2| / 512);
      && (FirstError(uf2, blockNo) == None && error.Some? ==> FirstError(uf2, |uf2| / 512) == error)
      && (FirstError(uf2, blockNo) == None && error == None ==> FirstError(uf2, blockNo + 1) == None)
      && Payloads(uf2, blockNo + 1) == Payloads(uf2, blockNo) + block[32..288]
  {
    hide CheckBlock;
    if FirstError(uf2, blockNo) == None && FirstError(uf2, blockNo + 1).Some? {
      ErrorStays(uf2, blockNo + 1, |uf2| / 512);
    }
  }

  lemma {:induction false} ErrorStays(uf2: Bytes, n: nat, m: nat)
    requires n <= m && 512 * m <= |uf2| && FirstError(uf2, n).Some?
    ensures FirstError(uf2, m) == FirstError(uf2, n)
    decreases m
  {
    hide CheckBlock;
    if n < m {
      ErrorStays(uf2, n, m - 1);
    }
  }

  lemma {:induction false} NoError(uf2: Bytes, n: nat)
    requires 512 * n <= |uf2|
    ensures FirstError(uf2, n) == None
       <==> forall i :: 0 <= i < n ==> CheckBlock(BlockAt(uf2, i), i, |uf2| / 512) == None
  {
    hide CheckBlock, BlockAt;
    if n > 0 {
      NoError(uf2, n - 1);
    }
  }

  lemma {:induction false} BlocksAt(image: Bytes, n: nat, i: nat)
    requires |image| <= MAX_APPLICATION && i < n <= BlocksFor(|image|)
    ensures BlockAt(Blocks(image, n), i) == Block(i, BlocksFor(|image|), Chunk(image, i))
    decreases n
  {
    hide Block, Chunk;
    if i < n - 1 {
      BlocksAt(image, n - 1, i);
      assert BlockAt(Blocks(image, n), i) == BlockAt(Blocks(image, n - 1), i);
    }
  }

  lemma LastChunk(image: Bytes, n: nat)
    requires n > 0 && |image| == 256 * n
    ensures Chunk(image, n - 1) == image[256 * (n - 1)..]
  {
  }

  lemma ChunkPrefix(image: Bytes, length: nat, i: nat)
    requires 256 * (i + 1) <= length <= |image|
    ensures Chunk(image[..length], i) == Chunk(image, i)
  {
  }

  lemma {:induction false} PayloadsAre(uf2: Bytes, n: nat, image: Bytes)
    requires 512 * n <= |uf2| && |image| == 256 * n
    ensures Payloads(uf2, n) == image
       <==> forall i :: 0 <= i < n ==> BlockAt(uf2, i)[32..288] == Chunk(image, i)
    decreases n
  {
    hide BlockAt, Chunk;
    if n > 0 {
      LastChunk(image, n);
      var before := image[..256 * (n - 1)];
      PayloadsAre(uf2, n - 1, before);
      forall i | 0 <= i < n - 1
        ensures Chunk(before, i) == Chunk(image, i)
      {
        ChunkPrefix(image, 256 * (n - 1), i);
      }
      assert image == before + Chunk(image, n - 1);
      if Payloads(uf2, n) == image {
        assert Payloads(uf2, n)[..256 * (n - 1)] == Payloads(uf2, n - 1);
        assert Payloads(uf2, n)[256 * (n - 1)..] == BlockAt(uf2, n - 1)[32..288];
      }
    }
  }

  /** An image padded with zeros to whole blocks. */
  function Padded(image: Bytes): (p: Bytes)
    ensures |p| == 256 * BlocksFor(|image|)
  {
    image + ZeroBytes(256 * BlocksFor(|image|) - |image|)
  }

  lemma PaddedBlock(image: Bytes, i: nat)
    requires |image| <= MAX_APPLICATION && i < BlocksFor(|image|)
    ensures Block(i, BlocksFor(|image|), Chunk(image, i)) == Block(i, BlocksFor(|image|), Chunk(Padded(image), i))
  {
    hide Header, ToLe32;
    var c, p := Chunk(image, i), Chunk(Padded(image), i);
    assert c + ZeroBytes(256 - |c|) == p;
    assert p + ZeroBytes(256 - |p|) == p;
  }

  lemma {:induction false} PaddedBlocks(image: Bytes, n: nat)
    requires |image| <= MAX_APPLICATION && n <= BlocksFor(|image|)
    ensures |Padded(image)| <= MAX_APPLICATION && BlocksFor(|Padded(image)|) == BlocksFor(|image|)
    ensures Blocks(Padded(image), n) == Blocks(image, n)
    decreases n
  {
    hide Block, Chunk, Padded;
    if n > 0 {
      PaddedBlocks(image, n - 1);
      PaddedBlock(image, n - 1);
    }
  }

  /** Two files are the same, but for the flags and the filler of each block. */
  predicate SameFile(a: Bytes, b: Bytes) {
    |a| == |b| && forall i :: 0 <= i < |a| / 512 ==> SameBlock(BlockAt(a, i), BlockAt(b, i))
  }

  /** Every block says that it names a family. */
  predicate Familiar(uf2: Bytes) {
    forall i :: 0 <= i < |uf2| / 512 ==> HasFamily(WordAt(BlockAt(uf2, i), 8))
  }

  /**
   The validator accepts a file with an image exactly when the file is the converter's for that image, but for the
   filler and the flags, of which each block must have the family bit.
   */
  lemma AcceptedExactly(uf2: Bytes, image: Bytes)
    ensures Validated(uf2) == Ok(ValidatedUf2(image, |image| / 256))
       <==> image != [] && |image| % 256 == 0 && |image| <= MAX_APPLICATION
            && SameFile(uf2, Convert(image)) && Familiar(uf2)
  {
    hide CheckBlock, SameBlock, HasFamily, Chunk, Block, WordAt, BlockAt, FirstError, Payloads, Blocks;
    var n := |uf2| / 512;
    if image != [] && |image| == 256 * n && |uf2| == 512 * n && n <= 928 {
      NoError(uf2, n);
      PayloadsAre(uf2, n, image);
      assert BlocksFor(|image|) == n;
      forall i | 0 <= i < n
        ensures CheckBlock(BlockAt(uf2, i), i, n) == None && BlockAt(uf2, i)[32..288] == Chunk(image, i)
           <==> SameBlock(BlockAt(uf2, i), BlockAt(Convert(image), i)) && HasFamily(WordAt(BlockAt(uf2, i), 8))
      {
        ChunkWhole(image, i);
        BlocksAt(image, n, i);
        BlockAccepted(BlockAt(uf2, i), i, n, Chunk(image, i));
      }
    }
  }

  lemma ChunkWhole(image: Bytes, i: nat)
    requires |image| % 256 == 0 && 256 * i < |image|
    ensures |Chunk(image, i)| == 256
  {
  }

  /** The converter's file is accepted and gives back the image, padded with zeros; it refuses every other image. */
  lemma ConvertThenValidate(image: Bytes)
    ensures Validated(Convert(image)) ==
      if 0 < |image| <= MAX_APPLICATION then Ok(ValidatedUf2(Padded(image), BlocksFor(|image|))) else Err(BadSize)
  {
    hide FirstError, Payloads, Blocks;
    if 0 < |image| <= MAX_APPLICATION {
      var n := BlocksFor(|image|);
      var padded := Padded(image);
      PaddedBlocks(image, n);
      assert Convert(padded) == Convert(image);
      var uf2 := Convert(image);
      forall i | 0 <= i < n
        ensures HasFamily(WordAt(BlockAt(uf2, i), 8)) && SameBlock(BlockAt(uf2, i), BlockAt(uf2, i))
      {
        ChunkWhole(padded, i);
        BlocksAt(padded, n, i);
        BlockParts(i, n, Chunk(padded, i));
        WordIs(BlockAt(uf2, i), 8, FLAGS);
        assert HasFamily(FLAGS);
      }
      AcceptedExactly(uf2, padded);
    }
  }

  /** Converting the image of an accepted file gives the file back, but for flags and filler. */
  lemma ValidateThenConvert(uf2: Bytes)
    ensures Validated(uf2).Ok? ==> SameFile(uf2, Convert(Validated(uf2).value.image))
  {
    hide FirstError, Payloads, Convert, SameFile, Familiar;
    if Validated(uf2).Ok? {
      AcceptedExactly(uf2, Payloads(uf2, |uf2| / 512));
    }
  }
}
