/** The image files made and checked off the device (tools/image_format.js,
  * linux_gateway/gateway/packed_image.py), and their agreement with the checks
  * made on it (boot_image.c). */
module PackedImage {
  import opened Bytes
  import opened Slots
  import opened ImageFormat
  import Crc32

  datatype Result<+T> = Success(value: T) | Failure(reason: string)

  // ------------------------------------------------------- packed_image.py

  datatype Packed = Packed(data: SlotBytes, slot: slot, version: word, size: word, crc: word, build: word)

  /** PackedImage.parse. */
  function Parse(data: seq<byte>): Result<Packed> {
    if |data| != SLOT_SIZE then Failure("image length")
    else
      var h := HeaderOf(data);
      if h.magic != MAGIC || h.headerVersion != VERSION then Failure("magic or version")
      else if Crc32.Checksum(data[HEADER_OFFSET..HEADER_OFFSET + HEADER_SIZE][..CRC_LENGTH]) != h.headerCrc then
        Failure("header checksum")
      else if !(8 <= h.imageSize <= HEADER_OFFSET) then Failure("payload size")
      else if h.vectorAddress != Base(SLOT_A) && h.vectorAddress != Base(SLOT_B) then Failure("vector address")
      else
        var msp, reset := WordAt(data, 0), WordAt(data, 4);
        if !StackPointerOk(msp) then Failure("stack pointer")
        else if reset % 2 == 0 || !(h.vectorAddress <= ResetAddress(reset) < h.vectorAddress + h.imageSize)
                || h.entryAddress != reset then
          Failure("reset handler")
        else if Crc32.Checksum(data[..h.imageSize]) != h.imageCrc then Failure("payload checksum")
        else if !IsErased(data[HEADER_OFFSET + HEADER_SIZE..]) then Failure("header tail")
        else Success(Packed(data, if h.vectorAddress == Base(SLOT_A) then SLOT_A else SLOT_B,
                            h.softwareVersion, h.imageSize, h.imageCrc, h.buildId))
  }

  /** transfer_chunks. */
  function TransferChunks(data: seq<byte>, maxBlockLength: int): Result<seq<seq<byte>>> {
    if !(3 <= maxBlockLength <= 4095) then Failure("block length") else Success(Chunks(data, maxBlockLength - 2))
  }

  function Chunks(data: seq<byte>, length: nat): seq<seq<byte>>
    requires length > 0
    decreases |data|
  {
    if data == [] then []
    else if |data| <= length then [data]
    else [data[..length]] + Chunks(data[length..], length)
  }

  function Concat(chunks: seq<seq<byte>>): seq<byte>
    decreases |chunks|
  {
    if chunks == [] then [] else chunks[0] + Concat(chunks[1..])
  }

  /** The chunks are the data in order, none empty, none too long. */
  lemma {:induction false} ChunksJoin(data: seq<byte>, length: nat)
    requires length > 0
    ensures Concat(Chunks(data, length)) == data
    ensures forall i :: 0 <= i < |Chunks(data, length)| ==> 0 < |Chunks(data, length)[i]| <= length
    ensures forall i :: 0 <= i < |Chunks(data, length)| - 1 ==> |Chunks(data, length)[i]| == length
    decreases |data|
  {
    if |data| > length {
      ChunksJoin(data[length..], length);
      assert data == data[..length] + data[length..];
      assert Chunks(data, length)[1..] == Chunks(data[length..], length);
    } else if data != [] {
      assert Chunks(data, length)[1..] == [];
    }
  }

  /** Every chunk fits a transfer request of the block length, which has two bytes of
    * its own, and every chunk but the last fills it. */
  lemma ChunksFit(data: seq<byte>, maxBlockLength: int)
    ensures TransferChunks(data, maxBlockLength).Success? <==> 3 <= maxBlockLength <= 4095
    ensures TransferChunks(data, maxBlockLength).Success? ==>
      var chunks := TransferChunks(data, maxBlockLength).value;
      && Concat(chunks) == data
      && (forall i :: 0 <= i < |chunks| ==> 0 < |chunks[i]| && |chunks[i]| + 2 <= maxBlockLength)
      && (forall i :: 0 <= i < |chunks| - 1 ==> |chunks[i]| + 2 == maxBlockLength)
  {
    hide Chunks, Concat;
    if 3 <= maxBlockLength <= 4095 {
      ChunksJoin(data, maxBlockLength - 2);
    }
  }

  /** parse accepts exactly the images that the bootloader would find valid in the
    * slot their vector address names, with a payload that has room for both
    * vectors and with the sector behind the header left erased. */
  lemma ParseAgrees(data: seq<byte>)
    ensures Parse(data).Success? <==>
      && |data| == SLOT_SIZE && (exists id: slot :: LoadInfo(id, data) == VALID)
      && HeaderOf(data).imageSize >= 8 && IsErased(data[HEADER_OFFSET + HEADER_SIZE..])
    ensures Parse(data).Success? ==>
      && var p := Parse(data).value;
      && LoadInfo(p.slot, data) == VALID && Base(p.slot) == HeaderOf(data).vectorAddress
      && p.version == VersionOf(data) && p.data == data
  {
    hide Crc32.Checksum, DecodeHeader, EncodeHeader;
    if |data| == SLOT_SIZE {
      HeaderBytesOf(data);
      if Parse(data).Success? {
        assert LoadInfo(Parse(data).value.slot, data) == VALID;
      }
      if id: slot :| LoadInfo(id, data) == VALID {
        assert HeaderOf(data).vectorAddress == Base(id);
      }
    }
  }

  /** The checksum over the raw header bytes is the one over the decoded header. */
  lemma HeaderBytesOf(data: SlotBytes)
    ensures EncodeHeader(HeaderOf(data)) == data[HEADER_OFFSET..HEADER_OFFSET + HEADER_SIZE]
    ensures HeaderOf(data).magic == MAGIC ==> !AllWords(HeaderOf(data), 0) && !AllWords(HeaderOf(data), 0xFFFF_FFFF)
  {
    hide DecodeHeader, EncodeHeader;
    var h := HeaderOf(data);
    HeaderRoundTrip(h, data[HEADER_OFFSET..HEADER_OFFSET + HEADER_SIZE]);
    assert HeaderWords(h)[0] == h.magic;
  }

  // ------------------------------------------------------- image_format.js

  /** validatePackedImage; None when reading the vectors of a payload shorter than
    * eight bytes throws. */
  function ValidatePackedImage(image: seq<byte>, id: slot): Option<Verdict> {
    if |image| != SLOT_SIZE then Some(ERR_SIZE)
    else
      var h := HeaderOf(image);
      if h.magic != MAGIC then Some(ERR_MAGIC)
      else if h.headerVersion != VERSION then Some(ERR_HEADER_VERSION)
      else if h.imageSize == 0 || h.imageSize > HEADER_OFFSET then Some(ERR_SIZE)
      else if Crc32.Checksum(image[HEADER_OFFSET..HEADER_OFFSET + HEADER_SIZE][..CRC_LENGTH]) != h.headerCrc then
        Some(ERR_HEADER_CRC)
      else if h.vectorAddress != Base(id) || !ContainsRange(id, h.vectorAddress, 8) then Some(ERR_VECTOR)
      else if h.imageSize < 8 then None
      else
        var payload := image[..h.imageSize];
        var msp, reset := WordAt(payload, 0), WordAt(payload, 4);
        if !StackPointerOk(msp) then Some(ERR_STACK_POINTER)
        else if reset % 2 == 0 || !(Base(id) <= ResetAddress(reset) < Base(id) + h.imageSize) then
          Some(ERR_RESET_HANDLER)
        else if h.entryAddress != reset then Some(ERR_ENTRY_MISMATCH)
        else if Crc32.Checksum(payload) != h.imageCrc then Some(ERR_IMAGE_CRC)
        else Some(VALID)
  }

  /** The packer's validator throws exactly on a good header over a payload without
    * room for both vectors. Otherwise its verdict is the bootloader's, but that
    * the bootloader calls a blank header EMPTY where the packer finds a bad magic. */
  lemma ValidatorsCompared(image: SlotBytes, id: slot)
    ensures ValidatePackedImage(image, id) == None <==>
      ValidateHeader(id, HeaderOf(image)) == VALID && HeaderOf(image).imageSize < 8
    ensures ValidatePackedImage(image, id) != None ==>
      ValidatePackedImage(image, id) == Some(if LoadInfo(id, image) == EMPTY then ERR_MAGIC else LoadInfo(id, image))
  {
    hide Crc32.Checksum, DecodeHeader, EncodeHeader;
    HeaderBytesOf(image);
    var h := HeaderOf(image);
    assert HeaderWords(h)[0] == h.magic;
    if 8 <= h.imageSize <= HEADER_OFFSET {
      var payload := image[..h.imageSize];
      assert WordAt(payload, 0) == WordAt(image, 0) && WordAt(payload, 4) == WordAt(image, 4);
    }
  }

  predicate GatewayAccepts(image: SlotBytes, id: slot) { Parse(image).Success? && Parse(image).value.slot == id }

  /** The packer accepts what the bootloader accepts if both vectors lie in the
    * payload; the gateway, if moreover the header's sector is erased behind it.
    * All three agree on an image for a slot if and only if one that the bootloader
    * finds valid there meets both conditions. */
  lemma WhenAllAgree(image: SlotBytes, id: slot)
    ensures var boot, packer, gateway := LoadInfo(id, image) == VALID, ValidatePackedImage(image, id) == Some(VALID),
                                         GatewayAccepts(image, id);
      var vectors, blank := HeaderOf(image).imageSize >= 8, IsErased(image[HEADER_OFFSET + HEADER_SIZE..]);
      && (packer <==> boot && vectors)
      && (gateway <==> boot && vectors && blank)
      && ((boot == packer && boot == gateway) <==> (boot ==> vectors && blank))
  {
    hide Crc32.Checksum, DecodeHeader, EncodeHeader, Parse, IsErased;
    ValidatorsCompared(image, id);
    ParseAgrees(image);
    if LoadInfo(id, image) == VALID {
      assert HeaderOf(image).vectorAddress == Base(id);
    }
  }

  /** validatePayloadForSlot. */
  predicate PayloadFits(payload: seq<byte>, id: slot) {
    && 8 <= |payload| <= HEADER_OFFSET
    && StackPointerOk(WordAt(payload, 0))
    && var reset := WordAt(payload, 4);
       reset % 2 == 1 && Base(id) <= ResetAddress(reset) < Base(id) + |payload|
  }

  /** The header of buildHeader. */
  function BuiltHeader(payload: seq<byte>, id: slot, version: word, build: Option<word>, flags: word): Header
    requires 8 <= |payload| <= HEADER_OFFSET
  {
    var crc := Crc32.Checksum(payload);
    var h := Header(MAGIC, VERSION, |payload|, crc, version, if build.Some? then build.value else crc,
                    Base(id), WordAt(payload, 4), flags, [0, 0, 0, 0, 0, 0], 0);
    h.(headerCrc := Crc32.Checksum(EncodeHeader(h)[..CRC_LENGTH]))
  }

  /** The file of packImage. */
  function PackedBytes(payload: seq<byte>, h: Header): SlotBytes
    requires |payload| <= HEADER_OFFSET
  {
    payload + seq(HEADER_OFFSET - |payload|, _ => ERASED) + EncodeHeader(h)
      + seq(SLOT_SIZE - HEADER_OFFSET - HEADER_SIZE, _ => ERASED)
  }

  lemma PackedParts(payload: seq<byte>, h: Header)
    requires 8 <= |payload| <= HEADER_OFFSET
    ensures var image := PackedBytes(payload, h);
      && HeaderOf(image) == h && image[..|payload|] == payload
      && WordAt(image, 0) == WordAt(payload, 0) && WordAt(image, 4) == WordAt(payload, 4)
      && IsErased(image[HEADER_OFFSET + HEADER_SIZE..])
  {
    hide EncodeHeader, DecodeHeader;
    var image := PackedBytes(payload, h);
    assert image[HEADER_OFFSET..HEADER_OFFSET + HEADER_SIZE] == EncodeHeader(h);
    HeaderRoundTrip(h, EncodeHeader(h));
  }

  /** The header checksum does not cover itself. */
  lemma HeaderCrcIgnoresItself(h: Header, crc: word)
    ensures EncodeHeader(h.(headerCrc := crc))[..CRC_LENGTH] == EncodeHeader(h)[..CRC_LENGTH]
  {
    assert HeaderWords(h)[..15] == HeaderWords(h.(headerCrc := crc))[..15];
    FlattenPrefix(HeaderWords(h), HeaderWords(h.(headerCrc := crc)), 15);
  }

  /** Everything that packImage makes is valid for the packer, for the gateway and
    * for the bootloader, under the version and for the slot it was made for. */
  lemma PackedIsValid(payload: seq<byte>, id: slot, version: word, build: Option<word>, flags: word)
    requires PayloadFits(payload, id)
    ensures var image := PackedBytes(payload, BuiltHeader(payload, id, version, build, flags));
      && LoadInfo(id, image) == VALID
      && ValidatePackedImage(image, id) == Some(VALID)
      && Parse(image).Success? && Parse(image).value.slot == id && Parse(image).value.version == version
      && Parse(image).value.size == |payload| && image[..|payload|] == payload
  {
    hide Crc32.Checksum, DecodeHeader, EncodeHeader;
    var h := BuiltHeader(payload, id, version, build, flags);
    var image := PackedBytes(payload, h);
    PackedParts(payload, h);
    HeaderBytesOf(image);
    HeaderCrcIgnoresItself(h.(headerCrc := 0), h.headerCrc);
    assert h.(headerCrc := 0).(headerCrc := h.headerCrc) == h;
    assert LoadInfo(id, image) == VALID;
    ValidatorsCompared(image, id);
    ParseAgrees(image);
  }

  /** packImage refuses no payload that would be valid in the slot. */
  lemma PayloadFitsExactly(payload: seq<byte>, id: slot, version: word, build: Option<word>, flags: word)
    requires 8 <= |payload| <= HEADER_OFFSET
    ensures PayloadFits(payload, id) <==>
      LoadInfo(id, PackedBytes(payload, BuiltHeader(payload, id, version, build, flags))) == VALID
  {
    hide Crc32.Checksum, DecodeHeader, EncodeHeader;
    var h := BuiltHeader(payload, id, version, build, flags);
    var image := PackedBytes(payload, h);
    PackedParts(payload, h);
    ValidExactly(id, h, image);
    if PayloadFits(payload, id) {
      PackedIsValid(payload, id, version, build, flags);
    }
  }

  /** Neither the bootloader nor the packer looks behind the header. */
  lemma TailIsUnread(image: SlotBytes, other: SlotBytes, id: slot)
    requires image[..HEADER_OFFSET + HEADER_SIZE] == other[..HEADER_OFFSET + HEADER_SIZE]
    ensures HeaderOf(other) == HeaderOf(image)
    ensures LoadInfo(id, other) == LoadInfo(id, image)
    ensures ValidatePackedImage(other, id) == ValidatePackedImage(image, id)
  {
    hide Crc32.Checksum, DecodeHeader, EncodeHeader, Validate, ValidatePackedImage;
    var whole := HEADER_OFFSET + HEADER_SIZE;
    assert image[HEADER_OFFSET..whole] == image[..whole][HEADER_OFFSET..];
    assert other[HEADER_OFFSET..whole] == other[..whole][HEADER_OFFSET..];
    assert image[..HEADER_OFFSET] == image[..whole][..HEADER_OFFSET];
    assert other[..HEADER_OFFSET] == other[..whole][..HEADER_OFFSET];
    ValidateReadsPayload(id, HeaderOf(image), image, other);
    ValidatorsCompared(image, id);
    ValidatorsCompared(other, id);
  }

  /** Where they part: a packed image whose last byte was programmed is as valid as
    * before for bootloader and packer, and refused by the gateway. */
  lemma ProgrammedTailDiffers(payload: seq<byte>, id: slot, version: word)
    requires PayloadFits(payload, id)
    ensures var image := PackedBytes(payload, BuiltHeader(payload, id, version, None, 0));
      var other := image[SLOT_SIZE - 1 := 0];
      LoadInfo(id, other) == VALID && ValidatePackedImage(other, id) == Some(VALID) && Parse(other).Failure?
  {
    hide Crc32.Checksum, BuiltHeader, PackedBytes, ValidatePackedImage, LoadInfo, HeaderOf, Parse;
    var image := PackedBytes(payload, BuiltHeader(payload, id, version, None, 0));
    var other := image[SLOT_SIZE - 1 := 0];
    PackedIsValid(payload, id, version, None, 0);
    TailIsUnread(image, other, id);
    ParseAgrees(other);
    assert other[HEADER_OFFSET + HEADER_SIZE..][SLOT_SIZE - 1 - HEADER_OFFSET - HEADER_SIZE] == 0;
  }

  /** ... and with a payload too short for its own vectors the bootloader
    * still reads them from the slot, and may accept the image; the gateway
    * refuses it and the packer's validator throws. */
  lemma ShortPayloadDiffers(id: slot)
    ensures exists image: SlotBytes ::
      LoadInfo(id, image) == VALID && Parse(image).Failure? && ValidatePackedImage(image, id) == None
  {
    hide Crc32.Checksum, DecodeHeader, EncodeHeader;
    var vectors := Flatten([0x2000_0000, Base(id) + 1]);
    FlattenWordAt([0x2000_0000, Base(id) + 1], 0);
    FlattenWordAt([0x2000_0000, Base(id) + 1], 1);
    var h := BuiltHeader(vectors, id, 1, None, 0).(imageSize := 5, imageCrc := Crc32.Checksum(vectors[..5]),
                                                   headerCrc := 0);
    h := h.(headerCrc := Crc32.Checksum(EncodeHeader(h)[..CRC_LENGTH]));
    var image := PackedBytes(vectors, h);
    PackedParts(vectors, h);
    HeaderBytesOf(image);
    HeaderCrcIgnoresItself(h.(headerCrc := 0), h.headerCrc);
    assert h.(headerCrc := 0).(headerCrc := h.headerCrc) == h;
    assert image[..5] == image[..|vectors|][..5];
    assert LoadInfo(id, image) == VALID;
  }

  /** writeUInt32LE. */
  method WriteWord(buffer: array<byte>, at: nat, value: word)
    requires at + 4 <= buffer.Length
    modifies buffer
    ensures buffer[..] == old(buffer[..at]) + Flatten([value]) + old(buffer[at + 4..])
  {
    buffer[at] := ByteOf(value, 0);
    buffer[at + 1] := ByteOf(value, 1);
    buffer[at + 2] := ByteOf(value, 2);
    buffer[at + 3] := ByteOf(value, 3);
    assert Flatten([value]) == [ByteOf(value, 0), ByteOf(value, 1), ByteOf(value, 2), ByteOf(value, 3)];
  }

  lemma FlattenAppend(words: seq<word>, value: word)
    ensures Flatten(words + [value]) == Flatten(words) + Flatten([value])
  {
    forall i: nat | i < 4 * |words| + 4 ensures Flatten(words + [value])[i] == (Flatten(words) + Flatten([value]))[i] {
      assert (words + [value])[i / 4] == if i < 4 * |words| then words[i / 4] else value;
    }
  }

  /** The fields of buildHeader in order. */
  function HeaderFields(h: Header): seq<word> {
    [h.magic, h.headerVersion, h.imageSize, h.imageCrc, h.softwareVersion, h.buildId, h.vectorAddress, h.entryAddress,
     h.flags]
  }

  lemma FieldsThenZeros(h: Header)
    requires h.reserved == [0, 0, 0, 0, 0, 0]
    ensures Flatten(HeaderFields(h)) + seq(24, _ => 0) + Flatten([h.headerCrc]) == EncodeHeader(h)
  {
    var fields := HeaderFields(h);
    var head, tail := Flatten(fields), Flatten([h.headerCrc]);
    var whole := head + seq(24, _ => 0) + tail;
    forall i: nat | i < HEADER_SIZE ensures whole[i] == EncodeHeader(h)[i] {
      if i < 36 {
        assert head[i] == ByteOf(fields[i / 4], i % 4);
      } else if i < 60 {
        assert HeaderWords(h)[i / 4] == h.reserved[i / 4 - 9] == 0;
      }
    }
  }

  /** buildHeader: field by field into a zeroed buffer, then its checksum. */
  method BuildHeader(payload: seq<byte>, id: slot, version: word, build: Option<word>, flags: word)
    returns (header: array<byte>)
    requires 8 <= |payload| <= HEADER_OFFSET
    ensures fresh(header) && header[..] == EncodeHeader(BuiltHeader(payload, id, version, build, flags))
  {
    hide EncodeHeader, Crc32.Checksum, Flatten, WordAt;
    ghost var h := BuiltHeader(payload, id, version, build, flags);
    var imageCrc := Crc32.CalculateBranch(payload);
    var entry := WordAt(payload, 4);
    var fields := [MAGIC, VERSION, |payload|, imageCrc, version, if build.Some? then build.value
                   else imageCrc, Base(id), entry, flags];
    assert fields == HeaderFields(h);
    header := new byte[HEADER_SIZE](_ => 0);
    var i := 0;
    FlattenNothing();
    while i < |fields|
      invariant 0 <= i <= |fields| && fresh(header) && header.Length == HEADER_SIZE
      invariant header[..4 * i] == Flatten(fields[..i])
      invariant forall k :: 4 * i <= k < HEADER_SIZE ==> header[k] == 0
    {
      ghost var before := header[..];
      WriteWord(header, 4 * i, fields[i]);
      FlattenAppend(fields[..i], fields[i]);
      FlattenLength(fields[i]);
      assert fields[..i + 1] == fields[..i] + [fields[i]];
      assert header[..4 * i + 4] == before[..4 * i] + Flatten([fields[i]]);
      forall k | 4 * i + 4 <= k < HEADER_SIZE ensures header[k] == 0 {
        assert header[..][k] == before[4 * i + 4..][k - 4 * i - 4];
      }
      i := i + 1;
    }
    assert fields[..9] == fields;
    assert header[36..60] == seq(24, _ => 0) && header[60..] == seq(4, _ => 0);
    HeaderBuilt(header[..], h, fields);
    var crc := Crc32.CalculateBranch(header[..CRC_LENGTH]);
    assert header[..60] == header[..36] + seq(24, _ => 0);
    WriteWord(header, 60, crc);
    FieldsThenZeros(h);
    FlattenLength(crc);
    assert header[..] == Flatten(fields) + seq(24, _ => 0) + Flatten([crc]);
  }

  lemma FlattenNothing()
    ensures Flatten([]) == []
  {
  }

  lemma FlattenLength(value: word)
    ensures |Flatten([value])| == 4
  {
  }

  lemma HeaderBuilt(bytes: seq<byte>, h: Header, fields: seq<word>)
    requires |bytes| == HEADER_SIZE && bytes[..36] == Flatten(fields) && fields == HeaderFields(h)
    requires bytes[36..60] == seq(24, _ => 0) && h.reserved == [0, 0, 0, 0, 0, 0]
    ensures bytes[..CRC_LENGTH] == EncodeHeader(h.(headerCrc := 0))[..CRC_LENGTH]
    ensures EncodeHeader(h.(headerCrc := 0))[..CRC_LENGTH] == EncodeHeader(h)[..CRC_LENGTH]
  {
    hide EncodeHeader, Flatten;
    FieldsThenZeros(h);
    HeaderCrcIgnoresItself(h, 0);
    assert bytes[..60] == bytes[..36] + bytes[36..60];
  }

  lemma PackedAt(payload: seq<byte>, h: Header, k: nat)
    requires |payload| <= HEADER_OFFSET && k < SLOT_SIZE
    ensures PackedBytes(payload, h)[k] ==
      if k < |payload| then payload[k]
      else if HEADER_OFFSET <= k < HEADER_OFFSET + HEADER_SIZE then EncodeHeader(h)[k - HEADER_OFFSET]
      else ERASED
  {
    hide EncodeHeader;
  }

  /** packImage: payload, erased gap, header, erased tail. */
  method PackImage(payload: seq<byte>, id: slot, version: word, build: Option<word>, flags: word)
    returns (r: Result<SlotBytes>)
    ensures r.Success? <==> PayloadFits(payload, id)
    ensures r.Success? ==> r.value == PackedBytes(payload, BuiltHeader(payload, id, version, build, flags))
  {
    hide EncodeHeader, Crc32.Checksum;
    if !PayloadFits(payload, id) {
      return Failure("payload");
    }
    var header := BuildHeader(payload, id, version, build, flags);
    ghost var h := BuiltHeader(payload, id, version, build, flags);
    var image := new byte[SLOT_SIZE](_ => ERASED);
    var i := 0;
    while i < |payload|
      invariant 0 <= i <= |payload| && image[..i] == payload[..i] && header[..] == EncodeHeader(h)
      invariant forall k :: i <= k < SLOT_SIZE ==> image[k] == ERASED
    {
      image[i] := payload[i];
      i := i + 1;
    }
    i := 0;
    while i < HEADER_SIZE
      invariant 0 <= i <= HEADER_SIZE && image[..|payload|] == payload && header[..] == EncodeHeader(h)
      invariant forall k :: |payload| <= k < HEADER_OFFSET ==> image[k] == ERASED
      invariant forall k :: 0 <= k < i ==> image[HEADER_OFFSET + k] == header[k]
      invariant forall k :: HEADER_OFFSET + i <= k < SLOT_SIZE ==> image[k] == ERASED
    {
      image[HEADER_OFFSET + i] := header[i];
      i := i + 1;
    }
    ghost var packed := PackedBytes(payload, h);
    forall k | 0 <= k < SLOT_SIZE ensures image[k] == packed[k] {
      PackedAt(payload, h, k);
      if k < |payload| {
        assert image[..|payload|][k] == image[k];
      } else if HEADER_OFFSET <= k < HEADER_OFFSET + HEADER_SIZE {
        var j := k - HEADER_OFFSET;
        assert image[HEADER_OFFSET + j] == header[j] == header[..][j];
      }
    }
    assert image[..] == packed;
    return Success(image[..]);
  }
}
