/** The image header and the checks that make a slot bootable (boot_image.c).
  * A slot is given by its bytes; addresses inside it are absolute. */
module ImageFormat {
  import opened Bytes
  import opened Slots
  import Crc32

  const MAGIC: word := 0x4249_3256
  const VERSION: word := 1
  const CRC_LENGTH: nat := 60
  const SRAM_START: word := 0x1FFF_8000
  const SRAM_END: word := 0x2000_6FF0

  type Reserved = r: seq<word> | |r| == 6 witness [0, 0, 0, 0, 0, 0]

  datatype Header = Header(
    magic: word, headerVersion: word, imageSize: word, imageCrc: word,
    softwareVersion: word, buildId: word, vectorAddress: word, entryAddress: word,
    flags: word, reserved: Reserved, headerCrc: word)

  function HeaderWords(h: Header): (words: seq<word>)
    ensures |words| == 16
  {
    [h.magic, h.headerVersion, h.imageSize, h.imageCrc, h.softwareVersion, h.buildId,
     h.vectorAddress, h.entryAddress, h.flags] + h.reserved + [h.headerCrc]
  }

  function HeaderFromWords(w: seq<word>): Header
    requires |w| == 16
  {
    Header(w[0], w[1], w[2], w[3], w[4], w[5], w[6], w[7], w[8], w[9..15], w[15])
  }

  function EncodeHeader(h: Header): (s: seq<byte>)
    ensures |s| == HEADER_SIZE
  {
    Flatten(HeaderWords(h))
  }

  function DecodeHeader(s: seq<byte>): Header
    requires |s| == HEADER_SIZE
  {
    HeaderFromWords(Words(s))
  }

  lemma HeaderWordsRoundTrip(h: Header, w: seq<word>)
    requires |w| == 16
    ensures HeaderFromWords(HeaderWords(h)) == h
    ensures HeaderWords(HeaderFromWords(w)) == w
  {
    assert HeaderWords(h)[9..15] == h.reserved;
  }

  lemma HeaderRoundTrip(h: Header, s: seq<byte>)
    requires |s| == HEADER_SIZE
    ensures DecodeHeader(EncodeHeader(h)) == h
    ensures EncodeHeader(DecodeHeader(s)) == s
  {
    hide HeaderWords, HeaderFromWords;
    WordsFlatten(HeaderWords(h));
    FlattenWords(s);
    HeaderWordsRoundTrip(h, Words(s));
  }

  /** Where each field lies in the 64 bytes. */
  lemma HeaderLayout(h: Header)
    ensures WordAt(EncodeHeader(h), 0) == h.magic
    ensures WordAt(EncodeHeader(h), 4) == h.headerVersion
    ensures WordAt(EncodeHeader(h), 8) == h.imageSize
    ensures WordAt(EncodeHeader(h), 12) == h.imageCrc
    ensures WordAt(EncodeHeader(h), 16) == h.softwareVersion
    ensures WordAt(EncodeHeader(h), 20) == h.buildId
    ensures WordAt(EncodeHeader(h), 24) == h.vectorAddress
    ensures WordAt(EncodeHeader(h), 28) == h.entryAddress
    ensures WordAt(EncodeHeader(h), 32) == h.flags
    ensures WordAt(EncodeHeader(h), 36) == h.reserved[0]
    ensures WordAt(EncodeHeader(h), 40) == h.reserved[1]
    ensures WordAt(EncodeHeader(h), 44) == h.reserved[2]
    ensures WordAt(EncodeHeader(h), 48) == h.reserved[3]
    ensures WordAt(EncodeHeader(h), 52) == h.reserved[4]
    ensures WordAt(EncodeHeader(h), 56) == h.reserved[5]
    ensures WordAt(EncodeHeader(h), 60) == h.headerCrc
  {
    hide WordAt, Flatten;
    forall k: nat | k < 16 ensures WordAt(EncodeHeader(h), 4 * k) == HeaderWords(h)[k] {
      FlattenWordAt(HeaderWords(h), k);
    }
    assert HeaderWords(h)[0] == h.magic;
    assert HeaderWords(h)[1] == h.headerVersion;
    assert HeaderWords(h)[2] == h.imageSize;
    assert HeaderWords(h)[3] == h.imageCrc;
    assert HeaderWords(h)[4] == h.softwareVersion;
    assert HeaderWords(h)[5] == h.buildId;
    assert HeaderWords(h)[6] == h.vectorAddress;
    assert HeaderWords(h)[7] == h.entryAddress;
    assert HeaderWords(h)[8] == h.flags;
    assert HeaderWords(h)[9] == h.reserved[0];
    assert HeaderWords(h)[10] == h.reserved[1];
    assert HeaderWords(h)[11] == h.reserved[2];
    assert HeaderWords(h)[12] == h.reserved[3];
    assert HeaderWords(h)[13] == h.reserved[4];
    assert HeaderWords(h)[14] == h.reserved[5];
    assert HeaderWords(h)[15] == h.headerCrc;
  }

  datatype Verdict = VALID | EMPTY | ERR_MAGIC | ERR_HEADER_VERSION | ERR_HEADER_CRC | ERR_SIZE
    | ERR_ADDRESS_RANGE | ERR_VECTOR | ERR_STACK_POINTER | ERR_RESET_HANDLER
    | ERR_ENTRY_MISMATCH | ERR_IMAGE_CRC

  type SlotBytes = s: seq<byte> | |s| == SLOT_SIZE witness seq(SLOT_SIZE, _ => 0)

  predicate AllWords(h: Header, value: word) {
    forall k :: 0 <= k < 16 ==> HeaderWords(h)[k] == value
  }

  /** BootImage_ValidateHeader, in the order of its checks. */
  function ValidateHeader(id: slot, h: Header): Verdict {
    if AllWords(h, 0xFFFF_FFFF) || AllWords(h, 0) then EMPTY
    else if h.magic != MAGIC then ERR_MAGIC
    else if h.headerVersion != VERSION then ERR_HEADER_VERSION
    else if h.imageSize == 0 || h.imageSize > HEADER_OFFSET then ERR_SIZE
    else if Crc32.Checksum(EncodeHeader(h)[..CRC_LENGTH]) != h.headerCrc then ERR_HEADER_CRC
    else if h.vectorAddress != Base(id) then ERR_VECTOR
    else VALID
  }

  function ResetAddress(reset: word): word { reset - reset % 2 }

  predicate StackPointerOk(msp: word) {
    SRAM_START <= msp <= SRAM_END && msp % 8 == 0
  }

  predicate ResetHandlerOk(reset: word, vector: word, size: word) {
    reset != 0xFFFF_FFFF && reset % 2 == 1 && vector <= ResetAddress(reset) < vector + size
  }

  /** BootImage_ValidatePayload: reads the vectors and the payload in the slot. */
  function ValidatePayload(id: slot, h: Header, bytes: SlotBytes): Verdict {
    if h.imageSize == 0 || h.imageSize > HEADER_OFFSET || h.vectorAddress != Base(id) then ERR_ADDRESS_RANGE
    else if !StackPointerOk(WordAt(bytes, 0)) then ERR_STACK_POINTER
    else if !ResetHandlerOk(WordAt(bytes, 4), h.vectorAddress, h.imageSize) then ERR_RESET_HANDLER
    else if h.entryAddress != WordAt(bytes, 4) then ERR_ENTRY_MISMATCH
    else if Crc32.Checksum(bytes[..h.imageSize]) != h.imageCrc then ERR_IMAGE_CRC
    else VALID
  }

  /** BootImage_Validate. */
  function Validate(id: slot, h: Header, bytes: SlotBytes): Verdict {
    var verdict := ValidateHeader(id, h);
    if verdict != VALID then verdict else ValidatePayload(id, h, bytes)
  }

  function HeaderOf(bytes: SlotBytes): Header {
    DecodeHeader(bytes[HEADER_OFFSET..HEADER_OFFSET + HEADER_SIZE])
  }

  /** BootImage_LoadInfo. A fully erased header leads, for slot A, to the
    * version 1 metadata, taken to be absent; both slots then report EMPTY. */
  function LoadInfo(id: slot, bytes: SlotBytes): Verdict {
    Validate(id, HeaderOf(bytes), bytes)
  }

  /** An image is valid if and only if: the header is marked, of version 1, sealed, and
    * made for this slot; the payload ends below the header; the stack pointer is an
    * aligned address in SRAM; the reset handler is a Thumb address in the payload and
    * the entry point; and the payload has its checksum. */
  lemma ValidExactly(id: slot, h: Header, bytes: SlotBytes)
    ensures var reset := WordAt(bytes, 4);
      Validate(id, h, bytes) == VALID <==>
        && h.magic == 0x4249_3256 && h.headerVersion == 1 && 0 < h.imageSize <= 0x3_7000
        && Crc32.Checksum(EncodeHeader(h)[..60]) == h.headerCrc
        && h.vectorAddress == (if id == 0 then 0x8000 else 0x4_0000)
        && 0x1FFF_8000 <= WordAt(bytes, 0) <= 0x2000_6FF0 && WordAt(bytes, 0) % 8 == 0
        && reset == h.entryAddress && reset % 2 == 1
        && h.vectorAddress <= reset - 1 < h.vectorAddress + h.imageSize
        && Crc32.Checksum(bytes[..h.imageSize]) == h.imageCrc
  {
    hide EncodeHeader, Crc32.Checksum, WordAt;
    assert HeaderWords(h)[0] == h.magic;
  }

  /** A slot counts as empty if and only if the bytes of its header are all erased,
    * or all zero. */
  lemma EmptyExactly(id: slot, bytes: SlotBytes)
    ensures var header := bytes[HEADER_OFFSET..HEADER_OFFSET + HEADER_SIZE];
      LoadInfo(id, bytes) == EMPTY <==>
        (forall i :: 0 <= i < 64 ==> header[i] == 0xFF) || (forall i :: 0 <= i < 64 ==> header[i] == 0)
  {
    hide EncodeHeader, DecodeHeader, Crc32.Checksum, HeaderWords;
    var header := bytes[HEADER_OFFSET..HEADER_OFFSET + HEADER_SIZE];
    UniformWords(header, 0xFF, 0xFFFF_FFFF);
    UniformWords(header, 0, 0);
    HeaderRoundTrip(HeaderOf(bytes), header);
  }

  /** All words of a header are alike if and only if its bytes are. */
  lemma UniformWords(header: seq<byte>, b: byte, w: word)
    requires |header| == HEADER_SIZE && w == 0x101_0101 * b
    ensures AllWords(DecodeHeader(header), w) <==> forall i :: 0 <= i < 64 ==> header[i] == b
  {
    hide WordAt, HeaderWords, HeaderFromWords;
    HeaderWordsRoundTrip(DecodeHeader(header), Words(header));
    if AllWords(DecodeHeader(header), w) {
      forall i | 0 <= i < 64 ensures header[i] == b {
        assert Words(header)[i / 4] == WordAt(header, 4 * (i / 4)) == w;
        ByteOfWordAt(header, 4 * (i / 4), i % 4);
        UniformByte(b, i % 4);
      }
    }
    if forall i :: 0 <= i < 64 ==> header[i] == b {
      forall k | 0 <= k < 16 ensures Words(header)[k] == w {
        UniformWord(header, 4 * k, b);
      }
    }
  }

  lemma UniformByte(b: byte, lane: nat)
    requires lane < 4
    ensures ByteOf(0x101_0101 * b, lane) == b
  {
    Lanes(b, b, b, b, 0x101_0101 * b);
  }

  lemma UniformWord(s: seq<byte>, at: nat, b: byte)
    requires at + 4 <= |s| && s[at] == s[at + 1] == s[at + 2] == s[at + 3] == b
    ensures WordAt(s, at) == 0x101_0101 * b
  {
  }

  predicate Bootable(id: slot, bytes: SlotBytes) { LoadInfo(id, bytes) == VALID }

  function VersionOf(bytes: SlotBytes): word { HeaderOf(bytes).softwareVersion }

  /** The slot after its header sector was erased and `h` programmed. */
  function Published(bytes: SlotBytes, h: Header): SlotBytes {
    bytes[..HEADER_OFFSET] + EncodeHeader(h)
      + seq(SLOT_SIZE - HEADER_OFFSET - HEADER_SIZE, _ => ERASED)
  }

  /** Validation looks only at the header given to it and at the payload. */
  lemma ValidateReadsPayload(id: slot, h: Header, s: SlotBytes, t: SlotBytes)
    requires s[..HEADER_OFFSET] == t[..HEADER_OFFSET]
    ensures Validate(id, h, s) == Validate(id, h, t)
  {
    hide Crc32.Checksum, HeaderWords, EncodeHeader;
    assert WordAt(s, 0) == WordAt(s[..HEADER_OFFSET], 0) && WordAt(t, 0) == WordAt(t[..HEADER_OFFSET], 0);
    assert WordAt(s, 4) == WordAt(s[..HEADER_OFFSET], 4) && WordAt(t, 4) == WordAt(t[..HEADER_OFFSET], 4);
    if h.imageSize <= HEADER_OFFSET {
      assert s[..h.imageSize] == s[..HEADER_OFFSET][..h.imageSize];
      assert t[..h.imageSize] == t[..HEADER_OFFSET][..h.imageSize];
    }
  }

  /** Publishing a header that was validated against the payload makes the slot
    * load with exactly that header. */
  lemma PublishedLoads(id: slot, h: Header, bytes: SlotBytes)
    ensures HeaderOf(Published(bytes, h)) == h
    ensures LoadInfo(id, Published(bytes, h)) == Validate(id, h, bytes)
  {
    hide Validate, EncodeHeader, DecodeHeader;
    var published := Published(bytes, h);
    HeaderRoundTrip(h, published[HEADER_OFFSET..HEADER_OFFSET + HEADER_SIZE]);
    assert published[HEADER_OFFSET..HEADER_OFFSET + HEADER_SIZE] == EncodeHeader(h);
    assert published[..HEADER_OFFSET] == bytes[..HEADER_OFFSET];
    ValidateReadsPayload(id, h, published, bytes);
  }
}
