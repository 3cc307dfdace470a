/** The 128-byte update journal record and its validation (boot_journal.h/.c). */
module JournalFormat {
  import opened Bytes
  import opened Slots
  import opened ImageFormat
  import opened SealedRecord
  import TwinStore
  import Crc32

  const JOURNAL_MAGIC: word := 0x4A34_5642
  const FORMAT: word := 1
  const COMMIT_MARKER: word := 0x434F_4D54
  const HEADER_KNOWN: word := 1
  const CHECKPOINT: nat := 32768
  const BODY: nat := 120

  // BootUpdateState.
  const IDLE: word := 0
  const PREPARING: word := 1
  const ERASING: word := 2
  const DOWNLOAD_READY: word := 3
  const PROGRAMMING: word := 4
  const TRANSFER_COMPLETE: word := 5
  const VERIFYING: word := 6
  const VERIFIED: word := 7
  const PENDING_ACTIVATION: word := 8
  const ABORTED: word := 9

  // BootUpdateResult.
  const NONE: word := 0
  const SUCCESS: word := 1
  const INTERRUPTED: word := 2
  const INTERRUPTED_PROGRAMMING: word := 3
  const ERASE_FAILED: word := 4
  const PROGRAM_FAILED: word := 5
  const TRANSFER_FAILED: word := 6
  const VERIFY_FAILED: word := 7
  const BAD_IMAGE: word := 8
  const POWER_LOSS_RECOVERED: word := 10
  const COMMISSIONED: word := 11

  datatype Journal = Journal(
    magic: word, formatVersion: word, sequence: word, transaction: word,
    active: word, target: word, state: word, targetVersion: word,
    expectedSize: word, committedSize: word, expectedCrc: word, lastBlock: word,
    lastResult: word, flags: word, header: Header, crc: word, marker: word)

  function JournalWords(r: Journal): (words: seq<word>)
    ensures |words| == 32
  {
    [r.magic, r.formatVersion, r.sequence, r.transaction, r.active, r.target, r.state, r.targetVersion,
     r.expectedSize, r.committedSize, r.expectedCrc, r.lastBlock, r.lastResult, r.flags]
    + HeaderWords(r.header) + [r.crc, r.marker]
  }

  function JournalFromWords(w: seq<word>): Journal
    requires |w| == 32
  {
    Journal(w[0], w[1], w[2], w[3], w[4], w[5], w[6], w[7], w[8], w[9], w[10], w[11], w[12], w[13],
            HeaderFromWords(w[14..30]), w[30], w[31])
  }

  function Encode(r: Journal): (s: seq<byte>)
    ensures |s| == JOURNAL_SIZE
  {
    Flatten(JournalWords(r))
  }

  function Decode(s: seq<byte>): Journal
    requires |s| == JOURNAL_SIZE
  {
    JournalFromWords(Words(s))
  }

  lemma WordsRoundTrip(r: Journal, w: seq<word>)
    requires |w| == 32
    ensures JournalFromWords(JournalWords(r)) == r
    ensures JournalWords(JournalFromWords(w)) == w
  {
    hide HeaderWords, HeaderFromWords;
    HeaderWordsRoundTrip(r.header, w[14..30]);
    assert JournalWords(r)[14..30] == HeaderWords(r.header);
    assert w == w[..14] + w[14..30] + w[30..];
    assert w[..14] == [w[0], w[1], w[2], w[3], w[4], w[5], w[6], w[7], w[8], w[9], w[10], w[11], w[12], w[13]];
    assert w[30..] == [w[30], w[31]];
  }

  /** The disk layout loses nothing: records and their 128 bytes correspond one to one. */
  lemma RoundTrip(r: Journal, s: seq<byte>)
    requires |s| == JOURNAL_SIZE
    ensures Decode(Encode(r)) == r
    ensures Encode(Decode(s)) == s
  {
    hide JournalWords, JournalFromWords, Words, Flatten;
    WordsFlatten(JournalWords(r));
    FlattenWords(s);
    WordsRoundTrip(r, Words(s));
  }

  /** Where each field lies in the 128 bytes; the image header is at offset 56. */
  lemma JournalLayout(r: Journal)
    ensures WordAt(Encode(r), 0) == r.magic
    ensures WordAt(Encode(r), 4) == r.formatVersion
    ensures WordAt(Encode(r), 8) == r.sequence
    ensures WordAt(Encode(r), 12) == r.transaction
    ensures WordAt(Encode(r), 16) == r.active
    ensures WordAt(Encode(r), 20) == r.target
    ensures WordAt(Encode(r), 24) == r.state
    ensures WordAt(Encode(r), 28) == r.targetVersion
    ensures WordAt(Encode(r), 32) == r.expectedSize
    ensures WordAt(Encode(r), 36) == r.committedSize
    ensures WordAt(Encode(r), 40) == r.expectedCrc
    ensures WordAt(Encode(r), 44) == r.lastBlock
    ensures WordAt(Encode(r), 48) == r.lastResult
    ensures WordAt(Encode(r), 52) == r.flags
    ensures WordAt(Encode(r), 120) == r.crc
    ensures WordAt(Encode(r), 124) == r.marker
    ensures Encode(r)[56..120] == EncodeHeader(r.header)
  {
    hide WordAt, Flatten, HeaderWords;
    forall k: nat | k < 32 ensures WordAt(Encode(r), 4 * k) == JournalWords(r)[k] {
      FlattenWordAt(JournalWords(r), k);
    }
    assert JournalWords(r)[0] == r.magic;
    assert JournalWords(r)[1] == r.formatVersion;
    assert JournalWords(r)[2] == r.sequence;
    assert JournalWords(r)[3] == r.transaction;
    assert JournalWords(r)[4] == r.active;
    assert JournalWords(r)[5] == r.target;
    assert JournalWords(r)[6] == r.state;
    assert JournalWords(r)[7] == r.targetVersion;
    assert JournalWords(r)[8] == r.expectedSize;
    assert JournalWords(r)[9] == r.committedSize;
    assert JournalWords(r)[10] == r.expectedCrc;
    assert JournalWords(r)[11] == r.lastBlock;
    assert JournalWords(r)[12] == r.lastResult;
    assert JournalWords(r)[13] == r.flags;
    assert JournalWords(r)[30] == r.crc;
    assert JournalWords(r)[31] == r.marker;
    assert JournalWords(r)[14..30] == HeaderWords(r.header);
    FlattenPart(JournalWords(r), 14, 30);
  }

  /** The checksum field of a record that would seal it. */
  function BodyCrc(r: Journal): word {
    Crc32.Checksum(Encode(r)[..BODY])
  }

  /** The conditions of BootJournal_Validate on the meaning of the fields. */
  predicate FieldsValid(r: Journal) {
    && r.state <= ABORTED && r.lastResult <= COMMISSIONED
    && (IsSlot(r.active) || r.active == UNKNOWN)
    && IsSlot(r.target) && r.target != r.active
    && r.expectedSize <= SLOT_SIZE && r.committedSize <= r.expectedSize
    && r.lastBlock <= 255 && r.flags <= HEADER_KNOWN
    && (PREPARING <= r.state <= PENDING_ACTIVATION ==> r.expectedSize == SLOT_SIZE)
    && (TRANSFER_COMPLETE <= r.state <= PENDING_ACTIVATION ==>
        && r.flags == HEADER_KNOWN && r.committedSize == r.expectedSize
        && r.targetVersion == r.header.softwareVersion
        && r.expectedCrc == r.header.imageCrc)
  }

  /** Ten states, twelve results; the active slot may be unknown, the target not; once
    * begun the size is that of a slot, and once transferred the header is kept, with
    * version and checksum as in the header. */
  lemma FieldsExactly(r: Journal)
    ensures FieldsValid(r) <==>
      && r.state <= 9 && r.lastResult <= 11 && (r.active <= 1 || r.active == 0x7FFF_FFFF) && r.target <= 1
      && r.target != r.active && r.committedSize <= r.expectedSize <= 0x3_8000 && r.lastBlock <= 255 && r.flags <= 1
      && (1 <= r.state <= 8 ==> r.expectedSize == 0x3_8000)
      && (5 <= r.state <= 8 ==>
            && r.flags == 1 && r.committedSize == r.expectedSize && r.targetVersion == r.header.softwareVersion
            && r.expectedCrc == r.header.imageCrc)
  {
  }

  /** BootJournal_Validate. */
  predicate Valid(r: Journal) {
    && r.magic == JOURNAL_MAGIC && r.formatVersion == FORMAT && r.marker == COMMIT_MARKER
    && r.crc == BodyCrc(r)
    && FieldsValid(r)
  }

  /** The record `commit` writes for `r` after one with sequence `sequence - 1`. */
  function Stamp(r: Journal, sequence: word): Journal {
    var unsealed := r.(sequence := sequence, magic := JOURNAL_MAGIC, formatVersion := FORMAT,
                       marker := COMMIT_MARKER);
    unsealed.(crc := BodyCrc(unsealed))
  }

  /** BootJournal_Validate, which runs its own form of the checksum. */
  method Validate(r: Journal) returns (ok: bool)
    ensures ok == Valid(r)
  {
    hide Encode, Crc32.Checksum;
    var crc := Crc32.CalculateMask(Encode(r)[..BODY]);
    return r.magic == JOURNAL_MAGIC && r.formatVersion == FORMAT && r.marker == COMMIT_MARKER && r.crc == crc
      && FieldsValid(r);
  }

  /** The record as `commit` stamps it. */
  method Seal(r: Journal, sequence: word) returns (sealed: Journal)
    ensures sealed == Stamp(r, sequence)
  {
    hide Encode, Crc32.Checksum;
    sealed := r.(sequence := sequence, magic := JOURNAL_MAGIC, formatVersion := FORMAT, marker := COMMIT_MARKER);
    var crc := Crc32.CalculateMask(Encode(sealed)[..BODY]);
    sealed := sealed.(crc := crc);
  }

  function ReadCopy(s: seq<byte>): TwinStore.Copy<Journal>
    requires |s| == JOURNAL_SIZE
  {
    var r := Decode(s);
    if Valid(r) then TwinStore.Intact(r.sequence, r) else TwinStore.Damaged
  }

  /** The checksum does not cover itself or the marker. */
  lemma BodyIgnoresTail(r: Journal, crc: word, marker: word)
    ensures BodyCrc(r.(crc := crc, marker := marker)) == BodyCrc(r)
  {
    hide HeaderWords, Crc32.Checksum;
    var t := r.(crc := crc, marker := marker);
    assert JournalWords(r)[..30] == JournalWords(t)[..30];
    FlattenPrefix(JournalWords(r), JournalWords(t), 30);
  }

  /** What commit stamps is valid exactly when its fields are. */
  lemma StampValid(r: Journal, sequence: word)
    ensures Valid(Stamp(r, sequence)) <==> FieldsValid(r)
  {
    hide BodyCrc;
    var unsealed := r.(sequence := sequence, magic := JOURNAL_MAGIC, formatVersion := FORMAT,
                       marker := COMMIT_MARKER);
    BodyIgnoresTail(unsealed, BodyCrc(unsealed), COMMIT_MARKER);
  }

  lemma ValidIsSealed(s: seq<byte>)
    requires |s| == JOURNAL_SIZE && Valid(Decode(s))
    ensures Sealed(s, COMMIT_MARKER)
  {
    hide HeaderWords, Crc32.Checksum, HeaderFromWords;
    RoundTrip(Decode(s), s);
    assert Words(s)[30] == WordAt(s, 120) && Words(s)[31] == WordAt(s, 124);
  }

  /** A sector torn while `r` was being written reads as damaged or as `r`. */
  lemma TornCopy(r: Journal, k: nat, inFlight: seq<byte>)
    requires Valid(r) && 8 * k + 8 <= JOURNAL_SIZE && |inFlight| == 8
    ensures ReadCopy(Torn(Encode(r), k, inFlight)) in {TwinStore.Damaged, TwinStore.Intact(r.sequence, r)}
  {
    hide Encode, Decode, Valid, Sealed, Torn;
    var full := Encode(r);
    RoundTrip(r, full);
    ValidIsSealed(full);
    TornIsWholeOrUnsealed(full, k, inFlight, COMMIT_MARKER);
    if Valid(Decode(Torn(full, k, inFlight))) {
      ValidIsSealed(Torn(full, k, inFlight));
    }
  }

  lemma ErasedCopy(s: seq<byte>)
    requires |s| == JOURNAL_SIZE && IsErased(s[JOURNAL_SIZE - 4..])
    ensures ReadCopy(s).Damaged?
  {
    hide Decode, Valid, Sealed;
    ErasedTailIsUnsealed(s, COMMIT_MARKER);
    if Valid(Decode(s)) {
      ValidIsSealed(s);
    }
  }

  lemma ZeroCopy(s: seq<byte>)
    requires |s| == JOURNAL_SIZE && s[..4] == [0, 0, 0, 0]
    ensures ReadCopy(s).Damaged?
  {
    hide BodyCrc, HeaderFromWords;
    assert WordAt(s, 0) == WordAt(s[..4], 0) == 0;
    assert Words(s)[0] == 0;
  }
}
