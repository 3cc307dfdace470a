/** The 80-byte slot metadata record and its validation (boot_types.h, boot_metadata.c). */
module MetadataFormat {
  import opened Bytes
  import opened Slots
  import opened SealedRecord
  import TwinStore
  import Crc32

  const METADATA_MAGIC: word := 0x4D35_5642
  const FORMAT: word := 1
  const COMMIT_MARKER: word := 0x534C_4F54
  const BODY: nat := 72

  // BootImageState.
  const EMPTY: word := 0
  const VERIFIED: word := 2
  const PENDING: word := 3
  const TRIAL: word := 4
  const CONFIRMED: word := 5
  const INVALID: word := 6

  // BootLifecycleResult.
  const RESULT_NONE: word := 0
  const TRIAL_STARTED: word := 1
  const TRIAL_FAILED: word := 2
  const RESULT_CONFIRMED: word := 3
  const ROLLBACK_OCCURRED: word := 4
  const METADATA_ERROR: word := 6

  /** The largest BootResetReason. */
  const RESET_DEBUG: word := 8

  datatype Metadata = Metadata(
    magic: word, formatVersion: word, slotId: word, imageVersion: word, state: word,
    attempts: word, successfulBoots: word, updateCounter: word, sequence: word,
    resetReason: word, flags: word, lastResult: word, failedSlot: word, failedVersion: word,
    lastAttempts: word, rollbackTarget: word, reserved0: word, reserved1: word,
    crc: word, marker: word)

  function MetadataWords(r: Metadata): (words: seq<word>)
    ensures |words| == 20
  {
    [r.magic, r.formatVersion, r.slotId, r.imageVersion, r.state, r.attempts, r.successfulBoots,
     r.updateCounter, r.sequence, r.resetReason, r.flags, r.lastResult, r.failedSlot, r.failedVersion,
     r.lastAttempts, r.rollbackTarget, r.reserved0, r.reserved1, r.crc, r.marker]
  }

  function MetadataFromWords(w: seq<word>): Metadata
    requires |w| == 20
  {
    Metadata(w[0], w[1], w[2], w[3], w[4], w[5], w[6], w[7], w[8], w[9], w[10], w[11], w[12], w[13],
             w[14], w[15], w[16], w[17], w[18], w[19])
  }

  function Encode(r: Metadata): (s: seq<byte>)
    ensures |s| == METADATA_SIZE
  {
    Flatten(MetadataWords(r))
  }

  function Decode(s: seq<byte>): Metadata
    requires |s| == METADATA_SIZE
  {
    MetadataFromWords(Words(s))
  }

  lemma WordsRoundTrip(r: Metadata, w: seq<word>)
    requires |w| == 20
    ensures MetadataFromWords(MetadataWords(r)) == r
    ensures MetadataWords(MetadataFromWords(w)) == w
  {
    assert w == [w[0], w[1], w[2], w[3], w[4], w[5], w[6], w[7], w[8], w[9], w[10], w[11], w[12], w[13],
                 w[14], w[15], w[16], w[17], w[18], w[19]];
  }

  /** The disk layout loses nothing: records and their 80 bytes correspond one to one. */
  lemma RoundTrip(r: Metadata, s: seq<byte>)
    requires |s| == METADATA_SIZE
    ensures Decode(Encode(r)) == r
    ensures Encode(Decode(s)) == s
  {
    hide MetadataWords, MetadataFromWords, Words, Flatten;
    WordsFlatten(MetadataWords(r));
    FlattenWords(s);
    WordsRoundTrip(r, Words(s));
  }

  /** Where each field lies in the 80 bytes. */
  lemma MetadataLayout(r: Metadata)
    ensures WordAt(Encode(r), 0) == r.magic
    ensures WordAt(Encode(r), 4) == r.formatVersion
    ensures WordAt(Encode(r), 8) == r.slotId
    ensures WordAt(Encode(r), 12) == r.imageVersion
    ensures WordAt(Encode(r), 16) == r.state
    ensures WordAt(Encode(r), 20) == r.attempts
    ensures WordAt(Encode(r), 24) == r.successfulBoots
    ensures WordAt(Encode(r), 28) == r.updateCounter
    ensures WordAt(Encode(r), 32) == r.sequence
    ensures WordAt(Encode(r), 36) == r.resetReason
    ensures WordAt(Encode(r), 40) == r.flags
    ensures WordAt(Encode(r), 44) == r.lastResult
    ensures WordAt(Encode(r), 48) == r.failedSlot
    ensures WordAt(Encode(r), 52) == r.failedVersion
    ensures WordAt(Encode(r), 56) == r.lastAttempts
    ensures WordAt(Encode(r), 60) == r.rollbackTarget
    ensures WordAt(Encode(r), 64) == r.reserved0
    ensures WordAt(Encode(r), 68) == r.reserved1
    ensures WordAt(Encode(r), 72) == r.crc
    ensures WordAt(Encode(r), 76) == r.marker
  {
    hide WordAt, Encode, MetadataWords;
    WordOf(r, 0);
    WordOf(r, 1);
    WordOf(r, 2);
    WordOf(r, 3);
    WordOf(r, 4);
    WordOf(r, 5);
    WordOf(r, 6);
    WordOf(r, 7);
    WordOf(r, 8);
    WordOf(r, 9);
    WordOf(r, 10);
    WordOf(r, 11);
    WordOf(r, 12);
    WordOf(r, 13);
    WordOf(r, 14);
    WordOf(r, 15);
    WordOf(r, 16);
    WordOf(r, 17);
    WordOf(r, 18);
    WordOf(r, 19);
    WordsInOrder(r);
  }

  lemma WordOf(r: Metadata, k: nat)
    requires k < 20
    ensures WordAt(Encode(r), 4 * k) == MetadataWords(r)[k]
  {
    hide WordAt, Flatten, MetadataWords;
    FlattenWordAt(MetadataWords(r), k);
  }

  lemma WordsInOrder(r: Metadata)
    ensures MetadataWords(r)[0] == r.magic
    ensures MetadataWords(r)[1] == r.formatVersion
    ensures MetadataWords(r)[2] == r.slotId
    ensures MetadataWords(r)[3] == r.imageVersion
    ensures MetadataWords(r)[4] == r.state
    ensures MetadataWords(r)[5] == r.attempts
    ensures MetadataWords(r)[6] == r.successfulBoots
    ensures MetadataWords(r)[7] == r.updateCounter
    ensures MetadataWords(r)[8] == r.sequence
    ensures MetadataWords(r)[9] == r.resetReason
    ensures MetadataWords(r)[10] == r.flags
    ensures MetadataWords(r)[11] == r.lastResult
    ensures MetadataWords(r)[12] == r.failedSlot
    ensures MetadataWords(r)[13] == r.failedVersion
    ensures MetadataWords(r)[14] == r.lastAttempts
    ensures MetadataWords(r)[15] == r.rollbackTarget
    ensures MetadataWords(r)[16] == r.reserved0
    ensures MetadataWords(r)[17] == r.reserved1
    ensures MetadataWords(r)[18] == r.crc
    ensures MetadataWords(r)[19] == r.marker
  {
  }

  function BodyCrc(r: Metadata): word {
    Crc32.Checksum(Encode(r)[..BODY])
  }

  /** The conditions of BootMetadata_Validate and fields_valid on the fields. */
  predicate FieldsValid(r: Metadata) {
    && r.state <= INVALID && r.attempts <= MAX_TRIAL_ATTEMPTS
    && r.resetReason <= RESET_DEBUG && r.lastResult <= METADATA_ERROR
    && (IsSlot(r.failedSlot) || r.failedSlot == UNKNOWN)
    && (IsSlot(r.rollbackTarget) || r.rollbackTarget == UNKNOWN)
    && r.flags == 0 && r.reserved0 == 0 && r.reserved1 == 0
    && (r.state in {VERIFIED, PENDING, CONFIRMED} ==> r.attempts == 0)
    && (r.state == TRIAL ==> r.attempts != 0)
  }

  /** Only an image on trial has counted starts, and at most three. */
  lemma FieldsExactly(r: Metadata)
    ensures FieldsValid(r) <==>
      && r.state <= 6 && r.resetReason <= 8 && r.lastResult <= 6 && r.flags == r.reserved0 == r.reserved1 == 0
      && (r.failedSlot <= 1 || r.failedSlot == 0x7FFF_FFFF)
      && (r.rollbackTarget <= 1 || r.rollbackTarget == 0x7FFF_FFFF)
      && r.attempts <= 3 && (r.state == 4 ==> r.attempts > 0) && (r.state in {2, 3, 5} ==> r.attempts == 0)
  {
  }

  /** BootMetadata_Validate. */
  predicate Valid(id: slot, r: Metadata) {
    && r.magic == METADATA_MAGIC && r.formatVersion == FORMAT && r.slotId == id
    && r.marker == COMMIT_MARKER && r.crc == BodyCrc(r)
    && FieldsValid(r)
  }

  /** The record write_record writes for `r`. */
  function Stamp(id: slot, r: Metadata, sequence: word): Metadata {
    var unsealed := r.(sequence := sequence, magic := METADATA_MAGIC, formatVersion := FORMAT,
                       slotId := id, marker := COMMIT_MARKER);
    unsealed.(crc := BodyCrc(unsealed))
  }

  /** BootMetadata_Validate. */
  method Validate(id: slot, r: Metadata) returns (ok: bool)
    ensures ok == Valid(id, r)
  {
    hide Encode, Crc32.Checksum;
    var crc := Crc32.CalculateBranch(Encode(r)[..BODY]);
    return r.magic == METADATA_MAGIC && r.formatVersion == FORMAT && r.slotId == id && r.marker == COMMIT_MARKER
        && r.crc == crc && FieldsValid(r);
  }

  /** The record as write_record stamps it. */
  method Seal(id: slot, r: Metadata, sequence: word) returns (sealed: Metadata)
    ensures sealed == Stamp(id, r, sequence)
  {
    hide Encode, Crc32.Checksum;
    sealed := r.(sequence := sequence, magic := METADATA_MAGIC, formatVersion := FORMAT, slotId := id,
                 marker := COMMIT_MARKER);
    var crc := Crc32.CalculateBranch(Encode(sealed)[..BODY]);
    sealed := sealed.(crc := crc);
  }

  function ReadCopy(id: slot, s: seq<byte>): TwinStore.Copy<Metadata>
    requires |s| == METADATA_SIZE
  {
    var r := Decode(s);
    if Valid(id, r) then TwinStore.Intact(r.sequence, r) else TwinStore.Damaged
  }

  lemma BodyIgnoresTail(r: Metadata, crc: word, marker: word)
    ensures BodyCrc(r.(crc := crc, marker := marker)) == BodyCrc(r)
  {
    hide Crc32.Checksum;
    var t := r.(crc := crc, marker := marker);
    assert MetadataWords(r)[..18] == MetadataWords(t)[..18];
    FlattenPrefix(MetadataWords(r), MetadataWords(t), 18);
  }

  /** What write_record stamps is valid exactly when its fields are. */
  lemma StampValid(id: slot, r: Metadata, sequence: word)
    ensures Valid(id, Stamp(id, r, sequence)) <==> FieldsValid(r)
  {
    hide BodyCrc;
    var unsealed := r.(sequence := sequence, magic := METADATA_MAGIC, formatVersion := FORMAT,
                       slotId := id, marker := COMMIT_MARKER);
    BodyIgnoresTail(unsealed, BodyCrc(unsealed), COMMIT_MARKER);
  }

  lemma ValidIsSealed(id: slot, s: seq<byte>)
    requires |s| == METADATA_SIZE && Valid(id, Decode(s))
    ensures Sealed(s, COMMIT_MARKER)
  {
    hide Crc32.Checksum;
    RoundTrip(Decode(s), s);
    assert Words(s)[18] == WordAt(s, 72) && Words(s)[19] == WordAt(s, 76);
  }

  /** A sector torn while `r` was being written reads as damaged or as `r`. */
  lemma TornCopy(id: slot, r: Metadata, k: nat, inFlight: seq<byte>)
    requires Valid(id, r) && 8 * k + 8 <= METADATA_SIZE && |inFlight| == 8
    ensures ReadCopy(id, Torn(Encode(r), k, inFlight)) in {TwinStore.Damaged, TwinStore.Intact(r.sequence, r)}
  {
    hide Encode, Decode, Valid, Sealed, Torn;
    var full := Encode(r);
    RoundTrip(r, full);
    ValidIsSealed(id, full);
    TornIsWholeOrUnsealed(full, k, inFlight, COMMIT_MARKER);
    if Valid(id, Decode(Torn(full, k, inFlight))) {
      ValidIsSealed(id, Torn(full, k, inFlight));
    }
  }

  lemma ErasedCopy(id: slot, s: seq<byte>)
    requires |s| == METADATA_SIZE && IsErased(s[METADATA_SIZE - 4..])
    ensures ReadCopy(id, s).Damaged?
  {
    hide Decode, Valid, Sealed;
    ErasedTailIsUnsealed(s, COMMIT_MARKER);
    if Valid(id, Decode(s)) {
      ValidIsSealed(id, s);
    }
  }

  lemma ZeroCopy(id: slot, s: seq<byte>)
    requires |s| == METADATA_SIZE && s[..4] == [0, 0, 0, 0]
    ensures ReadCopy(id, s).Damaged?
  {
    hide BodyCrc;
    assert WordAt(s, 0) == WordAt(s[..4], 0) == 0;
    assert Words(s)[0] == 0;
  }
}
