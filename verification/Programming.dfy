/** The programming session: erase, download, transfer, exit, verify of the slot
  * that is not running (boot_programming.c). */
module Programming {
  import opened Bytes
  import opened Slots
  import opened TwinStore
  import opened ImageFormat
  import opened Protocol
  import opened Safety
  import opened FlashMap
  import opened FlashModel
  import opened Transfer
  import opened UpdateManager
  import BootImage
  import Version
  import Lifecycle
  import J = JournalFormat
  import M = MetadataFormat

  // Negative response codes (Annex A.1 of ISO 14229-1:2013).
  const POSITIVE: byte := 0
  const INCORRECT_LENGTH: byte := 0x13
  const CONDITIONS_NOT_CORRECT: byte := 0x22
  const SEQUENCE_ERROR: byte := 0x24
  const OUT_OF_RANGE: byte := 0x31
  const ACCESS_DENIED: byte := 0x33
  const PROGRAMMING_FAILURE: byte := 0x72
  const WRONG_BLOCK: byte := 0x73

  const MAX_BLOCK: nat := 130

  /** BootProgrammingContext. */
  datatype Context = Context(
    session: bool, unlocked: bool, downloadActive: bool,
    eraseComplete: bool, transferComplete: bool, imageVerified: bool,
    active: word, target: slot, activeVersion: word,
    address: nat, size: nat, received: nat, programmed: nat,
    expected: byte, buffered: nat, validation: Verdict, staged: seq<byte>)

  /** BootProgramming_Abort: nothing is under way any more. */
  function Stopped(c: Context): Context {
    c.(downloadActive := false, eraseComplete := false, transferComplete := false, imageVerified := false,
       received := 0, programmed := 0, buffered := 0, expected := 1)
  }

  /** access_check. */
  function AccessRefusal(c: Context, can: bool): byte {
    if !c.session then CONDITIONS_NOT_CORRECT
    else if !c.unlocked then ACCESS_DENIED
    else if !can then PROGRAMMING_FAILURE
    else POSITIVE
  }

  /** exact_target. */
  predicate ExactTarget(c: Context, address: int, size: int) {
    c.target != c.active && address == Base(c.target) && size == SLOT_SIZE && ContainsRange(c.target, address, size)
  }

  function EraseRefusal(c: Context, can: bool, permitted: bool, address: int, size: int): byte {
    if AccessRefusal(c, can) != POSITIVE then AccessRefusal(c, can)
    else if c.downloadActive then SEQUENCE_ERROR
    else if !ExactTarget(c, address, size) then OUT_OF_RANGE
    else if !permitted then CONDITIONS_NOT_CORRECT
    else POSITIVE
  }

  function DownloadRefusal(c: Context, can: bool, address: int, size: int): byte {
    if AccessRefusal(c, can) != POSITIVE then AccessRefusal(c, can)
    else if !ExactTarget(c, address, size) then OUT_OF_RANGE
    else if !c.eraseComplete || c.downloadActive || c.transferComplete || c.received != 0
            || address != c.address || size != c.size then SEQUENCE_ERROR
    else POSITIVE
  }

  function TransferRefusal(c: Context, can: bool, sequence: byte, length: nat): byte {
    if AccessRefusal(c, can) != POSITIVE then AccessRefusal(c, can)
    else if !c.downloadActive then SEQUENCE_ERROR
    else if sequence != c.expected then WRONG_BLOCK
    else if length == 0 || length > MAX_BLOCK - 2 then INCORRECT_LENGTH
    else if c.received > c.size || length > c.size - c.received then OUT_OF_RANGE
    else POSITIVE
  }

  function ExitRefusal(c: Context, can: bool): byte {
    if AccessRefusal(c, can) != POSITIVE then AccessRefusal(c, can)
    else if !c.downloadActive || c.received != c.size || c.buffered != 0 || c.programmed != c.size then SEQUENCE_ERROR
    else POSITIVE
  }

  function VerifyRefusal(c: Context, can: bool): byte {
    if AccessRefusal(c, can) != POSITIVE then AccessRefusal(c, can)
    else if !c.eraseComplete || !c.transferComplete || c.downloadActive || c.imageVerified then SEQUENCE_ERROR
    else POSITIVE
  }

  // -------------------------------------------------------------- invariants

  /** The flags of the session agree with the durable journal. */
  predicate Coupled(c: Context, can: bool, r: J.Journal, facadeActive: word, facadeTarget: word) {
    && c.target == TargetOf(c.active) && (IsSlot(c.active) || c.active == UNKNOWN)
    && (c.downloadActive || c.transferComplete ==> c.eraseComplete)
    && !(c.downloadActive && c.transferComplete)
    && (c.imageVerified ==> c.transferComplete)
    && (c.eraseComplete ==> c.address == Base(c.target) && c.size == SLOT_SIZE
                            && facadeActive == c.active && facadeTarget == c.target)
    && (can && c.eraseComplete ==> r.target == c.target && r.active == c.active && r.expectedSize == SLOT_SIZE)
    && (can && c.eraseComplete && !c.downloadActive && !c.transferComplete ==> r.state == J.DOWNLOAD_READY)
    && (can && c.downloadActive ==> r.state == J.PROGRAMMING)
    && (can && c.eraseComplete && !c.transferComplete ==> Checkpointed(r, c.programmed))
    && (can && c.transferComplete ==> r.state in {J.TRANSFER_COMPLETE, J.VERIFYING, J.PENDING_ACTIVATION, J.ABORTED})
    && (can && c.imageVerified ==> r.state == J.PENDING_ACTIVATION)
  }

  /** The progress kept in the journal is a multiple of the checkpoint size, does
    * not reach the header, and counts only bytes that are in flash. */
  predicate Checkpointed(r: J.Journal, programmed: nat) {
    r.committedSize % J.CHECKPOINT == 0 && r.committedSize < HEADER_OFFSET && r.committedSize <= programmed
  }

  /** Everything received is where it belongs: complete phrases in the slot or in
    * the staged header, the rest in the phrase buffer. */
  predicate Buffered(c: Context, stream: Stream, buffer: seq<byte>)
    requires |buffer| == PHRASE
  {
    && c.received == |stream| && c.programmed == Phrases(|stream|)
    && c.buffered == c.received - c.programmed < PHRASE
    && buffer[..c.buffered] == stream[c.programmed..]
  }

  predicate Holds(c: Context, stream: Stream, bytes: SlotBytes) {
    && (c.downloadActive ==> bytes == Written(stream) && c.staged == Staged(stream) && TailErased(stream))
    && (c.eraseComplete && !c.downloadActive && !c.transferComplete ==> bytes == Written([]) && c.received == 0)
  }

  /** After the transfer the journal keeps the header of the stream. */
  predicate Cached(c: Context, r: J.Journal, stream: Stream, bytes: SlotBytes) {
    c.transferComplete && r.state == J.TRANSFER_COMPLETE ==>
      && |stream| == SLOT_SIZE && bytes == Written(stream) && c.staged == Staged(stream) && TailErased(stream)
      && |c.staged| == HEADER_SIZE && r.header == DecodeHeader(c.staged)
  }

  /** The version a new image has to exceed is that of the active slot's image. */
  predicate VersionRight(c: Context, slots: Pair<SlotBytes>) {
    IsSlot(c.active) && Bootable(c.active, slots.At(c.active)) ==> c.activeVersion == VersionOf(slots.At(c.active))
  }

  /** What any request may change: the target slot, the journal, and the record
    * of what was certified in the target. */
  predicate Confined(d: System, e: System, t: slot) {
    && e.metadata == d.metadata && e.trialJumps.At(Other(t)) == d.trialJumps.At(Other(t)) && e.armed == d.armed
    && e.slots.At(Other(t)) == d.slots.At(Other(t)) && e.certified.At(Other(t)) == d.certified.At(Other(t))
  }

  /** All of it, as a property of values. */
  predicate InOrder(c: Context, stream: Stream, buffer: seq<byte>, d: System, can: bool, r: J.Journal,
                    facadeActive: word, facadeTarget: word)
    requires |buffer| == PHRASE
  {
    && Coupled(c, can, r, facadeActive, facadeTarget)
    && Buffered(c, stream, buffer)
    && Holds(c, stream, d.slots.At(c.target))
    && (can ==> Cached(c, r, stream, d.slots.At(c.target)))
    && (c.eraseComplete ==> VersionRight(c, d.slots))
  }

  lemma InitialInOrder(active: word, version: word, buffer: seq<byte>, d: System, can: bool, r: J.Journal,
                       facadeActive: word, facadeTarget: word)
    requires |buffer| == PHRASE && (IsSlot(active) || active == UNKNOWN)
    ensures InOrder(Initial(active, version), [], buffer, d, can, r, facadeActive, facadeTarget)
    ensures (IsSlot(active) && Bootable(active, d.slots.At(active)) ==> version == VersionOf(d.slots.At(active)))
      ==> VersionRight(Initial(active, version), d.slots)
  {
  }

  /** Stopping is always in order. */
  lemma StoppedInOrder(c: Context, buffer: seq<byte>, d: System, can: bool, r: J.Journal, facadeActive: word,
                       facadeTarget: word)
    requires |buffer| == PHRASE && c.target == TargetOf(c.active) && (IsSlot(c.active) || c.active == UNKNOWN)
    ensures InOrder(Stopped(c), [], buffer, d, can, r, facadeActive, facadeTarget)
    ensures VersionRight(Stopped(c), d.slots) == VersionRight(c, d.slots)
  {
  }

  lemma VersionKept(c: Context, d: System, e: System)
    requires Confined(d, e, c.target) && c.target == TargetOf(c.active)
    ensures VersionRight(c, e.slots) == VersionRight(c, d.slots)
  {
    hide Bootable;
  }

  predicate SameSlots(b: Context, c: Context) {
    c.active == b.active && c.target == b.target && c.activeVersion == b.activeVersion
  }

  lemma ConfinedCompose(d: System, e: System, f: System, t: slot)
    requires Confined(d, e, t) && Confined(e, f, t)
    ensures Confined(d, f, t)
  {
  }

  // ------------------------------------------------------------ single steps

  /** A journal commit, done or cut, is a step of the protocol if the commit is. */
  lemma SaveMoves(d: System, e: System, can: bool, next: J.Journal, ok: bool, current: J.Journal, fault: bool, t: slot)
    requires d.journal.Present? && SaveResult(d, e, can, d.journal.record, next, ok, current, fault)
    requires Safe(d) && J.FieldsValid(next) ==> CommitAllowed(d, next)
    requires next.state != J.PENDING_ACTIVATION
    ensures Moves(d, e) && Confined(d, e, t) && e.slots == d.slots
  {
    hide Safe, JournalStep, J.FieldsValid, Committed;
    CommittedState(d.journal.record, next);
    MovesSelf(d);
    if e != d {
      MovesStep(d, e);
    }
  }

  lemma CommittedState(r: J.Journal, next: J.Journal)
    ensures Committed(r, next).state == next.state
  {
    hide J.BodyCrc;
  }

  predicate CommitAllowed(d: System, next: J.Journal)
    requires d.journal.Present?
  {
    JournalStep(d, WithJournal(d, Committed(d.journal.record, next)))
  }

  lemma BeginIsChange(d: System, active: word, target: slot)
    requires Safe(d) && BeginAllowed(d.journal.record, active, target, SLOT_SIZE, Allowed(d.journal.record, active))
    requires IsSlot(active) ==> Confirmed(d, active)
    requires IsSlot(active) || active == UNKNOWN
    requires active == UNKNOWN ==> !d.metadata.a.Present? && !d.metadata.b.Present?
    ensures CommitAllowed(d, BeginRecord(d.journal.record, active, target, SLOT_SIZE))
  {
    hide Bootable, Installed, J.BodyCrc;
    var r := d.journal.record;
    var n := Committed(r, BeginRecord(r, active, target, SLOT_SIZE));
    BegunFields(r, active, target);
    CommittedFields(r, BeginRecord(r, active, target, SLOT_SIZE));
    assert BeginStep(d, r, n, active, target);
  }

  lemma AdvanceIsChange(d: System, state: word)
    requires Safe(d) && J.PREPARING <= d.journal.record.state < J.VERIFIED && d.journal.record.state != J.PROGRAMMING
    requires state == d.journal.record.state + 1
    ensures CommitAllowed(d, d.journal.record.(state := state))
  {
    hide Bootable, Installed, J.BodyCrc, BeginStep;
    AdvancedFields(d.journal.record, state);
    CommittedFields(d.journal.record, d.journal.record.(state := state));
  }

  lemma AbortIsChange(d: System, reason: word)
    requires Safe(d) && J.PREPARING <= d.journal.record.state <= J.ABORTED && reason <= J.COMMISSIONED
    ensures CommitAllowed(d, d.journal.record.(state := J.ABORTED, lastResult := reason))
  {
    hide Bootable, Installed, J.BodyCrc, BeginStep;
    EndedFields(d.journal.record, J.ABORTED, reason);
    CommittedFields(d.journal.record, d.journal.record.(state := J.ABORTED, lastResult := reason));
  }

  lemma ProgressIsChange(d: System, committed: word, block: byte)
    requires Safe(d) && d.journal.record.state == J.PROGRAMMING && committed <= d.journal.record.expectedSize
    ensures CommitAllowed(d, d.journal.record.(committedSize := committed, lastBlock := block))
  {
    hide Bootable, Installed, J.BodyCrc, BeginStep;
    ProgressedFields(d.journal.record, committed, block);
    CommittedFields(d.journal.record, d.journal.record.(committedSize := committed, lastBlock := block));
  }

  lemma CompleteIsChange(d: System, h: Header, block: byte)
    requires Safe(d) && d.journal.record.state == J.PROGRAMMING
    ensures CommitAllowed(d, CompletedRecord(d.journal.record, h, block))
  {
    hide Bootable, Installed, J.BodyCrc, BeginStep;
    CompletedFields(d.journal.record, h, block);
    CommittedFields(d.journal.record, CompletedRecord(d.journal.record, h, block));
  }

  /** A change of the target slot while its update is under way. */
  lemma SlotMoves(d: System, e: System, t: slot)
    requires d.journal.Present? && d.journal.record.target == t
    requires d.journal.record.state in {J.ERASING, J.PROGRAMMING, J.VERIFYING}
    requires e == WithSlot(d, t, e.slots.At(t))
    ensures Moves(d, e) && Confined(d, e, t)
  {
    hide Safe;
    assert SlotStep(d, e, t);
    MovesStep(d, e);
  }

  // ----------------------------------------------------------------- erasing

  /** The header sector holds the invalid marker and nothing else. */
  predicate Marked(bytes: SlotBytes) {
    forall i :: HEADER_OFFSET <= i < SLOT_SIZE ==> bytes[i] == (if i < HEADER_OFFSET + PHRASE then 0 else ERASED)
  }

  predicate ErasedTo(bytes: SlotBytes, end: nat) {
    forall i :: 0 <= i < end && i < HEADER_OFFSET ==> bytes[i] == ERASED
  }

  lemma ErasedSlot(bytes: SlotBytes)
    requires Marked(bytes) && ErasedTo(bytes, HEADER_OFFSET)
    ensures bytes == Written([])
  {
    assert forall i: nat :: i < SLOT_SIZE ==> bytes[i] == WrittenAt([], i);
  }

  lemma HeaderMarked(m: Memory, n: Memory, id: slot)
    requires IsErased(m[HeaderAddress(id)..HeaderAddress(id) + SECTOR])
    requires ChangedWithin(m, n, HeaderAddress(id), HeaderAddress(id) + PHRASE)
    requires n[HeaderAddress(id)..HeaderAddress(id) + PHRASE] == seq(PHRASE, _ => 0)
    ensures Marked(SlotOf(n, id))
  {
    var sector := m[HeaderAddress(id)..HeaderAddress(id) + SECTOR];
    var phrase := n[HeaderAddress(id)..HeaderAddress(id) + PHRASE];
    forall i | HEADER_OFFSET <= i < SLOT_SIZE
      ensures SlotOf(n, id)[i] == (if i < HEADER_OFFSET + PHRASE then 0 else ERASED)
    {
      if i < HEADER_OFFSET + PHRASE {
        assert phrase[i - HEADER_OFFSET] == n[Base(id) + i];
      } else {
        assert sector[i - HEADER_OFFSET] == m[Base(id) + i];
      }
    }
  }

  lemma SectorErased(m: Memory, n: Memory, id: slot, offset: nat)
    requires offset + SECTOR <= HEADER_OFFSET
    requires ChangedWithin(m, n, Base(id) + offset, Base(id) + offset + SECTOR)
    requires IsErased(n[Base(id) + offset..Base(id) + offset + SECTOR])
    ensures Marked(SlotOf(m, id)) ==> Marked(SlotOf(n, id))
    ensures ErasedTo(SlotOf(m, id), offset) ==> ErasedTo(SlotOf(n, id), offset + SECTOR)
  {
    var sector := n[Base(id) + offset..Base(id) + offset + SECTOR];
    forall i | 0 <= i < SLOT_SIZE
      ensures SlotOf(n, id)[i] == if offset <= i < offset + SECTOR then ERASED else SlotOf(m, id)[i]
    {
      assert SlotOf(n, id)[i] == n[Base(id) + i] && SlotOf(m, id)[i] == m[Base(id) + i];
      if offset <= i < offset + SECTOR {
        assert sector[i - offset] == n[Base(id) + i];
      }
    }
  }

  /** A change of flash inside the target slot. */
  predicate InSlot(d: System, e: System, t: slot) { e == WithSlot(d, t, e.slots.At(t)) }

  lemma InSlotCompose(d: System, e: System, f: System, t: slot)
    requires InSlot(d, e, t) && InSlot(e, f, t)
    ensures InSlot(d, f, t)
  {
  }

  lemma InSlotSelf(d: System, t: slot)
    ensures InSlot(d, d, t)
  {
  }

  lemma ChangeInSlot(m: Memory, n: Memory, id: slot, low: nat, high: nat, h: History)
    requires ChangedWithin(m, n, low, high) && Base(id) <= low && high <= Base(id) + SLOT_SIZE && Unambiguous(m)
    ensures Unambiguous(n) && InSlot(SystemOf(m, h), SystemOf(n, h), id)
    ensures SystemOf(n, h).slots.At(id) == SlotOf(n, id)
  {
    hide JournalOf, MetadataOf, Unambiguous, ChangedWithin;
    SlotChange(m, n, id, low, high, h);
  }

  lemma SlotAt(m: Memory, h: History, id: slot)
    ensures SystemOf(m, h).slots.At(id) == SlotOf(m, id)
  {
    hide JournalOf, MetadataOf;
  }

  /** Erase the header sector and program the invalid marker. */
  method InvalidateHeader(flash: Flash, target: slot) returns (ok: bool)
    requires flash.Consistent() && flash.targetSlot == target && flash.activeSlot != target
    modifies flash`powered, flash`failures, flash`misuse, flash`touched, flash.mem
    ensures flash.Consistent() && flash.Onward() && (ok ==> flash.Uneventful())
    ensures InSlot(old(flash.State()), flash.State(), target)
    ensures ok ==> Marked(flash.State().slots.At(target))
    ensures flash.Uneventful() ==> ok
  {
    hide SystemOf, ChangedWithin, Unambiguous, SlotOf, Marked;
    ghost var m := flash.mem[..];
    var header := HeaderAddress(target);
    InSlotSelf(flash.State(), target);
    ok := flash.Erase(header, SECTOR);
    ghost var n := flash.mem[..];
    ChangeInSlot(m, n, target, header, header + SECTOR, flash.history);
    if !ok {
      return;
    }
    BootImage.FirstBytesErased(n, header);
    ok := flash.Program(header, seq(PHRASE, _ => 0));
    ChangeInSlot(n, flash.mem[..], target, header, header + PHRASE, flash.history);
    if ok {
      HeaderMarked(n, flash.mem[..], target);
    }
  }

  /** Erase one payload sector. */
  method EraseSector(flash: Flash, target: slot, offset: nat) returns (ok: bool)
    requires flash.Consistent() && flash.targetSlot == target && flash.activeSlot != target
    requires offset + SECTOR <= HEADER_OFFSET && offset % SECTOR == 0
    modifies flash`powered, flash`failures, flash`touched, flash.mem
    ensures flash.Consistent() && flash.Onward() && (ok ==> flash.Uneventful())
    ensures flash.touched <= old(flash.touched)
    ensures ok ==> flash.Clean(Base(target) + offset, Base(target) + offset + SECTOR)
    ensures InSlot(old(flash.State()), flash.State(), target)
    ensures var was, bytes := old(flash.State()).slots.At(target), flash.State().slots.At(target);
      ok && Marked(was) && ErasedTo(was, offset) ==> Marked(bytes) && ErasedTo(bytes, offset + SECTOR)
    ensures flash.Uneventful() ==> ok
  {
    hide SystemOf, ChangedWithin, Unambiguous, SlotOf, Marked, ErasedTo;
    ghost var m := flash.mem[..];
    SlotAt(m, flash.history, target);
    ok := flash.Erase(Base(target) + offset, SECTOR);
    ChangeInSlot(m, flash.mem[..], target, Base(target) + offset, Base(target) + offset + SECTOR, flash.history);
    if ok {
      SectorErased(m, flash.mem[..], target, offset);
    }
  }

  /** What BootProgramming_Erase has done when it reports success. */
  predicate EraseDone(b: Context, c: Context, was: J.Journal, r: J.Journal, can: bool) {
    && c == Stopped(b).(eraseComplete := true, address := Base(b.target), size := SLOT_SIZE)
    && can && r == Advanced(Advanced(Begun(was, b.active, b.target, SLOT_SIZE), J.ERASING), J.DOWNLOAD_READY)
  }

  function TargetOf(active: word): slot { if active == SLOT_A then SLOT_B else SLOT_A }

  function Initial(active: word, version: word): Context {
    Context(false, false, false, false, false, false, active, TargetOf(active), version, 0, 0, 0, 0, 1, 0,
            Verdict.EMPTY, seq(HEADER_SIZE, _ => 0))
  }

  /** An update of the slot beside `active` may be started. */
  predicate MayStart(update: Update, lifecycle: Lifecycle.Lifecycle, active: word)
    reads update, lifecycle
  {
    update.CanContinue() && (IsSlot(active) ==> update.IsSlotBootable(active))
      && lifecycle.CanStartUpdate(active, TargetOf(active))
  }

  predicate DownloadDone(b: Context, c: Context, was: J.Journal, r: J.Journal, can: bool) {
    && c == b.(downloadActive := true, imageVerified := false, validation := Verdict.EMPTY, staged := Staged([]))
    && can && r == Advanced(was, J.PROGRAMMING)
  }

  /** A session ready for download. */
  lemma ReadyInOrder(c: Context, stream: Stream, buffer: seq<byte>, d: System, r: J.Journal, facadeActive: word,
                     facadeTarget: word)
    requires |buffer| == PHRASE && InOrder(c, stream, buffer, d, true, r, facadeActive, facadeTarget)
    requires c.eraseComplete && !c.downloadActive && !c.transferComplete
    ensures r.state == J.DOWNLOAD_READY && VersionRight(c, d.slots)
  {
    hide VersionRight, Holds, Buffered, Cached;
  }

  /** Once the journal cannot be trusted only the slots matter. */
  lemma FaultInOrder(c: Context, stream: Stream, buffer: seq<byte>, d: System, e: System, r: J.Journal, s: J.Journal,
                     facadeActive: word, facadeTarget: word)
    requires |buffer| == PHRASE && InOrder(c, stream, buffer, d, true, r, facadeActive, facadeTarget)
    requires e.slots == d.slots
    ensures InOrder(c, stream, buffer, e, false, s, facadeActive, facadeTarget)
  {
    hide VersionRight, Holds, Buffered, Cached;
  }

  lemma DownloadInOrder(b: Context, c: Context, stream: Stream, buffer: seq<byte>, d: System, e: System, r: J.Journal,
                        facadeActive: word, facadeTarget: word)
    requires |buffer| == PHRASE && InOrder(b, stream, buffer, d, true, r, facadeActive, facadeTarget)
    requires b.eraseComplete && !b.downloadActive && !b.transferComplete
    requires c == b.(downloadActive := true, imageVerified := false, validation := Verdict.EMPTY,
                     staged := seq(HEADER_SIZE, _ => ERASED))
    requires e.slots == d.slots
    ensures InOrder(c, stream, buffer, e, true, Advanced(r, J.PROGRAMMING), facadeActive, facadeTarget)
    ensures stream == [] && c.staged == Staged([])
    ensures VersionRight(c, e.slots)
  {
    hide Bootable, J.BodyCrc;
    assert forall i: nat :: i < HEADER_SIZE ==> StagedAt([], i) == ERASED;
    assert c.staged == Staged([]);
  }

  /** The transfer in the middle of a request: `received` is updated at its end. */
  predicate Streaming(c: Context, stream: Stream, buffer: seq<byte>, bytes: SlotBytes)
    requires |buffer| == PHRASE
  {
    && c.programmed == Phrases(|stream|) && c.buffered == |stream| - c.programmed
    && buffer[..c.buffered] == stream[c.programmed..]
    && bytes == Written(stream) && c.staged == Staged(stream) && TailErased(stream)
  }

  /** A full phrase in the buffer that is still to be flushed. */
  predicate Full(c: Context, before: Stream, after: Stream, buffer: seq<byte>, bytes: SlotBytes)
    requires |buffer| == PHRASE
  {
    && |before| % PHRASE == 0 && |after| == |before| + PHRASE && before == after[..|before|]
    && c.programmed == |before| && c.buffered == PHRASE && buffer == after[|before|..]
    && bytes == Written(before) && c.staged == Staged(before) && TailErased(before)
  }

  /** flush_phrase of a payload or tail phrase: one program of an erased phrase. */
  method ProgramPhrase(flash: Flash, target: slot, at: nat, phrase: seq<byte>, ghost before: Stream) returns (ok: bool)
    requires flash.Consistent() && flash.targetSlot == target && flash.activeSlot != target
    requires |phrase| == PHRASE && at % PHRASE == 0 && at + PHRASE <= SLOT_SIZE
    requires at < HEADER_OFFSET || HEADER_OFFSET + HEADER_SIZE <= at
    requires at == |before| && flash.State().slots.At(target) == Written(before)
    requires IsErased(phrase) || flash.Clean(Base(target) + at, Base(target) + at + PHRASE)
    modifies flash`powered, flash`failures, flash`misuse, flash`touched, flash.mem
    ensures flash.Consistent() && flash.Onward() && (ok ==> flash.Uneventful())
    ensures flash.TouchedWithin(Base(target) + at, Base(target) + at + PHRASE)
    ensures InSlot(old(flash.State()), flash.State(), target)
    ensures ok ==> PhraseIn(old(flash.State()).slots.At(target), flash.State().slots.At(target), at, phrase)
    ensures flash.Uneventful() ==> ok
  {
    hide SystemOf, ChangedWithin, Unambiguous, SlotOf, Written, PhraseIn;
    ghost var m := flash.mem[..];
    var address := Base(target) + at;
    SlotAt(m, flash.history, target);
    ErasedPhrase(m, target, at, before);
    ok := flash.Program(address, phrase);
    ChangeInSlot(m, flash.mem[..], target, address, address + PHRASE, flash.history);
    if ok {
      PhraseInSlot(m, flash.mem[..], target, at, phrase);
    }
  }

  predicate PhraseIn(was: SlotBytes, bytes: SlotBytes, at: nat, phrase: seq<byte>)
    requires at + PHRASE <= SLOT_SIZE
  {
    bytes[..at] == was[..at] && bytes[at..at + PHRASE] == phrase && bytes[at + PHRASE..] == was[at + PHRASE..]
  }

  lemma ErasedPhrase(m: Memory, id: slot, at: nat, before: Stream)
    requires at == |before| && at + PHRASE <= SLOT_SIZE && at % PHRASE == 0
    requires at < HEADER_OFFSET || HEADER_OFFSET + HEADER_SIZE <= at
    requires SlotOf(m, id) == Written(before)
    ensures IsErased(m[Base(id) + at..Base(id) + at + PHRASE])
  {
    var phrase := m[Base(id) + at..Base(id) + at + PHRASE];
    forall i: nat | i < PHRASE ensures phrase[i] == ERASED {
      assert SlotOf(m, id)[at + i] == m[Base(id) + (at + i)];
      assert Written(before)[at + i] == WrittenAt(before, at + i);
    }
  }

  lemma PhraseInSlot(m: Memory, n: Memory, id: slot, at: nat, phrase: seq<byte>)
    requires |phrase| == PHRASE && at + PHRASE <= SLOT_SIZE
    requires ChangedWithin(m, n, Base(id) + at, Base(id) + at + PHRASE)
    requires n[Base(id) + at..Base(id) + at + PHRASE] == phrase
    ensures PhraseIn(SlotOf(m, id), SlotOf(n, id), at, phrase)
  {
    var was, bytes := SlotOf(m, id), SlotOf(n, id);
    forall i | 0 <= i < SLOT_SIZE
      ensures bytes[i] == if at <= i < at + PHRASE then phrase[i - at] else was[i]
    {
      assert was[i] == m[Base(id) + i] && bytes[i] == n[Base(id) + i];
      if at <= i < at + PHRASE {
        assert n[Base(id) + at..Base(id) + at + PHRASE][i - at] == n[Base(id) + i];
      }
    }
  }

  /** The payload or the tail after one more phrase. */
  lemma FlashPhraseFlushed(c: Context, before: Stream, after: Stream, buffer: seq<byte>, was: SlotBytes,
                           bytes: SlotBytes)
    requires |buffer| == PHRASE && Full(c, before, after, buffer, was)
    requires |before| < HEADER_OFFSET || (HEADER_OFFSET + HEADER_SIZE <= |before| && IsErased(buffer))
    requires PhraseIn(was, bytes, |before|, buffer)
    ensures Streaming(c.(programmed := c.programmed + PHRASE, buffered := 0), after, buffer, bytes)
  {
    hide Written, Staged, TailErased;
    if |before| < HEADER_OFFSET {
      PayloadPhrase(before, after, bytes);
      NoTailYet(after);
    } else {
      TailPhrase(before, after);
      SamePhrase(was, bytes, |before|, buffer);
    }
  }

  lemma SamePhrase(was: SlotBytes, bytes: SlotBytes, at: nat, phrase: seq<byte>)
    requires |phrase| == PHRASE && at + PHRASE <= SLOT_SIZE && PhraseIn(was, bytes, at, phrase)
    requires IsErased(phrase) && was[at..at + PHRASE] == seq(PHRASE, _ => ERASED)
    ensures bytes == was
  {
    assert phrase == seq(PHRASE, _ => ERASED);
    assert was == was[..at] + was[at..at + PHRASE] + was[at + PHRASE..];
    assert bytes == bytes[..at] + bytes[at..at + PHRASE] + bytes[at + PHRASE..];
  }

  lemma StagedPhraseFlushed(c: Context, before: Stream, after: Stream, buffer: seq<byte>, bytes: SlotBytes)
    requires |buffer| == PHRASE && Full(c, before, after, buffer, bytes)
    requires HEADER_OFFSET <= |before| < HEADER_OFFSET + HEADER_SIZE
    ensures var at := |before| - HEADER_OFFSET;
      && |c.staged| == HEADER_SIZE && at + PHRASE <= HEADER_SIZE
      && var n := c.(programmed := c.programmed + PHRASE, buffered := 0,
                     staged := c.staged[..at] + buffer + c.staged[at + PHRASE..]);
         Streaming(n, after, buffer, bytes)
  {
    hide Written, Staged, TailErased;
    HeaderPhrase(before, after);
    NoTailYet(after);
  }

  lemma VersionReads(b: Context, c: Context, slots: Pair<SlotBytes>)
    requires c.active == b.active && c.activeVersion == b.activeVersion
    ensures VersionRight(c, slots) == VersionRight(b, slots)
  {
    hide Bootable;
  }

  lemma StreamingFits(c: Context, stream: Stream, buffer: seq<byte>, bytes: SlotBytes)
    requires |buffer| == PHRASE && Streaming(c, stream, buffer, bytes)
    ensures c.buffered < PHRASE && c.programmed + c.buffered == |stream| && TailErased(stream)
  {
    hide Written, Staged, TailErased;
  }

  /** One more byte in the buffer; `was` is the buffer before it. */
  lemma ByteFed(received: Stream, next: Stream, b: byte, c: Context, was: seq<byte>, buffer: seq<byte>,
                bytes: SlotBytes)
    requires |buffer| == |was| == PHRASE && next == received + [b] && 0 < c.buffered <= PHRASE
    requires Streaming(c.(buffered := c.buffered - 1), received, was, bytes)
    requires buffer == was[c.buffered - 1 := b]
    ensures c.programmed <= |next|
    ensures c.buffered < PHRASE ==> Streaming(c, next, buffer, bytes)
    ensures c.buffered == PHRASE ==> Full(c, next[..c.programmed], next, buffer, bytes)
  {
    hide Written, Staged, TailErased;
    var k := c.programmed;
    assert k == Phrases(|received|) && |received| - k == c.buffered - 1;
    assert received[..k] == next[..k];
    assert buffer[..c.buffered] == was[..c.buffered - 1] + [b];
    assert next[k..] == received[k..] + [b];
    if c.buffered < PHRASE {
      PartialPhrase(received, next);
    } else {
      PartialPhrase(next[..k], received);
      assert buffer[..PHRASE] == buffer;
    }
  }

  lemma TailOnward(stream: Stream, whole: Stream)
    requires |stream| <= |whole| && stream == whole[..|stream|]
    ensures TailErased(whole) ==> TailErased(stream)
  {
    if TailErased(whole) {
      forall i | HEADER_OFFSET + HEADER_SIZE <= i < Phrases(|stream|) ensures stream[i] == ERASED {
        assert whole[..|stream|][i] == whole[i];
      }
    }
  }

  lemma FullFits(c: Context, before: Stream, after: Stream, buffer: seq<byte>, bytes: SlotBytes)
    requires |buffer| == PHRASE && Full(c, before, after, buffer, bytes)
    ensures c.programmed == |before| && c.programmed % PHRASE == 0 && c.programmed + PHRASE == |after| <= SLOT_SIZE
    ensures |before| + PHRASE == |after| && before == after[..|before|] && buffer == after[|before|..]
    ensures bytes == Written(before) && TailErased(before) && |c.staged| == HEADER_SIZE
  {
    hide Written, TailErased;
  }

  predicate ProgressSound(r: J.Journal, c: Context) {
    r.expectedSize == SLOT_SIZE && c.programmed <= SLOT_SIZE && Checkpointed(r, c.programmed)
  }

  lemma DurableSound(programmed: nat)
    requires programmed <= SLOT_SIZE
    ensures var durable := Durable(programmed, SLOT_SIZE);
      && durable % J.CHECKPOINT == 0 && durable <= programmed && 0 <= durable < HEADER_OFFSET
      && forall k: nat :: k % 32768 == 0 && k <= programmed && k < SLOT_SIZE ==> k <= durable
  {
    forall k: nat | k % 32768 == 0 && k <= programmed && k < SLOT_SIZE ensures k <= Durable(programmed, SLOT_SIZE) {
      assert k / 32768 * 32768 == k;
    }
  }

  lemma SaveProgressed(d: System, e: System, r: J.Journal, durable: word, sequence: byte, ok: bool, current: J.Journal,
                       fault: bool)
    requires SaveResult(d, e, true, r, r.(committedSize := durable, lastBlock := sequence), ok, current, fault)
    requires durable > r.committedSize
    ensures ok ==> SameUpdate(r, current) && current.committedSize == durable && !fault
    ensures !ok ==> fault
  {
    hide J.BodyCrc, J.FieldsValid;
  }

  predicate SameUpdate(r: J.Journal, s: J.Journal) {
    && s.state == r.state && s.target == r.target && s.active == r.active && s.expectedSize == r.expectedSize
    && s.committedSize >= r.committedSize && s.transaction == r.transaction
  }

  lemma ProgressPossible(r: J.Journal, c: Context)
    requires J.FieldsValid(r) && r.state == J.PROGRAMMING && ProgressSound(r, c)
    ensures ProgressAccepted(r, c.programmed)
  {
  }

  /** A checkpoint, saved, cut or not due. */
  lemma ProgressMoves(d: System, e: System, r: J.Journal, c: Context, sequence: byte, ok: bool, current: J.Journal,
                      fault: bool)
    requires d.journal == Present(r) && J.FieldsValid(r) && r.state == J.PROGRAMMING && ProgressSound(r, c)
    requires ProgressResult(d, e, true, r, c.programmed, sequence, ok, current, fault)
    ensures Moves(d, e) && Confined(d, e, c.target) && e.slots == d.slots
    ensures ok ==> !fault && ProgressSound(current, c) && SameUpdate(r, current)
    ensures !ok ==> fault
  {
    hide SaveResult, Moves, CommitAllowed, J.FieldsValid, J.BodyCrc, Safe;
    MovesSelf(d);
    DurableSound(c.programmed);
    var durable := Durable(c.programmed, r.expectedSize);
    if durable > r.committedSize {
      var next := r.(committedSize := durable, lastBlock := sequence);
      ProgressedFields(r, durable, sequence);
      if Safe(d) { ProgressIsChange(d, durable, sequence); }
      SaveMoves(d, e, true, next, ok, current, fault, c.target);
      SaveProgressed(d, e, r, durable, sequence, ok, current, fault);
    }
  }

  /** The block counter of the next request. */
  function Counted(c: Context): Context { c.(expected := (c.expected + 1) % 256) }

  predicate ReceiveDone(b: Context, c: Context, length: nat) {
    c == b.(received := b.received + length, programmed := c.programmed, buffered := c.buffered, staged := c.staged,
            expected := (b.expected + 1) % 256)
  }

  predicate ExitDone(b: Context, was: J.Journal, r: J.Journal, can: bool) {
    && can && |b.staged| == HEADER_SIZE
    && r == Committed(was, CompletedRecord(was, DecodeHeader(b.staged), (b.expected - 1) % 256))
  }

  lemma DownloadSize(c: Context, stream: Stream, buffer: seq<byte>, d: System, can: bool, r: J.Journal,
                     facadeActive: word, facadeTarget: word)
    requires |buffer| == PHRASE && InOrder(c, stream, buffer, d, can, r, facadeActive, facadeTarget) && c.downloadActive
    ensures c.size == SLOT_SIZE && c.received == |stream|
  {
    hide VersionRight, Holds, Cached;
  }

  /** What holds while a download is active. */
  lemma StreamingInOrder(c: Context, stream: Stream, buffer: seq<byte>, d: System, r: J.Journal, facadeActive: word,
                         facadeTarget: word)
    requires |buffer| == PHRASE && InOrder(c, stream, buffer, d, true, r, facadeActive, facadeTarget)
    requires c.downloadActive
    ensures Streaming(c, stream, buffer, d.slots.At(c.target)) && VersionRight(c, d.slots)
    ensures c.address == Base(c.target) && c.size == SLOT_SIZE && c.received == |stream| && |c.staged| == HEADER_SIZE
    ensures r.state == J.PROGRAMMING && r.target == c.target && facadeTarget == c.target && facadeActive == c.active
    ensures ProgressSound(r, c) && c.eraseComplete && !c.transferComplete
  {
    hide VersionRight, Written, Staged, TailErased;
  }

  /** The session after a request was taken in. */
  lemma FedInOrder(b: Context, fed: Context, c: Context, before: Stream, after: Stream, was: seq<byte>,
                   buffer: seq<byte>, d: System, e: System, r: J.Journal, facadeActive: word, facadeTarget: word)
    requires |was| == |buffer| == PHRASE && InOrder(b, before, was, d, true, r, facadeActive, facadeTarget)
    requires b.downloadActive
    requires fed == b.(programmed := fed.programmed, buffered := fed.buffered, staged := fed.staged)
    requires |before| <= |after| && c == fed.(received := |after|)
    requires Streaming(fed, after, buffer, e.slots.At(c.target)) && VersionRight(c, e.slots)
    ensures InOrder(c, after, buffer, e, true, r, facadeActive, facadeTarget) && ProgressSound(r, c)
    ensures Streaming(c, after, buffer, e.slots.At(c.target))
  {
    hide VersionRight, Written, Staged, TailErased;
    assert Phrases(|before|) <= Phrases(|after|);
  }

  /** A checkpoint changes nothing the session depends on; nor does the block counter. */
  lemma SavedInOrder(c: Context, stream: Stream, buffer: seq<byte>, d: System, e: System, r: J.Journal, s: J.Journal,
                     facadeActive: word, facadeTarget: word)
    requires |buffer| == PHRASE && InOrder(c, stream, buffer, d, true, r, facadeActive, facadeTarget)
    requires c.downloadActive
    requires e.slots == d.slots && SameUpdate(r, s) && ProgressSound(s, c)
    ensures forall expected: byte :: InOrder(c.(expected := expected), stream, buffer, e, true, s, facadeActive,
                                             facadeTarget)
  {
    hide Bootable, Written, Staged, TailErased;
  }

  lemma MarkPossible(r: J.Journal)
    requires J.FieldsValid(r) && r.state == J.PROGRAMMING
    ensures Completable(r)
  {
  }

  lemma CompleteMoves(d: System, e: System, r: J.Journal, h: Header, block: byte, ok: bool, current: J.Journal,
                      fault: bool, t: slot)
    requires d.journal == Present(r) && J.FieldsValid(r) && r.state == J.PROGRAMMING
    requires Attempt(true, d, e, true, r, CompletedRecord(r, h, block), ok, current, fault)
    ensures Moves(d, e) && Confined(d, e, t) && e.slots == d.slots && e.metadata == d.metadata
    ensures ok ==> current == Committed(r, CompletedRecord(r, h, block)) && !fault
    ensures !ok ==> fault
  {
    hide J.BodyCrc, J.FieldsValid, Safe, Moves, CommitAllowed, Committed;
    CompletedFields(r, h, block);
    if Safe(d) { CompleteIsChange(d, h, block); }
    SaveMoves(d, e, true, CompletedRecord(r, h, block), ok, current, fault, t);
  }

  lemma CompletedInOrder(b: Context, c: Context, stream: Stream, buffer: seq<byte>, d: System, e: System, r: J.Journal,
                         block: byte, facadeActive: word, facadeTarget: word)
    requires |buffer| == PHRASE && InOrder(b, stream, buffer, d, true, r, facadeActive, facadeTarget)
    requires b.downloadActive
    requires b.received == SLOT_SIZE && |b.staged| == HEADER_SIZE
    requires c == b.(downloadActive := false, transferComplete := true) && e.slots == d.slots
    ensures InOrder(c, stream, buffer, e, true, Committed(r, CompletedRecord(r, DecodeHeader(b.staged), block)),
                    facadeActive, facadeTarget)
  {
    hide Bootable, Written, Staged, TailErased, DecodeHeader, J.BodyCrc;
  }

  lemma VerifiedMoves(d: System, e: System, ok: bool, current: J.Journal, t: slot)
    requires d.journal.Present? && J.FieldsValid(d.journal.record) && d.journal.record.state == J.VERIFYING
    requires d.journal.record.target == t && Installed(d.journal.record, d.slots) && d.slots.At(t) == d.certified.At(t)
    requires VerifiedResult(d, e, true, d.journal.record, false, ok, current)
    ensures Moves(d, e) && Confined(d, e, t) && e.slots == d.slots && e.certified == d.certified
    ensures ok ==> current == Activated(Advanced(d.journal.record, J.VERIFIED), J.SUCCESS)
  {
    hide Moves, Safe, Installed, J.FieldsValid, J.BodyCrc;
    var r := d.journal.record;
    var v := Advanced(r, J.VERIFIED);
    var m := WithJournal(d, v);
    AdvancedFields(r, J.VERIFIED);
    CommittedFields(r, r.(state := J.VERIFIED));
    assert JournalStep(d, m);
    MovesSelf(d);
    MovesStep(d, m);
    InstalledReads(r, v, d.slots);
    EndedFields(v, J.PENDING_ACTIVATION, J.SUCCESS);
    CommittedFields(v, v.(state := J.PENDING_ACTIVATION, lastResult := J.SUCCESS));
    var f := WithJournal(m, Activated(v, J.SUCCESS));
    assert JournalStep(m, f);
    MovesStep(m, f);
    MovesCompose(d, m, f);
  }

  lemma AdvancePossible(r: J.Journal, state: word)
    requires state in {J.ERASING, J.DOWNLOAD_READY, J.PROGRAMMING, J.VERIFYING}
    ensures TransitionAllowed(r.state, state) <==> r.state + 1 == state
    ensures TransitionAllowed(r.state, state) && J.FieldsValid(r) ==> J.FieldsValid(r.(state := state))
  {
    if TransitionAllowed(r.state, state) {
      AdvancedFields(r, state);
    }
  }

  lemma AdvanceMoves(d: System, e: System, can: bool, r: J.Journal, state: word, ok: bool, current: J.Journal,
                     fault: bool, t: slot)
    requires can ==> d.journal == Present(r) && J.FieldsValid(r)
    requires state in {J.ERASING, J.DOWNLOAD_READY, J.PROGRAMMING, J.VERIFYING}
    requires Attempt(TransitionAllowed(r.state, state), d, e, can, r, r.(state := state), ok, current, fault)
    ensures Moves(d, e) && Confined(d, e, t) && e.slots == d.slots
    ensures ok ==> can && r.state + 1 == state && current == Advanced(r, state) && !fault
    ensures can && !ok ==> fault || (r.state + 1 != state && current == r && e == d)
  {
    hide Moves, Safe, J.FieldsValid, J.BodyCrc, CommitAllowed;
    MovesSelf(d);
    AdvancePossible(r, state);
    if can && TransitionAllowed(r.state, state) {
      if Safe(d) { AdvanceIsChange(d, state); }
      SaveMoves(d, e, true, r.(state := state), ok, current, fault, t);
    }
  }

  /** The session holds a complete stream, and the journal its header. */
  predicate Transferred(c: Context, stream: Stream, r: J.Journal) {
    && |stream| == SLOT_SIZE && TailErased(stream) && c.staged == Staged(stream) && |c.staged| == HEADER_SIZE
    && r.header == DecodeHeader(c.staged)
  }

  /** The answer to a verify request on a completely transferred stream. */
  function Judgement(c: Context, stream: Stream): byte
    requires |c.staged| == HEADER_SIZE
  {
    var header := DecodeHeader(c.staged);
    if ImageFormat.Validate(c.target, header, Written(stream)) != Verdict.VALID then PROGRAMMING_FAILURE
    else if IsSlot(c.active) && header.softwareVersion <= c.activeVersion then OUT_OF_RANGE
    else POSITIVE
  }

  /** The answer to a verify request is positive exactly for a stream that is an image
    * of the target, newer than that of the active slot. */
  lemma JudgementExactly(c: Context, stream: Stream, r: J.Journal)
    requires Transferred(c, stream, r)
    ensures Judgement(c, stream) == POSITIVE <==>
      && ImageFormat.LoadInfo(c.target, stream) == Verdict.VALID
      && (IsSlot(c.active) ==> VersionOf(stream) > c.activeVersion)
  {
    hide Written, Staged, TailErased, DecodeHeader, ImageFormat.Validate;
    PublishedStream(stream);
    ValidateReadsPayload(c.target, DecodeHeader(c.staged), stream, Written(stream));
  }

  /** The verdict that was noted before does not show in what a verification has done. */
  lemma DoneAfterVerdict(b: Context, judged: Context, sent: Stream, was: J.Journal, now: Snapshot)
    requires judged == b.(validation := judged.validation)
    ensures VerifyDone(judged, sent, was, now) ==> VerifyDone(b, sent, was, now)
  {
    hide Installed, J.BodyCrc;
  }

  lemma CompleteSession(c: Context, stream: Stream, buffer: seq<byte>, d: System, r: J.Journal, facadeActive: word,
                        facadeTarget: word)
    requires |buffer| == PHRASE && InOrder(c, stream, buffer, d, true, r, facadeActive, facadeTarget)
    requires c.transferComplete
    ensures VersionRight(c, d.slots) && r.target == c.target && r.active == c.active && r.expectedSize == SLOT_SIZE
    ensures facadeTarget == c.target && facadeActive == c.active
  {
    hide VersionRight, Written, Staged, TailErased;
  }

  /** After the transfer, judging and its consequences stay in order. */
  lemma JudgedInOrder(b: Context, c: Context, stream: Stream, buffer: seq<byte>, d: System, e: System, r: J.Journal,
                      s: J.Journal, facadeActive: word, facadeTarget: word, can: bool)
    requires |buffer| == PHRASE && InOrder(b, stream, buffer, d, true, r, facadeActive, facadeTarget)
    requires b.transferComplete
    requires c == b.(validation := c.validation, imageVerified := c.imageVerified)
    requires can ==> s.target == r.target && s.active == r.active && s.expectedSize == r.expectedSize
    requires can ==>
      s.state in {J.VERIFYING, J.PENDING_ACTIVATION, J.ABORTED} && (c.imageVerified ==> s.state == J.PENDING_ACTIVATION)
    requires VersionRight(c, e.slots)
    ensures InOrder(c, stream, buffer, e, can, s, facadeActive, facadeTarget)
  {
    hide Bootable, Written, Staged, TailErased;
  }

  lemma TouchedInSlot(d: System, e: System, t: slot)
    requires BootImage.HeaderTouched(d, e, t)
    ensures InSlot(d, e, t)
  {
  }

  /** An accepted stream is a bootable slot. */
  lemma StreamBootable(c: Context, stream: Stream, header: Header)
    requires |stream| == SLOT_SIZE && TailErased(stream) && c.staged == Staged(stream) && |c.staged| == HEADER_SIZE
    requires Judgement(c, stream) == POSITIVE
    ensures ImageFormat.LoadInfo(c.target, stream) == Verdict.VALID && HeaderOf(stream) == DecodeHeader(c.staged)
    ensures ImageFormat.Validate(c.target, DecodeHeader(c.staged), stream) == Verdict.VALID
  {
    hide Written, Staged, TailErased, DecodeHeader, ImageFormat.Validate;
    PublishedStream(stream);
    ValidateReadsPayload(c.target, DecodeHeader(c.staged), stream, Written(stream));
  }

  /** ... and is installed once its header is the journal's. */
  lemma StreamInstalled(c: Context, stream: Stream, d: System, r: J.Journal)
    requires Transferred(c, stream, r) && Judgement(c, stream) == POSITIVE
    requires r.target == c.target && r.active == c.active && d.slots.At(c.target) == stream && VersionRight(c, d.slots)
    ensures Installed(r, d.slots)
  {
    hide Written, Staged, TailErased, DecodeHeader, ImageFormat.Validate;
    StreamBootable(c, stream, r.header);
  }

  lemma CertifyMoves(d: System, r: J.Journal)
    requires d.journal == Present(r) && r.state == J.VERIFYING && IsSlot(r.target) && Installed(r, d.slots)
    ensures var e := WithCertified(d, r.target);
      && Moves(d, e) && Confined(d, e, r.target) && e.slots == d.slots && e.journal == d.journal
         && e.metadata == d.metadata
      && e.slots.At(r.target) == e.certified.At(r.target)
  {
    hide Safe, Moves, Installed;
    assert CertifyStep(d, WithCertified(d, r.target));
    MovesStep(d, WithCertified(d, r.target));
  }

  lemma ActivatedIsInstalled(r: J.Journal, slots: Pair<SlotBytes>)
    ensures var n := Activated(Advanced(r, J.VERIFIED), J.SUCCESS);
      n.target == r.target && Installed(n, slots) == Installed(r, slots)
  {
    hide Installed, J.BodyCrc;
    InstalledReads(r, Activated(Advanced(r, J.VERIFIED), J.SUCCESS), slots);
  }

  /** The journal after BootUds_AbortDownload: what awaits activation stays. */
  function Withdrawn(r: J.Journal): J.Journal {
    if J.PREPARING <= r.state < J.PENDING_ACTIVATION then Aborted(r, J.TRANSFER_FAILED) else r
  }

  lemma WithdrawnIsAborted(r: J.Journal)
    ensures 1 <= r.state < 8 ==> Withdrawn(r).state == 9 && Withdrawn(r).lastResult == 6
    ensures !(1 <= r.state < 8) ==> Withdrawn(r) == r
  {
    hide J.BodyCrc;
  }

  lemma CompleteStream(c: Context, stream: Stream, buffer: seq<byte>, d: System, r: J.Journal, facadeActive: word,
                       facadeTarget: word)
    requires |buffer| == PHRASE && InOrder(c, stream, buffer, d, true, r, facadeActive, facadeTarget)
    requires c.transferComplete
    ensures r.state == J.TRANSFER_COMPLETE ==> Transferred(c, stream, r) && d.slots.At(c.target) == Written(stream)
    ensures r.state == J.TRANSFER_COMPLETE ==> Transferred(c, stream, Advanced(r, J.VERIFYING))
    ensures Advanced(r, J.VERIFYING).state == J.VERIFYING
    ensures Advanced(r, J.VERIFYING).target == r.target && Advanced(r, J.VERIFYING).active == r.active
    ensures Advanced(r, J.VERIFYING).expectedSize == r.expectedSize
  {
    hide VersionRight, Written, Staged, TailErased, DecodeHeader, J.BodyCrc;
  }

  lemma JudgementReads(b: Context, c: Context, stream: Stream)
    requires |b.staged| == HEADER_SIZE && c == b.(validation := c.validation)
    ensures Judgement(c, stream) == Judgement(b, stream)
  {
    hide Written, DecodeHeader, ImageFormat.Validate;
  }

  lemma NothingErasedYet(bytes: SlotBytes)
    ensures ErasedTo(bytes, 0)
  {
  }

  lemma ErasedBelowHeader(bytes: SlotBytes, end: nat)
    ensures ErasedTo(bytes, HEADER_OFFSET) ==> ErasedTo(bytes, end)
    ensures end >= HEADER_OFFSET && ErasedTo(bytes, end) ==> ErasedTo(bytes, HEADER_OFFSET)
  {
  }

  lemma InSlotMoves(d: System, e: System, t: slot)
    requires InSlot(d, e, t) && d.journal.Present? && d.journal.record.target == t
    requires d.journal.record.state in {J.ERASING, J.PROGRAMMING, J.VERIFYING}
    ensures Moves(d, e) && Confined(d, e, t) && e.journal == d.journal && e.metadata == d.metadata
  {
    hide Moves;
    SlotMoves(d, e, t);
  }

  lemma ConfinedSelf(d: System, t: slot)
    ensures Confined(d, d, t)
  {
  }

  lemma BegunState(r: J.Journal, active: word, target: slot)
    ensures var n := Begun(r, active, target, SLOT_SIZE);
      && n.state == J.PREPARING && n.target == target && n.active == active && n.expectedSize == SLOT_SIZE
      && Advanced(n, J.ERASING).state == J.ERASING && Advanced(n, J.ERASING).target == target
  {
    hide J.BodyCrc;
  }

  lemma ErasedInOrder(c: Context, buffer: seq<byte>, d: System, r: J.Journal, facadeActive: word, facadeTarget: word,
                      was: J.Journal)
    requires |buffer| == PHRASE && c == Stopped(c) && c.target == TargetOf(c.active)
    requires (IsSlot(c.active) || c.active == UNKNOWN)
    requires r == Advanced(Advanced(Begun(was, c.active, c.target, SLOT_SIZE), J.ERASING), J.DOWNLOAD_READY)
    requires facadeActive == c.active && facadeTarget == c.target
    requires VersionRight(c, d.slots) && d.slots.At(c.target) == Written([])
    ensures var n := c.(eraseComplete := true, address := Base(c.target), size := SLOT_SIZE);
      InOrder(n, [], buffer, d, true, r, facadeActive, facadeTarget) && VersionRight(n, d.slots)
  {
    hide Bootable, J.BodyCrc, Written;
  }

  lemma UnpermittedBegin(s: Session)
    requires s.Sound() && s.update.CanContinue() && s.lifecycle.CanStartUpdate(s.c.active, s.c.target) && !s.Permitted()
    ensures !BeginAllowed(s.update.current, s.c.active, s.c.target, SLOT_SIZE, s.update.IsSlotBootable(s.c.active))
  {
    hide SystemOf, Unambiguous, Outside, VersionRight;
  }

  lemma PermittedBegin(s: Session)
    requires s.Sound() && s.Permitted()
    ensures var d, r, c := s.flash.State(), s.update.current, s.c;
      && s.update.CanContinue() && d.journal == Present(r)
      && BeginAllowed(r, c.active, c.target, SLOT_SIZE, s.update.IsSlotBootable(c.active)) == Startable(r, c.active)
      && (Safe(d) && Startable(r, c.active) ==> CommitAllowed(d, BeginRecord(r, c.active, c.target, SLOT_SIZE)))
      && J.FieldsValid(BeginRecord(r, c.active, c.target, SLOT_SIZE))
      && BeginRecord(r, c.active, c.target, SLOT_SIZE).state == J.PREPARING
  {
    hide SystemOf, Unambiguous, Outside, VersionRight, InOrder, J.FieldsValid, J.BodyCrc, CommitAllowed, Safe;
    var d, r, c := s.flash.State(), s.update.current, s.c;
    BegunFields(r, c.active, c.target);
    if Safe(d) && Startable(r, c.active) {
      BeginIsChange(d, c.active, c.target);
    }
  }

  /** Begin is possible in this state of the journal. */
  predicate Startable(r: J.Journal, active: word) {
    TransitionAllowed(r.state, J.PREPARING) && (active == UNKNOWN ==> r.active == UNKNOWN)
  }

  lemma BegunRecord(r: J.Journal, active: word, target: slot)
    ensures Begun(r, active, target, SLOT_SIZE) == Committed(r, BeginRecord(r, active, target, SLOT_SIZE))
  {
    hide J.BodyCrc;
  }


  /** The mirror and the flags are the flash: while work may continue, RAM holds
    * the journal that would be loaded; a download is durably PROGRAMMING, and the
    * bytes its checkpoint counts are in the slot; a reset is offered only for an
    * activation that is durable. */
  lemma MirrorIsDurable(s: Session)
    requires s.Valid() && s.update.CanContinue()
    ensures var d, r := s.flash.State(), s.update.current;
      && d.journal == Present(r)
      && (s.c.eraseComplete ==> r.target == s.c.target && r.active == s.c.active && r.expectedSize == SLOT_SIZE)
      && (s.c.eraseComplete && !s.c.downloadActive && !s.c.transferComplete ==>
            r.state == J.DOWNLOAD_READY && s.stream == [] && s.TargetErased())
      && (s.c.downloadActive ==>
            && r.state == J.PROGRAMMING && s.c.eraseComplete
            && s.TargetBytes() == Written(s.stream) && CheckpointDurable(r, s.stream, d.slots.At(s.c.target)))
      && (s.CanReset() ==> r.state == J.PENDING_ACTIVATION && (Safe(d) ==> Installed(r, d.slots)))
  {
    hide SystemOf, Unambiguous, Outside, VersionRight, MayStart, Safe, Installed, Staged, Written;
    var d, r := s.flash.State(), s.update.current;
    if s.c.received == 0 {
      assert s.stream == [];
    }
    if s.c.downloadActive {
      CommittedBytes(s.stream, r.committedSize);
    }
    if s.CanReset() && Safe(d) {
      SafePendingInstalled(d);
    }
  }

  /** What the journal counts as committed is in the slot. */
  predicate CheckpointDurable(r: J.Journal, stream: Stream, bytes: SlotBytes) {
    && r.committedSize <= |stream| && r.committedSize % J.CHECKPOINT == 0 && r.committedSize < HEADER_OFFSET
    && bytes[..r.committedSize] == stream[..r.committedSize]
  }

  lemma CommittedBytes(stream: Stream, committed: nat)
    requires committed <= Phrases(|stream|) && committed < HEADER_OFFSET
    ensures committed <= |stream| && Written(stream)[..committed] == stream[..committed]
  {
    forall i: nat | i < committed ensures Written(stream)[i] == stream[i] {
      assert Written(stream)[i] == WrittenAt(stream, i);
    }
  }

  lemma SafePendingInstalled(d: System)
    requires Safe(d) && d.journal.Present? && d.journal.record.state == J.PENDING_ACTIVATION
    ensures Installed(d.journal.record, d.slots)
  {
    hide Bootable, Installed;
  }

  /** Where an update may start, the version is that of the image it has to exceed. */
  predicate Captured(starts: bool, active: word, version: word, slots: Pair<SlotBytes>) {
    starts && IsSlot(active) && Bootable(active, slots.At(active)) ==> version == VersionOf(slots.At(active))
  }

  predicate NothingUnderWay(d: System) {
    d.journal.Present? && !(J.PREPARING <= d.journal.record.state < J.PENDING_ACTIVATION)
  }

  // ------------------------------------------------------ requests and answers

  /** A session between two requests: its context, what it received, the journal in
    * RAM and whether it may go on from it, and flash. */
  datatype Snapshot = Snapshot(c: Context, stream: Stream, current: J.Journal, can: bool, durable: System)

  /** What a session keeps in order: the journal in RAM is the one in flash, and
    * journal, flags and target bytes tell the same story. */
  predicate Ordered(s: Snapshot) {
    && s.c.target == TargetOf(s.c.active) && (IsSlot(s.c.active) || s.c.active == UNKNOWN)
    && (s.can ==> s.durable.journal == Present(s.current))
    && (s.c.downloadActive || s.c.transferComplete ==> s.c.eraseComplete)
    && !(s.c.downloadActive && s.c.transferComplete)
    && (s.c.eraseComplete ==> s.c.address == Base(s.c.target) && s.c.size == SLOT_SIZE)
    && (s.can && s.c.eraseComplete ==> s.current.target == s.c.target && s.current.active == s.c.active)
    && (s.c.eraseComplete && !s.c.downloadActive && !s.c.transferComplete ==> s.c.received == 0 && s.stream == [])
    && (s.can && s.c.downloadActive ==> s.current.state == J.PROGRAMMING)
    && (s.c.downloadActive ==>
          && s.durable.slots.At(s.c.target) == Written(s.stream) && s.c.staged == Staged(s.stream)
          && s.c.received == |s.stream| && s.c.programmed == Phrases(|s.stream|)
          && s.c.buffered == |s.stream| - s.c.programmed)
    && (s.can && s.c.transferComplete && s.current.state == J.TRANSFER_COMPLETE ==>
          Transferred(s.c, s.stream, s.current))
    && (s.can && s.c.imageVerified ==> s.current.state == J.PENDING_ACTIVATION)
  }

  lemma OrderedSession(s: Session)
    requires s.Valid()
    ensures s.flash.mem.Length == FLASH_SIZE && Ordered(s.Now())
  {
    hide SystemOf, Unambiguous, Outside, VersionRight, MayStart, Written, Staged, TailErased, DecodeHeader;
    assert s.c.received == 0 ==> s.stream == [];
  }

  /** What the lifecycle permits, it permits beside a confirmed slot, or where there
    * is no metadata at all. */
  lemma PermittedIsConfirmed(s: Session)
    requires s.Valid()
    ensures s.Permitted() ==> s.lifecycle.CanStartUpdate(s.c.active, s.c.target)
    ensures s.lifecycle.CanStartUpdate(s.c.active, s.c.target) ==>
      && (IsSlot(s.c.active) ==> Confirmed(s.flash.State(), s.c.active))
      && (s.c.active == UNKNOWN ==>
            !s.flash.State().metadata.a.Present? && !s.flash.State().metadata.b.Present?)
  {
    hide SystemOf, Unambiguous, Outside, VersionRight, InOrder;
  }

  /** An update may begin beside the captured slot: nothing is left to do, the slot is
    * one that the journal keeps, and the lifecycle permits it. */
  predicate ReadyIn(s: Snapshot, permitted: bool) {
    && s.can && s.current.state in {J.IDLE, J.ABORTED} && permitted
    && (if s.c.active == UNKNOWN then s.current.active == UNKNOWN else Allowed(s.current, s.c.active))
  }

  lemma ReadyExactly(s: Session)
    requires s.Valid() && s.update.current.state in {J.IDLE, J.ABORTED}
    ensures s.Permitted() && Startable(s.update.current, s.c.active) <==>
      ReadyIn(s.Now(), s.lifecycle.CanStartUpdate(s.c.active, s.c.target))
  {
    hide SystemOf, Unambiguous, Outside, VersionRight, InOrder, J.FieldsValid;
    if s.update.CanContinue() {
      JournalIsValid(s.flash.mem[..], s.flash.history);
      RecordSlots(s.update.current);
    }
  }

  lemma ErasingEnds(r: J.Journal, active: word, target: slot)
    ensures var n := Advanced(Advanced(Begun(r, active, target, SLOT_SIZE), J.ERASING), J.DOWNLOAD_READY);
      n.state == J.DOWNLOAD_READY && n.target == target && n.active == active
  {
    hide J.BodyCrc;
  }

  /** The journal an erase request left behind when it failed. Only where the tester
    * could not be told to wait is the update left without a reason. */
  predicate ErasingFailed(b: Context, was: J.Journal, now: J.Journal, told: bool) {
    var begun := Advanced(Begun(was, b.active, b.target, SLOT_SIZE), J.ERASING);
    now == was || now == Aborted(begun, J.ERASE_FAILED) || (!told && now == begun)
  }

  /** The answer to an erase request and its effect. */
  predicate EraseAnswer(was: Snapshot, now: Snapshot, permitted: bool, starts: bool, told: bool,
                        undisturbed: bool, nrc: byte, address: int, size: int) {
    var refusal := EraseRefusal(was.c, was.can, permitted, address, size);
    && (refusal != POSITIVE ==> nrc == refusal && now == was)
    && (nrc == POSITIVE ==>
          && refusal == POSITIVE && EraseDone(was.c, now.c, was.current, now.current, now.can)
          && now.durable.slots.At(was.c.target) == Written([]) && now.stream == [])
    && (refusal == POSITIVE && nrc != POSITIVE ==>
          && nrc == PROGRAMMING_FAILURE && now.c == Stopped(was.c)
          && (now.can ==> ErasingFailed(was.c, was.current, now.current, told)))
    && (undisturbed && told && refusal == POSITIVE && starts && Startable(was.current, was.c.active) ==>
          nrc == POSITIVE)
  }

  predicate DownloadAnswer(was: Snapshot, now: Snapshot, undisturbed: bool, nrc: byte, address: int,
                           size: int) {
    var refusal := DownloadRefusal(was.c, was.can, address, size);
    && (refusal != POSITIVE ==> nrc == refusal && now == was)
    && (nrc == POSITIVE ==>
          refusal == POSITIVE && DownloadDone(was.c, now.c, was.current, now.current, now.can) && now.stream == [])
    && (refusal == POSITIVE && nrc != POSITIVE ==> nrc == PROGRAMMING_FAILURE && now.c == was.c && !now.can)
    && (undisturbed && refusal == POSITIVE ==> nrc == POSITIVE)
  }

  predicate ReceiveAnswer(was: Snapshot, now: Snapshot, undisturbed: bool, nrc: byte, data: seq<byte>) {
    && (nrc == POSITIVE ==> now.can && now.stream == was.stream + data && ReceiveDone(was.c, now.c, |data|))
    && (nrc == POSITIVE ==> SameUpdate(was.current, now.current))
    && (nrc != POSITIVE ==>
          && nrc == PROGRAMMING_FAILURE && now.c == Stopped(was.c.(staged := now.c.staged))
          && (now.can ==> now.current == Aborted(was.current, J.PROGRAM_FAILED)))
    && (undisturbed ==> now.can && (nrc == POSITIVE <==> TailErased(was.stream + data)))
  }

  /** The bytes of a request were taken in, or the update was given up. */
  predicate TookIn(was: Snapshot, now: Snapshot, undisturbed: bool, ok: bool, data: seq<byte>) {
    && (ok ==>
          && now.can && now.current == was.current && now.stream == was.stream + data
          && now.c == was.c.(received := was.c.received + |data|, programmed := now.c.programmed,
                             buffered := now.c.buffered, staged := now.c.staged))
    && (!ok ==>
          && now.c == Stopped(was.c.(staged := now.c.staged))
          && (now.can ==> now.current == Aborted(was.current, J.PROGRAM_FAILED)))
    && (undisturbed ==> now.can && (ok <==> TailErased(was.stream + data)))
  }

  /** ... and its checkpoint saved. */
  predicate Saved(was: Snapshot, now: Snapshot, undisturbed: bool, ok: bool) {
    && (ok ==> now.can && SameUpdate(was.current, now.current) && now.stream == was.stream && now.c == Counted(was.c))
    && (!ok ==> now.c == Stopped(was.c) && !now.can)
    && (undisturbed ==> ok)
  }

  lemma NothingTaken(was: Snapshot, now: Snapshot, undisturbed: bool, data: seq<byte>)
    requires TookIn(was, now, undisturbed, false, data)
    ensures ReceiveAnswer(was, now, undisturbed, PROGRAMMING_FAILURE, data)
  {
    hide TailErased, SameUpdate, Aborted;
  }

  lemma TakenAndSaved(was: Snapshot, taken: Snapshot, now: Snapshot, taking: bool, saving: bool, undisturbed: bool,
                      ok: bool, data: seq<byte>)
    requires TookIn(was, taken, taking, true, data) && Saved(taken, now, saving, ok)
    requires undisturbed ==> taking && saving
    ensures ReceiveAnswer(was, now, undisturbed, if ok then POSITIVE else PROGRAMMING_FAILURE, data)
  {
    hide TailErased, SameUpdate, Aborted;
  }

  predicate TransferAnswer(was: Snapshot, now: Snapshot, undisturbed: bool, nrc: byte, sequence: byte,
                           data: seq<byte>) {
    var refusal := TransferRefusal(was.c, was.can, sequence, |data|);
    && (refusal != POSITIVE ==> nrc == refusal && now == was)
    && (refusal == POSITIVE ==> ReceiveAnswer(was, now, undisturbed, nrc, data))
  }

  predicate ExitAnswer(was: Snapshot, now: Snapshot, undisturbed: bool, nrc: byte) {
    var refusal := ExitRefusal(was.c, was.can);
    && now.stream == was.stream
    && (refusal != POSITIVE ==> nrc == refusal && now == was)
    && (nrc == POSITIVE ==> refusal == POSITIVE && now.c == was.c.(downloadActive := false, transferComplete := true))
    && (nrc == POSITIVE ==> ExitDone(was.c, was.current, now.current, now.can))
    && (refusal == POSITIVE && nrc != POSITIVE ==> nrc == PROGRAMMING_FAILURE && now.c == was.c && !now.can)
    && (undisturbed && refusal == POSITIVE ==> nrc == POSITIVE)
  }

  /** The session, the journal and the target after a successful verification. */
  predicate VerifyDone(b: Context, sent: Stream, was: J.Journal, now: Snapshot) {
    && now.c == b.(validation := Verdict.VALID, imageVerified := true) && now.stream == sent
    && now.can && now.current == Activated(Advanced(was, J.VERIFIED), J.SUCCESS)
    && Installed(now.current, now.durable.slots) && now.durable.slots.At(b.target) == sent
    && now.durable.certified.At(b.target) == sent
  }

  /** The journal a verify request left behind when it failed: the image was not
    * acceptable, or could not be made visible, or the tester could not be told. */
  predicate VerifyingFailed(was: J.Journal, now: J.Journal, nrc: byte, judgement: byte, told: bool) {
    var verifying := Advanced(was, J.VERIFYING);
    if judgement != POSITIVE then
      || (nrc == judgement && now == Aborted(verifying, J.BAD_IMAGE))
      || (!told && nrc == PROGRAMMING_FAILURE && now == was)
    else
      && nrc == PROGRAMMING_FAILURE
      && (now == Aborted(verifying, J.PROGRAM_FAILED) || now == Aborted(verifying, J.VERIFY_FAILED)
          || (!told && (now == was || now == verifying)))
  }

  /** The answer once the image is being verified. */
  predicate JudgedAnswer(was: Snapshot, now: Snapshot, told: bool, undisturbed: bool, nrc: byte)
    requires |was.c.staged| == HEADER_SIZE
  {
    if Judgement(was.c, was.stream) != POSITIVE then
      && nrc == Judgement(was.c, was.stream) && !now.c.imageVerified
      && (now.can ==> now.current == Aborted(was.current, J.BAD_IMAGE)) && (undisturbed ==> now.can)
    else
      && (nrc == POSITIVE ==> VerifyDone(was.c, was.stream, was.current, now))
      && (nrc != POSITIVE ==>
            && nrc == PROGRAMMING_FAILURE && !now.c.imageVerified
            && (now.can ==>
                  || now.current == Aborted(was.current, J.PROGRAM_FAILED)
                  || now.current == Aborted(was.current, J.VERIFY_FAILED) || (!told && now.current == was.current)))
      && (undisturbed && told ==> nrc == POSITIVE)
  }

  /** A verify request that came as far as judging the image. */
  lemma JudgedAnswers(was: Snapshot, verifying: Snapshot, now: Snapshot, told: bool, judging: bool, undisturbed: bool,
                      nrc: byte)
    requires VerifyRefusal(was.c, was.can) == POSITIVE && was.current.state == J.TRANSFER_COMPLETE
    requires Transferred(was.c, was.stream, was.current)
    requires verifying.c == was.c && verifying.stream == was.stream
    requires verifying.current == Advanced(was.current, J.VERIFYING)
    requires JudgedAnswer(verifying, now, told, judging, nrc) && (undisturbed ==> judging)
    ensures VerifyAnswer(was, now, told, undisturbed, nrc)
  {
    hide J.BodyCrc, Written, Staged, TailErased, DecodeHeader, ImageFormat.Validate, Installed, Advanced, Aborted;
  }

  predicate VerifyAnswer(was: Snapshot, now: Snapshot, told: bool, undisturbed: bool, nrc: byte) {
    var refusal := VerifyRefusal(was.c, was.can);
    && (refusal != POSITIVE ==> nrc == refusal && now == was)
    && (nrc == POSITIVE ==>
          && refusal == POSITIVE && was.current.state == J.TRANSFER_COMPLETE
          && Transferred(was.c, was.stream, was.current) && Judgement(was.c, was.stream) == POSITIVE
          && VerifyDone(was.c, was.stream, Advanced(was.current, J.VERIFYING), now))
    && (refusal == POSITIVE && nrc != POSITIVE ==> !now.c.imageVerified)
    && (refusal == POSITIVE && nrc != POSITIVE && was.current.state == J.TRANSFER_COMPLETE && now.can ==>
          && |was.c.staged| == HEADER_SIZE
          && VerifyingFailed(was.current, now.current, nrc, Judgement(was.c, was.stream), told))
    && (undisturbed && told && refusal == POSITIVE && was.current.state == J.TRANSFER_COMPLETE ==>
          |was.c.staged| == HEADER_SIZE && now.can && nrc == Judgement(was.c, was.stream))
  }

  // --------------------------------------------------------- when updates may begin

  /** An update may be started, in terms of the manager's variables. */
  predicate PermittedIn(valid: bool, fault: bool, r: J.Journal, revalidated: bool, starts: bool, active: word) {
    && valid && !fault && starts
    && (IsSlot(active) ==> Allowed(r, active) && (active == r.target && r.state != J.IDLE ==> revalidated))
  }

  lemma PermittedExactly(s: Session)
    requires s.c.target == TargetOf(s.c.active)
    ensures s.Permitted() <==>
      PermittedIn(s.update.journalValid, s.update.storageFault, s.update.current, s.update.targetRevalidated,
                  s.lifecycle.CanStartUpdate(s.c.active, s.c.target), s.c.active)
  {
  }

  /** Giving an update up permits none that was not permitted before. */
  lemma AbortPermits(valid: bool, wasFault: bool, fault: bool, r: J.Journal, n: J.Journal, was: bool, now: bool,
                     starts: bool, active: word)
    requires (valid && !fault ==> !wasFault) && (now ==> was)
    requires valid && !wasFault ==>
      r.target != r.active && (n == r || (n.state == J.ABORTED && n.active == r.active && n.target == r.target))
    ensures PermittedIn(valid, fault, n, now, starts, active) ==> PermittedIn(valid, wasFault, r, was, starts, active)
  {
  }

  class Session {
    const flash: Flash
    const update: Update
    const lifecycle: Lifecycle.Lifecycle
    /** BootProgramming_TransferBuffer. */
    const buffer: array<byte>
    var c: Context
    /** The bytes accepted since the download started. */
    ghost var stream: Stream
    /** How often a response-pending message could not be sent. */
    ghost var refusals: nat

    /** BootProgramming_Init: without an active slot the target is slot A. */
    constructor (flash: Flash, update: Update, lifecycle: Lifecycle.Lifecycle, active: word, version: word)
      requires lifecycle.update == update && lifecycle.flash == flash && lifecycle.Valid()
      requires lifecycle.storageFault || lifecycle.metadata == flash.State().metadata
      requires IsSlot(active) || active == UNKNOWN
      requires Captured(MayStart(update, lifecycle, active), active, version, flash.State().slots)
      ensures this.flash == flash && this.update == update && this.lifecycle == lifecycle
      ensures Valid() && fresh(buffer) && c == Initial(active, version) && stream == []
      ensures c.target == (if active == 0 then 1 else 0) && c.expected == 1 && !c.eraseComplete && !c.downloadActive
    {
      this.flash, this.update, this.lifecycle := flash, update, lifecycle;
      hide SystemOf, Unambiguous, Outside, VersionRight, InOrder, MayStart, Bootable;
      c, stream, refusals := Initial(active, version), [], 0;
      buffer := new byte[PHRASE](_ => 0);
      new;
      InitialInOrder(active, version, buffer[..], flash.State(), update.CanContinue(), update.current, flash.activeSlot,
                     flash.targetSlot);
    }

    ghost predicate Valid()
      reads this, buffer, update, lifecycle, lifecycle.update, lifecycle.store, flash, flash.mem
    {
      && flash.mem.Length == FLASH_SIZE && buffer.Length == PHRASE && Sound()
      && InOrder(c, stream, buffer[..], flash.State(), update.CanContinue(), update.current, flash.activeSlot,
                 flash.targetSlot)
      && (c.eraseComplete && !c.transferComplete ==> RestUntouched())
    }

    /** What is still to be written of the payload was not programmed since it was erased. */
    ghost predicate RestUntouched()
      reads this, flash
    {
      flash.Clean(Base(c.target) + c.programmed, HeaderAddress(c.target))
    }

    /** What holds whatever the session is doing. */
    ghost predicate Sound()
      reads this, buffer, update, lifecycle, lifecycle.update, lifecycle.store, flash, flash.mem
    {
      && flash.mem.Length == FLASH_SIZE && buffer.Length == PHRASE
      && lifecycle.update == update && lifecycle.flash == flash && lifecycle.Valid()
      && c.target == TargetOf(c.active) && (IsSlot(c.active) || c.active == UNKNOWN)
      && (lifecycle.storageFault || lifecycle.metadata == flash.State().metadata)
      && (Permitted() ==> VersionRight(c, flash.State().slots))
    }

    /** An update may be under way: the version to exceed is known. */
    ghost predicate Underway()
      reads this, buffer, update, lifecycle, lifecycle.update, lifecycle.store, flash, flash.mem
    {
      flash.mem.Length == FLASH_SIZE && Sound() && VersionRight(c, flash.State().slots)
    }

    /** Whatever happened to flash is a run of the protocol, confined to the target. */
    twostate predicate Within()
      reads this, flash, flash.mem
    {
      && flash.mem.Length == FLASH_SIZE && SameSlots(old(c), c)
      && Moves(old(flash.State()), flash.State()) && Confined(old(flash.State()), flash.State(), c.target)
    }

    ghost predicate TargetErased()
      reads this, flash, flash.mem
    {
      flash.mem.Length == FLASH_SIZE && flash.State().slots.At(c.target) == Written([])
    }

    /** An update may be started. */
    predicate Permitted()
      reads this, update, lifecycle
    {
      MayStart(update, lifecycle, c.active)
    }

    /** No update is under way, and none may begin: every request of the programming
      * sequence is refused. */
    ghost predicate Barred()
      reads this, update, lifecycle, flash, flash.mem
    {
      && flash.mem.Length == FLASH_SIZE && (update.CanContinue() ==> NothingUnderWay(flash.State()))
      && !lifecycle.CanStartUpdate(c.active, c.target) && !c.eraseComplete && !c.downloadActive
    }

    /** ... and it stays so, with the durable state as it is. */
    twostate predicate StillBarred()
      reads this, update, lifecycle, flash, flash.mem
    {
      old(Barred()) ==> Barred() && flash.State() == old(flash.State())
    }

    /** BootProgramming_Abort. */
    method Stop()
      requires Sound()
      modifies this`c, this`stream
      ensures Valid() && c == Stopped(old(c)) && stream == []
    {
      hide SystemOf, Unambiguous, Outside, VersionRight, InOrder, MayStart;
      StoppedInOrder(c, buffer[..], flash.State(), update.CanContinue(), update.current, flash.activeSlot,
                     flash.targetSlot);
      c, stream := Stopped(c), [];
    }

    /** The response-pending callback. */
    method Pending() returns (sent: bool)
      modifies this`refusals
      ensures refusals == old(refusals) + (if sent then 0 else 1)
    {
      sent := *;
      refusals := refusals + (if sent then 0 else 1);
    }

    /** SetState, on the way through an update. */
    method Advance(state: word) returns (ok: bool)
      requires Underway() && state in {J.ERASING, J.DOWNLOAD_READY, J.PROGRAMMING, J.VERIFYING}
      modifies update, update.journal, flash, flash.mem
      ensures Underway() && flash.Onward() && flash.SameFacade() && flash.SlotsAlone()
      ensures Within()
      ensures flash.State().slots == old(flash.State()).slots
      ensures ok ==> old(update.current).state + 1 == state && flash.powered
      ensures ok ==> update.CanContinue() && update.current == Advanced(old(update.current), state)
      ensures update.CanContinue() && !ok ==>
        && old(update.current).state + 1 != state
        && update.current == old(update.current)
        && flash.State() == old(flash.State())
      ensures old(update.CanContinue()) && flash.Uneventful() && old(update.current).state + 1 == state ==> ok
    {
      hide SystemOf, Unambiguous, Outside, Flash.Valid, VersionRight, InOrder, MayStart, J.FieldsValid, J.BodyCrc,
           Moves, Attempt, Advanced;
      ghost var d := flash.State();
      ghost var r := update.current;
      JournalIsValid(flash.mem[..], flash.history);
      AdvancePossible(r, state);
      ok := update.SetState(state);
      AdvanceMoves(d, flash.State(), old(update.CanContinue()), r, state, ok, update.current, update.storageFault,
                   c.target);
      VersionKept(c, d, flash.State());
    }

    /** BootUpdate_Abort of an update that is under way, if one can be aborted. */
    method GiveUp(reason: word) returns (ok: bool)
      requires Sound() && reason <= J.COMMISSIONED
      requires update.CanContinue() ==> J.PREPARING <= update.current.state <= J.ABORTED
      modifies update, update.journal, flash, flash.mem
      ensures Sound() && flash.Onward() && flash.SameFacade() && flash.SlotsAlone()
      ensures Within()
      ensures flash.State().slots == old(flash.State()).slots
      ensures update.CanContinue() ==>
        ok && old(update.CanContinue()) && update.current == Aborted(old(update.current), reason)
      ensures old(update.CanContinue()) && flash.Uneventful() ==> update.CanContinue()
      ensures !old(update.CanContinue()) ==> flash.State() == old(flash.State())
    {
      hide SystemOf, Unambiguous, Outside, Flash.Valid, VersionRight, InOrder, J.FieldsValid, J.BodyCrc, Moves,
           CommitAllowed, MayStart, PermittedIn;
      ghost var d := flash.State();
      MovesSelf(d);
      ConfinedSelf(d, c.target);
      JournalIsValid(flash.mem[..], flash.history);
      if update.CanContinue() {
        RecordSlots(update.current);
        EndedFields(update.current, J.ABORTED, reason);
        if Safe(d) { AbortIsChange(d, reason); }
      }
      ghost var r := update.current;
      PermittedExactly(this);
      ok := update.Abort(reason);
      PermittedExactly(this);
      AbortPermits(update.journalValid, old(update.storageFault), update.storageFault, r, update.current,
                   old(update.targetRevalidated), update.targetRevalidated,
                   lifecycle.CanStartUpdate(c.active, c.target), c.active);
      if old(update.CanContinue()) {
        SaveMoves(d, flash.State(), true, old(update.current).(state := J.ABORTED, lastResult := reason), ok,
                  update.current, update.storageFault, c.target);
      }
      VersionKept(c, d, flash.State());
    }

    /** BootUpdate_Begin on behalf of an erase request. */
    method Start() returns (ok: bool)
      requires Sound() && update.CanContinue() && lifecycle.CanStartUpdate(c.active, c.target)
      modifies update, update.journal, flash, flash.mem
      ensures Sound() && flash.Onward() && flash.SameFacade() && flash.SlotsAlone()
      ensures Within()
      ensures ok ==> Underway() && flash.powered
      ensures ok ==> update.CanContinue() && update.current == Begun(old(update.current), c.active, c.target, SLOT_SIZE)
      ensures !ok ==> update.current == old(update.current)
      ensures old(Permitted()) && Startable(old(update.current), c.active) && flash.Uneventful() ==> ok
    {
      hide SystemOf, Unambiguous, Outside, Flash.Valid, VersionRight, InOrder, J.FieldsValid, J.BodyCrc, Moves,
           CommitAllowed, Begun, BeginAllowed, Startable, BeginRecord;
      ghost var d := flash.State();
      ghost var r := update.current;
      MovesSelf(d);
      BegunRecord(r, c.active, c.target);
      ghost var permitted := Permitted();
      if permitted {
        PermittedBegin(this);
      } else {
        UnpermittedBegin(this);
      }
      ok := update.Begin(c.active, c.target, SLOT_SIZE);
      if permitted && Startable(r, c.active) {
        SaveMoves(d, flash.State(), true, BeginRecord(r, c.active, c.target, SLOT_SIZE), ok, update.current,
                  update.storageFault, c.target);
      }
      VersionKept(c, d, flash.State());
    }

    ghost function Now(): (now: Snapshot)
      requires flash.mem.Length == FLASH_SIZE
      reads this, update, flash, flash.mem
    {
      Snapshot(c, stream, update.current, update.CanContinue(), flash.State())
    }

    /** What an erase request does. */
    twostate predicate EraseOutcome(nrc: byte, address: int, size: int)
      reads this, update, lifecycle, flash, flash.mem
    {
      && flash.mem.Length == FLASH_SIZE
      && EraseAnswer(old(Now()), Now(), old(lifecycle.CanStartUpdate(c.active, c.target)),
                     old(Permitted()), refusals == old(refusals), flash.Uneventful(), nrc,
                     address, size)
    }

    /** The part of BootProgramming_Erase that erases: the header sector first, so
      * that an interrupted update cannot be taken for an image. */
    method EraseSlot() returns (ok: bool)
      requires Underway()
      requires update.CanContinue() && update.current.state == J.ERASING && update.current.target == c.target
      requires flash.targetSlot == c.target && flash.activeSlot == c.active
      modifies this`refusals, update, update.journal, flash, flash.mem
      ensures Underway() && flash.Onward() && flash.SameFacade()
      ensures Within()
      ensures ok ==> update.CanContinue() && update.current == old(update.current) && flash.powered
      ensures ok ==> TargetErased() && flash.Clean(Base(c.target), HeaderAddress(c.target))
      ensures !ok && update.CanContinue() ==>
        update.current == Aborted(old(update.current), J.ERASE_FAILED)
        || (refusals != old(refusals) && update.current == old(update.current))
      ensures old(refusals) <= refusals
      ensures flash.Uneventful() && refusals == old(refusals) ==> ok
    {
      hide SystemOf, Unambiguous, Outside, VersionRight, J.BodyCrc, Moves, InSlot, Marked, ErasedTo, Confined, MayStart;
      ghost var d := flash.State();
      var target := c.target;
      ok := InvalidateHeader(flash, target);
      InSlotMoves(d, flash.State(), target);
      VersionKept(c, d, flash.State());
      if !ok {
        GiveUpAfter(d, J.ERASE_FAILED);
        return;
      }
      var offset := 0;
      NothingErasedYet(flash.State().slots.At(target));
      while offset < SLOT_SIZE
        invariant 0 <= offset <= SLOT_SIZE && offset % SECTOR == 0
        invariant Underway() && flash.SameFacade() && flash.Onward()
        invariant update.CanContinue() && update.current == old(update.current)
        invariant InSlot(d, flash.State(), target) && flash.powered && flash.failures == old(flash.failures)
        invariant Marked(flash.State().slots.At(target)) && ErasedTo(flash.State().slots.At(target), offset)
        invariant old(refusals) <= refusals
        invariant flash.Clean(Base(target), Base(target) + (if offset < HEADER_OFFSET then offset else HEADER_OFFSET))
      {
        InSlotMoves(d, flash.State(), target);
        if offset == HEADER_OFFSET {
          offset := offset + SECTOR;
          ErasedBelowHeader(flash.State().slots.At(target), offset);
          continue;
        }
        var sent := Pending();
        if !sent {
          return false;
        }
        ghost var e := flash.State();
        ok := EraseSector(flash, target, offset);
        InSlotCompose(d, e, flash.State(), target);
        InSlotMoves(d, flash.State(), target);
        VersionKept(c, d, flash.State());
        if !ok {
          GiveUpAfter(d, J.ERASE_FAILED);
          return;
        }
        offset := offset + SECTOR;
      }
      InSlotMoves(d, flash.State(), target);
      ErasedBelowHeader(flash.State().slots.At(target), offset);
      ErasedSlot(flash.State().slots.At(target));
      return true;
    }

    /** The journal up to ERASING. */
    method BeginErasing() returns (ok: bool)
      requires Sound() && update.CanContinue() && lifecycle.CanStartUpdate(c.active, c.target)
      modifies this`refusals, update, update.journal, flash, flash.mem
      ensures Sound() && flash.Onward() && flash.SameFacade() && flash.SlotsAlone()
      ensures Within() && old(refusals) <= refusals
      ensures ok ==> Underway() && update.CanContinue()
      ensures ok ==> update.current == Advanced(Begun(old(update.current), c.active, c.target, SLOT_SIZE), J.ERASING)
      ensures !ok && update.CanContinue() ==> update.current == old(update.current)
      ensures (flash.Uneventful() && refusals == old(refusals) && old(Permitted())
               && Startable(old(update.current), c.active)) ==> ok
    {
      hide SystemOf, Unambiguous, Outside, Flash.Valid, VersionRight, InOrder, J.BodyCrc, Moves, MayStart, Confined,
           Startable, Begun, Advanced, J.FieldsValid;
      ghost var d := flash.State();
      MovesSelf(d);
      ConfinedSelf(d, c.target);
      var sent := Pending();
      if !sent {
        return false;
      }
      ok := Start();
      ghost var e := flash.State();
      if ok {
        BegunState(old(update.current), c.active, c.target);
        ok := Advance(J.ERASING);
        MovesCompose(d, e, flash.State());
        ConfinedCompose(d, e, flash.State(), c.target);
      }
    }

    /** BootProgramming_Erase once the flash facade is configured. */
    method EraseConfigured() returns (nrc: byte)
      requires Valid() && c == Stopped(c) && stream == []
      requires update.CanContinue() && lifecycle.CanStartUpdate(c.active, c.target)
      requires flash.targetSlot == c.target && flash.activeSlot == c.active
      modifies this`c, this`refusals, update, update.journal, flash, flash.mem
      ensures Valid() && flash.Onward()
      ensures Within() && old(refusals) <= refusals
      ensures nrc == POSITIVE ==>
        EraseDone(old(c), c, old(update.current), update.current, update.CanContinue()) && TargetErased()
      ensures nrc != POSITIVE ==> nrc == PROGRAMMING_FAILURE && c == old(c)
      ensures nrc != POSITIVE && update.CanContinue() ==>
        ErasingFailed(c, old(update.current), update.current, refusals == old(refusals))
      ensures (flash.Uneventful() && refusals == old(refusals) && old(Permitted())
               && Startable(old(update.current), old(c).active)) ==> nrc == POSITIVE
    {
      hide SystemOf, Unambiguous, Outside, Flash.Valid, VersionRight, InOrder, J.BodyCrc, Moves, MayStart, Confined,
           Startable, Written, Begun, Advanced, J.FieldsValid;
      ghost var d := flash.State();
      var ok := BeginErasing();
      ghost var f := flash.State();
      if !ok {
        StoppedInOrder(c, buffer[..], f, update.CanContinue(), update.current, flash.activeSlot, flash.targetSlot);
        return PROGRAMMING_FAILURE;
      }
      BegunState(old(update.current), c.active, c.target);
      ok := EraseSlot();
      MovesCompose(d, f, flash.State());
      ConfinedCompose(d, f, flash.State(), c.target);
      ghost var g := flash.State();
      if ok {
        ok := Advance(J.DOWNLOAD_READY);
        MovesCompose(d, g, flash.State());
        ConfinedCompose(d, g, flash.State(), c.target);
      }
      if !ok {
        StoppedInOrder(c, buffer[..], flash.State(), update.CanContinue(), update.current, flash.activeSlot,
                       flash.targetSlot);
        return PROGRAMMING_FAILURE;
      }
      ErasedInOrder(c, buffer[..], flash.State(), update.current, flash.activeSlot, flash.targetSlot,
                    old(update.current));
      c := c.(eraseComplete := true, address := Base(c.target), size := SLOT_SIZE);
      return POSITIVE;
    }

    /** BootProgramming_Erase. */
    method Erase(address: int, size: int) returns (nrc: byte)
      requires Valid()
      modifies this`c, this`stream, this`refusals, update, update.journal, flash, flash.mem
      ensures Valid() && flash.Onward()
      ensures Within() && old(refusals) <= refusals
      ensures EraseOutcome(nrc, address, size)
    {
      hide SystemOf, Unambiguous, Outside, VersionRight, InOrder, J.BodyCrc, Moves, MayStart, Confined, Startable,
           Written, Begun, Advanced;
      ghost var d := flash.State();
      MovesSelf(d);
      ConfinedSelf(d, c.target);
      nrc := AccessRefusal(c, update.CanContinue());
      if nrc != POSITIVE {
        return;
      }
      if c.downloadActive {
        return SEQUENCE_ERROR;
      }
      if !ExactTarget(c, address, size) {
        return OUT_OF_RANGE;
      }
      if !lifecycle.CanStartUpdate(c.active, c.target) {
        return CONDITIONS_NOT_CORRECT;
      }
      Stop();
      var done := flash.ConfigureSlots(c.active, c.target);
      StoppedInOrder(c, buffer[..], flash.State(), update.CanContinue(), update.current, flash.activeSlot,
                     flash.targetSlot);
      if !done {
        return PROGRAMMING_FAILURE;
      }
      nrc := EraseConfigured();
    }

    /** BootProgramming_Download. */
    method Download(address: int, size: int) returns (nrc: byte)
      requires Valid()
      modifies this`c, this`stream, update, update.journal, flash, flash.mem
      ensures Valid() && flash.Onward()
      ensures Within()
      ensures DownloadOutcome(nrc, address, size)
    {
      hide SystemOf, Unambiguous, Outside, Flash.Valid, VersionRight, InOrder, J.BodyCrc, Moves, MayStart, Confined,
           Staged, Advanced;
      ghost var d := flash.State();
      MovesSelf(d);
      ConfinedSelf(d, c.target);
      nrc := AccessRefusal(c, update.CanContinue());
      if nrc != POSITIVE {
        return;
      }
      if !ExactTarget(c, address, size) {
        return OUT_OF_RANGE;
      }
      if !c.eraseComplete || c.downloadActive || c.transferComplete || c.received != 0
         || address != c.address || size != c.size {
        return SEQUENCE_ERROR;
      }
      ghost var r := update.current;
      ReadyInOrder(c, stream, buffer[..], d, r, flash.activeSlot, flash.targetSlot);
      var ok := Advance(J.PROGRAMMING);
      if !ok {
        FaultInOrder(c, stream, buffer[..], d, flash.State(), r, update.current, flash.activeSlot, flash.targetSlot);
        return PROGRAMMING_FAILURE;
      }
      c := c.(downloadActive := true, imageVerified := false, validation := Verdict.EMPTY,
              staged := seq(HEADER_SIZE, _ => ERASED));
      DownloadInOrder(old(c), c, stream, buffer[..], d, flash.State(), r, flash.activeSlot, flash.targetSlot);
      return POSITIVE;
    }

    twostate predicate DownloadOutcome(nrc: byte, address: int, size: int)
      reads this, update, flash, flash.mem
    {
      && flash.mem.Length == FLASH_SIZE
      && DownloadAnswer(old(Now()), Now(), flash.Uneventful(), nrc, address, size)
    }

    ghost function TargetBytes(): SlotBytes
      requires flash.mem.Length == FLASH_SIZE
      reads this, flash, flash.mem
    {
      flash.State().slots.At(c.target)
    }

    /** The target is being programmed, and the journal says so. */
    ghost predicate Receiving()
      reads this, buffer, update, lifecycle, lifecycle.update, lifecycle.store, flash, flash.mem
    {
      && Underway() && c.downloadActive && c.address == Base(c.target) && c.size == SLOT_SIZE
      && update.CanContinue() && update.current.state == J.PROGRAMMING && update.current.target == c.target
      && flash.targetSlot == c.target && flash.activeSlot == c.active
    }

    /** Nothing but the bytes of the target changed, if anything did. */
    twostate predicate OnlyTarget()
      reads this, update, flash, flash.mem
    {
      && flash.mem.Length == FLASH_SIZE && InSlot(old(flash.State()), flash.State(), c.target)
      && flash.SameFacade() && flash.Onward()
    }

    /** The received bytes `s` are where they belong. */
    ghost predicate Streams(s: seq<byte>)
      reads this, buffer, flash, flash.mem
    {
      && flash.mem.Length == FLASH_SIZE && buffer.Length == PHRASE && |s| <= SLOT_SIZE
      && Streaming(c, s, buffer[..], TargetBytes()) && RestUntouched()
    }

    /** ... but for a full phrase still in the buffer. */
    ghost predicate IsFull(before: seq<byte>, after: seq<byte>)
      reads this, buffer, flash, flash.mem
    {
      && flash.mem.Length == FLASH_SIZE && buffer.Length == PHRASE && |before| <= |after| <= SLOT_SIZE
      && Full(c, before, after, buffer[..], TargetBytes()) && RestUntouched()
    }

    twostate predicate OnlyProgress()
      reads this
    {
      c == old(c).(programmed := c.programmed, buffered := c.buffered, staged := c.staged)
    }

    /** flush_phrase for a phrase of the header. */
    method StagePhrase(ghost before: seq<byte>, ghost after: seq<byte>)
      requires Receiving() && IsFull(before, after) && HEADER_OFFSET <= c.programmed < HEADER_OFFSET + HEADER_SIZE
      modifies this`c
      ensures Receiving() && Streams(after) && OnlyProgress() && TailErased(after)
    {
      hide SystemOf, Unambiguous, Outside, VersionRight, MayStart, Written, Staged, TailErased, Streaming;
      var at := c.programmed - HEADER_OFFSET;
      FullFits(c, before, after, buffer[..], TargetBytes());
      StagedPhraseFlushed(c, before, after, buffer[..], TargetBytes());
      NoTailYet(after);
      c := c.(programmed := c.programmed + PHRASE, buffered := 0,
              staged := c.staged[..at] + buffer[..] + c.staged[at + PHRASE..]);
      VersionReads(old(c), c, flash.State().slots);
    }

    /** flush_phrase for a phrase outside the header; the tail must stay erased. */
    method StorePhrase(ghost before: seq<byte>, ghost after: seq<byte>) returns (ok: bool)
      requires Receiving() && IsFull(before, after)
      requires c.programmed < HEADER_OFFSET || HEADER_OFFSET + HEADER_SIZE <= c.programmed
      requires HEADER_OFFSET + HEADER_SIZE <= c.programmed ==> IsErased(buffer[..])
      modifies this`c, flash`powered, flash`failures, flash`misuse, flash`touched, flash.mem
      ensures Receiving() && OnlyTarget() && OnlyProgress()
      ensures ok ==> Streams(after) && flash.failures == old(flash.failures)
      ensures flash.Uneventful() ==> ok
    {
      hide SystemOf, Unambiguous, Outside, VersionRight, MayStart, Written, Staged, TailErased, PhraseIn, InSlot,
           Streaming, Full, Flash.Valid, J.FieldsValid, Moves, Confined, Bootable, Committed;
      ghost var d := flash.State();
      FullFits(c, before, after, buffer[..], TargetBytes());
      ok := ProgramPhrase(flash, c.target, c.programmed, buffer[..], before);
      InSlotMoves(d, flash.State(), c.target);
      VersionKept(c, d, flash.State());
      if ok {
        FlashPhraseFlushed(c, before, after, buffer[..], d.slots.At(c.target), TargetBytes());
        c := c.(programmed := c.programmed + PHRASE, buffered := 0);
        VersionReads(old(c), c, flash.State().slots);
      }
    }

    /** flush_phrase. */
    method FlushPhrase(ghost before: seq<byte>, ghost after: seq<byte>) returns (ok: bool)
      requires Receiving() && IsFull(before, after)
      modifies this`c, flash`powered, flash`failures, flash`misuse, flash`touched, flash.mem
      ensures Receiving() && OnlyTarget() && OnlyProgress()
      ensures ok ==> Streams(after) && flash.failures == old(flash.failures)
      ensures flash.Uneventful() ==> (ok <==> TailErased(after))
    {
      hide SystemOf, Unambiguous, Outside, VersionRight, MayStart, Written, Staged, TailErased, InSlot, Streaming;
      InSlotSelf(flash.State(), c.target);
      var address := c.address + c.programmed;
      var header := HeaderAddress(c.target);
      FullFits(c, before, after, buffer[..], TargetBytes());
      if !ContainsRange(c.target, address, PHRASE) || c.target == c.active {
        return false;
      }
      if header <= address < header + HEADER_SIZE {
        StagePhrase(before, after);
        return true;
      }
      if header + HEADER_SIZE <= address {
        TailPhrase(before, after);
        var i := 0;
        while i < PHRASE
          invariant 0 <= i <= PHRASE && IsErased(buffer[..i])
        {
          if buffer[i] != ERASED {
            assert buffer[..][i] != ERASED;
            return false;
          }
          i := i + 1;
        }
        assert buffer[..PHRASE] == buffer[..];
      } else {
        NoTailYet(after);
      }
      ok := StorePhrase(before, after);
    }

    /** One byte into the phrase buffer. */
    method Buffer(ghost received: seq<byte>, b: byte)
      requires Receiving() && Streams(received) && |received| < SLOT_SIZE && c.buffered < PHRASE
      modifies this`c, buffer
      ensures Receiving() && OnlyProgress() && c.buffered == old(c).buffered + 1
      ensures c.buffered < PHRASE ==> Streams(received + [b])
      ensures c.buffered == PHRASE ==>
        c.programmed <= |received| && IsFull((received + [b])[..c.programmed], received + [b])
    {
      hide SystemOf, Unambiguous, Outside, VersionRight, MayStart, Written, Staged, TailErased, Streaming, Full;
      ghost var was := buffer[..];
      StreamingFits(c, received, was, TargetBytes());
      buffer[c.buffered] := b;
      c := c.(buffered := c.buffered + 1);
      VersionReads(old(c), c, flash.State().slots);
      assert buffer[..] == was[c.buffered - 1 := b];
      assert old(c) == c.(buffered := c.buffered - 1);
      ByteFed(received, received + [b], b, c, was, buffer[..], TargetBytes());
    }

    /** The byte loop of BootProgramming_Transfer. */
    method Feed(data: seq<byte>) returns (ok: bool)
      requires Receiving() && Streams(stream) && |stream| + |data| <= SLOT_SIZE
      modifies this`c, buffer, flash`powered, flash`failures, flash`misuse, flash`touched, flash.mem
      ensures Receiving() && OnlyTarget() && OnlyProgress()
      ensures ok ==> Streams(stream + data) && flash.failures == old(flash.failures)
      ensures flash.Uneventful() ==> (ok <==> TailErased(stream + data))
    {
      hide SystemOf, Unambiguous, Outside, VersionRight, MayStart, Written, Staged, TailErased, InSlot, Streaming, Full;
      ghost var d := flash.State();
      InSlotSelf(d, c.target);
      assert stream + data[..0] == stream;
      var i := 0;
      while i < |data|
        invariant 0 <= i <= |data|
        invariant Receiving() && OnlyTarget() && OnlyProgress() && flash.failures == old(flash.failures)
        invariant Streams(stream + data[..i])
      {
        ghost var received := stream + data[..i];
        ghost var next := stream + data[..i + 1];
        assert next == received + [data[i]];
        StreamingFits(c, received, buffer[..], TargetBytes());
        Buffer(received, data[i]);
        if c.buffered == PHRASE {
          ghost var e := flash.State();
          ok := FlushPhrase(next[..c.programmed], next);
          InSlotCompose(d, e, flash.State(), c.target);
          assert next == (stream + data)[..|next|];
          TailOnward(next, stream + data);
          if !ok {
            return false;
          }
        }
        i := i + 1;
      }
      assert data[..|data|] == data;
      StreamingFits(c, stream + data, buffer[..], TargetBytes());
      return true;
    }

    /** BootUpdate_SetProgress after a request was taken in. */
    method Checkpoint(sequence: byte) returns (ok: bool)
      requires Receiving() && ProgressSound(update.current, c)
      modifies update, update.journal, flash, flash.mem
      ensures Underway() && flash.Onward() && flash.SameFacade() && flash.SlotsAlone()
      ensures Within()
      ensures flash.State().slots == old(flash.State()).slots
      ensures update.CanContinue() ==> ok
      ensures ok ==> update.CanContinue() && ProgressSound(update.current, c) && update.current.state == J.PROGRAMMING
      ensures ok ==> SameUpdate(old(update.current), update.current)
      ensures flash.Uneventful() ==> ok
    {
      hide SystemOf, Unambiguous, Outside, Flash.Valid, VersionRight, MayStart, J.FieldsValid, J.BodyCrc, Moves,
           ProgressResult, ProgressSound;
      ghost var d := flash.State();
      ghost var r := update.current;
      JournalIsValid(flash.mem[..], flash.history);
      ProgressPossible(r, c);
      ok := update.SetProgress(c.programmed, sequence);
      ProgressMoves(d, flash.State(), r, c, sequence, ok, update.current, update.storageFault);
      VersionKept(c, d, flash.State());
    }

    /** The byte loop, and the end of the update if it fails. */
    method FeedOrStop(data: seq<byte>) returns (ok: bool)
      requires Receiving() && Streams(stream) && |stream| + |data| <= SLOT_SIZE
      modifies this`c, this`stream, buffer, update, update.journal, flash, flash.mem
      ensures Sound() && flash.Onward()
      ensures Within()
      ensures ok ==>
        Receiving() && Streams(old(stream) + data) && flash.failures == old(flash.failures) && flash.SameFacade()
      ensures ok ==> update.current == old(update.current) && OnlyProgress() && stream == old(stream)
      ensures !ok ==> Valid() && c == Stopped(old(c).(staged := c.staged))
      ensures !ok && update.CanContinue() ==> update.current == Aborted(old(update.current), J.PROGRAM_FAILED)
      ensures flash.Uneventful() ==> update.CanContinue()
      ensures flash.Uneventful() ==> (ok <==> TailErased(old(stream) + data))
    {
      hide SystemOf, Unambiguous, Outside, Flash.Valid, VersionRight, MayStart, InOrder, Moves, Confined, InSlot,
           Streaming, TailErased, J.BodyCrc, J.FieldsValid, Aborted;
      ghost var d := flash.State();
      ok := Feed(data);
      InSlotMoves(d, flash.State(), c.target);
      if !ok {
        GiveUpAfter(d, J.PROGRAM_FAILED);
        Stop();
      }
    }

    /** Take in the bytes of a request. */
    method TakeIn(data: seq<byte>) returns (ok: bool)
      requires Valid() && update.CanContinue() && c.downloadActive && |stream| + |data| <= SLOT_SIZE
      modifies this`c, this`stream, buffer, update, update.journal, flash, flash.mem
      ensures Valid() && flash.Onward()
      ensures Within()
      ensures ok ==> TakenIn() && flash.failures == old(flash.failures)
      ensures flash.mem.Length == FLASH_SIZE && TookIn(old(Now()), Now(), flash.Uneventful(), ok, data)
    {
      hide SystemOf, Unambiguous, Outside, Flash.Valid, VersionRight, MayStart, InOrder, Moves, Confined, Streaming,
           TailErased, ProgressSound, J.BodyCrc, J.FieldsValid, Written, Staged, Full;
      ghost var d := flash.State();
      ghost var r := update.current;
      StreamingInOrder(c, stream, buffer[..], d, r, flash.activeSlot, flash.targetSlot);
      ok := FeedOrStop(data);
      if !ok {
        return;
      }
      ghost var e := flash.State();
      ghost var fed := c;
      c, stream := c.(received := c.received + |data|), stream + data;
      VersionReads(fed, c, e.slots);
      FedInOrder(old(c), fed, c, old(stream), stream, old(buffer[..]), buffer[..], d, e, r, flash.activeSlot,
                 flash.targetSlot);
    }

    /** A request was taken in and is still to be acknowledged. */
    ghost predicate TakenIn()
      reads this, buffer, update, lifecycle, lifecycle.update, lifecycle.store, flash, flash.mem
    {
      Receiving() && Valid() && ProgressSound(update.current, c)
    }

    /** The checkpoint after a request, and the next counter. */
    method Acknowledge(sequence: byte) returns (ok: bool)
      requires TakenIn()
      modifies this`c, this`stream, update, update.journal, flash, flash.mem
      ensures Valid() && flash.Onward()
      ensures Within()
      ensures flash.mem.Length == FLASH_SIZE && Saved(old(Now()), Now(), flash.Uneventful(), ok)
    {
      hide SystemOf, Unambiguous, Outside, Flash.Valid, VersionRight, MayStart, InOrder, Moves, Confined, SameUpdate,
           ProgressSound, J.BodyCrc, J.FieldsValid;
      ghost var d := flash.State();
      ghost var r := update.current;
      ok := Checkpoint(sequence);
      if !ok {
        Stop();
        return;
      }
      SavedInOrder(c, stream, buffer[..], d, flash.State(), r, update.current, flash.activeSlot, flash.targetSlot);
      c := Counted(c);
      VersionReads(old(c), c, flash.State().slots);
    }

    /** The effect of BootProgramming_Transfer on a request that is not refused. */
    method Receive(sequence: byte, data: seq<byte>) returns (nrc: byte)
      requires Valid() && update.CanContinue() && c.downloadActive && |stream| + |data| <= SLOT_SIZE
      modifies this`c, this`stream, buffer, update, update.journal, flash, flash.mem
      ensures Valid() && flash.Onward()
      ensures Within()
      ensures ReceiveOutcome(nrc, data)
    {
      hide SystemOf, Unambiguous, Outside, Flash.Valid, VersionRight, MayStart, InOrder, Moves, Confined, J.BodyCrc,
           J.FieldsValid, TookIn, Saved, ReceiveAnswer, Session.TakenIn, Session.Sound, Session.RestUntouched;
      ghost var was, d := Now(), flash.State();
      var ok := TakeIn(data);
      ghost var taken, taking := Now(), flash.Uneventful();
      if !ok {
        NothingTaken(was, taken, taking, data);
        return PROGRAMMING_FAILURE;
      }
      ghost var e := flash.State();
      label saving:
      ok := Acknowledge(sequence);
      MovesCompose(d, e, flash.State());
      ConfinedCompose(d, e, flash.State(), c.target);
      TakenAndSaved(was, taken, Now(), taking, flash.Uneventful@saving(), flash.Uneventful(), ok, data);
      return if ok then POSITIVE else PROGRAMMING_FAILURE;
    }

    twostate predicate ReceiveOutcome(nrc: byte, data: seq<byte>)
      reads this, update, flash, flash.mem
    {
      flash.mem.Length == FLASH_SIZE && ReceiveAnswer(old(Now()), Now(), flash.Uneventful(), nrc, data)
    }

    /** BootProgramming_Transfer. */
    method Transfer(sequence: byte, data: seq<byte>) returns (nrc: byte)
      requires Valid()
      modifies this`c, this`stream, buffer, update, update.journal, flash, flash.mem
      ensures Valid() && flash.Onward()
      ensures Within()
      ensures TransferOutcome(nrc, sequence, data)
    {
      hide SystemOf, Unambiguous, Outside, Flash.Valid, VersionRight, MayStart, Coupled, Holds, Cached, Moves, Confined;
      MovesSelf(flash.State());
      ConfinedSelf(flash.State(), c.target);
      nrc := AccessRefusal(c, update.CanContinue());
      if nrc != POSITIVE {
        return;
      }
      if !c.downloadActive {
        return SEQUENCE_ERROR;
      }
      if sequence != c.expected {
        return WRONG_BLOCK;
      }
      if |data| == 0 || |data| > MAX_BLOCK - 2 {
        return INCORRECT_LENGTH;
      }
      if c.received > c.size || |data| > c.size - c.received {
        return OUT_OF_RANGE;
      }
      DownloadSize(c, stream, buffer[..], flash.State(), update.CanContinue(), update.current, flash.activeSlot,
                   flash.targetSlot);
      nrc := Receive(sequence, data);
    }

    twostate predicate TransferOutcome(nrc: byte, sequence: byte, data: seq<byte>)
      reads this, update, flash, flash.mem
    {
      && flash.mem.Length == FLASH_SIZE
      && TransferAnswer(old(Now()), Now(), flash.Uneventful(), nrc, sequence, data)
    }

    /** BootUpdate_MarkTransferComplete with the staged header. */
    method Complete(header: Header, block: byte) returns (ok: bool)
      requires Underway() && update.CanContinue() && update.current.state == J.PROGRAMMING
      modifies update, update.journal, flash, flash.mem
      ensures Underway() && flash.Onward() && flash.SameFacade() && flash.SlotsAlone()
      ensures Within()
      ensures flash.State().slots == old(flash.State()).slots
      ensures ok ==>
        && update.CanContinue()
        && update.current == Committed(old(update.current), CompletedRecord(old(update.current), header, block))
      ensures !ok ==> !update.CanContinue()
      ensures flash.Uneventful() ==> ok
    {
      hide SystemOf, Unambiguous, Outside, Flash.Valid, VersionRight, MayStart, Moves, CompletedRecord, J.FieldsValid,
           Attempt, J.BodyCrc, Committed;
      ghost var d := flash.State();
      ghost var r := update.current;
      JournalIsValid(flash.mem[..], flash.history);
      MarkPossible(r);
      ok := update.MarkTransferComplete(header, block);
      CompleteMoves(d, flash.State(), r, header, block, ok, update.current, update.storageFault, c.target);
      VersionKept(c, d, flash.State());
    }

    /** BootProgramming_Exit. */
    method Exit() returns (nrc: byte)
      requires Valid()
      modifies this`c, update, update.journal, flash, flash.mem
      ensures Valid() && flash.Onward()
      ensures Within()
      ensures ExitOutcome(nrc)
    {
      hide SystemOf, Unambiguous, Outside, Flash.Valid, VersionRight, MayStart, InOrder, Moves, Confined, Streaming,
           Staged, CompletedRecord, J.BodyCrc, Committed, DecodeHeader;
      ghost var d := flash.State();
      ghost var r := update.current;
      MovesSelf(d);
      ConfinedSelf(d, c.target);
      nrc := AccessRefusal(c, update.CanContinue());
      if nrc != POSITIVE {
        return;
      }
      if !c.downloadActive || c.received != c.size || c.buffered != 0 || c.programmed != c.size {
        return SEQUENCE_ERROR;
      }
      StreamingInOrder(c, stream, buffer[..], d, r, flash.activeSlot, flash.targetSlot);
      var block: byte := (c.expected - 1) % 256;
      var ok := Complete(DecodeHeader(c.staged), block);
      if !ok {
        FaultInOrder(c, stream, buffer[..], d, flash.State(), r, update.current, flash.activeSlot, flash.targetSlot);
        return PROGRAMMING_FAILURE;
      }
      c := c.(downloadActive := false, transferComplete := true);
      CompletedInOrder(old(c), c, stream, buffer[..], d, flash.State(), r, block, flash.activeSlot, flash.targetSlot);
      VersionReads(old(c), c, flash.State().slots);
      return POSITIVE;
    }

    twostate predicate ExitOutcome(nrc: byte)
      reads this, update, flash, flash.mem
    {
      flash.mem.Length == FLASH_SIZE && ExitAnswer(old(Now()), Now(), flash.Uneventful(), nrc)
    }

    /** BootUpdate_MarkVerified on a certified target. */
    method Activate() returns (ok: bool)
      requires Underway() && update.CanContinue() && update.current.state == J.VERIFYING && Certified()
      modifies update, update.journal, flash, flash.mem
      ensures Underway() && flash.Onward() && flash.SameFacade() && flash.SlotsAlone()
      ensures Within()
      ensures flash.State().slots == old(flash.State()).slots && flash.State().certified == old(flash.State()).certified
      ensures ok ==>
        update.CanContinue() && update.current == Activated(Advanced(old(update.current), J.VERIFIED), J.SUCCESS)
      ensures !ok ==> !update.CanContinue()
      ensures flash.Uneventful() ==> ok
    {
      hide SystemOf, Unambiguous, Outside, Flash.Valid, VersionRight, J.FieldsValid, J.BodyCrc, Moves, VerifiedResult,
           Installed;
      ghost var d := flash.State();
      JournalIsValid(flash.mem[..], flash.history);
      ok := update.MarkVerified(false);
      VerifiedMoves(d, flash.State(), ok, update.current, c.target);
      VersionKept(c, d, flash.State());
    }

    /** The target holds a validated image and was recorded as doing so. */
    ghost predicate Certified()
      reads this, update, flash, flash.mem
    {
      && flash.mem.Length == FLASH_SIZE && update.current.target == c.target
      && Installed(update.current, flash.State().slots)
      && flash.State().slots.At(c.target) == flash.State().certified.At(c.target)
    }

    /** A completely transferred image is being judged. */
    ghost predicate Verifying()
      reads this, buffer, update, lifecycle, lifecycle.update, lifecycle.store, flash, flash.mem
    {
      && Valid() && c.transferComplete && !c.imageVerified && update.CanContinue()
         && update.current.state == J.VERIFYING
      && Transferred(c, stream, update.current) && TargetBytes() == Written(stream)
    }

    /** BootProgramming_Verify up to the verdict. */
    method Judge() returns (nrc: byte)
      requires Verifying()
      modifies this`c, update, update.journal, flash, flash.mem
      ensures Valid() && flash.Onward()
      ensures Within()
      ensures c == old(c).(validation := c.validation)
      ensures nrc == Judgement(c, stream)
      ensures nrc != POSITIVE && update.CanContinue() ==>
        update.current == Aborted(old(update.current), J.BAD_IMAGE)
      ensures flash.Uneventful() ==> update.CanContinue()
      ensures nrc == POSITIVE ==>
        Verifying() && update.current == old(update.current) && flash.failures == old(flash.failures)
    {
      hide SystemOf, Unambiguous, Outside, VersionRight, InOrder, MayStart, Moves, Confined, Written, Staged,
           TailErased, DecodeHeader, ImageFormat.Validate, J.BodyCrc;
      ghost var d := flash.State();
      ghost var r := update.current;
      MovesSelf(d);
      ConfinedSelf(d, c.target);
      CompleteSession(c, stream, buffer[..], d, r, flash.activeSlot, flash.targetSlot);
      var header := DecodeHeader(c.staged);
      var verdict := BootImage.Validate(flash, c.target, header);
      SlotAt(flash.mem[..], flash.history, c.target);
      c := c.(validation := verdict);
      VersionReads(old(c), c, d.slots);
      JudgedInOrder(old(c), c, stream, buffer[..], d, d, r, r, flash.activeSlot, flash.targetSlot, true);
      if verdict != Verdict.VALID {
        GiveUpAfter(d, J.BAD_IMAGE);
        JudgedInOrder(c, c, stream, buffer[..], d, flash.State(), r, update.current, flash.activeSlot, flash.targetSlot,
                      update.CanContinue());
        return PROGRAMMING_FAILURE;
      }
      if IsSlot(c.active) {
        var order := Version.CompareParts(header.softwareVersion, c.activeVersion);
        if order != Version.GREATER {
          GiveUpAfter(d, J.BAD_IMAGE);
          JudgedInOrder(c, c, stream, buffer[..], d, flash.State(), r, update.current, flash.activeSlot,
                        flash.targetSlot, update.CanContinue());
          return OUT_OF_RANGE;
        }
      }
      return POSITIVE;
    }

    ghost predicate Verified(b: Context, sent: Stream, was: J.Journal)
      reads this, update, flash, flash.mem
    {
      flash.mem.Length == FLASH_SIZE && VerifyDone(b, sent, was, Now())
    }

    /** BootProgramming_Verify after the verdict: the header becomes visible last. */
    method Publish() returns (nrc: byte)
      requires Verifying() && Judgement(c, stream) == POSITIVE
      modifies this`c, this`stream, this`refusals, update, update.journal, flash, flash.mem
      ensures Valid() && flash.Onward()
      ensures Within() && old(refusals) <= refusals
      ensures nrc == POSITIVE ==> Verified(old(c), old(stream), old(update.current))
      ensures nrc == POSITIVE || (nrc == PROGRAMMING_FAILURE && !c.imageVerified)
      ensures nrc != POSITIVE && update.CanContinue() ==>
        || update.current == Aborted(old(update.current), J.PROGRAM_FAILED)
        || update.current == Aborted(old(update.current), J.VERIFY_FAILED)
        || (refusals != old(refusals) && update.current == old(update.current))
      ensures flash.Uneventful() && refusals == old(refusals) ==> nrc == POSITIVE
    {
      hide SystemOf, Unambiguous, Outside, VersionRight, InOrder, MayStart, Moves, Confined, Written, Staged,
           TailErased, DecodeHeader, ImageFormat.Validate, ImageFormat.LoadInfo, J.BodyCrc, ImageFormat.Published,
           HeaderOf, J.FieldsValid, InSlot, Installed, VerifyDone, Judgement, Aborted, BootImage.HeaderTouched, Phrases;
      ghost var d := flash.State();
      ghost var r := update.current;
      CompleteSession(c, stream, buffer[..], d, r, flash.activeSlot, flash.targetSlot);
      MovesSelf(d);
      ConfinedSelf(d, c.target);
      var sent := Pending();
      if !sent {
        return PROGRAMMING_FAILURE;
      }
      var header := DecodeHeader(c.staged);
      var ok := BootImage.WriteHeader(flash, c.target, header);
      ghost var e := flash.State();
      TouchedInSlot(d, e, c.target);
      InSlotMoves(d, e, c.target);
      VersionKept(c, d, e);
      if !ok {
        GiveUpAfter(d, J.PROGRAM_FAILED);
        Stop();
        return PROGRAMMING_FAILURE;
      }
      PublishedStream(stream);
      JudgedInOrder(c, c, stream, buffer[..], d, e, r, r, flash.activeSlot, flash.targetSlot, true);
      sent := Pending();
      if !sent {
        return PROGRAMMING_FAILURE;
      }
      nrc := Conclude(d, header);
    }

    /** The end of BootProgramming_Verify: read back what was published. */
    method Conclude(ghost d: System, header: Header) returns (nrc: byte)
      requires Valid() && c.transferComplete && !c.imageVerified && update.CanContinue()
      requires update.current.state == J.VERIFYING
      requires Transferred(c, stream, update.current) && Judgement(c, stream) == POSITIVE && TargetBytes() == stream
      requires header == update.current.header
      requires Moves(d, flash.State()) && Confined(d, flash.State(), c.target)
      modifies this`c, update, update.journal, flash, flash.mem
      ensures Valid() && flash.Onward()
      ensures Moves(d, flash.State()) && Confined(d, flash.State(), c.target)
      ensures nrc == POSITIVE ==> Verified(old(c), old(stream), old(update.current))
      ensures nrc == POSITIVE || (nrc == PROGRAMMING_FAILURE && !c.imageVerified)
      ensures nrc != POSITIVE && update.CanContinue() ==>
        update.current == Aborted(old(update.current), J.VERIFY_FAILED)
      ensures SameSlots(old(c), c)
      ensures flash.Uneventful() ==> nrc == POSITIVE
    {
      hide SystemOf, Unambiguous, Outside, VersionRight, InOrder, MayStart, Moves, Confined, Written, Staged,
           TailErased, DecodeHeader, ImageFormat.Validate, ImageFormat.LoadInfo, J.BodyCrc, HeaderOf, J.FieldsValid,
           Installed;
      ghost var e := flash.State();
      ghost var r := update.current;
      CompleteSession(c, stream, buffer[..], e, r, flash.activeSlot, flash.targetSlot);
      var verdict, found := BootImage.LoadInfo(flash, c.target);
      c := c.(validation := verdict, imageVerified := verdict == Verdict.VALID);
      VersionReads(old(c), c, e.slots);
      if !c.imageVerified {
        GiveUpAfter(d, J.VERIFY_FAILED);
      }
      if c.imageVerified {
        var ok := ActivateVerified(d);
        if !ok {
          ghost var verified := c;
          c := c.(imageVerified := false);
          VersionReads(verified, c, flash.State().slots);
        }
      }
      JudgedInOrder(old(c), c, stream, buffer[..], e, flash.State(), r, update.current, flash.activeSlot,
                    flash.targetSlot, update.CanContinue());
      StreamBootable(old(c), stream, header);
      return if c.imageVerified then POSITIVE else PROGRAMMING_FAILURE;
    }

    /** Certify the target and activate it. */
    method ActivateVerified(ghost d: System) returns (ok: bool)
      requires Underway() && update.CanContinue() && update.current.state == J.VERIFYING
      requires Transferred(c, stream, update.current) && Judgement(c, stream) == POSITIVE && TargetBytes() == stream
      requires update.current.target == c.target && update.current.active == c.active && Bootable(c.target, stream)
      requires Moves(d, flash.State()) && Confined(d, flash.State(), c.target)
      modifies update, update.journal, flash, flash.mem
      ensures Underway() && flash.Onward() && flash.SameFacade() && flash.SlotsAlone()
      ensures Moves(d, flash.State()) && Confined(d, flash.State(), c.target) && TargetBytes() == old(TargetBytes())
      ensures ok ==>
        && update.CanContinue()
        && update.current == Activated(Advanced(old(update.current), J.VERIFIED), J.SUCCESS)
        && Certified()
      ensures !ok ==> !update.CanContinue()
      ensures flash.Uneventful() ==> ok
    {
      hide SystemOf, Unambiguous, Outside, VersionRight, InOrder, MayStart, Moves, Confined, Written, Staged,
           TailErased, DecodeHeader, ImageFormat.Validate, ImageFormat.LoadInfo, J.BodyCrc, HeaderOf, J.FieldsValid,
           Installed, Bootable, WithCertified;
      ghost var e := flash.State();
      ghost var r := update.current;
      StreamInstalled(c, stream, e, r);
      flash.Certify(c.target);
      ghost var f := flash.State();
      CertifyMoves(e, r);
      VersionKept(c, e, f);
      MovesCompose(d, e, f);
      ConfinedCompose(d, e, f, c.target);
      ok := Activate();
      MovesCompose(d, f, flash.State());
      ConfinedCompose(d, f, flash.State(), c.target);
      ActivatedIsInstalled(r, flash.State().slots);
    }

    /** BootProgramming_Verify from the verdict on. */
    method JudgeAndPublish() returns (nrc: byte)
      requires Verifying() && flash.mem.Length == FLASH_SIZE && |c.staged| == HEADER_SIZE
      modifies this`c, this`stream, this`refusals, update, update.journal, flash, flash.mem
      ensures Valid() && flash.Onward()
      ensures Within() && old(refusals) <= refusals
      ensures flash.mem.Length == FLASH_SIZE
      ensures JudgedAnswer(old(Now()), Now(), refusals == old(refusals), flash.Uneventful(), nrc)
    {
      hide SystemOf, Unambiguous, Outside, Flash.Valid, VersionRight, InOrder, MayStart, Moves, Confined, Written,
           Staged, TailErased, DecodeHeader, J.BodyCrc, ImageFormat.Validate, Judgement, VerifyDone, Installed;
      ghost var d := flash.State();
      nrc := Judge();
      ghost var f := flash.State();
      JudgementReads(old(c), c, stream);
      if nrc != POSITIVE {
        return;
      }
      ghost var judged := c;
      nrc := Publish();
      MovesCompose(d, f, flash.State());
      ConfinedCompose(d, f, flash.State(), c.target);
      DoneAfterVerdict(old(c), judged, old(stream), old(update.current), Now());
    }

    /** BootProgramming_Verify. */
    method Verify() returns (nrc: byte)
      requires Valid()
      modifies this`c, this`stream, this`refusals, update, update.journal, flash, flash.mem
      ensures Valid() && flash.Onward()
      ensures Within() && old(refusals) <= refusals
      ensures VerifyOutcome(nrc)
    {
      hide SystemOf, Unambiguous, Outside, Flash.Valid, VersionRight, InOrder, MayStart, Moves, Confined, Written,
           Staged, TailErased, DecodeHeader, J.BodyCrc, ImageFormat.Validate, Judgement, JudgedAnswer, VerifyDone,
           Installed, Activated;
      ghost var was := Now();
      ghost var d := flash.State();
      ghost var r := update.current;
      MovesSelf(d);
      ConfinedSelf(d, c.target);
      nrc := AccessRefusal(c, update.CanContinue());
      if nrc != POSITIVE {
        return;
      }
      if !c.eraseComplete || !c.transferComplete || c.downloadActive || c.imageVerified {
        return SEQUENCE_ERROR;
      }
      CompleteSession(c, stream, buffer[..], d, r, flash.activeSlot, flash.targetSlot);
      CompleteStream(c, stream, buffer[..], d, r, flash.activeSlot, flash.targetSlot);
      var sent := Pending();
      if !sent {
        return PROGRAMMING_FAILURE;
      }
      var ok := Advance(J.VERIFYING);
      ghost var e := flash.State();
      if !ok {
        if !update.CanContinue() {
          FaultInOrder(c, stream, buffer[..], d, e, r, update.current, flash.activeSlot, flash.targetSlot);
        }
        return PROGRAMMING_FAILURE;
      }
      JudgedInOrder(c, c, stream, buffer[..], d, e, r, update.current, flash.activeSlot, flash.targetSlot, true);
      ghost var verifying := Now();
      label judging:
      nrc := JudgeAndPublish();
      MovesCompose(d, e, flash.State());
      ConfinedCompose(d, e, flash.State(), c.target);
      JudgedAnswers(was, verifying, Now(), refusals == old(refusals), flash.Uneventful@judging(), flash.Uneventful(),
                    nrc);
    }

    twostate predicate VerifyOutcome(nrc: byte)
      reads this, update, flash, flash.mem
    {
      && flash.mem.Length == FLASH_SIZE
      && VerifyAnswer(old(Now()), Now(), refusals == old(refusals), flash.Uneventful(), nrc)
    }

    /** BootProgramming_CanReset. */
    predicate CanReset()
      reads this, update
    {
      && update.CanContinue() && update.current.state == J.PENDING_ACTIVATION
      && c.eraseComplete && c.transferComplete && c.imageVerified && !c.downloadActive
    }

    /** BootProgramming_SetAccess. */
    method SetAccess(session: bool, unlocked: bool)
      requires Valid()
      modifies this`c
      ensures Valid() && c == old(c).(session := session, unlocked := unlocked)
    {
      hide SystemOf, Unambiguous, Outside, VersionRight, MayStart, Written, Staged, TailErased, DecodeHeader;
      c := c.(session := session, unlocked := unlocked);
      VersionReads(old(c), c, flash.State().slots);
    }

    /** BootUds_AbortDownload. */
    method AbortDownload()
      requires Valid()
      modifies this`c, this`stream, update, update.journal, flash, flash.mem
      ensures Valid() && flash.Onward()
      ensures Within() && flash.State().slots == old(flash.State()).slots
      ensures c == Stopped(old(c)) && stream == []
      ensures old(update.CanContinue() ==> NothingUnderWay(flash.State())) ==> flash.State() == old(flash.State())
      ensures update.CanContinue() ==> old(update.CanContinue())
      ensures old(update.CanContinue()) && flash.Uneventful() ==>
        update.CanContinue() && update.current == Withdrawn(old(update.current))
    {
      hide SystemOf, Unambiguous, Outside, VersionRight, MayStart, InOrder, Moves, Confined, J.BodyCrc;
      ghost var d := flash.State();
      MovesSelf(d);
      ConfinedSelf(d, c.target);
      if update.journalValid && J.PREPARING <= update.current.state < J.PENDING_ACTIVATION {
        var ok := GiveUp(J.TRANSFER_FAILED);
      }
      Stop();
    }

    /** GiveUp after changes that began in `d`. */
    method GiveUpAfter(ghost d: System, reason: word)
      requires Underway() && reason <= J.COMMISSIONED
      requires update.CanContinue() && J.PREPARING <= update.current.state <= J.ABORTED
      requires Moves(d, flash.State()) && Confined(d, flash.State(), c.target)
      modifies update, update.journal, flash, flash.mem
      ensures Underway() && flash.Onward() && flash.SameFacade() && flash.SlotsAlone()
      ensures Moves(d, flash.State()) && Confined(d, flash.State(), c.target)
      ensures flash.State().slots == old(flash.State()).slots
      ensures update.CanContinue() ==> update.current == Aborted(old(update.current), reason)
      ensures flash.Uneventful() ==> update.CanContinue()
    {
      hide SystemOf, Unambiguous, Outside, Flash.Valid, VersionRight, J.BodyCrc, Moves, Confined, MayStart;
      ghost var e := flash.State();
      var ok := GiveUp(reason);
      MovesCompose(d, e, flash.State());
      ConfinedCompose(d, e, flash.State(), c.target);
      VersionKept(c, e, flash.State());
    }
  }
}
