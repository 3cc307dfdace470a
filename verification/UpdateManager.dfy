/** The update transaction: its journal in RAM and in flash, and its recovery
  * after a reset (boot_update.c). */
module UpdateManager {
  import opened Bytes
  import opened Slots
  import opened TwinStore
  import opened ImageFormat
  import opened Protocol
  import opened Safety
  import opened BootCycle
  import opened FlashMap
  import opened FlashModel
  import opened BootImage
  import JournalStore
  import J = JournalFormat
  import M = MetadataFormat

  /** What save may do with `next` when the journal in RAM is `r`. */
  predicate SaveResult(d: System, e: System, can: bool, r: J.Journal, next: J.Journal,
                       ok: bool, current: J.Journal, fault: bool) {
    if can && ok then
      J.FieldsValid(next) && current == Committed(r, next) && e == WithJournal(d, current) && !fault
    else
      && !ok && current == r && (can ==> fault)
      && (e == d || (can && J.FieldsValid(next) && e == WithJournal(d, Committed(r, next))))
  }

  /** A commit behind a condition: nothing at all happens when it fails. */
  predicate Attempt(guard: bool, d: System, e: System, can: bool, r: J.Journal, next: J.Journal,
                    ok: bool, current: J.Journal, fault: bool) {
    if guard then SaveResult(d, e, can, r, next, ok, current, fault) else !ok && e == d && current == r
  }

  /** The conditions of BootUpdate_Begin beyond the state of the manager. */
  predicate BeginAllowed(r: J.Journal, active: word, target: word, size: word, activeBootable: bool) {
    && TransitionAllowed(r.state, J.PREPARING)
    && IsSlot(target) && target != active && size == SLOT_SIZE
    && (IsSlot(active) ==> activeBootable)
    && (active == UNKNOWN ==> r.active == UNKNOWN)
  }

  /** The last multiple of the checkpoint size that is certainly in flash. */
  function Durable(programmed: nat, expected: nat): int {
    var durable := programmed / J.CHECKPOINT * J.CHECKPOINT;
    if durable >= expected then durable - J.CHECKPOINT else durable
  }

  predicate Completable(r: J.Journal) { J.FieldsValid(r) && r.state == J.PROGRAMMING }

  predicate ProgressAccepted(r: J.Journal, programmed: nat) {
    J.FieldsValid(r) && r.state == J.PROGRAMMING && programmed <= r.expectedSize
  }

  /** A checkpoint is saved only when it moves; it is always a multiple of the
    * checkpoint size, below the whole image, and at most what was programmed. */
  predicate ProgressResult(d: System, e: System, can: bool, r: J.Journal, programmed: nat, sequence: byte,
                           ok: bool, current: J.Journal, fault: bool) {
    var durable := Durable(programmed, r.expectedSize);
    if can && r.state == J.PROGRAMMING && programmed <= r.expectedSize && durable > r.committedSize then
      && durable <= programmed && durable < r.expectedSize && durable % J.CHECKPOINT == 0
      && SaveResult(d, e, true, r, r.(committedSize := durable, lastBlock := sequence), ok, current, fault)
    else
      && ok == (can && r.state == J.PROGRAMMING && programmed <= r.expectedSize)
      && e == d && current == r && (ok ==> !fault)
  }

  /** A new transaction, and nothing left of the one before. */
  lemma BeginStartsAfresh(r: J.Journal, active: word, target: word, size: word)
    ensures var n := BeginRecord(r, active, target, size);
      && n.transaction == Add(r.transaction, 1) && n.active == active && n.target == target && n.expectedSize == size
      && n.state == 1 && n.committedSize == 0 && n.lastBlock == 0 && n.lastResult == 0 && n.flags == 0
      && n.targetVersion == 0 && n.expectedCrc == 0
  {
  }

  /** The record of a commissioned device, field by field. */
  lemma InitialRecordIs(active: slot)
    ensures var n := InitialRecord(active);
      && n.active == active && n.target == 1 - active && n.state == 9 && n.lastResult == 11 && n.transaction == 0
      && n.expectedSize == n.committedSize == 0 && n.flags == 0
  {
  }

  /** The record of a complete transfer, field by field. */
  lemma CompletedRecordIs(r: J.Journal, h: Header, block: byte)
    ensures var n := CompletedRecord(r, h, block);
      && n.header == h && n.targetVersion == h.softwareVersion && n.expectedCrc == h.imageCrc && n.flags == 1
      && n.committedSize == r.expectedSize && n.lastBlock == block && n.state == 5
      && n.transaction == r.transaction && n.active == r.active && n.target == r.target
  {
  }

  lemma RecordSlots(r: J.Journal)
    requires J.FieldsValid(r)
    ensures IsSlot(r.target) && r.target != r.active && (IsSlot(r.active) || r.active == UNKNOWN)
    ensures r.state <= J.ABORTED
  {
  }

  lemma RecordStates(loaded: Loaded<J.Journal>)
    requires loaded.Present? ==> J.FieldsValid(loaded.record)
    ensures loaded.Present? ==> loaded.record.state <= J.ABORTED
  {
  }

  // Every record the manager builds passes the validation before its commit.

  lemma BegunFields(r: J.Journal, active: word, target: word)
    requires IsSlot(target) && target != active && (IsSlot(active) || active == UNKNOWN)
    ensures J.FieldsValid(BeginRecord(r, active, target, SLOT_SIZE))
  {
  }

  lemma AdvancedFields(r: J.Journal, state: word)
    requires state == J.IDLE || state == J.ABORTED
      || (state == r.state + 1 && J.PREPARING <= r.state < J.PENDING_ACTIVATION && r.state != J.PROGRAMMING)
    ensures J.FieldsValid(r) ==> J.FieldsValid(r.(state := state))
  {
  }

  lemma EndedFields(r: J.Journal, state: word, result: word)
    requires result <= J.COMMISSIONED
    requires state == J.ABORTED || (state == J.PENDING_ACTIVATION && r.state == J.VERIFIED)
    ensures J.FieldsValid(r) ==> J.FieldsValid(r.(state := state, lastResult := result))
  {
  }

  lemma ProgressedFields(r: J.Journal, committed: word, block: byte)
    requires r.state == J.PROGRAMMING && committed <= r.expectedSize
    ensures J.FieldsValid(r) ==> J.FieldsValid(r.(committedSize := committed, lastBlock := block))
  {
  }

  lemma CompletedFields(r: J.Journal, h: Header, block: byte)
    requires r.state == J.PROGRAMMING
    ensures J.FieldsValid(r) ==> J.FieldsValid(CompletedRecord(r, h, block))
  {
  }

  /** One recovery commit, done or cut. */
  lemma RecoveryCommit(d: System, e: System, n: J.Journal)
    requires d.journal.Present? && J.FieldsValid(d.journal.record)
    requires RecoveryNext(d.journal.record, Accepted(d.journal.record, d.slots)) == Some(n)
    requires e == d || e == WithJournal(d, n)
    requires d.journal.record.state == J.VERIFIED && n.state == J.PENDING_ACTIVATION ==>
      Installed(d.journal.record, d.slots)
        && d.slots.At(d.journal.record.target) == d.certified.At(d.journal.record.target)
    ensures J.FieldsValid(n) && Continues(d, e, true)
  {
    hide Safe, Accepted, Installed, BootOutcome, J.BodyCrc, Reaches;
    ContinuesSelf(d);
    if e != d {
      assert Toward(d, e, 0);
      InterruptionDoesNotMatter(d, e, 0);
      assert JournalStep(d, e);
      ReachesStep(d, e);
    }
  }

  /** Publishing the journal's header, done or cut. */
  lemma RecoveryPublish(d: System, e: System, ok: bool)
    requires d.journal.Present? && J.FieldsValid(d.journal.record)
    requires J.VERIFYING <= d.journal.record.state <= J.PENDING_ACTIVATION
    requires var r := d.journal.record; PublishResult(d, e, r.active, r.target, r.header, ok)
    ensures e.journal == d.journal && Continues(d, e, true)
    ensures var r := d.journal.record;
      ok ==> Accepted(r, d.slots) && Installed(r, e.slots) && e == d.(slots := PublishedIn(r.target, r.header, d.slots))
    ensures Accepted(e.journal.record, e.slots) == Accepted(d.journal.record, d.slots)
    ensures !Accepted(d.journal.record, d.slots) ==> !ok && e == d
  {
    hide AcceptedHeader, BootOutcome, J.BodyCrc, Reaches, Matches, PublishedIn, Installed;
    var r := d.journal.record;
    ContinuesSelf(d);
    if AcceptedHeader(r.active, r.target, r.header, d.slots) {
      AcceptedReads(r, r, d.slots, e.slots);
      PublishInstalls(r, d.slots);
      assert PublishingTo(r.target, d, e);
      assert Toward(d, e, 0);
      InterruptionDoesNotMatter(d, e, 0);
      if r.state != J.PENDING_ACTIVATION {
        assert SlotStep(d, e, r.target);
        ReachesStep(d, e);
      } else if Safe(d) {
        InstalledMatches(r, d.slots);
      }
    }
  }

  lemma InstalledMatches(r: J.Journal, slots: Pair<SlotBytes>)
    requires Installed(r, slots)
    ensures Matches(r.target, slots.At(r.target), r.header)
  {
  }

  /** Certifying the validated target changes history only. */
  lemma RecoveryCertify(d: System)
    requires d.journal.Present? && J.FieldsValid(d.journal.record)
    requires var r := d.journal.record; Installed(r, d.slots) && J.VERIFYING <= r.state <= J.PENDING_ACTIVATION
    ensures Continues(d, WithCertified(d, d.journal.record.target), true)
  {
    hide BootOutcome, J.BodyCrc, Reaches, Matches, ImageFormat.Validate, Supersedes;
    var e := WithCertified(d, d.journal.record.target);
    assert PublishingTo(d.journal.record.target, d, e);
    assert Toward(d, e, 0);
    InterruptionDoesNotMatter(d, e, 0);
    assert CertifyStep(d, e);
    ReachesStep(d, e);
  }

  /** Giving up on an update is a step of the protocol; a boot makes the same
    * decision when the image is not acceptable. */
  lemma RecoveryAbort(d: System, e: System, undisturbed: bool)
    requires d.journal.Present? && J.FieldsValid(d.journal.record)
    requires J.VERIFYING <= d.journal.record.state <= J.PENDING_ACTIVATION
    requires e == d || e == WithJournal(d, Aborted(d.journal.record, J.VERIFY_FAILED))
    requires Accepted(d.journal.record, d.slots) && undisturbed ==> e == d
    ensures Continues(d, e, undisturbed)
  {
    hide Safe, Accepted, BootOutcome, J.BodyCrc, Reaches;
    ContinuesSelf(d);
    if e != d && Accepted(d.journal.record, d.slots) {
      assert JournalStep(d, e);
      ReachesStep(d, e);
    } else if e != d {
      RecoveryCommit(d, e, Aborted(d.journal.record, J.VERIFY_FAILED));
    }
  }

  /** The first commit of MarkVerified, and both of them during recovery. */
  function MarkedVerified(r: J.Journal): J.Journal {
    if r.state == J.VERIFYING then Advanced(r, J.VERIFIED) else r
  }

  function Activation(r: J.Journal): J.Journal { Activated(MarkedVerified(r), J.POWER_LOSS_RECOVERED) }

  /** The two commits of MarkVerified on a certified target. */
  lemma RecoveryVerified(d: System, e: System, ok: bool, current: J.Journal)
    requires d.journal.Present? && J.FieldsValid(d.journal.record)
    requires J.VERIFYING <= d.journal.record.state <= J.VERIFIED
    requires Installed(d.journal.record, d.slots) && Accepted(d.journal.record, d.slots)
    requires d.slots.At(d.journal.record.target) == d.certified.At(d.journal.record.target)
    requires VerifiedResult(d, e, true, d.journal.record, true, ok, current)
    ensures Continues(d, e, true)
    ensures ok ==> e == WithJournal(d, Activation(d.journal.record))
  {
    hide Safe, Accepted, BootOutcome, J.BodyCrc, Reaches, Installed, Continues;
    var r := d.journal.record;
    var v := MarkedVerified(r);
    var m := WithJournal(d, v);
    ContinuesSelf(d);
    if e != d {
      if r.state == J.VERIFYING {
        RecoveryCommit(d, m, v);
      }
      AcceptedReads(r, v, d.slots, m.slots);
      InstalledReads(r, v, d.slots);
      RecoveryCommit(m, e, Activation(r));
      ContinuesCompose(d, m, e, true);
    }
  }

  /** The end of recovery from a completed transfer, in closed form. */
  lemma RecoverEnds(d: System)
    requires d.journal.Present? && J.FieldsValid(d.journal.record)
    requires J.TRANSFER_COMPLETE <= d.journal.record.state <= J.PENDING_ACTIVATION
    ensures var r := d.journal.record;
      var v := if r.state == J.TRANSFER_COMPLETE then Advanced(r, J.VERIFYING) else r;
      var x := if v.state == J.PENDING_ACTIVATION then v else Activation(v);
      Recover(d) == if Accepted(r, d.slots) then
          WithJournal(WithCertified(d.(slots := PublishedIn(r.target, r.header, d.slots)), r.target), x)
        else WithJournal(d, Aborted(v, J.VERIFY_FAILED))
  {
    hide J.BodyCrc, Accepted, PublishedIn;
    var r, accepted := d.journal.record, Accepted(d.journal.record, d.slots);
    var v := if r.state == J.TRANSFER_COMPLETE then Advanced(r, J.VERIFYING) else r;
    assert Recovered(r, accepted) == Recovered(v, accepted);
    if accepted {
      var w := if v.state == J.PENDING_ACTIVATION then v else MarkedVerified(v);
      assert Recovered(v, accepted) == Recovered(w, accepted);
      var x := if v.state == J.PENDING_ACTIVATION then v else Activation(v);
      assert Recovered(w, accepted) == Recovered(x, accepted) == x;
    } else {
      assert Recovered(v, accepted) == Aborted(v, J.VERIFY_FAILED);
    }
  }

  /** What PublishTarget leaves: the target installed and certified, or the update
    * given up. */
  ghost predicate PublishedTarget(d: System, e: System, undisturbed: bool, uneventful: bool, ok: bool) {
    && d.journal.Present? && IsSlot(d.journal.record.target)
    && var r := d.journal.record;
       && Continues(d, e, undisturbed)
       && (uneventful ==> ok == Accepted(r, d.slots) && (!ok ==> e == WithJournal(d, Aborted(r, J.VERIFY_FAILED))))
       && (ok ==> Continues(d, e, true) && PublishedAs(d, e, r, r.target))
  }

  predicate PublishedAs(d: System, e: System, r: J.Journal, target: slot) {
    && Accepted(r, d.slots) && Trusted(e)
    && e == WithCertified(d.(slots := PublishedIn(target, r.header, d.slots)), target)
  }

  lemma ActivationInstalled(r: J.Journal, n: J.Journal, slots: Pair<SlotBytes>)
    requires n == Activation(r) && Installed(r, slots)
    ensures Installed(n, slots)
  {
    hide Installed, J.BodyCrc;
    InstalledReads(r, n, slots);
  }

  /** The journal's target is installed, accepted and certified. */
  predicate Trusted(d: System) {
    && d.journal.Present? && Installed(d.journal.record, d.slots) && Accepted(d.journal.record, d.slots)
    && d.slots.At(d.journal.record.target) == d.certified.At(d.journal.record.target)
  }

  lemma PublishedFacts(d: System, e: System, undisturbed: bool, uneventful: bool, ok: bool)
    requires PublishedTarget(d, e, undisturbed, uneventful, ok)
    ensures Continues(d, e, undisturbed) && (ok ==> Continues(d, e, true) && Trusted(e) && e.journal == d.journal)
  {
    hide Continues, Accepted, Installed, J.BodyCrc, PublishedIn;
  }

  lemma AdvancedState(r: J.Journal)
    ensures Advanced(r, J.VERIFYING).state == J.VERIFYING
    ensures (J.FieldsValid(r) && r.state == J.TRANSFER_COMPLETE ==> J.FieldsValid(Advanced(r, J.VERIFYING)))
  {
    hide J.BodyCrc;
  }

  /** The four commits put together. */
  lemma RevalidatedEnds(d: System, e: System, f: System, g: System, undisturbed: bool, uneventful: bool, ok: bool)
    requires d.journal.Present? && J.FieldsValid(d.journal.record)
    requires J.TRANSFER_COMPLETE <= d.journal.record.state <= J.PENDING_ACTIVATION
    requires e == if d.journal.record.state == J.TRANSFER_COMPLETE then WithJournal(d,
                                                                                    Advanced(d.journal.record,
                                                                                             J.VERIFYING)) else d
    requires PublishedTarget(e, f, undisturbed, uneventful, ok)
    requires g == if ok && d.journal.record.state != J.PENDING_ACTIVATION then WithJournal(f,
                                                                                           Activation(f.journal.record))
                  else f
    ensures uneventful ==> RecoveryDone(d, g, ok, false, ok)
  {
    hide Continues, J.BodyCrc, PublishedIn, Accepted, Trusted, Recover;
    RecoverEnds(d);
    if uneventful {
      AcceptedReads(d.journal.record, e.journal.record, d.slots, e.slots);
    }
  }

  /** The record BootUpdate_MarkTransferComplete saves. */
  function CompletedRecord(r: J.Journal, h: Header, sequence: byte): J.Journal {
    r.(header := h, flags := J.HEADER_KNOWN, targetVersion := h.softwareVersion,
       expectedCrc := h.imageCrc, committedSize := r.expectedSize, lastBlock := sequence,
       state := J.TRANSFER_COMPLETE)
  }

  datatype Action = FAIL_SAFE | NORMAL | ABORT | REVALIDATE | PENDING

  /** BootRecoveryPolicy_Action. */
  function RecoveryAction(valid: bool, state: word): Action {
    if !valid then FAIL_SAFE
    else if state == J.IDLE || state == J.ABORTED then NORMAL
    else if J.PREPARING <= state <= J.PROGRAMMING then ABORT
    else if J.TRANSFER_COMPLETE <= state <= J.VERIFIED then REVALIDATE
    else if state == J.PENDING_ACTIVATION then PENDING
    else FAIL_SAFE
  }

  /** The two commits of MarkVerified, cut anywhere. */
  predicate VerifiedResult(d: System, e: System, can: bool, r: J.Journal, recovered: bool, ok: bool,
                           current: J.Journal) {
    var verified := MarkedVerified(r);
    var activated := Activated(verified, if recovered then J.POWER_LOSS_RECOVERED else J.SUCCESS);
    if can && r.state in {J.VERIFYING, J.VERIFIED} then
      && (ok ==> e == WithJournal(d, activated) && current == activated)
      && (e == d || e == WithJournal(d, verified) || e == WithJournal(d, activated))
    else !ok && e == d && current == r
  }

  /** What LoadRecoveryState reports when nothing goes wrong. */
  predicate RecoverySucceeds(d: System)
    requires d.journal.Present?
  {
    d.journal.record.state < J.TRANSFER_COMPLETE || d.journal.record.state == J.ABORTED
    || Accepted(d.journal.record, d.slots)
  }

  predicate RecoveryDone(d: System, e: System, ok: bool, fault: bool, revalidated: bool) {
    && d.journal.Present? && IsSlot(d.journal.record.target) && e.journal.Present?
    && e == Recover(d) && ok == RecoverySucceeds(d) && !fault
    && revalidated == (e.journal.record.state == J.PENDING_ACTIVATION)
  }

  ghost predicate Loading(d: System, e: System, undisturbed: bool, uneventful: bool, ok: bool, fault: bool,
                          revalidated: bool) {
    if d.journal.Present? then
      Continues(d, e, undisturbed) && (uneventful ==> RecoveryDone(d, e, ok, fault, revalidated))
    else
      !ok && !fault && e == d
  }

  /** The record of a commissioned device. */
  function InitialRecord(active: word): J.Journal {
    ZERO.(active := active, target := if active == SLOT_A then SLOT_B
          else SLOT_A, state := J.ABORTED, lastResult := J.COMMISSIONED)
  }

  lemma InitialFields(active: word)
    requires IsSlot(active) || active == UNKNOWN
    ensures J.FieldsValid(InitialRecord(active))
  {
  }

  /** Commissioning opens no accounts. */
  lemma InitialCommit(d: System, active: word)
    ensures var n := J.Stamp(InitialRecord(active), 1); WithJournal(d, n) == d.(journal := Present(n))
  {
    hide J.BodyCrc;
  }

  /** The active slot holds an image, or no slot does and none is named. */
  predicate ImagesPermit(slots: Pair<SlotBytes>, active: word) {
    if IsSlot(active) then Bootable(active, slots.At(active))
    else active == UNKNOWN && !Bootable(SLOT_A, slots.a) && !Bootable(SLOT_B, slots.b)
  }

  predicate InitializePermitted(d: System, active: word) { !d.journal.Present? && ImagesPermit(d.slots, active) }

  lemma PermittedActive(slots: Pair<SlotBytes>, active: word)
    requires ImagesPermit(slots, active)
    ensures IsSlot(active) || active == UNKNOWN
  {
  }

  predicate Initialized(d: System, e: System, active: word, uneventful: bool, ok: bool, can: bool, current: J.Journal) {
    && e == d.(journal := e.journal)
    && (ok ==>
          && InitializePermitted(d, active) && can
          && current == J.Stamp(InitialRecord(active), 1) && e.journal == Present(current))
    && (!InitializePermitted(d, active) ==> !ok && e == d)
    && (e.journal.Present? && !d.journal.Present? ==> e.journal == Present(J.Stamp(InitialRecord(active), 1)))
    && (uneventful && InitializePermitted(d, active) ==> ok)
  }

  lemma CommittedFields(r: J.Journal, next: J.Journal)
    ensures J.FieldsValid(Committed(r, next)) == J.FieldsValid(next)
  {
    hide J.BodyCrc;
  }

  lemma LoadedIsValid(m: Memory, h: History)
    ensures SystemOf(m, h).journal == JournalOf(m)
    ensures JournalOf(m).Present? ==> J.FieldsValid(JournalOf(m).record)
  {
    hide J.Decode, J.BodyCrc, J.FieldsValid, MetadataOf;
  }

  /** What is loaded has passed validation. */
  lemma JournalIsValid(m: Memory, h: History)
    ensures SystemOf(m, h).journal.Present? ==> J.FieldsValid(SystemOf(m, h).journal.record)
  {
    hide SystemOf, J.FieldsValid;
    LoadedIsValid(m, h);
  }

  /** Recovery of a journal that is at rest. */
  lemma RecoveredAlready(d: System)
    requires d.journal.Present? && J.FieldsValid(d.journal.record)
    requires d.journal.record.state == J.IDLE || d.journal.record.state == J.ABORTED
    ensures RecoveryDone(d, d, true, false, false) && Continues(d, d, true)
  {
    hide Accepted, Continues;
    ContinuesSelf(d);
  }

  /** Recovery before the transfer was complete. */
  lemma RecoveredAbort(d: System, e: System)
    requires d.journal.Present? && J.FieldsValid(d.journal.record)
    requires J.PREPARING <= d.journal.record.state <= J.PROGRAMMING
    requires var r := d.journal.record;
      var reason := if r.state == J.PROGRAMMING then J.INTERRUPTED_PROGRAMMING else J.INTERRUPTED;
      e == d || e == WithJournal(d, Committed(r, r.(state := J.ABORTED, lastResult := reason)))
    ensures Continues(d, e, true)
    ensures var r := d.journal.record;
      var reason := if r.state == J.PROGRAMMING then J.INTERRUPTED_PROGRAMMING else J.INTERRUPTED;
      e == WithJournal(d, Committed(r, r.(state := J.ABORTED, lastResult := reason))) ==>
        RecoveryDone(d, e, true, false, false)
  {
    hide J.BodyCrc, Accepted, Continues;
    var r, accepted := d.journal.record, Accepted(d.journal.record, d.slots);
    var n := RecoveryNext(r, accepted).value;
    RecoveryCommit(d, e, n);
    assert Recovered(r, accepted) == Recovered(n, accepted) == n;
  }

  class Update {
    const flash: Flash
    const journal: JournalStore.JournalStore
    var current: J.Journal
    var journalValid: bool
    var storageFault: bool
    var targetRevalidated: bool

    constructor (flash: Flash, journal: JournalStore.JournalStore)
      ensures this.flash == flash && this.journal == journal && !journalValid
    {
      this.flash, this.journal := flash, journal;
      current, journalValid, storageFault, targetRevalidated := ZERO, false, false, false;
    }

    /** BootUpdate_CanContinue. */
    predicate CanContinue()
      reads this
    {
      journalValid && !storageFault
    }

    /** The mirror: as long as work may continue, RAM holds what flash would load. */
    ghost predicate Valid()
      reads this, flash, flash.mem
    {
      && flash.mem.Length == FLASH_SIZE && journal.flash == flash && flash.Consistent()
      && (CanContinue() ==> flash.State().journal == Present(current))
    }

    /** save: a state change is claimed only once it is durable. */
    method Save(next: J.Journal) returns (ok: bool)
      requires Valid()
      modifies this`current, this`storageFault, journal, flash`powered, flash`failures, flash`misuse, flash`touched,
               flash`windowStart, flash`windowEnd, flash`history, flash.mem
      ensures Valid() && flash.Onward() && flash.SlotsAlone()
      ensures CanContinue() ==> old(CanContinue())
      ensures SaveResult(old(flash.State()), flash.State(), old(CanContinue()), old(current), next, ok, current,
                         storageFault)
      ensures ok ==> flash.powered
      ensures !old(CanContinue()) ==> storageFault == old(storageFault)
      ensures flash.Uneventful() && old(CanContinue()) && J.FieldsValid(next) ==> ok
      ensures !old(flash.powered) ==> flash.State() == old(flash.State())
    {
      hide SystemOf, Unambiguous, Outside, J.FieldsValid, J.BodyCrc;
      if storageFault || !journalValid {
        return false;
      }
      var done, stored := journal.Commit(next, false);
      if !done {
        storageFault := true;
        return false;
      }
      current := stored;
      return true;
    }

    /** BootUpdate_SetState. */
    method SetState(state: word) returns (ok: bool)
      requires Valid()
      modifies this`current, this`storageFault, journal, flash`powered, flash`failures, flash`misuse, flash`touched,
               flash`windowStart, flash`windowEnd, flash`history, flash.mem
      ensures Valid() && flash.Onward() && flash.SlotsAlone()
      ensures CanContinue() ==> old(CanContinue())
      ensures Attempt(TransitionAllowed(old(current).state, state), old(flash.State()), flash.State(),
                      old(CanContinue()), old(current), old(current).(state := state), ok, current, storageFault)
      ensures ok ==> flash.powered
      ensures (flash.Uneventful() && old(CanContinue()) && TransitionAllowed(old(current).state, state)
               && J.FieldsValid(old(current).(state := state))) ==> ok
      ensures !old(flash.powered) ==> flash.State() == old(flash.State())
    {
      hide SystemOf, Unambiguous, Outside, J.FieldsValid, J.BodyCrc;
      if !TransitionAllowed(current.state, state) {
        return false;
      }
      ok := Save(current.(state := state));
    }

    /** BootUpdate_CompleteActivationHandoff. */
    method CompleteActivationHandoff() returns (ok: bool)
      requires Valid()
      modifies this`current, this`storageFault, journal, flash`powered, flash`failures, flash`misuse, flash`touched,
               flash`windowStart, flash`windowEnd, flash`history, flash.mem
      ensures Valid() && flash.Onward() && flash.SlotsAlone()
      ensures CanContinue() ==> old(CanContinue())
      ensures Attempt(old(CanContinue()) && old(current).state == J.PENDING_ACTIVATION, old(flash.State()),
                      flash.State(),
                      old(CanContinue()), old(current), old(current).(state := J.IDLE), ok, current, storageFault)
      ensures (flash.Uneventful() && old(CanContinue()) && old(current).state == J.PENDING_ACTIVATION
               && J.FieldsValid(old(current))) ==> ok
    {
      hide SystemOf, Unambiguous, Outside, J.FieldsValid, J.BodyCrc;
      if !CanContinue() || current.state != J.PENDING_ACTIVATION {
        return false;
      }
      AdvancedFields(current, J.IDLE);
      ok := Save(current.(state := J.IDLE));
    }

    /** The update that awaits activation is in flash as the journal has it. */
    ghost predicate Awaited()
      reads this`journalValid, this`storageFault, this`current, flash, flash.mem
    {
      && flash.mem.Length == FLASH_SIZE && journalValid && !storageFault && current.state == J.PENDING_ACTIVATION
      && Installed(current, flash.State().slots)
    }

    /** BootUpdate_IsSlotBootable. */
    predicate IsSlotBootable(s: word)
      reads this
    {
      && journalValid && Allowed(current, s)
      && (s == current.target && current.state != J.IDLE ==> targetRevalidated && !storageFault)
    }

    /** BootUpdate_Begin. */
    method Begin(active: word, target: word, size: word) returns (ok: bool)
      requires Valid()
      modifies this, journal, flash`powered, flash`failures, flash`misuse, flash`touched, flash`windowStart,
               flash`windowEnd, flash`history, flash.mem
      ensures Valid() && flash.Onward() && flash.SlotsAlone() && journalValid == old(journalValid)
      ensures ok ==> flash.powered
      ensures CanContinue() ==> old(CanContinue())
      ensures Attempt(old(CanContinue())
                      && BeginAllowed(old(current), active, target, size, old(IsSlotBootable(active))),
                      old(flash.State()), flash.State(), old(CanContinue()), old(current),
                      BeginRecord(old(current), active, target, size), ok, current, storageFault)
      ensures flash.Uneventful() && old(CanContinue())
              && BeginAllowed(old(current), active, target, size, old(IsSlotBootable(active)))
        ==> ok || !(IsSlot(active) || active == UNKNOWN)
      ensures targetRevalidated == (if ok then false else old(targetRevalidated))
    {
      hide SystemOf, Unambiguous, Outside, J.FieldsValid, J.BodyCrc;
      if !CanContinue() || !TransitionAllowed(current.state, J.PREPARING) || !IsSlot(target) || target == active
         || size != SLOT_SIZE || (IsSlot(active) && !IsSlotBootable(active))
         || (active == UNKNOWN && current.active != UNKNOWN) {
        return false;
      }
      if IsSlot(active) || active == UNKNOWN {
        BegunFields(current, active, target);
      }
      ok := Save(BeginRecord(current, active, target, size));
      if ok {
        targetRevalidated := false;
      }
    }

    /** BootUpdate_SetProgress: a checkpoint of what is in flash, never of the
      * header, which is still in RAM. */
    method SetProgress(programmed: nat, sequence: byte) returns (ok: bool)
      requires Valid()
      modifies this`current, this`storageFault, journal, flash`powered, flash`failures, flash`misuse, flash`touched,
               flash`windowStart, flash`windowEnd, flash`history, flash.mem
      ensures Valid() && flash.Onward() && flash.SlotsAlone()
      ensures CanContinue() ==> old(CanContinue())
      ensures ProgressResult(old(flash.State()), flash.State(), old(CanContinue()), old(current), programmed, sequence,
                             ok, current, storageFault)
      ensures flash.Uneventful() && old(CanContinue()) && ProgressAccepted(old(current), programmed) ==> ok
      ensures !old(flash.powered) ==> flash.State() == old(flash.State())
    {
      hide SystemOf, Unambiguous, Outside, J.FieldsValid, J.BodyCrc;
      var durable: int := programmed / J.CHECKPOINT * J.CHECKPOINT;
      if !CanContinue() || current.state != J.PROGRAMMING || programmed > current.expectedSize {
        return false;
      }
      if durable >= current.expectedSize {
        durable := durable - J.CHECKPOINT;
      }
      if durable <= current.committedSize {
        return true;
      }
      ProgressedFields(current, durable, sequence);
      ok := Save(current.(committedSize := durable, lastBlock := sequence));
    }

    /** BootUpdate_MarkTransferComplete. */
    method MarkTransferComplete(h: Header, sequence: byte) returns (ok: bool)
      requires Valid()
      modifies this`current, this`storageFault, journal, flash`powered, flash`failures, flash`misuse, flash`touched,
               flash`windowStart, flash`windowEnd, flash`history, flash.mem
      ensures Valid() && flash.Onward() && flash.SlotsAlone()
      ensures ok ==> flash.powered
      ensures CanContinue() ==> old(CanContinue())
      ensures Attempt(old(CanContinue()) && old(current).state == J.PROGRAMMING, old(flash.State()), flash.State(),
                      old(CanContinue()), old(current), CompletedRecord(old(current), h, sequence), ok, current,
                        storageFault)
      ensures flash.Uneventful() && old(CanContinue()) && Completable(old(current)) ==> ok
    {
      hide SystemOf, Unambiguous, Outside, J.FieldsValid, J.BodyCrc, CompletedRecord, Committed;
      if !CanContinue() || current.state != J.PROGRAMMING {
        return false;
      }
      CompletedFields(current, h, sequence);
      ok := Save(CompletedRecord(current, h, sequence));
    }

    /** BootUpdate_Abort. */
    method Abort(reason: word) returns (ok: bool)
      requires Valid() && reason <= J.COMMISSIONED
      modifies this, journal, flash`powered, flash`failures, flash`misuse, flash`touched, flash`windowStart,
               flash`windowEnd, flash`history, flash.mem
      ensures Valid() && flash.Onward() && flash.SlotsAlone() && journalValid == old(journalValid) && !targetRevalidated
      ensures ok ==> current.state == J.ABORTED
      ensures CanContinue() ==> old(CanContinue())
      ensures Attempt(TransitionAllowed(old(current).state, J.ABORTED), old(flash.State()), flash.State(),
                      old(CanContinue()),
                      old(current), old(current).(state := J.ABORTED, lastResult := reason), ok, current, storageFault)
      ensures (flash.Uneventful() && old(CanContinue()) && TransitionAllowed(old(current).state, J.ABORTED)
               && J.FieldsValid(old(current))) ==> ok
      ensures !old(flash.powered) ==> flash.State() == old(flash.State())
    {
      hide SystemOf, Unambiguous, Outside, J.FieldsValid, J.BodyCrc;
      targetRevalidated := false;
      if !TransitionAllowed(current.state, J.ABORTED) {
        return false;
      }
      EndedFields(current, J.ABORTED, reason);
      ok := Save(current.(state := J.ABORTED, lastResult := reason));
    }

    /** BootUpdate_MarkVerified: VERIFIED if it is not yet, then PENDING_ACTIVATION. */
    method MarkVerified(recovered: bool) returns (ok: bool)
      requires Valid()
      modifies this, journal, flash`powered, flash`failures, flash`misuse, flash`touched, flash`windowStart,
               flash`windowEnd, flash`history, flash.mem
      ensures Valid() && flash.Onward() && flash.SlotsAlone() && journalValid == old(journalValid)
      ensures CanContinue() ==> old(CanContinue())
      ensures VerifiedResult(old(flash.State()), flash.State(), old(CanContinue()), old(current), recovered, ok,
                             current)
      ensures !ok && old(CanContinue()) && old(current).state in {J.VERIFYING, J.VERIFIED} ==> !CanContinue()
      ensures ok ==> CanContinue() && targetRevalidated && flash.powered
      ensures !ok ==> targetRevalidated == old(targetRevalidated)
      ensures (flash.Uneventful() && old(CanContinue()) && J.FieldsValid(old(current))
               && old(current).state in {J.VERIFYING, J.VERIFIED}) ==> ok
    {
      hide SystemOf, Unambiguous, Outside, J.FieldsValid, J.BodyCrc;
      CommittedFields(current, current.(state := J.VERIFIED));
      if current.state == J.VERIFYING {
        AdvancedFields(current, J.VERIFIED);
        ok := SetState(J.VERIFIED);
        if !ok {
          return;
        }
      }
      if current.state != J.VERIFIED {
        return false;
      }
      var result := if recovered then J.POWER_LOSS_RECOVERED else J.SUCCESS;
      EndedFields(current, J.PENDING_ACTIVATION, result);
      CommittedFields(current, current.(state := J.PENDING_ACTIVATION, lastResult := result));
      ok := Save(current.(state := J.PENDING_ACTIVATION, lastResult := result));
      if ok {
        targetRevalidated := true;
      }
    }

    /** Recovery publishes the header kept in the journal, or gives the update up. */
    method PublishTarget() returns (ok: bool)
      requires Valid() && CanContinue() && J.FieldsValid(current)
      requires J.VERIFYING <= current.state <= J.PENDING_ACTIVATION
      modifies this, journal, flash`powered, flash`failures, flash`misuse, flash`touched, flash`windowStart,
               flash`windowEnd, flash`activeSlot, flash`targetSlot, flash`history, flash.mem
      ensures Valid() && flash.Onward() && journalValid
      ensures PublishedTarget(old(flash.State()), flash.State(), flash.failures == old(flash.failures),
                              flash.Uneventful(), ok)
      ensures CanContinue() ==> current.state == if ok then old(current).state else J.ABORTED
      ensures ok ==> CanContinue() && current == old(current) && targetRevalidated == old(targetRevalidated)
      ensures ok && current.state == J.PENDING_ACTIVATION ==> Awaited()
      ensures !ok ==> !targetRevalidated && (flash.Uneventful() ==> !storageFault)
    {
      hide SystemOf, Unambiguous, Outside, J.FieldsValid, J.BodyCrc, AcceptedHeader, Continues, PublishResult,
           Installed, PublishedIn;
      ghost var d := flash.State();
      RecordSlots(current);
      ok := ValidateAndPublish(flash, current.active, current.target, current.header);
      ghost var e := flash.State();
      RecoveryPublish(d, e, ok);
      if !ok {
        var aborted := Abort(J.VERIFY_FAILED);
        RecoveryAbort(e, flash.State(), flash.failures == old(flash.failures));
        ContinuesCompose(d, e, flash.State(), flash.failures == old(flash.failures));
        return false;
      }
      flash.Certify(current.target);
      RecoveryCertify(e);
      ContinuesCompose(d, e, flash.State(), true);
      ContinuesWeaken(d, flash.State(), flash.failures == old(flash.failures));
    }

    /** The two commits with which recovery activates a certified target. */
    method ActivateRecovered() returns (ok: bool)
      requires Valid() && CanContinue() && J.FieldsValid(current) && J.VERIFYING <= current.state <= J.VERIFIED
      requires Trusted(flash.State())
      modifies this, journal, flash`powered, flash`failures, flash`misuse, flash`touched, flash`windowStart,
               flash`windowEnd, flash`history, flash.mem
      ensures Valid() && flash.Onward() && journalValid
      ensures Continues(old(flash.State()), flash.State(), true)
      ensures ok ==> CanContinue() && targetRevalidated && current.state == J.PENDING_ACTIVATION
      ensures ok ==> flash.State() == WithJournal(old(flash.State()), Activation(old(current)))
      ensures ok ==> Awaited()
      ensures !ok ==> !CanContinue() && targetRevalidated == old(targetRevalidated)
      ensures flash.Uneventful() ==> ok
    {
      hide SystemOf, Unambiguous, Outside, J.FieldsValid, J.BodyCrc, Accepted, Continues, VerifiedResult, Installed;
      ghost var d := flash.State();
      ok := MarkVerified(true);
      RecoveryVerified(d, flash.State(), ok, current);
      if ok {
        ActivationInstalled(old(current), current, d.slots);
      }
    }

    /** The part of BootUpdate_LoadRecoveryState for a completed transfer. */
    method Revalidate(pending: bool) returns (ok: bool)
      requires Valid() && CanContinue() && J.FieldsValid(current) && !targetRevalidated
      requires J.TRANSFER_COMPLETE <= current.state <= J.PENDING_ACTIVATION
      requires pending == (current.state == J.PENDING_ACTIVATION)
      modifies this, journal, flash`powered, flash`failures, flash`misuse, flash`touched, flash`windowStart,
               flash`windowEnd, flash`activeSlot, flash`targetSlot, flash`history, flash.mem
      ensures Valid() && flash.Onward() && journalValid
      ensures CanContinue() ==> current.state == J.PENDING_ACTIVATION || current.state == J.ABORTED
      ensures Continues(old(flash.State()), flash.State(), flash.failures == old(flash.failures))
      ensures flash.Uneventful() ==>
        RecoveryDone(old(flash.State()), flash.State(), ok, storageFault, targetRevalidated)
      ensures targetRevalidated ==> Awaited()
    {
      hide SystemOf, Unambiguous, Outside, J.FieldsValid, J.BodyCrc, Continues, PublishedTarget, RecoveryDone, Trusted,
           Activation, Update.Awaited;
      ghost var d := flash.State();
      ContinuesSelf(d);
      AdvancedState(current);
      if current.state == J.TRANSFER_COMPLETE {
        AdvancedFields(current, J.VERIFYING);
        ok := SetState(J.VERIFYING);
        RecoveryCommit(d, flash.State(), Advanced(d.journal.record, J.VERIFYING));
        ContinuesWeaken(d, flash.State(), flash.failures == old(flash.failures));
        if !ok {
          return;
        }
      }
      ghost var e := flash.State();
      label verifying:
      ok := PublishTarget();
      ghost var f := flash.State();
      ghost var calm, quiet := flash.failures == old@verifying(flash.failures), flash.Uneventful@verifying();
      PublishedFacts(e, f, calm, quiet, ok);
      ContinuesCompose(d, e, f, calm);
      ContinuesAlso(d, f, calm, flash.failures == old(flash.failures));
      if !ok || pending {
        targetRevalidated := ok;
        RevalidatedEnds(d, e, f, f, calm, quiet, ok);
        return;
      }
      ContinuesCompose(d, e, f, true);
      ok := ActivateRecovered();
      ContinuesCompose(d, f, flash.State(), true);
      ContinuesWeaken(d, flash.State(), flash.failures == old(flash.failures));
      if ok {
        RevalidatedEnds(d, e, f, flash.State(), calm, quiet, true);
      }
    }

    /** The images agree with what commissioning claims about the active slot. */
    method ImagesAllow(active: word) returns (ok: bool)
      requires flash.Ready()
      ensures ok == ImagesPermit(flash.State().slots, active)
    {
      hide SystemOf, ImageFormat.LoadInfo, HeaderOf;
      if IsSlot(active) {
        var found, h := BootImage.LoadInfo(flash, active);
        return found == Verdict.VALID;
      }
      if active != UNKNOWN {
        return false;
      }
      var foundA, a := BootImage.LoadInfo(flash, SLOT_A);
      if foundA == Verdict.VALID {
        return false;
      }
      var foundB, b := BootImage.LoadInfo(flash, SLOT_B);
      return foundB != Verdict.VALID;
    }

    /** BootUpdate_InitializeJournal: commissioning, where there is no journal yet. */
    method InitializeJournal(active: word) returns (ok: bool)
      requires Valid()
      modifies this, journal, flash`powered, flash`failures, flash`misuse, flash`touched, flash`windowStart,
               flash`windowEnd, flash`history, flash.mem
      ensures Valid() && flash.Onward() && flash.SlotsAlone()
      ensures Initialized(old(flash.State()), flash.State(), active, flash.Uneventful(), ok, CanContinue(), current)
      ensures old(flash.State()).journal.Present? ==>
        (!ok && flash.State() == old(flash.State()) && flash.Idle() && current == old(current)
         && journalValid == old(journalValid) && storageFault == old(storageFault)
            && targetRevalidated == old(targetRevalidated))
    {
      hide SystemOf, Unambiguous, Outside, J.FieldsValid, J.BodyCrc, JournalOf, ZERO, ImagesPermit, InitialRecord,
           J.Stamp, Latest, JournalCopy;
      LoadedIsValid(flash.mem[..], flash.history);
      var existing := journal.LoadLatest();
      if existing.Present? {
        return false;
      }
      ok := ImagesAllow(active);
      if !ok {
        return;
      }
      PermittedActive(flash.State().slots, active);
      InitialFields(active);
      InitialCommit(flash.State(), active);
      var stored;
      ok, stored := journal.Commit(InitialRecord(active), true);
      if !ok {
        storageFault := true;
        return false;
      }
      current, journalValid, storageFault, targetRevalidated := stored, true, false, false;
      return true;
    }

    /** The start of BootUpdate_LoadRecoveryState: fill the mirror from flash. */
    method LoadMirror()
      requires journal.flash == flash && flash.Consistent()
      modifies this, journal
      ensures Valid() && !storageFault && !targetRevalidated
      ensures journalValid == flash.State().journal.Present?
      ensures journalValid ==>
        current == flash.State().journal.record && J.FieldsValid(current) && current.state <= J.ABORTED
      ensures !journalValid ==> current.active == current.target == UNKNOWN
    {
      hide SystemOf, Unambiguous, Outside, J.FieldsValid, JournalOf, ZERO, Latest, JournalCopy;
      current := ZERO.(active := UNKNOWN, target := UNKNOWN);
      storageFault, targetRevalidated := false, false;
      var loaded := journal.LoadLatest();
      journalValid := loaded.Present?;
      if loaded.Present? {
        current := loaded.record;
      }
      LoadedIsValid(flash.mem[..], flash.history);
      RecordStates(loaded);
    }

    /** BootUpdate_LoadRecoveryState: what a boot makes of the journal it finds. */
    method LoadRecoveryState() returns (ok: bool)
      requires journal.flash == flash && flash.Consistent()
      modifies this, journal, flash`powered, flash`failures, flash`misuse, flash`touched, flash`windowStart,
               flash`windowEnd, flash`activeSlot, flash`targetSlot, flash`history, flash.mem
      ensures Valid() && flash.Onward()
      ensures journalValid == old(flash.State()).journal.Present?
      ensures CanContinue() ==>
        current.state == J.IDLE || current.state == J.PENDING_ACTIVATION || current.state == J.ABORTED
      ensures AtRest(old(flash.State())) ==> CanContinue() && flash.State() == old(flash.State()) && flash.Idle()
      ensures Loading(old(flash.State()), flash.State(), flash.failures == old(flash.failures), flash.Uneventful(),
                      ok, storageFault, targetRevalidated)
      ensures targetRevalidated ==> Awaited()
      ensures IsSlotBootable(current.target) && current.state != J.IDLE ==> Installed(current, flash.State().slots)
    {
      hide SystemOf, Unambiguous, Outside, J.FieldsValid, J.BodyCrc, Accepted, Continues, RecoveryDone, Committed,
           Installed;
      ghost var d := flash.State();
      LoadMirror();
      var action := RecoveryAction(journalValid, current.state);
      if action == FAIL_SAFE {
        return false;
      }
      if action == ABORT {
        ok := Abort(if current.state == J.PROGRAMMING then J.INTERRUPTED_PROGRAMMING else J.INTERRUPTED);
        RecoveredAbort(d, flash.State());
        ContinuesWeaken(d, flash.State(), flash.failures == old(flash.failures));
        return;
      }
      if action == REVALIDATE || action == PENDING {
        ok := Revalidate(action == PENDING);
        return;
      }
      RecoveredAlready(d);
      ContinuesWeaken(d, d, flash.failures == old(flash.failures));
      return true;
    }
  }
}
