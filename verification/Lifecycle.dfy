/** The life of an installed image: activation hand-off, trials, confirmation,
  * rollback (boot_lifecycle.c). */
module Lifecycle {
  import opened Bytes
  import opened Slots
  import opened TwinStore
  import opened ImageFormat
  import opened Protocol
  import opened Safety
  import opened BootCycle
  import opened Trials
  import opened FlashMap
  import opened FlashModel
  import opened Records = MetadataStore
  import BootImage
  import UpdateManager
  import J = JournalFormat
  import M = MetadataFormat

  /** The record of initialize_confirmed. */
  function ConfirmedRecord(version: word, counter: word, reason: word): M.Metadata {
    M.Metadata(0, 0, 0, version, M.CONFIRMED, 0, 0, counter, 0, reason, 0, M.RESULT_NONE,
               UNKNOWN, 0, 0, UNKNOWN, 0, 0, 0, 0)
  }

  /** What the hand-off of an activated update may do: from a safe state each
    * cut of it is a step of the protocol towards the same end. */
  ghost predicate HandedOff(d: System, e: System, reason: word, undisturbed: bool, uneventful: bool, ok: bool) {
    Safe(d) ==> Continues(d, e, undisturbed) && (uneventful ==> ok && e == HandOff(d, reason))
  }

  // ------------------------------------------------- the hand-off, step by step

  lemma SafePending(d: System)
    requires Safe(d) && d.journal.record.state == J.PENDING_ACTIVATION
    ensures d.journal.Present?
    ensures var r := d.journal.record;
      && J.FieldsValid(r) && IsSlot(r.active) && IsSlot(r.target) && r.target == Other(r.active)
      && Accepted(r, d.slots) && Confirmed(d, r.active)
      && Bootable(r.active, d.slots.At(r.active)) && Bootable(r.target, d.slots.At(r.target))
      && VersionOf(d.slots.At(r.target)) == r.header.softwareVersion
      && (forall s: slot :: d.metadata.At(s).Present? ==> M.FieldsValid(d.metadata.At(s).record))
  {
    hide Validate, HeaderOf;
    var r := d.journal.record;
    assert Allowed(r, r.active);
  }

  /** The target's metadata while the hand-off is under way. */
  lemma TargetWrite(d: System, e: System, n: M.Metadata, reason: word)
    requires Safe(d) && d.journal.record.state == J.PENDING_ACTIVATION
    requires Wrote(d, e, d.journal.record.target, n) && M.FieldsValid(n)
    requires var r := d.journal.record;
      var m := d.metadata.At(r.target);
      || (InstalledFor(r, m) && n == Pended(r.target, m.record, reason))
      || (!Handed(r, m) && !InstalledFor(r, m)
          && n == MetadataCommitted(r.target, m, InstalledRecord(r.header.softwareVersion, r.transaction, reason)))
    ensures Continues(d, e, true) && e.journal == d.journal && Safe(e)
  {
    hide Safe, Accepted, Bootable, BootOutcome, J.BodyCrc, M.BodyCrc, Reaches, VersionOf;
    SafePending(d);
    var t := d.journal.record.target;
    ContinuesSelf(d);
    if e == WithMetadata(d, t, n) {
      assert MetadataStep(d, e, t, n);
      ReachesStep(d, e);
      assert Toward(d, e, reason);
      InterruptionDoesNotMatter(d, e, reason);
    } else if e != d {
      assert BlankStep(d, e, t);
      ReachesStep(d, e);
      assert Toward(d, e, reason);
      InterruptionDoesNotMatter(d, e, reason);
    }
    ReachableIsSafe(d, e);
  }

  lemma InstallStep(d: System, e: System, reason: word, uneventful: bool, ok: bool)
    requires Safe(d) && d.journal.record.state == J.PENDING_ACTIVATION && reason <= M.RESET_DEBUG
    requires var r := d.journal.record;
      !Handed(r, d.metadata.At(r.target))
      && InstallResult(d, e, r.target, r.header.softwareVersion, r.transaction, reason, uneventful, ok)
    ensures Continues(d, e, true) && e.journal == d.journal && Safe(e)
    ensures uneventful ==> ok
    ensures var r := d.journal.record; ok ==> e == Install(d, r, reason) && InstalledFor(r, e.metadata.At(r.target))
  {
    hide Safe, J.BodyCrc, M.BodyCrc, Continues, Accepted, Bootable, VersionOf;
    SafePending(d);
    ContinuesSelf(d);
    var r := d.journal.record;
    if !InstalledFor(r, d.metadata.At(r.target)) {
      TargetWrite(d, e, MetadataCommitted(r.target, d.metadata.At(r.target),
                                          InstalledRecord(r.header.softwareVersion, r.transaction, reason)), reason);
    }
  }

  lemma PendStep(d: System, e: System, reason: word, uneventful: bool, ok: bool)
    requires Safe(d) && d.journal.record.state == J.PENDING_ACTIVATION && reason <= M.RESET_DEBUG
    requires var r := d.journal.record;
      InstalledFor(r, d.metadata.At(r.target))
      && SetResult(d, e, r.target, M.PENDING, reason, M.RESULT_NONE, uneventful, ok)
    ensures Continues(d, e, true) && e.journal == d.journal && Safe(e)
    ensures uneventful ==> ok
    ensures var r := d.journal.record;
      ok ==> e == WithMetadata(d, r.target, Pended(r.target, d.metadata.At(r.target).record, reason))
  {
    hide Safe, J.BodyCrc, M.BodyCrc, Continues, Accepted, Bootable, VersionOf;
    SafePending(d);
    var r := d.journal.record;
    TargetWrite(d, e, Pended(r.target, d.metadata.At(r.target).record, reason), reason);
  }

  lemma HandStep(d: System, e: System)
    requires Safe(d) && d.journal.record.state == J.PENDING_ACTIVATION
    requires Handed(d.journal.record, d.metadata.At(d.journal.record.target))
    requires e == d || e == WithJournal(d, Advanced(d.journal.record, J.IDLE))
    ensures Continues(d, e, true)
  {
    hide Safe, J.BodyCrc, Accepted, Bootable, VersionOf, Reaches, BootOutcome;
    SafePending(d);
    ContinuesSelf(d);
    if e != d {
      assert JournalStep(d, e);
      ReachesStep(d, e);
      assert Toward(d, e, 0);
      InterruptionDoesNotMatter(d, e, 0);
    }
  }

  /** A transition Save attempted on a durable journal. */
  lemma SavedStates(d: System, e: System, can: bool, next: J.Journal, ok: bool, current: J.Journal, fault: bool)
    requires d.journal.Present? && UpdateManager.SaveResult(d, e, can, d.journal.record, next, ok, current, fault)
    ensures e == d || e == WithJournal(d, Committed(d.journal.record, next))
    ensures ok ==> e == WithJournal(d, Committed(d.journal.record, next))
  {
    hide J.BodyCrc, J.FieldsValid;
  }

  predicate FirstRecord(d: System, e: System, id: slot, record: M.Metadata, uneventful: bool, ok: bool) {
    Stored(d, e, id, record, Initializes(d.metadata.At(id), record), uneventful, ok)
  }

  lemma FirstKeepsJournal(d: System, e: System, id: slot, record: M.Metadata, uneventful: bool, ok: bool)
    requires FirstRecord(d, e, id, record, uneventful, ok)
    ensures e.journal == d.journal && e.metadata.At(Other(id)) == d.metadata.At(Other(id))
  {
    hide MetadataCommitted, Initializes;
  }

  predicate ReadyActive(d: System, active: word) {
    IsSlot(active) && Confirmed(d, active) && Bootable(active, d.slots.At(active))
  }

  /** A device whose journal was just initialised for a slot that holds an image:
    * no metadata yet, and what the slots hold is what they are trusted to hold. */
  predicate FirstStart(d: System) {
    && d.journal.Present? && J.FieldsValid(d.journal.record) && Commissioning(d.journal.record)
    && var active := d.journal.record.active;
       && Bootable(active, d.slots.At(active)) && d.metadata == Pair(Empty, Empty)
       && d.certified == d.slots && d.trialJumps == Pair(0, 0) && d.installs == 0 && d.armed == None
  }

  function FirstStarted(d: System, reason: word): System
    requires d.journal.Present? && IsSlot(d.journal.record.active)
  {
    var active: slot := d.journal.record.active;
    WithMetadata(d, active, MetadataCommitted(active, Empty,
                     ConfirmedRecord(VersionOf(d.slots.At(active)), d.journal.record.transaction, reason)))
  }

  /** The first start of a commissioned device makes it one that can be relied on. */
  lemma FirstStartCommissions(d: System, reason: word)
    requires FirstStart(d) && reason <= M.RESET_DEBUG
    ensures d.journal.Present? && IsSlot(d.journal.record.active)
    ensures var m := FirstStarted(d, reason).metadata.At(d.journal.record.active);
      && m.Present? && m.record.state == M.CONFIRMED && m.record.attempts == m.record.successfulBoots == 0
      && m.record.imageVersion == VersionOf(d.slots.At(d.journal.record.active))
      && m.record.updateCounter == d.journal.record.transaction && m.record.sequence == 1
      && m.record.failedSlot == m.record.rollbackTarget == UNKNOWN && m.record.resetReason == reason
    ensures Commissioned(FirstStarted(d, reason))
    ensures Resolved(FirstStarted(d, reason), reason) == FirstStarted(d, reason)
  {
    hide Bootable, VersionOf, M.BodyCrc;
  }

  /** A device whose first start is still to be made, or was cut short. */
  predicate Starting(d: System) {
    && d.journal.Present? && J.FieldsValid(d.journal.record) && Commissioning(d.journal.record)
    && Bootable(d.journal.record.active, d.slots.At(d.journal.record.active))
    && !d.metadata.At(d.journal.record.active).Present? && !d.metadata.At(Other(d.journal.record.active)).Present?
  }

  /** ... and was cut after the first phrase of its record. */
  predicate Stranded(d: System) {
    Starting(d) && d.metadata.At(d.journal.record.active) == Invalid
  }

  lemma StrandedStays(d: System, e: System, reason: word, uneventful: bool, fault: bool)
    requires Stranded(d) && Restarts(d, e, reason, uneventful, fault)
    ensures e == d && AtRest(d) && IsSlot(d.journal.record.active)
    ensures !d.metadata.a.Present? && !d.metadata.b.Present? && Choice(d) == None
  {
    hide Bootable, VersionOf, M.BodyCrc;
  }

  lemma StartingRecord(d: System)
    requires Starting(d)
    ensures Commissioning(d.journal.record) && IsSlot(d.journal.record.active) && AtRest(d) && NoneExhausted(d)
  {
    hide Bootable;
  }

  /** What an undisturbed start makes of it. */
  function Restarted(d: System, reason: word): System
    requires d.journal.Present? && IsSlot(d.journal.record.active)
  {
    if NeedsRecord(d, d.journal.record.active) then FirstStarted(d, reason) else d
  }

  predicate BothInvalid(d: System) { d.metadata.a.Invalid? && d.metadata.b.Invalid? }

  /** A first start, done or cut. */
  predicate Restarts(d: System, e: System, reason: word, uneventful: bool, fault: bool) {
    && d.journal.Present? && IsSlot(d.journal.record.active)
    && (e == d || e == Restarted(d, reason)
        || (NeedsRecord(d, d.journal.record.active) && BlankStep(d, e, d.journal.record.active)))
    && (uneventful ==> e == Restarted(d, reason) && fault == BothInvalid(d))
  }

  lemma RestartsFirst(d: System, e: System, reason: word, uneventful: bool, ok: bool)
    requires Starting(d) && reason <= M.RESET_DEBUG
    requires CommissionResult(d, e, d.journal.record.active, d.journal.record.transaction, reason, uneventful, ok)
    ensures uneventful ==> ok
    ensures ok ==> e == Restarted(d, reason) && NoneExhausted(e) && BothInvalid(e) == BothInvalid(d)
    ensures e == d || e == Restarted(d, reason)
            || (NeedsRecord(d, d.journal.record.active) && BlankStep(d, e, d.journal.record.active))
  {
    hide Bootable, VersionOf, M.BodyCrc;
  }

  /** BootLifecycle_Init, run from a safe state. */
  ghost predicate Initialised(d: System, e: System, reason: word, can: bool, undisturbed: bool, uneventful: bool,
                              ok: bool, clean: bool) {
    can && Safe(d) ==>
      && Continues(d, e, undisturbed && (AtRest(d) || !NothingAwaits(d)))
      && (uneventful ==> ok && clean && e == Resolved(HandOff(d, reason), reason))
  }

  lemma HandedOffIsSafe(d: System, e: System, reason: word, undisturbed: bool, uneventful: bool, ok: bool,
                        settled: bool)
    requires HandedOff(d, e, reason, undisturbed, uneventful, ok) && Safe(d)
    ensures Safe(e) && Continues(d, e, undisturbed && settled) && (uneventful ==> ok && e == HandOff(d, reason))
  {
    hide Safe, Reaches, SameOutcome, HandOff;
    ReachableIsSafe(d, e);
  }

  lemma SafeHasMetadata(d: System)
    requires d.metadata.a.Invalid? && d.metadata.b.Invalid?
    ensures !Safe(d)
  {
    hide Bootable, Installed;
  }

  /** Reconciliation ends the wait for activation and changes no other state. */
  predicate StateSettled(d: System, e: System) {
    && d.journal.Present? && e.journal.Present?
    && e.journal.record.state == (if d.journal.record.state == J.PENDING_ACTIVATION then J.IDLE
                                  else d.journal.record.state)
  }

  lemma RestsAfter(d: System, e: System)
    requires StateSettled(d, e)
    ensures AtRest(d) || !NothingAwaits(d) ==> AtRest(e)
  {
  }

  lemma RollsBackIsSafe(d: System, e: System, f: System, reason: word, undisturbed: bool, uneventful: bool, ok: bool)
    requires RollsBack(e, f, reason, uneventful, ok) && Safe(e)
    requires Continues(d, e, undisturbed) && (undisturbed ==> AtRest(e))
    ensures Continues(d, f, undisturbed) && (uneventful ==> ok && f == Resolved(e, reason))
  {
    hide Safe, Continues, Resolved, AtRest;
    ContinuesAlso(e, f, AtRest(e), undisturbed);
    ContinuesThen(d, e, f, undisturbed, undisturbed);
  }

  /** An initialisation that ended after reconciliation. */
  lemma InitFails(d: System, e: System, reason: word, can: bool, undisturbed: bool, uneventful: bool, clean: bool)
    requires can ==> HandedOff(d, e, reason, undisturbed, uneventful, false)
    ensures Initialised(d, e, reason, can, undisturbed, uneventful, false, clean)
  {
    hide Safe, Continues, HandOff, Resolved;
    if can && Safe(d) {
      ContinuesAlso(d, e, undisturbed, undisturbed && (AtRest(d) || !NothingAwaits(d)));
    }
  }

  /** ... and one that resolved the trials as well. */
  lemma InitEnds(d: System, e: System, f: System, reason: word, can: bool, reconciled: bool, undisturbed: bool,
                 reconciling: bool, finishing: bool, ok: bool, clean: bool)
    requires can ==> HandedOff(d, e, reason, reconciled, reconciling, true)
    requires RollsBack(e, f, reason, finishing, ok) && (undisturbed ==> reconciled) && (can && ok ==> clean)
    requires can ==> StateSettled(d, e)
    ensures Initialised(d, f, reason, can, undisturbed, reconciling && finishing, ok, clean)
  {
    hide Safe, Continues, HandOff, Resolved, AtRest, RollsBack;
    if can && Safe(d) {
      var settled := AtRest(d) || !NothingAwaits(d);
      HandedOffIsSafe(d, e, reason, reconciled, reconciling, true, true);
      ContinuesAlso(d, e, reconciled, undisturbed && settled);
      RestsAfter(d, e);
      RollsBackIsSafe(d, e, f, reason, undisturbed && settled, finishing, ok);
    }
  }

  /** No activation is still to be handed over. */
  predicate NothingAwaits(d: System) { d.journal.Present? && d.journal.record.state != J.PENDING_ACTIVATION }

  /** BootLifecycle_PrepareBoot: a slot is released for a jump only with its
    * attempt durably counted, or confirmed. */
  ghost predicate Prepares(d: System, e: System, s: word, reason: word, uneventful: bool, ok: bool) {
    && (Safe(d) && NothingAwaits(d) ==> Reaches(d, e))
    && (ok ==> IsSlot(s) && e == Prepared(d, s, reason))
    && (ok && StateOf(e.metadata.At(s)) == M.TRIAL ==> e.armed == Some(s))
    && (uneventful && Safe(d) && IsSlot(s) && Runs(d.metadata.At(s)) && !Exhausted(d.metadata.At(s)) ==> ok)
    && (IsSlot(s) && StateOf(d.metadata.At(s)) == M.CONFIRMED ==> ok)
  }

  lemma TrialStarts(d: System, e: System, s: slot, reason: word, uneventful: bool, ok: bool)
    requires StateOf(d.metadata.At(s)) == M.PENDING && reason <= M.RESET_DEBUG
    requires SetResult(d, e, s, M.TRIAL, reason, M.TRIAL_STARTED, uneventful, ok)
    ensures Prepares(d, e, s, reason, uneventful, ok)
  {
    hide Safe, Reaches, M.BodyCrc;
    ReachesSelf(d);
    if Safe(d) {
      SafeRecord(d, s);
      if NothingAwaits(d) {
        var n := TrialStarted(s, d.metadata.At(s).record, reason);
        assert MetadataStep(d, WithMetadata(d, s, n), s, n);
        ReachesStep(d, WithMetadata(d, s, n));
      }
    }
  }

  lemma TrialRepeats(d: System, e: System, s: slot, reason: word, uneventful: bool, ok: bool)
    requires StateOf(d.metadata.At(s)) == M.TRIAL && reason <= M.RESET_DEBUG
    requires var m := d.metadata.At(s);
      if AttemptsOf(m) < MAX_TRIAL_ATTEMPTS then
        Stored(d, e, s, Retried(m.record, reason), Permitted(m, Retried(m.record, reason), Status.VALID, false),
               uneventful, ok)
      else !ok && e == d
    ensures Prepares(d, e, s, reason, uneventful, ok) && e.journal == d.journal
  {
    hide Safe, Reaches, M.BodyCrc;
    ReachesSelf(d);
    if Safe(d) && AttemptsOf(d.metadata.At(s)) < MAX_TRIAL_ATTEMPTS {
      SafeRecord(d, s);
      if NothingAwaits(d) {
        var n := TrialRetried(s, d.metadata.At(s).record, reason);
        assert MetadataStep(d, WithMetadata(d, s, n), s, n);
        ReachesStep(d, WithMetadata(d, s, n));
      }
    }
  }

  lemma NothingToPrepare(d: System, s: slot, reason: word)
    requires StateOf(d.metadata.At(s)) == M.CONFIRMED
    ensures Prepared(d, s, reason) == d
  {
  }

  lemma SafeRecord(d: System, s: slot)
    requires Safe(d) && d.metadata.At(s).Present?
    ensures M.FieldsValid(d.metadata.At(s).record) && d.journal.Present?
  {
    hide Bootable, Installed;
  }

  /** BootLifecycle_Confirm. */
  ghost predicate Confirms(d: System, e: System, s: word, reason: word, fault: bool, uneventful: bool, ok: bool) {
    && (Safe(d) ==> Reaches(d, e)) && e.journal == d.journal
    && (!IsSlot(s) || fault || StateOf(d.metadata.At(s)) != M.TRIAL ==> e == d)
    && (ok && IsSlot(s) ==> Confirmed(e, s))
    && (Safe(d) && IsSlot(s) && !fault && uneventful ==> e == ConfirmRequested(d, s, reason))
  }

  predicate NoTrialIn(d: System, s: word) { IsSlot(s) && StateOf(d.metadata.At(s)) != M.TRIAL }

  lemma NotOnTrial(d: System, s: slot, reason: word)
    ensures StateOf(d.metadata.At(s)) != M.TRIAL || UngatedChoice(d) != Some(s) ==> ConfirmRequested(d, s, reason) == d
  {
    hide Bootable;
  }

  lemma SelectedIsUngated(d: System, foundA: Verdict, a: Header, foundB: Verdict, b: Header)
    requires foundA == ImageFormat.LoadInfo(SLOT_A, d.slots.a) && a == HeaderOf(d.slots.a)
    requires foundB == ImageFormat.LoadInfo(SLOT_B, d.slots.b) && b == HeaderOf(d.slots.b)
    ensures UngatedChoice(d) == SelectLifecycle(foundA == Verdict.VALID, StateOf(d.metadata.a), a.softwareVersion,
                                                foundB == Verdict.VALID, StateOf(d.metadata.b), b.softwareVersion)
  {
    hide ImageFormat.LoadInfo, HeaderOf;
  }

  lemma TrialConfirms(d: System, e: System, s: slot, reason: word, uneventful: bool, ok: bool)
    requires StateOf(d.metadata.At(s)) == M.TRIAL && UngatedChoice(d) == Some(s) && reason <= M.RESET_DEBUG
    requires SetResult(d, e, s, M.CONFIRMED, reason, M.RESULT_CONFIRMED, uneventful, ok)
    ensures Safe(d) ==> Reaches(d, e)
    ensures ok ==> e == ConfirmRequested(d, s, reason) && Confirmed(e, s)
    ensures Safe(d) && uneventful ==> ok
    ensures e.journal == d.journal
  {
    hide Safe, Reaches, M.BodyCrc, UngatedChoice;
    ReachesSelf(d);
    if Safe(d) {
      SafeRecord(d, s);
      var n := TrialConfirmed(s, d.metadata.At(s).record, reason);
      assert MetadataStep(d, WithMetadata(d, s, n), s, n);
      ReachesStep(d, WithMetadata(d, s, n));
    }
  }

  /** reconcile_journal acts on commissioning, not only on activation. */
  predicate Commissioning(r: J.Journal) {
    r.state == J.ABORTED && r.lastResult == J.COMMISSIONED && IsSlot(r.active)
  }

  /** Neither an update awaits activation nor was the journal just commissioned
    * (state 9 with result 11) for a slot. */
  predicate NothingToReconcile(r: J.Journal) {
    r.state != 8 && !(r.state == 9 && r.lastResult == 11 && r.active <= 1)
  }

  predicate NeedsRecord(d: System, active: slot) {
    d.metadata.At(active).Empty? && Bootable(active, d.slots.At(active))
  }

  predicate CommissionResult(d: System, e: System, active: word, counter: word, reason: word, uneventful: bool,
                             ok: bool) {
    if IsSlot(active) && NeedsRecord(d, active) then
      FirstRecord(d, e, active, ConfirmedRecord(VersionOf(d.slots.At(active)), counter, reason), uneventful, ok)
    else ok && e == d
  }

  lemma SettledHandOff(d: System, reason: word)
    requires Safe(d) && d.journal.record.state != J.PENDING_ACTIVATION
    ensures d.journal.Present? && IsSlot(d.journal.record.target)
    ensures HandOff(d, reason) == d && Continues(d, d, true)
  {
    hide Installed, Bootable, Continues;
    ContinuesSelf(d);
  }

  /** On a safe device the slot in use always has its record. */
  lemma NothingToConfirm(d: System, e: System, active: slot, counter: word, reason: word, uneventful: bool, ok: bool)
    requires Safe(d) && Commissioning(d.journal.record) && active == d.journal.record.active
    requires CommissionResult(d, e, active, counter, reason, uneventful, ok)
    ensures ok && e == d && !NeedsRecord(d, active)
  {
    hide Installed, Bootable;
  }

  /** The record with which one exhausted trial ends. */
  predicate ResolveResult(d: System, e: System, id: slot, reason: word, uneventful: bool, ok: bool) {
    if Exhausted(d.metadata.At(id)) then
      var record := FailedRecord(d, id, reason);
      Stored(d, e, id, record, Permitted(d.metadata.At(id), record, Status.VALID, false), uneventful, ok)
    else ok && e == d
  }

  lemma StoredKeepsRest(d: System, e: System, id: slot, record: M.Metadata, permitted: bool, uneventful: bool, ok: bool)
    requires Stored(d, e, id, record, permitted, uneventful, ok)
    ensures e.journal == d.journal && e.slots == d.slots && e.metadata.At(Other(id)) == d.metadata.At(Other(id))
    ensures ok ==> e == WithMetadata(d, id, MetadataCommitted(id, d.metadata.At(id), record))
  {
    hide MetadataCommitted;
  }

  lemma ResolveStep(d: System, e: System, id: slot, reason: word, uneventful: bool, ok: bool)
    requires Safe(d) && reason <= M.RESET_DEBUG && ResolveResult(d, e, id, reason, uneventful, ok)
    ensures Continues(d, e, AtRest(d) && (id == SLOT_A || !Exhausted(d.metadata.a))) && Safe(e)
    ensures AtRest(e) == AtRest(d)
    ensures (uneventful ==> ok) && (ok ==> e == ResolveOne(d, id, reason) && !Exhausted(e.metadata.At(id)))
  {
    hide Bootable, Installed, M.BodyCrc, Reaches, BootOutcome, AllowedSlotsIntact, Fallback;
    SafeIsPresent(d);
    ContinuesSelf(d);
    if Exhausted(d.metadata.At(id)) {
      assert M.FieldsValid(d.metadata.At(id).record);
      var n := MetadataCommitted(id, d.metadata.At(id), FailedRecord(d, id, reason));
      assert n == Failed(d, id, reason);
      var f := WithMetadata(d, id, n);
      assert MetadataStep(d, f, id, n);
      ReachesStep(d, f);
      if AtRest(d) && (id == SLOT_A || !Exhausted(d.metadata.a)) {
        assert Toward(d, f, reason);
        InterruptionDoesNotMatter(d, f, reason);
      }
      ReachableIsSafe(d, e);
    }
  }

  predicate NoneExhausted(d: System) { !Exhausted(d.metadata.a) && !Exhausted(d.metadata.b) }

  lemma ResolveNothing(d: System, e: System, id: slot, reason: word, uneventful: bool, ok: bool)
    requires ResolveResult(d, e, id, reason, uneventful, ok)
    ensures !Exhausted(d.metadata.At(id)) ==> ok && e == d
  {
    hide Stored;
  }

  ghost predicate RollsBack(d: System, e: System, reason: word, uneventful: bool, ok: bool) {
    Safe(d) ==> Continues(d, e, AtRest(d)) && (uneventful ==> ok && e == Resolved(d, reason))
  }

  lemma PendingContinues(d: System, e: System, target: slot, version: word, counter: word, reason: word,
                         uneventful: bool, ok: bool)
    requires Pending(d, e, target, version, counter, reason, uneventful, ok) && Awaited(d, target, version, counter)
    ensures e.journal == d.journal && Continues(d, e, true) && (uneventful ==> ok)
    ensures ok ==> Pending(d, e, target, version, counter, reason, true, true)
  {
    hide Safe, Continues, Install, Pended;
  }

  lemma HandOffCompletes(d: System, e: System, f: System, reason: word, ok: bool, current: J.Journal, fault: bool)
    requires Safe(d) && d.journal.record.state == J.PENDING_ACTIVATION
    requires var r := d.journal.record;
      if Handed(r, d.metadata.At(r.target)) then e == d
      else Pending(d, e, r.target, r.header.softwareVersion, r.transaction, reason, true, true)
    requires UpdateManager.SaveResult(e, f, true, d.journal.record, d.journal.record.(state := J.IDLE), ok, current,
                                      fault)
    ensures Continues(d, f, true)
    ensures ok ==> f == HandOff(d, reason)
  {
    hide Safe, Continues, Install, Pended, HandOff, J.BodyCrc, J.FieldsValid, WithMetadata;
    SafePending(d);
    ContinuesSelf(d);
    HandOffSteps(d, reason);
    SavedStates(e, f, true, d.journal.record.(state := J.IDLE), ok, current, fault);
    HandStep(e, f);
    ContinuesCompose(d, e, f, true);
  }

  /** HandOff in the order of the code. */
  lemma HandOffSteps(d: System, reason: word)
    requires Safe(d) && d.journal.record.state == J.PENDING_ACTIVATION
    ensures var r := d.journal.record;
      Handed(r, d.metadata.At(r.target)) ==> HandOff(d, reason) == WithJournal(d, Advanced(r, J.IDLE))
    ensures var r := d.journal.record;
      var i := Install(d, r, reason);
      && i.metadata.At(r.target).Present?
      && var e := WithMetadata(i, r.target, Pended(r.target, i.metadata.At(r.target).record, reason));
         && (!Handed(r, d.metadata.At(r.target)) ==> HandOff(d, reason) == WithJournal(e, Advanced(r, J.IDLE)))
         && (!Handed(r, d.metadata.At(r.target)) ==> Handed(r, e.metadata.At(r.target)))
  {
    hide Bootable, J.BodyCrc, M.BodyCrc, Installed;
  }

  /** A safe state whose journal awaits exactly this hand-off. */
  predicate Awaited(d: System, target: slot, version: word, counter: word) {
    && Safe(d) && d.journal.record.state == J.PENDING_ACTIVATION && d.journal.record.target == target
    && d.journal.record.header.softwareVersion == version && d.journal.record.transaction == counter
    && !Handed(d.journal.record, d.metadata.At(target))
  }

  ghost predicate Pending(d: System, e: System, target: slot, version: word, counter: word, reason: word,
                          uneventful: bool, ok: bool) {
    && e.journal == d.journal
    && (Awaited(d, target, version, counter) ==>
         && Continues(d, e, true) && Safe(e) && (uneventful ==> ok)
         && (ok ==>
               var i := Install(d, d.journal.record, reason);
               && i.metadata.At(target).Present?
               && e == WithMetadata(i, target, Pended(target, i.metadata.At(target).record, reason))))
  }

  lemma ResultKeepsJournal(d: System, e: System, id: slot, version: word, counter: word, reason: word, uneventful: bool,
                           ok: bool)
    requires InstallResult(d, e, id, version, counter, reason, uneventful, ok)
    ensures e.journal == d.journal
  {
    hide MetadataCommitted, M.FieldsValid, InstalledRecord;
  }

  lemma SetKeepsJournal(d: System, e: System, id: slot, state: word, reason: word, result: word, uneventful: bool,
                        ok: bool)
    requires SetResult(d, e, id, state, reason, result, uneventful, ok)
    ensures e.journal == d.journal
  {
    hide MetadataCommitted, M.FieldsValid, Moved;
  }

  /** A safe state whose journal awaits activation is ready for it. */
  lemma PendingIsReady(d: System)
    requires Safe(d) && d.journal.record.state == J.PENDING_ACTIVATION
    ensures d.journal.Present?
    ensures var r := d.journal.record;
      && IsSlot(r.target) && ReadyActive(d, r.active)
      && ImageFormat.LoadInfo(r.target, d.slots.At(r.target)) == Verdict.VALID
      && HeaderOf(d.slots.At(r.target)).softwareVersion == r.header.softwareVersion
  {
    hide Safe, Accepted, HeaderOf, ImageFormat.LoadInfo;
    SafePending(d);
  }

  class Lifecycle {
    const flash: Flash
    const update: UpdateManager.Update
    const store: MetadataStore
    /** Static metadata[] and metadata_status[]. */
    var metadata: Pair<Loaded<M.Metadata>>
    var storageFault: bool
    var resetReason: word

    constructor (flash: Flash, update: UpdateManager.Update, store: MetadataStore)
      ensures this.flash == flash && this.update == update && this.store == store && resetReason <= M.RESET_DEBUG
    {
      this.flash, this.update, this.store := flash, update, store;
      metadata, storageFault, resetReason := Pair(Empty, Empty), false, 0;
    }

    ghost predicate Valid()
      reads this, update, store, flash, flash.mem
    {
      && flash.mem.Length == FLASH_SIZE && update.flash == flash && store.flash == flash && update.Valid()
         && resetReason <= M.RESET_DEBUG
    }

    /** reload. */
    method Reload()
      requires Valid()
      modifies this`metadata, store
      ensures Valid() && metadata == flash.State().metadata
    {
      hide SystemOf, MetadataOf, Unambiguous, Latest, MetadataCopy;
      var a := store.Load(SLOT_A);
      var b := store.Load(SLOT_B);
      SystemMetadata(flash.mem[..], flash.history, SLOT_A);
      SystemMetadata(flash.mem[..], flash.history, SLOT_B);
      metadata := Pair(a, b);
    }

    /** initialize_confirmed. */
    method InitializeConfirmed(id: slot, version: word, counter: word) returns (ok: bool)
      requires Valid()
      modifies this`storageFault, store, flash`powered, flash`failures, flash`misuse, flash`touched, flash`windowStart,
               flash`windowEnd, flash`history, flash.mem
      ensures Valid() && flash.Onward() && update.CanContinue() == old(update.CanContinue())
      ensures FirstRecord(old(flash.State()), flash.State(), id, ConfirmedRecord(version, counter, resetReason),
                          flash.Uneventful(), ok)
      ensures storageFault == (old(storageFault) || !ok)
    {
      hide SystemOf, Unambiguous, Outside, Stored, Initializes, ConfirmedRecord;
      ghost var d := flash.State();
      ok := store.Initialize(id, ConfirmedRecord(version, counter, resetReason));
      FirstKeepsJournal(d, flash.State(), id, ConfirmedRecord(version, counter, resetReason), flash.Uneventful(), ok);
      if !ok {
        storageFault := true;
      }
    }

    /** The metadata part of the hand-off: VERIFIED, then PENDING, unless the
      * target is PENDING for this transaction already. */
    method PendTarget(target: slot, version: word, counter: word) returns (ok: bool)
      requires Valid()
      modifies store, flash`powered, flash`failures, flash`misuse, flash`touched, flash`windowStart, flash`windowEnd,
               flash`history, flash.mem
      ensures Valid() && flash.Onward() && update.CanContinue() == old(update.CanContinue())
      ensures Pending(old(flash.State()), flash.State(), target, version, counter, resetReason, flash.Uneventful(), ok)
    {
      hide SystemOf, Unambiguous, Outside, InstallResult, SetResult, Continues, Safe, Install, Pended, WithMetadata,
           Handed;
      ghost var d := flash.State();
      ok := store.InstallVerified(target, version, counter, resetReason);
      ghost var e := flash.State();
      if Awaited(d, target, version, counter) {
        InstallStep(d, e, resetReason, flash.Uneventful(), ok);
      }
      ResultKeepsJournal(d, e, target, version, counter, resetReason, flash.Uneventful(), ok);
      if ok {
        label installed:
        ok := store.SetState(target, M.PENDING, resetReason, M.RESULT_NONE);
        SetKeepsJournal(e, flash.State(), target, M.PENDING, resetReason, M.RESULT_NONE, flash.Uneventful@installed(),
                        ok);
        if Awaited(d, target, version, counter) {
          PendStep(e, flash.State(), resetReason, flash.Uneventful@installed(), ok);
          ContinuesCompose(d, e, flash.State(), true);
        }
      }
    }

    /** The active slot of a hand-off must hold a confirmed image; one without
      * any metadata yet is confirmed here. */
    method ConfirmActive(active: word, counter: word) returns (ok: bool)
      requires Valid() && metadata == flash.State().metadata
      modifies this`storageFault, store, flash`powered, flash`failures, flash`misuse, flash`touched, flash`windowStart,
               flash`windowEnd, flash`history, flash.mem
      ensures Valid() && flash.Onward() && update.CanContinue() == old(update.CanContinue())
      ensures ok ==> storageFault == old(storageFault)
      ensures flash.State().journal == old(flash.State()).journal
      ensures forall s: slot :: s != active ==> flash.State().metadata.At(s) == old(flash.State()).metadata.At(s)
      ensures ReadyActive(old(flash.State()), active) ==>
        (ok && flash.State() == old(flash.State()) && storageFault == old(storageFault) && flash.Idle())
    {
      hide SystemOf, Unambiguous, Outside, ImageFormat.LoadInfo, FirstRecord, ConfirmedRecord, HeaderOf;
      ghost var d := flash.State();
      if !IsSlot(active) {
        return true;
      }
      var running, g := BootImage.LoadInfo(flash, active);
      if running != Verdict.VALID {
        return false;
      }
      if metadata.At(active).Empty? {
        ok := InitializeConfirmed(active, g.softwareVersion, counter);
        FirstKeepsJournal(d, flash.State(), active, ConfirmedRecord(g.softwareVersion, counter, resetReason),
                          flash.Uneventful(), ok);
        return;
      }
      if !metadata.At(active).Present? || metadata.At(active).record.state != M.CONFIRMED {
        storageFault := true;
        return false;
      }
      return true;
    }

    /** The commits of the hand-off: the target's metadata, then the journal. */
    method CommitHandOff(target: slot, version: word) returns (ok: bool)
      requires Valid() && update.CanContinue() && update.current.state == J.PENDING_ACTIVATION
      requires metadata.At(target) == flash.State().metadata.At(target) && target == update.current.target
      modifies this`storageFault, store, update`current, update`storageFault, update.journal, flash`powered,
               flash`failures, flash`misuse, flash`touched, flash`windowStart, flash`windowEnd, flash`history, flash.mem
      ensures Valid() && flash.Onward()
      ensures version == old(update.current).header.softwareVersion ==>
        HandedOff(old(flash.State()), flash.State(), resetReason, flash.failures == old(flash.failures),
                  flash.Uneventful(), ok)
      ensures ok ==> update.CanContinue() && storageFault == old(storageFault)
      ensures update.current == old(update.current) || update.current.state == J.IDLE
      ensures ok ==> update.current.state == J.IDLE
      ensures !ok ==> storageFault
    {
      hide SystemOf, Unambiguous, Outside, Continues, Safe, Install, Pended, WithMetadata, Pending, J.BodyCrc,
           J.FieldsValid;
      ghost var d := flash.State();
      ghost var awaited := Safe(d) && version == update.current.header.softwareVersion;
      if !HandedAs(metadata.At(target), version, update.current.transaction) {
        ok := PendTarget(target, version, update.current.transaction);
        if awaited {
          PendingContinues(d, flash.State(), target, version, update.current.transaction, resetReason,
                           flash.Uneventful(), ok);
          ContinuesWeaken(d, flash.State(), flash.failures == old(flash.failures));
        }
        if !ok {
          storageFault := true;
          return;
        }
      }
      ghost var e := flash.State();
      ok := update.CompleteActivationHandoff();
      if !ok {
        storageFault := true;
      }
      if awaited {
        SafePending(d);
        HandOffCompletes(d, e, flash.State(), resetReason, ok, update.current, update.storageFault);
        ContinuesWeaken(d, flash.State(), flash.failures == old(flash.failures));
      }
    }

    /** reconcile_journal on a journal that awaits activation. */
    method HandOffPending() returns (ok: bool)
      requires Valid() && update.CanContinue() && update.current.state == J.PENDING_ACTIVATION
      modifies this`storageFault, this`metadata, store, update`current, update`storageFault, update.journal,
               flash`powered, flash`failures, flash`misuse, flash`touched, flash`windowStart, flash`windowEnd,
               flash`history, flash.mem
      ensures Valid() && flash.Onward()
      ensures HandedOff(old(flash.State()), flash.State(), resetReason, flash.failures == old(flash.failures),
                        flash.Uneventful(), ok)
      ensures update.current == old(update.current) || update.current.state == J.IDLE
      ensures ok ==> update.current.state == J.IDLE
      ensures old(Safe(flash.State())) && !ok ==> storageFault
      ensures storageFault || update.CanContinue()
      ensures ok ==> update.CanContinue() && storageFault == old(storageFault)
    {
      hide SystemOf, Unambiguous, Outside, Continues, Safe, HandOff, ImageFormat.LoadInfo, J.BodyCrc, J.FieldsValid,
           HeaderOf, ReadyActive, Committed;
      ghost var d := flash.State();
      if Safe(d) {
        PendingIsReady(d);
      }
      var active, target := update.current.active, update.current.target;
      if !IsSlot(target) {
        return false;
      }
      var found, h := BootImage.LoadInfo(flash, target);
      if found != Verdict.VALID {
        return false;
      }
      UpdateManager.JournalIsValid(flash.mem[..], flash.history);
      UpdateManager.RecordSlots(update.current);
      Reload();
      ok := ConfirmActive(active, update.current.transaction);
      if ok {
        ok := CommitHandOff(target, h.softwareVersion);
      }
    }

    /** reconcile_journal on a journal fresh from commissioning: its active slot
      * is confirmed, once, if it has no metadata at all. */
    method ConfirmCommissioned(active: slot) returns (ok: bool)
      requires Valid()
      modifies this`storageFault, this`metadata, store, flash`powered, flash`failures, flash`misuse, flash`touched,
               flash`windowStart, flash`windowEnd, flash`history, flash.mem
      ensures Valid() && flash.Onward() && update.CanContinue() == old(update.CanContinue())
      ensures CommissionResult(old(flash.State()), flash.State(), active, update.current.transaction, resetReason,
                               flash.Uneventful(), ok)
      ensures storageFault == (old(storageFault) || !ok)
      ensures !NeedsRecord(old(flash.State()), active) ==> flash.Idle()
    {
      hide SystemOf, Unambiguous, Outside, ImageFormat.LoadInfo, FirstRecord, ConfirmedRecord, HeaderOf;
      ghost var d := flash.State();
      Reload();
      if metadata.At(active).Empty? {
        var found, h := BootImage.LoadInfo(flash, active);
        if found == Verdict.VALID {
          ok := InitializeConfirmed(active, h.softwareVersion, update.current.transaction);
          FirstKeepsJournal(d, flash.State(), active,
                            ConfirmedRecord(h.softwareVersion, update.current.transaction, resetReason),
                            flash.Uneventful(), ok);
          return;
        }
      }
      return true;
    }

    /** reconcile_journal. */
    method ReconcileJournal() returns (ok: bool)
      requires Valid()
      modifies this`storageFault, this`metadata, store, update`current, update`storageFault, update.journal,
               flash`powered, flash`failures, flash`misuse, flash`touched, flash`windowStart, flash`windowEnd,
               flash`history, flash.mem
      ensures Valid() && flash.Onward()
      ensures !old(update.CanContinue()) ==> !ok && storageFault && flash.State() == old(flash.State()) && flash.Idle()
      ensures old(update.CanContinue()) ==>
        HandedOff(old(flash.State()), flash.State(), resetReason, flash.failures == old(flash.failures),
                  flash.Uneventful(), ok)
      ensures old(update.CanContinue()) && Commissioning(old(update.current)) ==>
        CommissionResult(old(flash.State()), flash.State(), old(update.current).active, old(update.current).transaction,
                         resetReason, flash.Uneventful(), ok) && (ok || storageFault)
      ensures ok ==> update.current.state == (if old(update.current).state == J.PENDING_ACTIVATION then J.IDLE
                                              else old(update.current).state)
      ensures update.current == old(update.current) || update.current.state == J.IDLE
      ensures update.CanContinue() ==> old(update.CanContinue())
      ensures old(update.CanContinue() && NothingToReconcile(update.current)) ==>
        ok && flash.State() == old(flash.State()) && flash.Idle() && storageFault == old(storageFault)
      ensures old(Safe(flash.State())) && !ok ==> storageFault
      ensures storageFault || update.CanContinue()
      ensures ok ==> update.CanContinue() && storageFault == old(storageFault)
    {
      hide SystemOf, Unambiguous, Outside, Continues, Safe, HandOff, J.BodyCrc, J.FieldsValid, CommissionResult,
           NeedsRecord, Bootable;
      if !update.CanContinue() {
        storageFault := true;
        return false;
      }
      ghost var d := flash.State();
      if update.current.state == J.PENDING_ACTIVATION {
        ok := HandOffPending();
        return;
      }
      if Safe(d) {
        SettledHandOff(d, resetReason);
        ContinuesWeaken(d, d, flash.failures == old(flash.failures));
      }
      if Commissioning(update.current) {
        ok := ConfirmCommissioned(update.current.active);
        if Safe(d) {
          NothingToConfirm(d, flash.State(), update.current.active, update.current.transaction, resetReason,
                           flash.Uneventful(), ok);
        }
        return;
      }
      return true;
    }

    /** One iteration of resolve_exhausted_trials. */
    method ResolveSlot(id: slot) returns (ok: bool)
      requires Valid() && metadata == flash.State().metadata
      modifies this`storageFault, this`metadata, store, flash`powered, flash`failures, flash`misuse, flash`touched,
               flash`windowStart, flash`windowEnd, flash`history, flash.mem
      ensures Valid() && flash.Onward() && update.CanContinue() == old(update.CanContinue())
      ensures ResolveResult(old(flash.State()), flash.State(), id, resetReason, flash.Uneventful(), ok)
      ensures ok ==> metadata == flash.State().metadata
      ensures flash.State().journal == old(flash.State()).journal
      ensures storageFault == (old(storageFault) || !ok)
    {
      hide SystemOf, Unambiguous, Outside, Stored, ImageFormat.LoadInfo, Permitted, HeaderOf, MetadataCommitted,
           J.FieldsValid, M.FieldsValid;
      ghost var d := flash.State();
      if !metadata.At(id).Present? || metadata.At(id).record.state != M.TRIAL
         || metadata.At(id).record.attempts < MAX_TRIAL_ATTEMPTS {
        return true;
      }
      var fallback: word := 1 - id;
      var found, h := BootImage.LoadInfo(flash, fallback);
      if !metadata.At(fallback).Present? || metadata.At(fallback).record.state != M.CONFIRMED
         || found != Verdict.VALID {
        fallback := UNKNOWN;
      }
      var m := metadata.At(id).record;
      var record := m.(state := M.INVALID, resetReason := resetReason,
                       lastResult := if fallback == UNKNOWN then M.TRIAL_FAILED else M.ROLLBACK_OCCURRED,
                       failedSlot := id, failedVersion := m.imageVersion, lastAttempts := m.attempts,
                       rollbackTarget := fallback);
      var stored;
      ok, stored := store.Commit(id, record);
      StoredKeepsRest(d, flash.State(), id, record, Permitted(d.metadata.At(id), record, Status.VALID, false),
                      flash.Uneventful(), ok);
      if !ok {
        storageFault := true;
        return;
      }
      metadata := metadata.Put(id, Present(stored));
    }

    /** resolve_exhausted_trials. */
    method ResolveExhaustedTrials() returns (ok: bool)
      requires Valid() && metadata == flash.State().metadata
      modifies this`storageFault, this`metadata, store, flash`powered, flash`failures, flash`misuse, flash`touched,
               flash`windowStart, flash`windowEnd, flash`history, flash.mem
      ensures Valid() && flash.Onward() && update.CanContinue() == old(update.CanContinue())
      ensures RollsBack(old(flash.State()), flash.State(), resetReason, flash.Uneventful(), ok)
      ensures NoneExhausted(old(flash.State())) ==> ok && flash.State() == old(flash.State())
      ensures flash.State().journal == old(flash.State()).journal
      ensures storageFault == (old(storageFault) || !ok)
    {
      hide SystemOf, Unambiguous, Outside, Safe, Continues, ResolveResult, ResolveOne, AtRest, Exhausted;
      ghost var d := flash.State();
      ok := ResolveSlot(SLOT_A);
      ghost var e := flash.State();
      ResolveNothing(d, e, SLOT_A, resetReason, flash.Uneventful(), ok);
      if Safe(d) {
        ResolveStep(d, e, SLOT_A, resetReason, flash.Uneventful(), ok);
      }
      if !ok {
        return;
      }
      label first:
      ok := ResolveSlot(SLOT_B);
      ResolveNothing(e, flash.State(), SLOT_B, resetReason, flash.Uneventful@first(), ok);
      if Safe(d) {
        ResolveStep(e, flash.State(), SLOT_B, resetReason, flash.Uneventful@first(), ok);
        ContinuesThen(d, e, flash.State(), AtRest(d), AtRest(d));
      }
    }

    /** BootLifecycle_Init after reconciliation. */
    method FinishInit() returns (ok: bool)
      requires Valid() && metadata == flash.State().metadata
      modifies this`storageFault, this`metadata, store, flash`powered, flash`failures, flash`misuse, flash`touched,
               flash`windowStart, flash`windowEnd, flash`history, flash.mem
      ensures Valid() && flash.Onward() && update.CanContinue() == old(update.CanContinue())
      ensures metadata == flash.State().metadata && flash.State().journal == old(flash.State()).journal
      ensures RollsBack(old(flash.State()), flash.State(), resetReason, flash.Uneventful(), ok)
      ensures NoneExhausted(old(flash.State())) ==>
        flash.State() == old(flash.State()) && ok == !BothInvalid(old(flash.State()))
      ensures storageFault == (old(storageFault) || !ok)
    {
      hide SystemOf, Unambiguous, Outside, Continues, Safe, Resolved, AtRest, NoneExhausted;
      ghost var d := flash.State();
      if metadata.a.Invalid? && metadata.b.Invalid? {
        storageFault := true;
        SafeHasMetadata(d);
        return false;
      }
      ok := ResolveExhaustedTrials();
      Reload();
    }

    /** BootLifecycle_Init. */
    method Init(reason: word) returns (ok: bool)
      requires Valid() && reason <= M.RESET_DEBUG
      modifies this, store, update`current, update`storageFault, update.journal, flash`powered, flash`failures,
               flash`misuse, flash`touched, flash`windowStart, flash`windowEnd, flash`history, flash.mem
      ensures Valid() && flash.Onward() && resetReason == reason
      ensures old(Safe(flash.State())) ==> storageFault || update.current.state != J.PENDING_ACTIVATION
      ensures update.current == old(update.current) || update.current.state == J.IDLE
      ensures update.CanContinue() ==> old(update.CanContinue())
      ensures storageFault || update.CanContinue()
      ensures metadata == flash.State().metadata
      ensures Initialised(old(flash.State()), flash.State(), reason, old(update.CanContinue()),
                          flash.failures == old(flash.failures),
                          flash.Uneventful(), ok, update.CanContinue() && !storageFault)
      ensures !old(update.CanContinue()) ==> !ok && storageFault && flash.State() == old(flash.State())
      ensures old(Starting(flash.State()) && update.CanContinue()) ==>
        Restarts(old(flash.State()), flash.State(), reason, flash.Uneventful(), storageFault) && ok == !storageFault
    {
      hide SystemOf, Unambiguous, Outside, Continues, Safe, HandOff, CommissionResult, Resolved, Starting,
           Commissioning, AtRest, Restarted, BlankStep, NoneExhausted, Initialised, HandedOff, RollsBack;
      ghost var d := flash.State();
      resetReason, storageFault := reason, false;
      ok := ReconcileJournal();
      ghost var e := flash.State();
      ghost var reconciling := flash.Uneventful();
      ghost var reconciled := flash.failures == old(flash.failures);
      ghost var starting := Starting(d) && old(update.CanContinue());
      if starting {
        StartingRecord(d);
        RestartsFirst(d, e, reason, reconciling, ok);
      }
      Reload();
      if !ok {
        InitFails(d, e, reason, old(update.CanContinue()), reconciled, reconciling,
                  update.CanContinue() && !storageFault);
        return false;
      }
      label finish:
      ok := FinishInit();
      InitEnds(d, e, flash.State(), reason, old(update.CanContinue()), reconciled,
               flash.failures == old(flash.failures), reconciling, flash.Uneventful@finish(), ok,
               update.CanContinue() && !storageFault);
    }

    /** BootLifecycle_Select over what was found in the slots. */
    function Select(validA: bool, versionA: word, validB: bool, versionB: word): Option<slot>
      reads this
    {
      if storageFault then None
      else SelectLifecycle(validA, StateOf(metadata.a), versionA, validB, StateOf(metadata.b), versionB)
    }

    /** BootLifecycle_IsSlotBootable. */
    predicate IsSlotBootable(s: word)
      reads this
    {
      IsSlot(s) && !storageFault && metadata.At(s).Present? && Priority(metadata.At(s).record.state) != 0
    }

    /** BootLifecycle_CanStartUpdate. */
    predicate CanStartUpdate(active: word, target: word)
      reads this
    {
      && IsSlot(target) && target != active && !storageFault
      && if active == UNKNOWN then !metadata.a.Present? && !metadata.b.Present?
         else IsSlot(active) && metadata.At(active).Present? && metadata.At(active).record.state == M.CONFIRMED
    }

    /** BootLifecycle_PrepareBoot: a trial start is counted durably first. */
    method PrepareBoot(s: word) returns (ok: bool)
      requires Valid()
      modifies this`storageFault, this`metadata, store, flash`powered, flash`failures, flash`misuse, flash`touched,
               flash`windowStart, flash`windowEnd, flash`history, flash.mem
      ensures Valid() && flash.Onward() && update.CanContinue() == old(update.CanContinue())
      ensures ok ==> metadata == flash.State().metadata && storageFault == old(storageFault)
      ensures resetReason == old(resetReason)
      ensures Prepares(old(flash.State()), flash.State(), s, resetReason, flash.Uneventful(), ok)
    {
      hide SystemOf, Unambiguous, Outside, Safe, Reaches, SetResult, Stored, Prepared, Permitted;
      ghost var d := flash.State();
      ReachesSelf(d);
      if !IsSlot(s) {
        return false;
      }
      Reload();
      if !metadata.At(s).Present? {
        return false;
      }
      if metadata.At(s).record.state == M.PENDING {
        ok := store.SetState(s, M.TRIAL, resetReason, M.TRIAL_STARTED);
        SetKeepsJournal(d, flash.State(), s, M.TRIAL, resetReason, M.TRIAL_STARTED, flash.Uneventful(), ok);
        TrialStarts(d, flash.State(), s, resetReason, flash.Uneventful(), ok);
        if !ok {
          storageFault := true;
          return;
        }
      } else if metadata.At(s).record.state == M.TRIAL {
        ok := store.IncrementAttempt(s, resetReason);
        TrialRepeats(d, flash.State(), s, resetReason, flash.Uneventful(), ok);
        if !ok {
          storageFault := true;
          return;
        }
      } else if metadata.At(s).record.state != M.CONFIRMED {
        return false;
      } else {
        NothingToPrepare(d, s, resetReason);
      }
      Reload();
      return true;
    }

    /** BootLifecycle_Confirm. */
    method Confirm(s: word) returns (ok: bool)
      requires Valid()
      modifies this`storageFault, this`metadata, store, flash`powered, flash`failures, flash`misuse, flash`touched,
               flash`windowStart, flash`windowEnd, flash`history, flash.mem
      ensures Valid() && flash.Onward() && update.CanContinue() == old(update.CanContinue())
      ensures metadata == flash.State().metadata || storageFault || !IsSlot(s)
      ensures NoTrialIn(old(flash.State()), s) ==> storageFault == old(storageFault) && flash.Idle()
      ensures old(storageFault) ==> storageFault
      ensures old(Safe(flash.State())) && flash.Uneventful() ==> storageFault == old(storageFault)
      ensures Confirms(old(flash.State()), flash.State(), s, resetReason, old(storageFault), flash.Uneventful(), ok)
    {
      hide SystemOf, Unambiguous, Outside, Safe, Reaches, SetResult, ImageFormat.LoadInfo, HeaderOf, ConfirmRequested,
           UngatedChoice;
      ghost var d := flash.State();
      ReachesSelf(d);
      if !IsSlot(s) {
        return false;
      }
      Reload();
      NotOnTrial(d, s, resetReason);
      if !metadata.At(s).Present? {
        return false;
      }
      if metadata.At(s).record.state == M.CONFIRMED {
        return true;
      }
      if metadata.At(s).record.state != M.TRIAL {
        return false;
      }
      var foundA, a := BootImage.LoadInfo(flash, SLOT_A);
      var foundB, b := BootImage.LoadInfo(flash, SLOT_B);
      var selected := Select(foundA == Verdict.VALID, a.softwareVersion, foundB == Verdict.VALID, b.softwareVersion);
      SelectedIsUngated(d, foundA, a, foundB, b);
      if selected != Some(s) {
        return false;
      }
      ok := store.SetState(s, M.CONFIRMED, resetReason, M.RESULT_CONFIRMED);
      SetKeepsJournal(d, flash.State(), s, M.CONFIRMED, resetReason, M.RESULT_CONFIRMED, flash.Uneventful(), ok);
      TrialConfirms(d, flash.State(), s, resetReason, flash.Uneventful(), ok);
      if !ok {
        storageFault := true;
        return;
      }
      Reload();
    }
  }
}
