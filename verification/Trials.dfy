/** Trial starts, confirmation and rollback over whole sequences of boots. */
module Trials {
  import opened Bytes
  import opened Slots
  import opened TwinStore
  import opened ImageFormat
  import opened Protocol
  import opened Safety
  import opened BootCycle
  import J = JournalFormat
  import M = MetadataFormat

  /** The record SetState commits. */
  function Moved(m: M.Metadata, state: word, reason: word, result: word): M.Metadata {
    var r := m.(state := state, resetReason := reason, lastResult := result);
    if state == M.TRIAL then r.(attempts := 1, lastAttempts := 1)
    else if state == M.CONFIRMED then r.(attempts := 0, successfulBoots := Add(m.successfulBoots, 1), lastAttempts := 0)
    else r
  }

  /** The record IncrementAttempt commits. */
  function Retried(m: M.Metadata, reason: word): M.Metadata {
    var attempts := Add(m.attempts, 1);
    m.(attempts := attempts, lastAttempts := attempts, resetReason := reason, lastResult := M.TRIAL_STARTED)
  }

  function TrialStarted(id: slot, m: M.Metadata, reason: word): M.Metadata {
    M.Stamp(id, Moved(m, M.TRIAL, reason, M.TRIAL_STARTED), Add(m.sequence, 1))
  }

  function TrialRetried(id: slot, m: M.Metadata, reason: word): M.Metadata {
    M.Stamp(id, Retried(m, reason), Add(m.sequence, 1))
  }

  function TrialConfirmed(id: slot, m: M.Metadata, reason: word): M.Metadata {
    M.Stamp(id, Moved(m, M.CONFIRMED, reason, M.RESULT_CONFIRMED), Add(m.sequence, 1))
  }

  /** BootLifecycle_PrepareBoot on a slot that may be started. */
  function Prepared(d: System, s: slot, reason: word): System {
    var m := d.metadata.At(s);
    if StateOf(m) == M.PENDING then WithMetadata(d, s, TrialStarted(s, m.record, reason))
    else if StateOf(m) == M.TRIAL then WithMetadata(d, s, TrialRetried(s, m.record, reason))
    else d
  }

  function Jumped(d: System, s: slot): System {
    if StateOf(d.metadata.At(s)) == M.TRIAL then
      d.(trialJumps := d.trialJumps.Put(s, d.trialJumps.At(s) + 1), armed := None)
    else d.(armed := None)
  }

  /** One power cycle: a reset, a boot nothing interrupts, the jump it ends in. */
  function Cycle(d: System, reason: word): System
    requires d.journal.Present? && IsSlot(d.journal.record.target)
  {
    var e := Booted(d.(armed := None), reason);
    match Choice(e)
    case None => e
    case Some(s) => Jumped(Prepared(e, s, reason), s)
  }

  /** How many more starts an unconfirmed image can get. */
  function Remaining(m: Loaded<M.Metadata>): nat {
    if StateOf(m) == M.VERIFIED then 5
    else if StateOf(m) == M.PENDING then 4
    else if StateOf(m) == M.TRIAL && AttemptsOf(m) <= MAX_TRIAL_ATTEMPTS then 4 - AttemptsOf(m)
    else 0
  }

  /** In every reachable state a slot has been started on trial at most three
    * times since its transaction was activated, and never more often than its
    * durable count; before the hand-off it has not been started at all. */
  lemma TrialJumpsAreCounted(commissioned: System, d: System, s: slot)
    requires Commissioned(commissioned) && Reaches(commissioned, d)
    ensures d.trialJumps.At(s) <= MAX_TRIAL_ATTEMPTS
    ensures StateOf(d.metadata.At(s)) == M.TRIAL ==> d.trialJumps.At(s) <= AttemptsOf(d.metadata.At(s))
    ensures StateOf(d.metadata.At(s)) in {M.VERIFIED, M.PENDING} ==> d.trialJumps.At(s) == 0
    ensures d.journal.Present? && (d.journal.record.state == J.PENDING_ACTIVATION ==>
              IsSlot(d.journal.record.target) && d.trialJumps.At(d.journal.record.target) == 0)
  {
    hide Reaches, Commissioned, AllowedSlotsIntact, Fallback, Installed;
    CommissionedIsSafe(commissioned);
    ReachableIsSafe(commissioned, d);
    assert TrialAccount(d, s);
  }

  /** The accounts behind that are opened once per transaction: only the commit
    * that activates it touches them otherwise than by an installation or a jump. */
  lemma AccountsAreOpenedOnce(d: System, e: System)
    requires Safe(d) && Step(d, e)
    ensures d.journal.Present? && e.journal.Present?
    ensures var r, n := d.journal.record, e.journal.record;
      if r.state != J.PENDING_ACTIVATION && n.state == J.PENDING_ACTIVATION then
        && n.transaction == r.transaction && IsSlot(n.target)
        && e.trialJumps == d.trialJumps.Put(n.target, 0) && e.installs == 0
      else
        d.installs <= e.installs && forall s: slot :: d.trialJumps.At(s) <= e.trialJumps.At(s)
  {
    hide Bootable, Installed, J.BodyCrc;
  }

  /** In every reachable state the transaction activated last has been installed
    * at most once, however often its hand-off was cut. */
  lemma InstalledAtMostOnce(commissioned: System, d: System)
    requires Commissioned(commissioned) && Reaches(commissioned, d)
    ensures d.installs <= 1
  {
    hide Reaches, Commissioned, AllowedSlotsIntact, Fallback, Installed;
    CommissionedIsSafe(commissioned);
    ReachableIsSafe(commissioned, d);
  }

  /** No run restores a spent attempt: a metadata commit either is the one
    * installation of the transaction awaiting activation, whose image has not
    * been started, or leaves strictly fewer starts, or is a first record. */
  lemma AttemptsAreNeverRestored(d: System, e: System, s: slot, n: M.Metadata)
    requires Safe(d) && MetadataStep(d, e, s, n)
    ensures e.metadata.At(Other(s)) == d.metadata.At(Other(s))
    ensures || (n.state == M.VERIFIED && d.journal.record.state == J.PENDING_ACTIVATION
                && s == d.journal.record.target && n.updateCounter == d.journal.record.transaction
                && d.installs == 0 && e.installs == 1 && d.trialJumps.At(s) == 0)
            || Remaining(e.metadata.At(s)) < Remaining(d.metadata.At(s))
            || (!d.metadata.At(s).Present? && n.state == M.CONFIRMED)
  {
    hide Bootable, Installed;
  }

  /** The journal's transaction was handed over, or given up. */
  predicate HandedOver(d: System) {
    && d.journal.Present?
    && var r := d.journal.record;
       || r.state == J.IDLE || r.state == J.ABORTED
       || (r.state == J.PENDING_ACTIVATION && IsSlot(r.target) && Handed(r, d.metadata.At(r.target)))
  }

  /** A run in which no new transaction begins. */
  ghost predicate StepsWithin(d: System, e: System, n: nat)
    decreases n
  {
    if n == 0 then d == e
    else exists m: System :: Step(d, m) && SameTransaction(d, m) && StepsWithin(m, e, n - 1)
  }

  predicate SameTransaction(d: System, e: System) {
    d.journal.Present? && e.journal.Present? && e.journal.record.transaction == d.journal.record.transaction
  }

  lemma HandedOverStep(d: System, e: System, s: slot)
    requires Safe(d) && HandedOver(d) && Step(d, e) && SameTransaction(d, e)
    ensures HandedOver(e) && e.installs == d.installs
    ensures Remaining(e.metadata.At(s)) <= Remaining(d.metadata.At(s))
  {
    hide Safe, JournalStep, MetadataStep, Remaining, HandedOver;
    if JournalStep(d, e) {
      HandedOverJournal(d, e, s);
    } else if w: slot, m: M.Metadata :| MetadataStep(d, e, w, m) {
      HandedOverMetadata(d, e, w, m, s);
    } else {
      HandedOverElse(d, e, s);
    }
  }

  lemma HandedOverJournal(d: System, e: System, s: slot)
    requires HandedOver(d) && JournalStep(d, e) && SameTransaction(d, e)
    ensures HandedOver(e) && e.installs == d.installs && e.metadata == d.metadata
  {
    hide Bootable, Installed, J.BodyCrc;
    NoBegin(d, e);
  }

  lemma HandedOverMetadata(d: System, e: System, w: slot, m: M.Metadata, s: slot)
    requires Safe(d) && HandedOver(d) && MetadataStep(d, e, w, m)
    ensures HandedOver(e) && e.installs == d.installs && Remaining(e.metadata.At(s)) <= Remaining(d.metadata.At(s))
  {
    hide Bootable, Installed, J.BodyCrc, AllowedSlotsIntact, Fallback, InstallAccount;
    assert TrialAccount(d, w);
  }

  lemma HandedOverElse(d: System, e: System, s: slot)
    requires HandedOver(d) && Step(d, e) && !JournalStep(d, e)
    requires !(exists w: slot, m: M.Metadata :: MetadataStep(d, e, w, m))
    ensures HandedOver(e) && e.installs == d.installs && Remaining(e.metadata.At(s)) <= Remaining(d.metadata.At(s))
  {
    hide Bootable, Installed, J.BodyCrc, JournalStep, MetadataStep;
  }

  lemma NoBegin(d: System, e: System)
    requires JournalStep(d, e) && SameTransaction(d, e)
    ensures forall active: word, target: slot :: !BeginStep(d, d.journal.record, e.journal.record, active, target)
  {
    hide Bootable, Installed, J.BodyCrc;
    assert Add(d.journal.record.transaction, 1) != d.journal.record.transaction;
  }

  /** No replay: once a transaction was handed over, no run installs it again or
    * gives any slot more starts than it had left, until another one begins. */
  lemma {:induction false} HandedOverIsNeverReinstalled(d: System, e: System, n: nat, s: slot)
    requires Safe(d) && HandedOver(d) && StepsWithin(d, e, n)
    ensures HandedOver(e) && e.installs == d.installs
    ensures Remaining(e.metadata.At(s)) <= Remaining(d.metadata.At(s))
    decreases n
  {
    hide Safe, Step, HandedOver, Remaining, SameTransaction;
    if n > 0 {
      var m: System :| Step(d, m) && SameTransaction(d, m) && StepsWithin(m, e, n - 1);
      StepKeepsSafe(d, m);
      HandedOverStep(d, m, s);
      HandedOverIsNeverReinstalled(m, e, n - 1, s);
    }
  }

  /** The journal's transaction was activated, or given up. */
  predicate PastActivation(d: System) {
    d.journal.Present? && d.journal.record.state in {J.PENDING_ACTIVATION, J.IDLE, J.ABORTED}
  }

  lemma PastActivationStep(d: System, e: System)
    requires Step(d, e) && PastActivation(d) && SameTransaction(d, e)
    ensures PastActivation(e)
    ensures d.journal.record.state != J.PENDING_ACTIVATION ==> e.journal.record.state != J.PENDING_ACTIVATION
  {
    hide Bootable, Installed, J.BodyCrc;
    if JournalStep(d, e) {
      NoBegin(d, e);
    }
  }

  /** A transaction is activated once: from then on its accounts are never opened
    * again, so that they count every start and every installation it gets. */
  lemma {:induction false} OneAccountPerTransaction(d: System, e: System, n: nat, s: slot)
    requires Safe(d) && PastActivation(d) && StepsWithin(d, e, n)
    ensures PastActivation(e) && d.trialJumps.At(s) <= e.trialJumps.At(s) && d.installs <= e.installs
    decreases n
  {
    hide Safe, Step, PastActivation, SameTransaction;
    if n > 0 {
      var m: System :| Step(d, m) && SameTransaction(d, m) && StepsWithin(m, e, n - 1);
      StepKeepsSafe(d, m);
      PastActivationStep(d, m);
      AccountsAreOpenedOnce(d, m);
      OneAccountPerTransaction(m, e, n - 1, s);
    }
  }

  lemma {:induction false} OtherIsConfirmed(d: System, t: slot)
    requires Safe(d) && d.journal.record.state == J.IDLE && !Confirmed(d, t)
    ensures Confirmed(d, Other(t))
  {
    hide Bootable, Installed;
  }

  /** Booting with an idle journal only ends the trials that are used up. */
  lemma IdleBoot(d: System, reason: word)
    requires d.journal.Present? && J.FieldsValid(d.journal.record) && d.journal.record.state == J.IDLE
    ensures Booted(d, reason) == Resolved(d, reason)
  {
    hide Accepted, Resolved;
  }

  /** The slot on trial is chosen over the confirmed one while attempts remain,
    * and the confirmed one once they are spent. */
  lemma TrialChoice(d: System, t: slot, reason: word)
    requires Safe(d) && d.journal.record.state == J.IDLE
    requires StateOf(d.metadata.At(t)) in {M.PENDING, M.TRIAL}
    ensures Confirmed(d, Other(t))
    ensures !Exhausted(d.metadata.At(t)) ==> Resolved(d, reason) == d && Choice(d) == Some(t)
    ensures Exhausted(d.metadata.At(t)) ==>
      && Resolved(d, reason) == WithMetadata(d, t, Failed(d, t, reason))
      && RollbackTarget(d, t) == Other(t)
      && Choice(Resolved(d, reason)) == Some(Other(t))
  {
    hide Bootable, Installed, M.BodyCrc, VersionOf;
    OtherIsConfirmed(d, t);
    assert Allowed(d.journal.record, t) && Allowed(d.journal.record, Other(t));
    assert !Exhausted(d.metadata.At(Other(t)));
    assert Startable(d, t) && Startable(d, Other(t));
    if Exhausted(d.metadata.At(t)) {
      var e := WithMetadata(d, t, Failed(d, t, reason));
      assert Startable(e, Other(t)) && !Startable(e, t);
    }
  }

  /** An activated image is what the next boot starts, untouched: recovery finds
    * it installed, the hand-off makes it PENDING, and PENDING beats CONFIRMED. */
  lemma ActivatedImageStarts(d: System, reason: word)
    requires Safe(d) && d.journal.record.state == J.PENDING_ACTIVATION && reason <= M.RESET_DEBUG
    ensures d.journal.Present? && IsSlot(d.journal.record.target)
    ensures var t, e := d.journal.record.target, Booted(d, reason);
      && Choice(e) == Some(t) && e.slots == d.slots
      && StateOf(e.metadata.At(t)) == M.PENDING && e.metadata.At(t).record.updateCounter == d.journal.record.transaction
  {
    hide Bootable, Installed, J.BodyCrc, M.BodyCrc, Accepted, PublishedIn, Resolved, Choice, HandOff;
    SafeIsPresent(d);
    var r := d.journal.record;
    InstalledIsAccepted(r, d.slots);
    RecoverIsSafe(d);
    var f := Recover(d);
    assert f.journal == d.journal && f.slots == d.slots && f.metadata == d.metadata;
    HandOffIsSafe(f, reason);
    HandOffInstallsOnce(f, reason);
    HandedSlots(f, reason);
    TrialChoice(HandOff(f, reason), r.target, reason);
  }

  lemma HandedSlots(d: System, reason: word)
    requires d.journal.Present? && IsSlot(d.journal.record.target)
    ensures HandOff(d, reason).slots == d.slots
  {
    hide J.BodyCrc, M.BodyCrc;
  }

  lemma InstalledIsAccepted(r: J.Journal, slots: Pair<SlotBytes>)
    requires Installed(r, slots) && J.FieldsValid(r)
    ensures Accepted(r, slots) && PublishedIn(r.target, r.header, slots) == slots
  {
    hide Validate, HeaderOf;
  }

  lemma StartIsSafe(d: System, t: slot, reason: word)
    requires Safe(d) && reason <= M.RESET_DEBUG && d.journal.record.state != J.PENDING_ACTIVATION
    requires StateOf(d.metadata.At(t)) in {M.PENDING, M.TRIAL} && !Exhausted(d.metadata.At(t))
    ensures Safe(Jumped(Prepared(d, t, reason), t))
  {
    hide Bootable, Installed, M.BodyCrc, AllowedSlotsIntact, Fallback;
    assert TrialAccount(d, t);
    var e := Prepared(d, t, reason);
    var n := e.metadata.At(t).record;
    assert M.FieldsValid(d.metadata.At(t).record);
    assert MetadataStep(d, e, t, n);
    MetadataStepKeepsSafe(d, e, t, n);
    JumpStepKeepsSafe(e, Jumped(e, t), t);
  }

  lemma FailIsSafe(d: System, t: slot, reason: word)
    requires Safe(d) && reason <= M.RESET_DEBUG && Exhausted(d.metadata.At(t))
    ensures Safe(WithMetadata(d, t, Failed(d, t, reason)))
  {
    ResolveOneIsSafe(d, t, reason);
  }

  /** An idle device with an image on trial: the next cycle starts that image
    * again on a newly counted attempt, or, when the third attempt is spent,
    * marks it invalid and starts the confirmed image in the other slot. */
  lemma TrialCycle(d: System, t: slot, reason: word)
    requires Safe(d) && d.journal.record.state == J.IDLE && reason <= M.RESET_DEBUG
    requires StateOf(d.metadata.At(t)) in {M.PENDING, M.TRIAL}
    ensures var e := Cycle(d, reason);
      && Safe(e) && e.journal == d.journal && e.slots == d.slots
      && Confirmed(e, Other(t))
      && if Exhausted(d.metadata.At(t)) then
           && StateOf(e.metadata.At(t)) == M.INVALID
           && e.metadata.At(t).record.rollbackTarget == Other(t)
           && e.metadata.At(t).record.lastResult == M.ROLLBACK_OCCURRED && e.metadata.At(t).record.failedSlot == t
           && e.metadata.At(t).record.failedVersion == d.metadata.At(t).record.imageVersion
           && e.metadata.At(t).record.lastAttempts == 3 && e.metadata.At(t).record.resetReason == reason
           && Choice(Booted(d.(armed := None), reason)) == Some(Other(t))
           && e.trialJumps == d.trialJumps
         else
           && Choice(Booted(d.(armed := None), reason)) == Some(t)
           && StateOf(e.metadata.At(t)) == M.TRIAL
           && AttemptsOf(e.metadata.At(t)) == AttemptsOf(d.metadata.At(t)) + 1
           && e.metadata.At(t).record.lastAttempts == AttemptsOf(e.metadata.At(t))
           && e.metadata.At(t).record.lastResult == M.TRIAL_STARTED && e.metadata.At(t).record.resetReason == reason
           && e.metadata.At(t).record.imageVersion == d.metadata.At(t).record.imageVersion
           && e.trialJumps.At(t) == d.trialJumps.At(t) + 1
           && Remaining(e.metadata.At(t)) < Remaining(d.metadata.At(t))
  {
    hide Bootable, Installed, J.BodyCrc, M.BodyCrc, Booted, Choice, AllowedSlotsIntact, Fallback, Resolved;
    var f := d.(armed := None);
    ResetKeepsSafe(d);
    IdleBoot(f, reason);
    TrialChoice(f, t, reason);
    assert TrialAccount(f, t);
    assert M.FieldsValid(d.metadata.At(t).record);
    if Exhausted(d.metadata.At(t)) {
      FailIsSafe(f, t, reason);
      JumpStepKeepsSafe(Resolved(f, reason), Jumped(Resolved(f, reason), Other(t)), Other(t));
    } else {
      StartIsSafe(f, t, reason);
    }
  }

  /** Power cycle after power cycle, with no confirmation. */
  function Cycles(d: System, reasons: seq<word>): System
    decreases |reasons|
  {
    if reasons == [] || !d.journal.Present? || !IsSlot(d.journal.record.target) then d
    else Cycles(Cycle(d, reasons[0]), reasons[1..])
  }

  lemma {:induction false} TrialRun(d: System, t: slot, reasons: seq<word>)
    requires Safe(d) && d.journal.record.state == J.IDLE
    requires StateOf(d.metadata.At(t)) in {M.PENDING, M.TRIAL}
    requires (reasons == [] ==> StateOf(d.metadata.At(t)) == M.TRIAL)
    requires AttemptsOf(d.metadata.At(t)) + |reasons| == MAX_TRIAL_ATTEMPTS
    requires forall i :: 0 <= i < |reasons| ==> reasons[i] <= M.RESET_DEBUG
    ensures var e := Cycles(d, reasons);
      && Safe(e) && e.journal == d.journal && e.slots == d.slots
      && StateOf(e.metadata.At(t)) == M.TRIAL && AttemptsOf(e.metadata.At(t)) == MAX_TRIAL_ATTEMPTS
      && e.trialJumps.At(t) == d.trialJumps.At(t) + |reasons|
    decreases |reasons|
  {
    hide Safe, Cycle, Exhausted, Confirmed, Choice, Booted, Remaining;
    SafeIsPresent(d);
    if reasons != [] {
      PendingIsUnattempted(d, t);
      TrialCycle(d, t, reasons[0]);
      TrialRun(Cycle(d, reasons[0]), t, reasons[1..]);
    }
  }

  /** A freshly handed over image that never confirms is started exactly three
    * times; the fourth cycle marks it invalid and rolls back to the other slot. */
  lemma RollbackAfterThreeStarts(d: System, t: slot, reasons: seq<word>, last: word)
    requires Safe(d) && d.journal.record.state == J.IDLE && StateOf(d.metadata.At(t)) == M.PENDING
    requires |reasons| == 3 && (forall i :: 0 <= i < |reasons| ==> reasons[i] <= M.RESET_DEBUG) && last <= M.RESET_DEBUG
    ensures var tried := Cycles(d, reasons);
      && StateOf(tried.metadata.At(t)) == M.TRIAL
      && AttemptsOf(tried.metadata.At(t)) == tried.trialJumps.At(t) == 3
      && tried.journal.Present? && IsSlot(tried.journal.record.target)
      && var end := Cycle(tried, last);
         && StateOf(end.metadata.At(t)) == M.INVALID && end.trialJumps.At(t) == 3
         && Confirmed(end, Other(t)) && end.slots == d.slots
         && end.metadata.At(t).record.rollbackTarget == Other(t)
         && Choice(Booted(tried.(armed := None), last)) == Some(Other(t))
  {
    hide Safe, Cycle, Exhausted, Choice, Booted, Cycles;
    PendingIsUnattempted(d, t);
    TrialRun(d, t, reasons);
    SafeIsPresent(d);
    PendingIsUnattempted(Cycles(d, reasons), t);
    TrialCycle(Cycles(d, reasons), t, last);
  }

  lemma PendingIsUnattempted(d: System, t: slot)
    requires Safe(d)
    ensures StateOf(d.metadata.At(t)) == M.PENDING ==> AttemptsOf(d.metadata.At(t)) == d.trialJumps.At(t) == 0
    ensures forall s: slot :: Exhausted(d.metadata.At(s)) <==>
      StateOf(d.metadata.At(s)) == M.TRIAL && AttemptsOf(d.metadata.At(s)) == MAX_TRIAL_ATTEMPTS
  {
    hide Bootable, Installed;
    assert TrialAccount(d, SLOT_A) && TrialAccount(d, SLOT_B);
  }

  // ------------------------------------------------------------ confirmation

  /** BootLifecycle_Confirm asks the policy without the journal's permission. */
  function UngatedChoice(d: System): Option<slot> {
    SelectLifecycle(Bootable(SLOT_A, d.slots.a), StateOf(d.metadata.a), VersionOf(d.slots.a),
                    Bootable(SLOT_B, d.slots.b), StateOf(d.metadata.b), VersionOf(d.slots.b))
  }

  /** BootLifecycle_Confirm. */
  function ConfirmRequested(d: System, s: slot, reason: word): System {
    if StateOf(d.metadata.At(s)) == M.TRIAL && UngatedChoice(d) == Some(s) then
      WithMetadata(d, s, TrialConfirmed(s, d.metadata.At(s).record, reason))
    else d
  }

  /** The boot after the application in slot `s` asked to be confirmed: the
    * trials are resolved before the request is looked at. */
  function ConfirmingBoot(d: System, s: slot, reason: word): System
    requires d.journal.Present? && IsSlot(d.journal.record.target)
  {
    ConfirmRequested(Booted(d.(armed := None), reason), s, reason)
  }

  /** A confirmation is honoured exactly when it comes before the third attempt:
    * an image started three times is marked invalid even if it then confirms. */
  lemma ConfirmHonouredExactly(d: System, t: slot, reason: word)
    requires Safe(d) && d.journal.record.state == J.IDLE && reason <= M.RESET_DEBUG
    requires StateOf(d.metadata.At(t)) == M.TRIAL
    ensures StateOf(ConfirmingBoot(d, t, reason).metadata.At(t)) == M.CONFIRMED
      <==> AttemptsOf(d.metadata.At(t)) < MAX_TRIAL_ATTEMPTS
    ensures AttemptsOf(d.metadata.At(t)) == MAX_TRIAL_ATTEMPTS ==>
      StateOf(ConfirmingBoot(d, t, reason).metadata.At(t)) == M.INVALID
    ensures AttemptsOf(d.metadata.At(t)) < MAX_TRIAL_ATTEMPTS ==>
      var e, m := ConfirmingBoot(d, t, reason), d.metadata.At(t).record;
      var n := e.metadata.At(t).record;
      && e.journal == d.journal && e.slots == d.slots && e.metadata.At(Other(t)) == d.metadata.At(Other(t))
      && n.attempts == n.lastAttempts == 0 && n.successfulBoots == Add(m.successfulBoots, 1) && n.lastResult == 3
      && n.imageVersion == m.imageVersion && n.updateCounter == m.updateCounter && n.resetReason == reason
  {
    hide Bootable, Installed, J.BodyCrc, M.BodyCrc, Booted, Fallback, Resolved, VersionOf, Choice;
    var f := d.(armed := None);
    ResetKeepsSafe(d);
    IdleBoot(f, reason);
    TrialChoice(f, t, reason);
    PendingIsUnattempted(d, t);
    assert Allowed(f.journal.record, t);
    assert Bootable(t, f.slots.At(t));
  }
}
