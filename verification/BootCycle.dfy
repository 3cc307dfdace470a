/** What one boot makes of a durable state: recovery of an interrupted update,
  * activation hand-off, the end of exhausted trials, selection, trial start. */
module BootCycle {
  import opened Bytes
  import opened Slots
  import opened TwinStore
  import opened ImageFormat
  import opened Protocol
  import opened Safety
  import J = JournalFormat
  import M = MetadataFormat

  // ---------------------------------------------------------------- recovery

  /** ValidateAndPublish accepts the header kept in the journal. */
  predicate Accepted(r: J.Journal, slots: Pair<SlotBytes>) {
    AcceptedHeader(r.active, r.target, r.header, slots)
  }

  /** The journal commit LoadRecoveryState makes next after `r`, if any. Each
    * one depends only on what is durable, never on how the boot got there. */
  function RecoveryNext(r: J.Journal, accepted: bool): Option<J.Journal> {
    if J.PREPARING <= r.state <= J.PROGRAMMING then
      Some(Aborted(r, if r.state == J.PROGRAMMING then J.INTERRUPTED_PROGRAMMING else J.INTERRUPTED))
    else if r.state == J.TRANSFER_COMPLETE then Some(Advanced(r, J.VERIFYING))
    else if J.VERIFYING <= r.state <= J.PENDING_ACTIVATION && !accepted then Some(Aborted(r, J.VERIFY_FAILED))
    else if r.state == J.VERIFYING then Some(Advanced(r, J.VERIFIED))
    else if r.state == J.VERIFIED then Some(Activated(r, J.POWER_LOSS_RECOVERED))
    else None
  }

  /** Where recovery, run to its end, takes the journal. */
  function Recovered(r: J.Journal, accepted: bool): (end: J.Journal)
    ensures RecoveryNext(end, accepted) == None
    ensures end.transaction == r.transaction && end.active == r.active && end.target == r.target
    ensures end.header == r.header
    ensures r.state <= J.ABORTED ==> end.state in {J.IDLE, J.PENDING_ACTIVATION, J.ABORTED}
    decreases if r.state <= J.ABORTED then J.ABORTED - r.state else 0
  {
    match RecoveryNext(r, accepted)
    case None => r
    case Some(n) => Recovered(n, accepted)
  }

  /** An update interrupted before its transfer was complete never resumes. */
  lemma InterruptedTransferIsAborted(r: J.Journal, accepted: bool)
    requires J.PREPARING <= r.state <= J.PROGRAMMING
    ensures var end := Recovered(r, accepted);
      end.state == J.ABORTED && end.committedSize == r.committedSize
      && end.lastResult == (if r.state == J.PROGRAMMING then J.INTERRUPTED_PROGRAMMING else J.INTERRUPTED)
  {
    hide J.BodyCrc;
  }

  /** After the transfer, the validity of what is in flash alone decides. */
  lemma {:induction false} CompletedTransferIsDecided(r: J.Journal, accepted: bool)
    requires J.TRANSFER_COMPLETE <= r.state <= J.PENDING_ACTIVATION
    ensures var end := Recovered(r, accepted);
      if accepted then
        && end.state == J.PENDING_ACTIVATION
        && end.lastResult == (if r.state == J.PENDING_ACTIVATION then r.lastResult else J.POWER_LOSS_RECOVERED)
      else
        end.state == J.ABORTED && end.lastResult == J.VERIFY_FAILED
    decreases J.ABORTED - r.state
  {
    hide J.BodyCrc;
    match RecoveryNext(r, accepted)
    case None =>
    case Some(n) =>
      if n.state <= J.PENDING_ACTIVATION {
        CompletedTransferIsDecided(n, accepted);
      }
  }

  /** What decides: the payload in the target must be the journal's image, and the
    * image must be newer than a bootable one in the active slot. */
  lemma CompletedTransferIsJudged(d: System)
    requires d.journal.Present? && IsSlot(d.journal.record.target)
    requires J.TRANSFER_COMPLETE <= d.journal.record.state <= J.PENDING_ACTIVATION
    ensures var r, end := d.journal.record, Recover(d).journal.record;
      && (end.state == J.PENDING_ACTIVATION <==>
            && r.target != r.active && Validate(r.target, r.header, d.slots.At(r.target)) == VALID
            && (IsSlot(r.active) && LoadInfo(r.active, d.slots.At(r.active)) == VALID ==>
                  r.header.softwareVersion > VersionOf(d.slots.At(r.active))))
      && (end.state != J.PENDING_ACTIVATION ==> end.state == J.ABORTED && end.lastResult == J.VERIFY_FAILED)
      && (end.state == J.PENDING_ACTIVATION && r.state != J.PENDING_ACTIVATION ==>
            end.lastResult == J.POWER_LOSS_RECOVERED)
  {
    hide J.BodyCrc, Validate, VersionOf, PublishedIn;
    CompletedTransferIsDecided(d.journal.record, Accepted(d.journal.record, d.slots));
  }

  /** No downgrade through an interruption: a completed transfer of an image that
    * is not newer than the bootable one in the active slot is given up. */
  lemma OlderImageIsAborted(d: System)
    requires d.journal.Present? && IsSlot(d.journal.record.target) && IsSlot(d.journal.record.active)
    requires J.TRANSFER_COMPLETE <= d.journal.record.state <= J.PENDING_ACTIVATION
    requires LoadInfo(d.journal.record.active, d.slots.At(d.journal.record.active)) == VALID
    requires d.journal.record.header.softwareVersion <= VersionOf(d.slots.At(d.journal.record.active))
    ensures var end := Recover(d).journal.record;
      end.state == J.ABORTED && end.lastResult == J.VERIFY_FAILED && Recover(d).slots == d.slots
  {
    hide J.BodyCrc, Validate, VersionOf, PublishedIn, LoadInfo;
    CompletedTransferIsJudged(d);
    CompletedTransferIsDecided(d.journal.record, Accepted(d.journal.record, d.slots));
  }

  /** A recovered journal is a record like any other. */
  lemma {:induction false} RecoveredIsValid(r: J.Journal, accepted: bool)
    requires J.FieldsValid(r)
    ensures J.FieldsValid(Recovered(r, accepted))
    decreases J.ABORTED - r.state
  {
    hide J.BodyCrc;
    match RecoveryNext(r, accepted)
    case None =>
    case Some(n) => RecoveredIsValid(n, accepted);
  }

  // ---------------------------------------------------------------- hand-off

  /** The records reconcile_journal writes for the target. */
  function InstalledRecord(version: word, counter: word, reason: word): M.Metadata {
    M.Metadata(0, 0, 0, version, M.VERIFIED, 0, 0, counter, 0, reason, 0, M.RESULT_NONE,
               UNKNOWN, 0, 0, UNKNOWN, 0, 0, 0, 0)
  }

  function MetadataCommitted(id: slot, previous: Loaded<M.Metadata>, next: M.Metadata): M.Metadata {
    M.Stamp(id, next, if previous.Present? then Add(previous.record.sequence, 1) else 1)
  }

  function Pended(id: slot, m: M.Metadata, reason: word): M.Metadata {
    M.Stamp(id, m.(state := M.PENDING, resetReason := reason, lastResult := M.RESULT_NONE), Add(m.sequence, 1))
  }

  /** LoadRecoveryState, uninterrupted. */
  function Recover(d: System): (e: System)
    requires d.journal.Present? && IsSlot(d.journal.record.target)
    ensures e.journal.Present? && e.journal.record.target == d.journal.record.target && e.metadata == d.metadata
  {
    var r := d.journal.record;
    var accepted := Accepted(r, d.slots);
    var e := if accepted && J.TRANSFER_COMPLETE <= r.state <= J.PENDING_ACTIVATION
             then WithCertified(d.(slots := PublishedIn(r.target, r.header, d.slots)), r.target) else d;
    WithJournal(e, Recovered(r, accepted))
  }

  /** The target's metadata on the way to PENDING. */
  function Install(d: System, r: J.Journal, reason: word): System
    requires IsSlot(r.target)
  {
    if InstalledFor(r, d.metadata.At(r.target)) then d
    else WithMetadata(d, r.target, MetadataCommitted(r.target, d.metadata.At(r.target),
                                                     InstalledRecord(r.header.softwareVersion, r.transaction, reason)))
  }

  /** reconcile_journal, uninterrupted, on a journal that awaits activation. */
  function HandOff(d: System, reason: word): System
    requires d.journal.Present? && IsSlot(d.journal.record.target)
  {
    var r := d.journal.record;
    if r.state != J.PENDING_ACTIVATION then d
    else
      var e := if Handed(r, d.metadata.At(r.target)) then d
               else
                 var i := Install(d, r, reason);
                 WithMetadata(i, r.target, Pended(r.target, i.metadata.At(r.target).record, reason));
      WithJournal(e, Advanced(r, J.IDLE))
  }

  /** Journal and metadata when a boot comes to choose a slot. The reset reason noted
    * in a record is that of the boot which happened to write it; leaving it out
    * (and the checksum that covers it) makes the outcome a function of `d`. */
  datatype Outcome = Outcome(journal: Loaded<J.Journal>, metadata: Pair<Loaded<M.Metadata>>)

  function Blind(m: Loaded<M.Metadata>): Loaded<M.Metadata> {
    if m.Present? then Present(m.record.(resetReason := 0, crc := 0)) else m
  }

  function OutcomeOf(d: System): Outcome {
    Outcome(d.journal, Pair(Blind(d.metadata.a), Blind(d.metadata.b)))
  }

  function BootOutcome(d: System): Outcome
    requires d.journal.Present? && IsSlot(d.journal.record.target)
  {
    OutcomeOf(Booted(d, 0))
  }

  lemma OutcomeIgnoresReason(d: System, reason: word)
    requires d.journal.Present? && IsSlot(d.journal.record.target)
    ensures OutcomeOf(Booted(d, reason)) == BootOutcome(d)
  {
    hide Recover, HandOff, Agree, Resolved, OutcomeOf;
    HandOffAgrees(d, reason);
    ResolvedAgree(HandOff(Recover(d), reason), HandOff(Recover(d), 0), reason, 0);
  }

  lemma HandOffAgrees(d: System, reason: word)
    requires d.journal.Present? && IsSlot(d.journal.record.target)
    ensures Agree(HandOff(Recover(d), reason), HandOff(Recover(d), 0))
  {
    hide J.BodyCrc, M.BodyCrc, Recover;
  }

  /** Two states alike for what is left of a boot after the hand-off. */
  predicate Agree(g: System, h: System) {
    OutcomeOf(g) == OutcomeOf(h) && forall s: slot :: Confirmed(g, s) ==> g.slots.At(s) == h.slots.At(s)
  }

  lemma ResolveOneAgrees(g: System, h: System, s: slot, reason: word, other: word)
    requires Agree(g, h)
    ensures Agree(ResolveOne(g, s, reason), ResolveOne(h, s, other))
  {
    hide M.BodyCrc, Bootable;
    assert Confirmed(g, Other(s)) <==> Confirmed(h, Other(s));
  }

  lemma ResolvedAgree(g: System, h: System, reason: word, other: word)
    requires Agree(g, h)
    ensures OutcomeOf(Resolved(g, reason)) == OutcomeOf(Resolved(h, other))
  {
    hide ResolveOne, OutcomeOf;
    ResolveOneAgrees(g, h, SLOT_A, reason, other);
    ResolveOneAgrees(ResolveOne(g, SLOT_A, reason), ResolveOne(h, SLOT_A, other), SLOT_B, reason, other);
  }

  /** The hand-off installs the activated image exactly once: whatever the
    * target's metadata was, it ends PENDING for this transaction, unattempted. */
  lemma HandOffInstallsOnce(d: System, reason: word)
    requires d.journal.Present? && J.FieldsValid(d.journal.record)
    requires d.journal.record.state == J.PENDING_ACTIVATION
    requires forall s: slot :: d.metadata.At(s).Present? ==> M.FieldsValid(d.metadata.At(s).record)
    ensures var r := d.journal.record;
      var e := HandOff(d, reason);
      && e.journal == Present(Advanced(r, J.IDLE))
      && Handed(r, e.metadata.At(r.target)) && AttemptsOf(e.metadata.At(r.target)) == 0
      && e.metadata.At(r.target).Present?
      && var m := e.metadata.At(r.target).record;
      && m.state == M.PENDING && m.imageVersion == r.header.softwareVersion && m.updateCounter == r.transaction
      && (!d.metadata.At(r.target).Present? ==>
            && m.successfulBoots == 0 && m.failedSlot == m.rollbackTarget == UNKNOWN && m.failedVersion == 0
            && m.lastAttempts == 0 && m.lastResult == M.RESULT_NONE && m.resetReason == reason)
      && e.metadata.At(Other(r.target)) == d.metadata.At(Other(r.target))
  {
    hide J.BodyCrc, M.BodyCrc;
  }

  /** One durable change of a boot: a journal commit, a metadata commit, a first
    * metadata record cut short, any change of the target's header while it is
    * being published, or the end of an exhausted trial. */
  predicate Toward(d: System, e: System, reason: word)
    requires d.journal.Present? && IsSlot(d.journal.record.target)
  {
    || TowardJournal(d, e) || TowardPublished(d, e) || TowardInstalled(d, e, reason) || TowardBlank(d, e)
    || TowardResolved(d, e, reason)
  }

  predicate TowardJournal(d: System, e: System)
    requires d.journal.Present? && IsSlot(d.journal.record.target)
  {
    var r := d.journal.record;
    var accepted := Accepted(r, d.slots);
    || (RecoveryNext(r, accepted).Some? && e == WithJournal(d, RecoveryNext(r, accepted).value))
    || (accepted && r.state == J.PENDING_ACTIVATION && Handed(r, d.metadata.At(r.target))
        && e == WithJournal(d, Advanced(r, J.IDLE)))
  }

  predicate TowardPublished(d: System, e: System)
    requires d.journal.Present? && IsSlot(d.journal.record.target)
  {
    var r := d.journal.record;
    Accepted(r, d.slots) && J.VERIFYING <= r.state <= J.PENDING_ACTIVATION && PublishingTo(r.target, d, e)
  }

  predicate TowardInstalled(d: System, e: System, reason: word)
    requires d.journal.Present? && IsSlot(d.journal.record.target)
  {
    var r := d.journal.record;
    var m := d.metadata.At(r.target);
    && Accepted(r, d.slots) && r.state == J.PENDING_ACTIVATION
    && (|| (InstalledFor(r, m) && e == WithMetadata(d, r.target, Pended(r.target, m.record, reason)))
        || (!Handed(r, m) && !InstalledFor(r, m)
            && e == WithMetadata(d, r.target, MetadataCommitted(r.target, m,
                      InstalledRecord(r.header.softwareVersion, r.transaction, reason)))))
  }

  /** The target's first record, cut before it was whole. */
  predicate TowardBlank(d: System, e: System)
    requires d.journal.Present? && IsSlot(d.journal.record.target)
  {
    var r := d.journal.record;
    Accepted(r, d.slots) && r.state == J.PENDING_ACTIVATION && BlankStep(d, e, r.target)
  }

  /** Nothing is left to recover or to hand over. */
  predicate AtRest(d: System) { d.journal.Present? && d.journal.record.state in {J.IDLE, J.ABORTED} }

  predicate TowardResolved(d: System, e: System, reason: word)
    requires d.journal.Present?
  {
    && AtRest(d)
    && (|| e == ResolveOne(d, SLOT_A, reason)
        || (!Exhausted(d.metadata.a) && e == ResolveOne(d, SLOT_B, reason)))
  }

  predicate PublishingTo(t: slot, d: System, e: System) {
    && e == d.(slots := e.slots, certified := e.certified)
    && e.slots.At(Other(t)) == d.slots.At(Other(t))
    && e.slots.At(t)[..HEADER_OFFSET] == d.slots.At(t)[..HEADER_OFFSET]
  }

  lemma AcceptedReads(r: J.Journal, n: J.Journal, s: Pair<SlotBytes>, t: Pair<SlotBytes>)
    requires n.target == r.target && n.active == r.active && n.header == r.header && IsSlot(r.target)
    requires s.At(r.target)[..HEADER_OFFSET] == t.At(r.target)[..HEADER_OFFSET]
    requires s.At(Other(r.target)) == t.At(Other(r.target))
    ensures Accepted(r, s) == Accepted(n, t)
  {
    hide Validate, Bootable;
    if r.target != r.active {
      ValidateReadsPayload(r.target, r.header, s.At(r.target), t.At(r.target));
    }
  }

  lemma JournalInterruption(d: System, e: System)
    requires d.journal.Present? && IsSlot(d.journal.record.target) && TowardJournal(d, e)
    ensures e.journal.Present? && IsSlot(e.journal.record.target)
    ensures Agree(HandOff(Recover(d), 0), HandOff(Recover(e), 0))
  {
    hide J.BodyCrc, M.BodyCrc, Accepted;
    AcceptedReads(d.journal.record, e.journal.record, d.slots, e.slots);
  }

  lemma PublishInterruption(d: System, e: System)
    requires d.journal.Present? && IsSlot(d.journal.record.target) && TowardPublished(d, e)
    ensures e.journal == d.journal && Agree(HandOff(Recover(d), 0), HandOff(Recover(e), 0))
  {
    hide J.BodyCrc, M.BodyCrc, Accepted, PublishedIn, Recover, HandOff, Recovered;
    AcceptedReads(d.journal.record, e.journal.record, d.slots, e.slots);
    AcceptedRecovers(d);
    AcceptedRecovers(e);
    PendingHandsOver(Recover(d), Recover(e));
  }

  lemma AcceptedRecovers(d: System)
    requires d.journal.Present? && IsSlot(d.journal.record.target) && Accepted(d.journal.record, d.slots)
    requires J.VERIFYING <= d.journal.record.state <= J.PENDING_ACTIVATION
    ensures Recover(d).journal == Present(Recovered(d.journal.record, true))
    ensures Recovered(d.journal.record, true).state == J.PENDING_ACTIVATION
    ensures Recover(d).slots.At(Other(d.journal.record.target)) == d.slots.At(Other(d.journal.record.target))
  {
    hide J.BodyCrc, Accepted;
    CompletedTransferIsDecided(d.journal.record, true);
  }

  /** After the hand-off the target is PENDING: what lies in its slot decides
    * nothing about the trial of the other one. */
  lemma PendingHandsOver(g: System, h: System)
    requires g.journal.Present? && IsSlot(g.journal.record.target) && g.journal.record.state == J.PENDING_ACTIVATION
    requires h.journal == g.journal && h.metadata == g.metadata
    requires h.slots.At(Other(g.journal.record.target)) == g.slots.At(Other(g.journal.record.target))
    ensures Agree(HandOff(g, 0), HandOff(h, 0))
  {
    hide J.BodyCrc, M.BodyCrc;
  }

  lemma MetadataInterruption(d: System, e: System, reason: word)
    requires d.journal.Present? && IsSlot(d.journal.record.target)
    requires TowardInstalled(d, e, reason) || TowardBlank(d, e)
    ensures e.journal == d.journal && Agree(HandOff(Recover(d), 0), HandOff(Recover(e), 0))
  {
    hide J.BodyCrc, M.BodyCrc, Accepted, PublishedIn;
    AcceptedReads(d.journal.record, e.journal.record, d.slots, e.slots);
  }

  lemma SettledRecovers(d: System, reason: word)
    requires d.journal.Present? && IsSlot(d.journal.record.target) && d.journal.record.state in {J.IDLE, J.ABORTED}
    ensures HandOff(Recover(d), reason) == d
  {
    hide Accepted;
  }

  lemma ResolveInterruption(d: System, e: System, reason: word)
    requires d.journal.Present? && IsSlot(d.journal.record.target) && TowardResolved(d, e, reason)
    ensures e.journal == d.journal && BootOutcome(e) == BootOutcome(d)
  {
    hide M.BodyCrc, Bootable, Recover, HandOff;
    SettledRecovers(d, 0);
    SettledRecovers(e, 0);
  }

  /** A boot converges: whatever durable change it makes towards its end, a boot
    * restarted from there ends in the same journal and metadata. */
  lemma InterruptionDoesNotMatter(d: System, e: System, reason: word)
    requires d.journal.Present? && IsSlot(d.journal.record.target)
    requires Toward(d, e, reason)
    ensures e.journal.Present? && IsSlot(e.journal.record.target)
    ensures BootOutcome(e) == BootOutcome(d)
  {
    hide TowardJournal, TowardPublished, TowardInstalled, TowardBlank, TowardResolved, Agree, Recover, HandOff,
         Resolved, OutcomeOf;
    if TowardResolved(d, e, reason) {
      ResolveInterruption(d, e, reason);
    } else {
      if TowardJournal(d, e) {
        JournalInterruption(d, e);
      } else if TowardPublished(d, e) {
        PublishInterruption(d, e);
      } else {
        MetadataInterruption(d, e, reason);
      }
      ResolvedAgree(HandOff(Recover(d), 0), HandOff(Recover(e), 0), 0, 0);
    }
  }

  /** Any number of boots, each cut off after one durable change. */
  ghost predicate Interruptions(d: System, e: System, reasons: seq<word>)
    decreases |reasons|
  {
    if reasons == [] then d == e
    else
      d.journal.Present? && IsSlot(d.journal.record.target)
      && exists m: System :: Toward(d, m, reasons[0]) && Interruptions(m, e, reasons[1..])
  }

  /** ... and however many there are, the boot that is finally left alone ends as
    * the first one would have. */
  lemma {:induction false} RecoveryConverges(d: System, e: System, reasons: seq<word>)
    requires d.journal.Present? && IsSlot(d.journal.record.target) && Interruptions(d, e, reasons)
    ensures e.journal.Present? && IsSlot(e.journal.record.target) && BootOutcome(e) == BootOutcome(d)
    decreases |reasons|
  {
    hide Toward, BootOutcome;
    if reasons != [] {
      var m: System :| Toward(d, m, reasons[0]) && Interruptions(m, e, reasons[1..]);
      InterruptionDoesNotMatter(d, m, reasons[0]);
      RecoveryConverges(m, e, reasons[1..]);
    }
  }

  /** From every valid journal that boot leaves an idle or aborted one. */
  lemma BootSettles(d: System, reason: word)
    requires d.journal.Present? && J.FieldsValid(d.journal.record)
    ensures var r, e := d.journal.record, HandOff(Recover(d), reason);
      && e.journal.Present?
      && (e.journal.record.state == J.IDLE <==>
            r.state == J.IDLE || (J.TRANSFER_COMPLETE <= r.state <= J.PENDING_ACTIVATION && Accepted(r, d.slots)))
      && (e.journal.record.state != J.IDLE ==> e.journal.record.state == J.ABORTED)
      && e.journal.record.transaction == r.transaction
  {
    hide J.BodyCrc, M.BodyCrc, Accepted, PublishedIn;
    var r, accepted := d.journal.record, Accepted(d.journal.record, d.slots);
    if J.TRANSFER_COMPLETE <= r.state <= J.PENDING_ACTIVATION {
      CompletedTransferIsDecided(r, accepted);
    } else if J.PREPARING <= r.state <= J.PROGRAMMING {
      InterruptedTransferIsAborted(r, accepted);
    }
  }

  /** Boots from either state end alike. */
  ghost predicate SameOutcome(d: System, e: System) {
    && d.journal.Present? && IsSlot(d.journal.record.target) && e.journal.Present? && IsSlot(e.journal.record.target)
    && BootOutcome(e) == BootOutcome(d)
  }

  /** What a piece of a boot may do to the durable state: run the protocol and,
    * unless a flash command reported an error, not change where boots end. */
  ghost predicate Continues(d: System, e: System, undisturbed: bool) {
    (Safe(d) ==> Reaches(d, e)) && (undisturbed ==> SameOutcome(d, e))
  }

  lemma ContinuesSelf(d: System)
    requires d.journal.Present? && J.FieldsValid(d.journal.record)
    ensures Continues(d, d, true)
  {
    hide Reaches, Safe, BootOutcome;
    ReachesSelf(d);
  }

  lemma ContinuesWeaken(d: System, e: System, undisturbed: bool)
    requires Continues(d, e, true)
    ensures Continues(d, e, undisturbed)
  {
  }

  lemma ContinuesAlso(d: System, e: System, first: bool, undisturbed: bool)
    requires Continues(d, e, first) && (undisturbed ==> first)
    ensures Continues(d, e, undisturbed)
  {
    hide Reaches, Safe, SameOutcome;
  }

  /** A piece of a boot after another, when something may have disturbed the first. */
  lemma ContinuesThen(d: System, e: System, f: System, first: bool, undisturbed: bool)
    requires Continues(d, e, first) && Continues(e, f, undisturbed) && (undisturbed ==> first)
    ensures Continues(d, f, undisturbed)
  {
    hide Reaches, Safe, BootOutcome;
    if Safe(d) {
      ReachableIsSafe(d, e);
      ReachesTransitive(d, e, f);
    }
  }

  lemma ContinuesCompose(d: System, e: System, f: System, undisturbed: bool)
    requires Continues(d, e, true) && Continues(e, f, undisturbed)
    ensures Continues(d, f, undisturbed)
  {
    hide Reaches, Safe, BootOutcome;
    if Safe(d) {
      ReachableIsSafe(d, e);
      ReachesTransitive(d, e, f);
    }
  }

  /** Publishing an accepted header leaves the target installed under it. */
  lemma PublishInstalls(r: J.Journal, slots: Pair<SlotBytes>)
    requires Accepted(r, slots)
    ensures Installed(r, PublishedIn(r.target, r.header, slots))
    ensures PublishedIn(r.target, r.header, slots).At(Other(r.target)) == slots.At(Other(r.target))
    ensures PublishedIn(r.target, r.header, slots).At(r.target)[..HEADER_OFFSET] == slots.At(r.target)[..HEADER_OFFSET]
  {
    hide Validate, EncodeHeader, HeaderOf;
    var bytes := slots.At(r.target);
    PublishedLoads(r.target, r.header, bytes);
    assert Published(bytes, r.header)[..HEADER_OFFSET] == bytes[..HEADER_OFFSET];
    ValidateReadsPayload(r.target, r.header, bytes, Published(bytes, r.header));
  }

  // --------------------------------------------------- exhausted trials

  predicate Exhausted(m: Loaded<M.Metadata>) {
    StateOf(m) == M.TRIAL && AttemptsOf(m) >= MAX_TRIAL_ATTEMPTS
  }

  /** The slot resolve_exhausted_trials would fall back to. */
  function RollbackTarget(d: System, s: slot): word {
    if Confirmed(d, Other(s)) && Bootable(Other(s), d.slots.At(Other(s))) then Other(s) else UNKNOWN
  }

  /** The record with which an exhausted trial ends. */
  function FailedRecord(d: System, s: slot, reason: word): M.Metadata
    requires d.metadata.At(s).Present?
  {
    var m := d.metadata.At(s).record;
    var fallback := RollbackTarget(d, s);
    m.(state := M.INVALID, resetReason := reason,
       lastResult := if fallback == UNKNOWN then M.TRIAL_FAILED else M.ROLLBACK_OCCURRED,
       failedSlot := s, failedVersion := m.imageVersion, lastAttempts := m.attempts, rollbackTarget := fallback)
  }

  /** How a trial that spent its starts is recorded: the other slot is named as the one to
    * fall back to if and only if it is confirmed and loads. */
  lemma FailedRecordIs(d: System, s: slot, reason: word)
    requires d.metadata.At(s).Present?
    ensures var m, n, other := d.metadata.At(s).record, FailedRecord(d, s, reason), 1 - s;
      && n.state == 6 && n.failedSlot == s && n.failedVersion == m.imageVersion
      && n.lastAttempts == n.attempts == m.attempts && n.imageVersion == m.imageVersion
      && n.updateCounter == m.updateCounter && n.resetReason == reason
      && (n.rollbackTarget == other <==>
            StateOf(d.metadata.At(other)) == 5 && LoadInfo(other, d.slots.At(other)) == VALID)
      && (n.rollbackTarget != other ==> n.rollbackTarget == 0x7FFF_FFFF && n.lastResult == 2)
      && (n.rollbackTarget == other ==> n.lastResult == 4)
  {
    hide LoadInfo;
  }

  function Failed(d: System, s: slot, reason: word): M.Metadata
    requires d.metadata.At(s).Present?
  {
    M.Stamp(s, FailedRecord(d, s, reason), Add(d.metadata.At(s).record.sequence, 1))
  }

  function ResolveOne(d: System, s: slot, reason: word): System {
    if Exhausted(d.metadata.At(s)) then WithMetadata(d, s, Failed(d, s, reason)) else d
  }

  /** resolve_exhausted_trials. */
  function Resolved(d: System, reason: word): System {
    ResolveOne(ResolveOne(d, SLOT_A, reason), SLOT_B, reason)
  }

  // --------------------------------------------------------------- selection

  /** BootManager scans a slot only if journal and metadata both permit it. */
  predicate Startable(d: System, s: slot) {
    && d.journal.Present? && Allowed(d.journal.record, s)
    && Runs(d.metadata.At(s)) && Bootable(s, d.slots.At(s))
  }

  /** BootPolicy_SelectLifecycle: None is the programming server. */
  function SelectLifecycle(validA: bool, stateA: word, versionA: word, validB: bool, stateB: word,
                           versionB: word): Option<slot> {
    var pa := if validA then Priority(stateA) else 0;
    var pb := if validB then Priority(stateB) else 0;
    if pa != 0 && pb == 0 then Some(SLOT_A)
    else if pa == 0 && pb != 0 then Some(SLOT_B)
    else if pa == 0 && pb == 0 then None
    else if pa > pb then Some(SLOT_A)
    else if pb > pa then Some(SLOT_B)
    else if versionA < versionB then Some(SLOT_B)
    else Some(SLOT_A)
  }

  /** (priority, version) in lexicographic order. */
  predicate Beats(pa: nat, versionA: word, pb: nat, versionB: word) {
    pa > pb || (pa == pb && versionA >= versionB)
  }

  /** The policy is an argmax: nothing is chosen exactly when no slot may run;
    * otherwise a slot that may run is, and B only if it is strictly better. */
  lemma SelectionIsArgmax(validA: bool, stateA: word, versionA: word, validB: bool, stateB: word, versionB: word)
    ensures var choice := SelectLifecycle(validA, stateA, versionA, validB, stateB, versionB);
      var pa := if validA then Priority(stateA) else 0;
      var pb := if validB then Priority(stateB) else 0;
      && (choice == None <==> pa == pb == 0)
      && (choice == Some(SLOT_A) <==> pa != 0 && Beats(pa, versionA, pb, versionB))
      && (choice == Some(SLOT_B) <==> pb != 0 && !Beats(pa, versionA, pb, versionB))
  {
    if versionA < versionB {} else {}
  }

  function Choice(d: System): Option<slot> {
    SelectLifecycle(Startable(d, SLOT_A), StateOf(d.metadata.a), VersionOf(d.slots.a),
                    Startable(d, SLOT_B), StateOf(d.metadata.b), VersionOf(d.slots.b))
  }

  /** A durable state an uninterrupted boot ends its preparations in. */
  predicate Rested(d: System) {
    AtRest(d) && forall s: slot :: !Exhausted(d.metadata.At(s))
  }

  /** The durable state when a boot that nothing interrupts comes to choose a slot. */
  function Booted(d: System, reason: word): System
    requires d.journal.Present? && IsSlot(d.journal.record.target)
  {
    Resolved(HandOff(Recover(d), reason), reason)
  }

  /** Never bricked: from every state any run can be left in, the next boot that
    * is left alone starts a slot and never ends in the programming server; and
    * that slot holds exactly the image that was certified for it. */
  lemma NeverBricked(commissioned: System, d: System, reason: word)
    requires Commissioned(commissioned) && Reaches(commissioned, d) && reason <= M.RESET_DEBUG
    ensures d.journal.Present? && IsSlot(d.journal.record.target)
    ensures var e := Booted(d, reason);
      && Choice(e).Some?
      && e.slots.At(Choice(e).value) == e.certified.At(Choice(e).value)
      && Bootable(Choice(e).value, e.slots.At(Choice(e).value))
  {
    hide Bootable, Reaches, Commissioned, VersionOf, Safe, Booted, Choice;
    CommissionedIsSafe(commissioned);
    ReachableIsSafe(commissioned, d);
    SafeIsPresent(d);
    BootedIsSafe(d, reason);
    SafeChoice(Booted(d, reason));
    StartableIsBootable(Booted(d, reason), Choice(Booted(d, reason)).value);
  }

  /** In every reachable state an update that awaits activation is newer than the
    * image it is to replace. */
  lemma PendingIsNewer(commissioned: System, d: System)
    requires Commissioned(commissioned) && Reaches(commissioned, d)
    requires d.journal.Present? && d.journal.record.state == J.PENDING_ACTIVATION
    ensures var r := d.journal.record;
      && IsSlot(r.target) && IsSlot(r.active) && r.target == Other(r.active)
      && LoadInfo(r.target, d.slots.At(r.target)) == VALID
      && (LoadInfo(r.active, d.slots.At(r.active)) == VALID ==>
            VersionOf(d.slots.At(r.target)) > VersionOf(d.slots.At(r.active)))
  {
    hide Reaches, Commissioned, Validate, HeaderOf;
    CommissionedIsSafe(commissioned);
    ReachableIsSafe(commissioned, d);
  }

  lemma SafeIsPresent(d: System)
    requires Safe(d)
    ensures d.journal.Present? && IsSlot(d.journal.record.target)
  {
    hide Bootable, Installed;
  }

  lemma StartableIsBootable(d: System, s: slot)
    requires Startable(d, s)
    ensures Bootable(s, d.slots.At(s))
  {
  }

  lemma RecoverIsSafe(d: System)
    requires Safe(d)
    ensures Safe(Recover(d))
    ensures Recover(d).journal.record.state in {J.IDLE, J.PENDING_ACTIVATION, J.ABORTED}
  {
    hide Safe, Recover, Accepted;
    SafeIsPresent(d);
    var r := d.journal.record;
    if J.TRANSFER_COMPLETE <= r.state <= J.PENDING_ACTIVATION && Accepted(r, d.slots) {
      AcceptedIsSafe(d);
    } else {
      AbandonedIsSafe(d);
    }
  }

  lemma AcceptedIsSafe(d: System)
    requires Safe(d) && d.journal.Present? && IsSlot(d.journal.record.target)
    requires J.TRANSFER_COMPLETE <= d.journal.record.state <= J.PENDING_ACTIVATION
    requires Accepted(d.journal.record, d.slots)
    ensures Safe(Recover(d)) && Recover(d).journal.record.state == J.PENDING_ACTIVATION
  {
    hide Bootable, Installed, J.BodyCrc, Accepted, PublishedIn, Recovered;
    var r, e := d.journal.record, Recover(d);
    RecoveredIsValid(r, true);
    CompletedTransferIsDecided(r, true);
    PublishInstalls(r, d.slots);
    InstalledReads(r, e.journal.record, e.slots);
    InstalledBoots(r, e.slots);
    assert TrialAccount(d, SLOT_A) && TrialAccount(d, SLOT_B);
  }

  lemma AbandonedIsSafe(d: System)
    requires Safe(d) && d.journal.Present? && IsSlot(d.journal.record.target)
    requires J.TRANSFER_COMPLETE <= d.journal.record.state <= J.PENDING_ACTIVATION ==>
      !Accepted(d.journal.record, d.slots)
    ensures Safe(Recover(d)) && Recover(d).journal.record.state in {J.IDLE, J.ABORTED}
  {
    hide Bootable, Installed, J.BodyCrc, Accepted, PublishedIn;
    var r, accepted := d.journal.record, Accepted(d.journal.record, d.slots);
    RecoveredIsValid(r, accepted);
    assert TrialAccount(d, SLOT_A) && TrialAccount(d, SLOT_B);
    if J.TRANSFER_COMPLETE <= r.state <= J.PENDING_ACTIVATION {
      CompletedTransferIsDecided(r, accepted);
    } else if r.state != J.IDLE && r.state != J.ABORTED {
      InterruptedTransferIsAborted(r, accepted);
    }
  }

  lemma HandOffIsSafe(d: System, reason: word)
    requires Safe(d) && reason <= M.RESET_DEBUG
    requires d.journal.record.state in {J.IDLE, J.PENDING_ACTIVATION, J.ABORTED}
    ensures Safe(HandOff(d, reason))
    ensures HandOff(d, reason).journal.record.state in {J.IDLE, J.ABORTED}
  {
    hide Bootable, Installed, J.BodyCrc, M.BodyCrc;
    var r := d.journal.record;
    if r.state == J.PENDING_ACTIVATION {
      InstalledBoots(r, d.slots);
      assert TrialAccount(d, SLOT_A) && TrialAccount(d, SLOT_B);
    }
  }

  lemma ResolveOneIsSafe(d: System, s: slot, reason: word)
    requires Safe(d) && reason <= M.RESET_DEBUG
    ensures Safe(ResolveOne(d, s, reason)) && ResolveOne(d, s, reason).journal == d.journal
    ensures !Exhausted(ResolveOne(d, s, reason).metadata.At(s))
    ensures ResolveOne(d, s, reason).metadata.At(Other(s)) == d.metadata.At(Other(s))
  {
    hide Bootable, Installed, M.BodyCrc;
    assert TrialAccount(d, SLOT_A) && TrialAccount(d, SLOT_B);
  }

  lemma BootedIsSafe(d: System, reason: word)
    requires Safe(d) && reason <= M.RESET_DEBUG
    ensures d.journal.Present? && IsSlot(d.journal.record.target)
    ensures Safe(Booted(d, reason)) && Rested(Booted(d, reason))
  {
    hide Safe, Recover, HandOff, ResolveOne, Exhausted;
    SafeIsPresent(d);
    RecoverIsSafe(d);
    SafeIsPresent(Recover(d));
    var h := HandOff(Recover(d), reason);
    HandOffIsSafe(Recover(d), reason);
    ResolveOneIsSafe(h, SLOT_A, reason);
    ResolveOneIsSafe(ResolveOne(h, SLOT_A, reason), SLOT_B, reason);
    SafeIsPresent(Booted(d, reason));
  }

  lemma SafeChoice(d: System)
    requires Safe(d) && Rested(d)
    ensures Choice(d).Some?
    ensures d.slots.At(Choice(d).value) == d.certified.At(Choice(d).value)
    ensures Startable(d, Choice(d).value)
  {
    hide Bootable, VersionOf, Installed;
    var r := d.journal.record;
    var c: slot := if r.state != J.IDLE then r.active else if Confirmed(d, SLOT_A) then SLOT_A else SLOT_B;
    assert Confirmed(d, c) && Allowed(r, c);
    assert Startable(d, c);
  }

  /** A slot whose contents differ from what was last certified for it. */
  predicate Dirty(d: System, s: slot) { d.slots.At(s) != d.certified.At(s) }

  /** A dirty slot is never started, whatever its metadata and its checksums
    * say: the journal is not idle and names another slot as active. */
  lemma DirtySlotNeverStarted(commissioned: System, d: System, s: slot)
    requires Commissioned(commissioned) && Reaches(commissioned, d) && Dirty(d, s)
    ensures d.journal.Present? && d.journal.record.state !in {J.IDLE, J.PENDING_ACTIVATION}
    ensures d.journal.record.active == Other(s)
    ensures !Allowed(d.journal.record, s) && Choice(d) != Some(s)
  {
    hide Bootable, Reaches, Commissioned, VersionOf, Installed;
    CommissionedIsSafe(commissioned);
    ReachableIsSafe(commissioned, d);
    assert AllowedSlotsIntact(d, d.journal.record);
  }
}
