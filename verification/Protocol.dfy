/** The durable state of the device and the atomic changes the bootloader makes
  * to it. Everything that survives a reset is here, and nothing else. */
module Protocol {
  import opened Bytes
  import opened Slots
  import opened TwinStore
  import opened ImageFormat
  import J = JournalFormat
  import M = MetadataFormat

  datatype Pair<T> = Pair(a: T, b: T) {
    function At(s: slot): T { if s == SLOT_A then a else b }

    function Put(s: slot, v: T): Pair<T> { if s == SLOT_A then Pair(v, b) else Pair(a, v) }
  }

  /** `certified`, `trialJumps`, `installs` and `armed` are history: what each slot
    * held when it was last validated for activation, how often it was started on
    * trial since then, how often the last activated transaction was installed,
    * and the slot whose trial attempt was counted durably since the last reset
    * without having been used for a jump. */
  datatype System = System(
    journal: Loaded<J.Journal>,
    metadata: Pair<Loaded<M.Metadata>>,
    slots: Pair<SlotBytes>,
    certified: Pair<SlotBytes>,
    trialJumps: Pair<nat>,
    installs: nat,
    armed: Option<slot>)

  // ---------------------------------------------------------------- policies

  /** BootRecoveryPolicy_SlotAllowed. */
  predicate Allowed(r: J.Journal, s: word) {
    && IsSlot(s)
    && (r.state == J.IDLE || s == r.active || (s == r.target && r.state == J.PENDING_ACTIVATION))
  }

  /** When nothing is under way either slot may run, during an update the one it left
    * alone, and once it awaits activation the updated one as well. */
  lemma AllowedExactly(r: J.Journal, s: word)
    ensures Allowed(r, s) <==> s <= 1 && (r.state != 0 ==> s == r.active || (r.state == 8 && s == r.target))
  {
  }

  function StateOf(m: Loaded<M.Metadata>): word {
    if m.Present? then m.record.state else M.EMPTY
  }

  function AttemptsOf(m: Loaded<M.Metadata>): word {
    if m.Present? then m.record.attempts else 0
  }

  predicate Confirmed(d: System, s: word) {
    IsSlot(s) && StateOf(d.metadata.At(s)) == M.CONFIRMED
  }

  /** lifecycle_priority: zero means the slot may not be started. */
  function Priority(state: word): nat {
    if state == M.TRIAL then 3 else if state == M.PENDING then 2 else if state == M.CONFIRMED then 1 else 0
  }

  /** A header found in the slot that ValidateAndPublish accepts as `h`. */
  predicate Matches(id: slot, bytes: SlotBytes, h: Header) {
    && Bootable(id, bytes)
    && HeaderOf(bytes).headerCrc == h.headerCrc
    && HeaderOf(bytes).softwareVersion == h.softwareVersion
    && HeaderOf(bytes).imageCrc == h.imageCrc
  }

  /** The version must exceed that of the image in the active slot, if there is one. */
  predicate Supersedes(h: Header, active: word, slots: Pair<SlotBytes>) {
    IsSlot(active) && Bootable(active, slots.At(active)) ==> h.softwareVersion > VersionOf(slots.At(active))
  }

  /** ValidateAndPublish accepts the header: the payload in the target is its image. */
  predicate AcceptedHeader(active: word, target: word, h: Header, slots: Pair<SlotBytes>) {
    && IsSlot(target) && target != active
    && Validate(target, h, slots.At(target)) == VALID
    && Supersedes(h, active, slots)
  }

  /** The slots after it did. */
  function PublishedIn(target: slot, h: Header, slots: Pair<SlotBytes>): Pair<SlotBytes> {
    if Matches(target, slots.At(target), h) then slots
    else slots.Put(target, Published(slots.At(target), h))
  }

  /** The journal's target holds a validated image under the journal's header. */
  predicate Installed(r: J.Journal, slots: Pair<SlotBytes>) {
    && IsSlot(r.target)
    && Validate(r.target, r.header, slots.At(r.target)) == VALID
    && Matches(r.target, slots.At(r.target), r.header)
    && Supersedes(r.header, r.active, slots)
  }

  // ------------------------------------------------------------ atomic steps

  /** BootJournal_Commit of `next` after `r`. */
  function Committed(r: J.Journal, next: J.Journal): J.Journal {
    J.Stamp(next, Add(r.sequence, 1))
  }

  const NO_HEADER: Header := Header(0, 0, 0, 0, 0, 0, 0, 0, 0, [0, 0, 0, 0, 0, 0], 0)
  const ZERO: J.Journal := J.Journal(0, 0, 0, 0, 0, 0, 0, 0, 0, 0, 0, 0, 0, 0, NO_HEADER, 0, 0)

  /** The record BootUpdate_Begin builds: a new transaction, old progress forgotten. */
  function BeginRecord(r: J.Journal, active: word, target: word, size: word): J.Journal {
    ZERO.(transaction := Add(r.transaction, 1), active := active, target := target,
          state := J.PREPARING, expectedSize := size)
  }

  function Begun(r: J.Journal, active: word, target: word, size: word): J.Journal {
    Committed(r, BeginRecord(r, active, target, size))
  }

  function Advanced(r: J.Journal, state: word): J.Journal { Committed(r, r.(state := state)) }

  function Aborted(r: J.Journal, reason: word): J.Journal {
    Committed(r, r.(state := J.ABORTED, lastResult := reason))
  }

  function Progressed(r: J.Journal, committed: word, block: word): J.Journal {
    Committed(r, r.(committedSize := committed, lastBlock := block))
  }

  function TransferCompleted(r: J.Journal, h: Header, block: word): J.Journal {
    Committed(r, r.(header := h, flags := J.HEADER_KNOWN, targetVersion := h.softwareVersion,
                    expectedCrc := h.imageCrc, committedSize := r.expectedSize, lastBlock := block,
                    state := J.TRANSFER_COMPLETE))
  }

  function Activated(r: J.Journal, result: word): J.Journal {
    Committed(r, r.(state := J.PENDING_ACTIVATION, lastResult := result))
  }

  /** BootUpdate_TransitionAllowed. */
  predicate TransitionAllowed(from: word, to: word) {
    if from == J.PENDING_ACTIVATION && to == J.IDLE then true
    else if to == J.PREPARING then from in {J.IDLE, J.ABORTED, J.PENDING_ACTIVATION}
    else if to == J.ABORTED then J.PREPARING <= from <= J.ABORTED
    else J.PREPARING <= from < J.PENDING_ACTIVATION && to == from + 1
  }

  /** This commit activates an update: it awaits activation from now on. */
  predicate Activates(before: Loaded<J.Journal>, r: J.Journal) {
    r.state == J.PENDING_ACTIVATION && IsSlot(r.target)
      && !(before.Present? && before.record.state == J.PENDING_ACTIVATION)
  }

  /** A journal record becomes durable. An activation opens the accounts of its
    * transaction: no installation yet, and no start of the target on trial. */
  function WithJournal(d: System, r: J.Journal): System {
    if Activates(d.journal, r) then d.(journal := Present(r), trialJumps := d.trialJumps.Put(r.target, 0),
                                       installs := 0)
    else d.(journal := Present(r))
  }

  /** The bytes of slot `s` change; that is all an erase or program of a slot does. */
  function WithSlot(d: System, s: slot, bytes: SlotBytes): System { d.(slots := d.slots.Put(s, bytes)) }

  /** A metadata record becomes durable. A VERIFIED one is an installation; a
    * durable trial attempt may be used for one jump. */
  function WithMetadata(d: System, s: slot, m: M.Metadata): System {
    d.(metadata := d.metadata.Put(s, Present(m)),
       installs := if m.state == M.VERIFIED then d.installs + 1 else d.installs,
       armed := if m.state == M.TRIAL then Some(s) else None)
  }

  function WithCertified(d: System, s: slot): System {
    d.(certified := d.certified.Put(s, d.slots.At(s)))
  }

  /** Journal commits of boot_update.c and the conditions its code puts on them. */
  predicate JournalStep(d: System, e: System) {
    && d.journal.Present? && e.journal.Present? && e == WithJournal(d, e.journal.record)
    && J.FieldsValid(e.journal.record)
    && var r, n := d.journal.record, e.journal.record;
       || (exists a: word, t: slot :: BeginStep(d, r, n, a, t))
       || (n == Advanced(r, n.state) && J.PREPARING <= r.state < J.VERIFIED && n.state == r.state + 1
           && r.state != J.PROGRAMMING)
       || (r.state == J.PROGRAMMING && n.state == J.PROGRAMMING && n == Progressed(r, n.committedSize, n.lastBlock))
       || (r.state == J.PROGRAMMING && n == TransferCompleted(r, n.header, n.lastBlock))
       || (r.state == J.VERIFIED && n == Activated(r, n.lastResult) && Installed(r, d.slots)
           && d.slots.At(r.target) == d.certified.At(r.target))
       || (J.PREPARING <= r.state <= J.ABORTED && n == Aborted(r, n.lastResult))
       || (n == Advanced(r, J.IDLE) && HandoffReady(d, r))
  }

  /** BootUpdate_Begin behind BootProgramming_Erase. */
  predicate BeginStep(d: System, r: J.Journal, n: J.Journal, active: word, target: slot) {
    && n == Begun(r, active, target, SLOT_SIZE)
    && target != active && TransitionAllowed(r.state, J.PREPARING)
    && if active == UNKNOWN then
         r.active == UNKNOWN && !d.metadata.a.Present? && !d.metadata.b.Present?
       else
         Confirmed(d, active) && Allowed(r, active)
  }

  /** reconcile_journal commits IDLE only over a durable PENDING target of this
    * transaction and, when there is an active slot, its CONFIRMED record. */
  predicate HandoffReady(d: System, r: J.Journal) {
    && r.state == J.PENDING_ACTIVATION && IsSlot(r.target)
    && Handed(r, d.metadata.At(r.target))
    && (IsSlot(r.active) ==> Confirmed(d, r.active))
  }

  /** The metadata that reconcile_journal takes as already handed over. */
  predicate Handed(r: J.Journal, m: Loaded<M.Metadata>) {
    HandedAs(m, r.header.softwareVersion, r.transaction)
  }

  predicate HandedAs(m: Loaded<M.Metadata>, version: word, counter: word) {
    m.Present? && m.record.state == M.PENDING && m.record.imageVersion == version && m.record.updateCounter == counter
  }

  /** The metadata on the way there: installed, still to be made PENDING. */
  predicate AlreadyInstalled(m: Loaded<M.Metadata>, version: word, counter: word) {
    m.Present? && m.record.state == M.VERIFIED && m.record.imageVersion == version && m.record.updateCounter == counter
  }

  predicate InstalledFor(r: J.Journal, m: Loaded<M.Metadata>) {
    AlreadyInstalled(m, r.header.softwareVersion, r.transaction)
  }

  /** Metadata commits and the conditions under which they are made. */
  predicate MetadataStep(d: System, e: System, s: slot, n: M.Metadata) {
    && d.journal.Present? && e == WithMetadata(d, s, n) && M.FieldsValid(n)
    && var r, m := d.journal.record, d.metadata.At(s);
       || (r.state == J.PENDING_ACTIVATION && s == r.target && (IsSlot(r.active) ==> Confirmed(d, r.active))
           && n.imageVersion == r.header.softwareVersion && n.updateCounter == r.transaction
           && (|| (n.state == M.VERIFIED && !Handed(r, m) && !InstalledFor(r, m))
               || (n.state == M.PENDING && InstalledFor(r, m))))
       || (m.Present? && n.imageVersion == m.record.imageVersion && n.updateCounter == m.record.updateCounter
           && (|| (m.record.state == M.PENDING && n.state == M.TRIAL && n.attempts == 1
                   && r.state != J.PENDING_ACTIVATION)
               || (m.record.state == M.TRIAL && n.state == M.TRIAL && n.attempts == m.record.attempts + 1
                   && r.state != J.PENDING_ACTIVATION)
               || (m.record.state == M.TRIAL && n.state == M.CONFIRMED)
               || (m.record.state == M.TRIAL && n.state == M.INVALID && n.attempts == m.record.attempts)))
       || (!m.Present? && n.state == M.CONFIRMED && s == r.active && Bootable(s, d.slots.At(s)))
  }

  /** A write cut before a first record was whole: there still is none. */
  predicate BlankStep(d: System, e: System, s: slot) {
    && !d.metadata.At(s).Present? && !e.metadata.At(s).Present?
    && e == d.(metadata := d.metadata.Put(s, e.metadata.At(s)))
  }

  /** An erase or program of the update target, complete or torn. */
  predicate SlotStep(d: System, e: System, s: slot) {
    && d.journal.Present?
    && s == d.journal.record.target
    && d.journal.record.state in {J.ERASING, J.PROGRAMMING, J.VERIFYING, J.VERIFIED}
    && e == WithSlot(d, s, e.slots.At(s))
  }

  /** A validated target is recorded as certified. */
  predicate CertifyStep(d: System, e: System) {
    && d.journal.Present? && d.journal.record.state in {J.VERIFYING, J.VERIFIED, J.PENDING_ACTIVATION}
    && Installed(d.journal.record, d.slots)
    && e == WithCertified(d, d.journal.record.target)
  }

  /** A start on trial uses up a counted attempt, and never while an activation is
    * still to be handed over. */
  predicate JumpStep(d: System, e: System, s: slot) {
    if StateOf(d.metadata.At(s)) == M.TRIAL then
      && d.armed == Some(s) && d.journal.Present? && d.journal.record.state != J.PENDING_ACTIVATION
      && e == d.(trialJumps := d.trialJumps.Put(s, d.trialJumps.At(s) + 1), armed := None)
    else
      e == d.(armed := None)
  }

  ghost predicate Step(d: System, e: System) {
    || JournalStep(d, e)
    || (exists s: slot, n: M.Metadata :: MetadataStep(d, e, s, n))
    || (exists s: slot :: BlankStep(d, e, s))
    || (exists s: slot :: SlotStep(d, e, s))
    || CertifyStep(d, e)
    || (exists s: slot :: JumpStep(d, e, s))
    || e == d.(armed := None)
  }

  ghost predicate Steps(d: System, e: System, n: nat)
    decreases n
  {
    if n == 0 then d == e else exists m: System :: Step(d, m) && Steps(m, e, n - 1)
  }

  /** Some run of the bootloader, interrupted by resets anywhere, leads from `d` to `e`. */
  ghost predicate Reaches(d: System, e: System) {
    exists n: nat :: Steps(d, e, n)
  }

  lemma ReachesSelf(d: System)
    ensures Reaches(d, d)
  {
    assert Steps(d, d, 0);
  }

  lemma ReachesStep(d: System, e: System)
    requires Step(d, e)
    ensures Reaches(d, e)
  {
    assert Steps(e, e, 0);
    assert Steps(d, e, 1);
  }

  lemma {:induction false} StepsCompose(d: System, e: System, f: System, n: nat, k: nat)
    requires Steps(d, e, n) && Steps(e, f, k)
    ensures Steps(d, f, n + k)
    decreases n
  {
    hide Step;
    if n > 0 {
      var m: System :| Step(d, m) && Steps(m, e, n - 1);
      StepsCompose(m, e, f, n - 1, k);
      assert Step(d, m) && Steps(m, f, n + k - 1);
    }
  }

  lemma ReachesTransitive(d: System, e: System, f: System)
    requires Reaches(d, e) && Reaches(e, f)
    ensures Reaches(d, f)
  {
    hide Step, Steps;
    var n: nat :| Steps(d, e, n);
    var k: nat :| Steps(e, f, k);
    StepsCompose(d, e, f, n, k);
  }
}
