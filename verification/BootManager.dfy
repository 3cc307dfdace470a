/** One start of the device: recovery, selection, and the jump into an image or
  * the programming server (boot_manager.c). */
module BootManager {
  import opened Bytes
  import opened Slots
  import opened TwinStore
  import opened ImageFormat
  import opened Protocol
  import opened Safety
  import opened BootCycle
  import opened Trials
  import opened FlashMap
  import opened FlashModel
  import opened UpdateManager
  import BootImage
  import Lifecycle
  import Programming
  import J = JournalFormat
  import M = MetadataFormat

  /** The valid and version parts of BootImageInfoType. */
  datatype Info = Info(valid: bool, version: word)

  /** What the reset left in the request words and in the reset status register,
    * and the state of the request pin. */
  datatype Inputs = Inputs(
    reason: word, softwareReset: bool, softwareRequest: bool, hardwareRequest: bool,
    confirmRequest: bool, requested: word)

  datatype Ending = Jump(target: slot) | Server | Normalisation | Error

  lemma SystemSlots(m: Memory, h: History, s: slot)
    ensures SystemOf(m, h).slots.At(s) == SlotOf(m, s)
  {
    hide JournalOf, MetadataOf;
  }

  const VECTOR_ALIGNMENT: nat := 0x400

  /** The last look at stack pointer and reset handler. */
  predicate VectorsSafe(s: slot, stack: word, reset: word) {
    && stack != 0 && stack != 0xFFFF_FFFF && SRAM_START <= stack <= SRAM_END && stack % 8 == 0
    && reset != 0 && reset != 0xFFFF_FFFF && reset % 2 == 1
    && Base(s) <= ResetAddress(reset) < HeaderAddress(s)
  }

  /** The vectors of a valid image pass. */
  lemma ValidVectors(s: slot, bytes: SlotBytes)
    requires Bootable(s, bytes)
    ensures VectorsSafe(s, WordAt(bytes, 0), WordAt(bytes, 4))
  {
    hide WordAt, HeaderOf, ImageFormat.Validate;
    ValidExactly(s, HeaderOf(bytes), bytes);
  }

  /** A slot in which the device runs: the journal allows it, its image is valid,
    * and it is confirmed or on a trial attempt that was counted. */
  predicate Entitled(d: System, s: slot) {
    && d.journal.Present? && Allowed(d.journal.record, s) && Bootable(s, d.slots.At(s))
    && StateOf(d.metadata.At(s)) in {M.TRIAL, M.CONFIRMED}
  }

  ghost predicate Launches(d: System, e: System, s: slot, reason: word, uneventful: bool, ending: Ending) {
    && (Lifecycle.NothingAwaits(d) ==> Moves(d, e)) && (ending == Error || ending == Jump(s))
    && (ending == Jump(s) ==> Entitled(e, s) && e == Jumped(Prepared(d, s, reason), s))
    && (uneventful && Safe(d) && Runs(d.metadata.At(s)) && !Exhausted(d.metadata.At(s)) ==> ending == Jump(s))
    && (StateOf(d.metadata.At(s)) == M.CONFIRMED ==> ending == Jump(s))
  }

  /** What becomes of a start that comes to decide in state `c`: a request leads to
    * the programming server, so does having nothing to run; otherwise the chosen
    * slot is started, after a reset that normalises the start. */
  predicate Decided(c: System, e: System, inputs: Inputs, ending: Ending) {
    if inputs.softwareRequest || inputs.hardwareRequest || Choice(c) == None then ending == Server && e == c
    else if !inputs.softwareReset then ending == Normalisation && e == c
    else ending == Jump(Choice(c).value) && e == Jumped(Prepared(c, Choice(c).value, inputs.reason), Choice(c).value)
  }

  /** How a start ends when nothing goes wrong. From a safe state there is always
    * a slot to run; a device whose first start is still to be made, or was cut
    * short, gets what is left of that start. */
  ghost predicate Ended(d: System, e: System, inputs: Inputs, uneventful: bool, ending: Ending) {
    uneventful ==>
      && (Safe(d) ==> Recoverable(d) && Choice(Asked(d, inputs)).Some? && Decided(Asked(d, inputs), e, inputs, ending))
      && (Lifecycle.Starting(d) ==>
            d.journal.Present? && IsSlot(d.journal.record.active)
              && Decided(Lifecycle.Restarted(d, inputs.reason), e, inputs, ending))
  }

  lemma PrepareMoves(d: System, e: System, s: slot, reason: word, uneventful: bool, ok: bool)
    requires Lifecycle.Prepares(d, e, s, reason, uneventful, ok)
    ensures Lifecycle.NothingAwaits(d) ==> Moves(d, e)
  {
    hide Safe, Reaches, Trials.Prepared;
  }

  /** The slot is still released once its attempt has been counted. */
  lemma PreparedRuns(d: System, s: slot, reason: word)
    ensures Prepared(d, s, reason).slots == d.slots && Prepared(d, s, reason).journal == d.journal
    ensures Runs(d.metadata.At(s)) ==>
      Prepared(d, s, reason).metadata.At(s).Present?
        && StateOf(Prepared(d, s, reason).metadata.At(s)) in {M.TRIAL, M.CONFIRMED}
  {
    hide M.BodyCrc;
  }

  lemma JumpMoves(d: System, e: System, s: slot, reason: word)
    requires Lifecycle.NothingAwaits(d) ==> Moves(d, e)
    requires e == Prepared(d, s, reason) && (StateOf(e.metadata.At(s)) == M.TRIAL ==> e.armed == Some(s))
    requires d.journal.Present? && Allowed(d.journal.record, s) && Bootable(s, d.slots.At(s)) && Runs(d.metadata.At(s))
    ensures Lifecycle.NothingAwaits(d) ==> Moves(d, Jumped(e, s))
    ensures Entitled(Jumped(e, s), s)
  {
    hide Safe, Reaches, Bootable, M.BodyCrc, Moves;
    if Lifecycle.NothingAwaits(d) {
      assert JumpStep(e, Jumped(e, s), s);
      MovesStep(e, Jumped(e, s));
      MovesCompose(d, e, Jumped(e, s));
    }
  }

  lemma LaunchMoves(d: System, e: System, f: System, s: slot, reason: word, uneventful: bool, ending: Ending)
    requires Moves(d, e) && Launches(e, f, s, reason, uneventful, ending) && (Safe(d) ==> Lifecycle.NothingAwaits(e))
    ensures Moves(d, f) && (ending.Jump? ==> Entitled(f, ending.target))
    ensures ending == Error || ending == Jump(s)
  {
    hide Entitled, Safe, Reaches, Prepared;
    if Safe(d) {
      MovesCompose(d, e, f);
    }
  }

  lemma RequestEnds(d: System, e: System, inputs: Inputs, uneventful: bool)
    requires inputs.softwareRequest || inputs.hardwareRequest
    requires Decides(d, e, inputs, uneventful)
    ensures Ended(d, e, inputs, uneventful, Server)
  {
    hide Safe, Choice, Lifecycle.Starting, Lifecycle.Restarted, Asked;
  }

  lemma SelectionEnds(d: System, e: System, inputs: Inputs, uneventful: bool, target: Option<slot>, ending: Ending)
    requires Decides(d, e, inputs, uneventful) && !inputs.softwareRequest && !inputs.hardwareRequest
    requires uneventful && (Safe(d) || Lifecycle.Starting(d)) ==> target == Choice(e)
    requires ending == (if target == None then Server else Normalisation) && (target == None || !inputs.softwareReset)
    ensures Ended(d, e, inputs, uneventful, ending)
  {
    hide Safe, Choice, Lifecycle.Starting, Lifecycle.Restarted, Asked, Prepared, Jumped;
  }

  lemma LaunchEnds(d: System, e: System, f: System, inputs: Inputs, starting: bool, s: slot, launching: bool,
                   ending: Ending)
    requires Decides(d, e, inputs, starting) && !inputs.softwareRequest && !inputs.hardwareRequest
    requires inputs.softwareReset
    requires starting && (Safe(d) || Lifecycle.Starting(d)) ==> Some(s) == Choice(e)
    requires Launches(e, f, s, inputs.reason, launching, ending)
    ensures Ended(d, f, inputs, starting && launching, ending)
  {
    hide Safe, Choice, Lifecycle.Starting, Lifecycle.Restarted, Asked, Prepared, Jumped, Moves, Entitled;
  }

  /** The state a start comes to decide in, and that there is something to choose. */
  ghost predicate Decides(d: System, e: System, inputs: Inputs, uneventful: bool) {
    uneventful ==>
      && (Safe(d) ==> Recoverable(d) && e == Asked(d, inputs) && Safe(e) && Choice(e).Some?
                      && Runs(e.metadata.At(Choice(e).value)) && !Exhausted(e.metadata.At(Choice(e).value)))
      && (Lifecycle.Starting(d) ==>
            && d.journal.Present? && IsSlot(d.journal.record.active) && e == Lifecycle.Restarted(d, inputs.reason)
            && (Choice(e).Some? ==> StateOf(e.metadata.At(Choice(e).value)) == M.CONFIRMED))
  }

  /** After an undisturbed start from a safe state there is a slot to run, and it
    * has attempts left. */
  lemma AskedIsSettled(d: System, inputs: Inputs)
    requires Safe(d) && Recoverable(d) && inputs.reason <= M.RESET_DEBUG
    ensures var c := Asked(d, inputs);
      && Safe(c) && AtRest(c)
      && Choice(c).Some? && Runs(c.metadata.At(Choice(c).value)) && !Exhausted(c.metadata.At(Choice(c).value))
  {
    hide Safe, Booted, Choice, Bootable, UngatedChoice;
    BootedIsSafe(d, inputs.reason);
    var b := Booted(d, inputs.reason);
    if IsSlot(inputs.requested) {
      ConfirmedIsSafe(b, inputs);
    }
    var c := Asked(d, inputs);
    assert Rested(c);
    SafeChoice(c);
  }

  lemma ConfirmedIsSafe(d: System, inputs: Inputs)
    requires Safe(d) && Rested(d) && inputs.reason <= M.RESET_DEBUG && IsSlot(inputs.requested)
    ensures var e := ConfirmRequested(d, inputs.requested, inputs.reason);
      Safe(e) && Rested(e)
  {
    hide Safe, UngatedChoice, M.BodyCrc;
    var s := inputs.requested;
    var e := ConfirmRequested(d, s, inputs.reason);
    if e != d {
      Lifecycle.SafeRecord(d, s);
      var n := TrialConfirmed(s, d.metadata.At(s).record, inputs.reason);
      assert MetadataStep(d, e, s, n);
      MetadataStepKeepsSafe(d, e, s, n);
      assert e.metadata.At(s) == Present(n) && n.state == M.CONFIRMED;
      assert e.metadata.At(Other(s)) == d.metadata.At(Other(s));
      assert !Exhausted(d.metadata.At(Other(s)));
    }
  }

  /** A boot that nothing interrupts, when it comes to decide how to go on. */
  function Asked(d: System, inputs: Inputs): System
    requires Recoverable(d)
  {
    var b := Booted(d, inputs.reason);
    if inputs.confirmRequest && IsSlot(inputs.requested) then ConfirmRequested(b, inputs.requested, inputs.reason)
    else b
  }

  /** The state in which the boot comes to look for requests. */
  ghost predicate Rebooted(d: System, e: System, reason: word, undisturbed: bool, uneventful: bool, fault: bool) {
    Safe(d) ==>
      && Continues(d, e, undisturbed) && (fault || AtRest(e))
      && (uneventful ==> !fault && Recoverable(d) && e == Booted(d, reason))
  }

  lemma BootMoves(d: System, e: System, f: System, reason: word, can: bool, recovery: bool, first: bool,
                  rest: bool, second: bool, ready: bool, clean: bool)
    requires Safe(d) && Safe(e) && Continues(d, e, first) && (recovery ==> can && Recoverable(d) && e == Recover(d))
    requires can ==> AtRest(e) || !Lifecycle.NothingAwaits(e)
    requires Lifecycle.Initialised(e, f, reason, can, second, rest, ready, clean) && (!can ==> f == e)
    ensures Continues(d, f, first && second)
    ensures recovery && rest ==> clean && Recoverable(d) && f == Booted(d, reason)
  {
    hide Safe, Continues, Recover, HandOff, Resolved;
    ContinuesAlso(d, e, first, first && second);
    if can {
      ContinuesAlso(e, f, second, first && second);
      ContinuesThen(d, e, f, first && second, first && second);
    }
  }

  lemma ContinuesSafely(d: System, e: System, undisturbed: bool)
    requires Safe(d) && Continues(d, e, undisturbed)
    ensures Safe(e)
  {
    hide Safe, Reaches, SameOutcome;
    ReachableIsSafe(d, e);
  }

  /** Recovered, confirmed if asked to: what a boot decides upon. */
  ghost predicate Started(d: System, e: System, inputs: Inputs, uneventful: bool, fault: bool) {
    && (Safe(d) ==>
          && Reaches(d, e) && (fault || AtRest(e))
          && (uneventful ==> !fault && Recoverable(d) && e == Asked(d, inputs)))
    && (Lifecycle.Starting(d) ==> Lifecycle.Restarts(d, e, inputs.reason, uneventful, fault))
  }

  lemma RebootedReaches(d: System, e: System, reason: word, undisturbed: bool, uneventful: bool, fault: bool)
    requires Rebooted(d, e, reason, undisturbed, uneventful, fault)
    ensures Safe(d) ==> Reaches(d, e) && (fault || AtRest(e)) && Safe(e)
    ensures Safe(d) && uneventful ==> !fault && Recoverable(d) && e == Booted(d, reason)
  {
    hide Safe, Reaches, Booted, SameOutcome;
    if Safe(d) {
      ReachableIsSafe(d, e);
    }
  }

  lemma StartMoves(d: System, e: System, f: System, inputs: Inputs, fault: bool, confirming: bool, ok: bool)
    requires Lifecycle.Confirms(e, f, inputs.requested, inputs.reason, fault, confirming, ok)
    requires Safe(d) ==> Safe(e) && Reaches(d, e) && (fault || AtRest(e))
    ensures Safe(d) ==> Reaches(d, f)
    ensures Safe(e) && confirming && !fault && IsSlot(inputs.requested) ==>
      f == ConfirmRequested(e, inputs.requested, inputs.reason)
    ensures (fault ==> f == e) && (AtRest(e) ==> AtRest(f))
  {
    hide Safe, Reaches, ConfirmRequested;
    if Safe(d) {
      ReachesTransitive(d, e, f);
    }
  }

  /** A first start leaves nothing a confirmation could be asked for. */
  lemma FirstStartHasNoTrial(d: System, e: System, s: slot, reason: word, uneventful: bool, fault: bool)
    requires Lifecycle.Starting(d) && Lifecycle.Restarts(d, e, reason, uneventful, fault)
    ensures StateOf(e.metadata.At(s)) != M.TRIAL
  {
    hide Bootable, VersionOf, M.BodyCrc;
  }

  lemma FirstStartDecides(d: System, reason: word)
    requires Lifecycle.Starting(d)
    ensures d.journal.Present? && IsSlot(d.journal.record.active)
    ensures var e := Lifecycle.Restarted(d, reason);
      && AtRest(e) && (Lifecycle.BothInvalid(d) ==> Choice(e) == None)
      && (Choice(e).Some? ==> StateOf(e.metadata.At(Choice(e).value)) == M.CONFIRMED)
  {
    hide Bootable, VersionOf, M.BodyCrc;
  }

  /** What is known of the state in which a start decides. */
  ghost predicate Checked(d: System, e: System, inputs: Inputs, uneventful: bool, fault: bool) {
    && Moves(d, e) && Decides(d, e, inputs, uneventful)
    && (Safe(d) ==> fault || (AtRest(e) && Lifecycle.NothingAwaits(e)))
    && (Safe(d) && uneventful ==> !fault && Recoverable(d) && e == Asked(d, inputs))
    && (uneventful && (Safe(d) || Lifecycle.Starting(d)) ==> AtRest(e) && (fault ==> Choice(e) == None))
    && (Lifecycle.Stranded(d) ==> e == d && AtRest(d) && Choice(d) == None)
  }

  lemma StartedMoves(d: System, e: System, inputs: Inputs, uneventful: bool, fault: bool)
    requires Started(d, e, inputs, uneventful, fault) && inputs.reason <= M.RESET_DEBUG
    ensures Moves(d, e) && (Safe(d) ==> fault || (AtRest(e) && Lifecycle.NothingAwaits(e)))
    ensures Safe(d) && uneventful ==> !fault && Recoverable(d) && e == Asked(d, inputs)
    ensures Decides(d, e, inputs, uneventful)
    ensures uneventful && (Safe(d) || Lifecycle.Starting(d)) ==> AtRest(e) && (fault ==> Choice(e) == None)
  {
    hide Safe, Reaches, Asked, Choice, Lifecycle.Starting, Lifecycle.Restarted, Lifecycle.BothInvalid;
    if uneventful && Safe(d) {
      AskedIsSettled(d, inputs);
    }
    if Lifecycle.Starting(d) {
      FirstStartDecides(d, inputs.reason);
    }
  }

  lemma SettledReleases(m: Manager, s: slot)
    requires m.Valid() && m.Settled()
    ensures m.Released(s) <==> Startable(m.flash.State(), s)
  {
    hide SystemOf, Unambiguous, Outside, Bootable, Installed, J.FieldsValid;
    var r := m.update.current;
    assert m.flash.State().journal == Present(r);
    JournalIsValid(m.flash.mem[..], m.flash.history);
    RecordSlots(r);
  }

  /** After a fault nothing is selected. */
  lemma SelectsNothing(m: Manager)
    ensures m.lifecycle.storageFault ==>
      m.lifecycle.Select(m.slotA.valid, m.slotA.version, m.slotB.valid, m.slotB.version) == None
  {
  }

  lemma ReleasedByInfo(m: Manager, s: word)
    requires m.InfosRight()
    ensures IsSlot(s) ==> (m.InfoOf(s).valid <==> m.Released(s))
  {
    hide SystemOf, Bootable, VersionOf;
  }

  /** A slot beside which an update may start is released. */
  lemma StartIsReleased(m: Manager, s: slot)
    requires m.Valid()
    ensures Programming.MayStart(m.update, m.lifecycle, s) && Bootable(s, m.flash.State().slots.At(s)) ==> m.Released(s)
  {
    hide SystemOf, Unambiguous, Outside, Bootable;
  }

  lemma SettledChoice(m: Manager)
    requires m.Valid() && m.Settled() && m.InfosRight()
    ensures m.lifecycle.Select(m.slotA.valid, m.slotA.version, m.slotB.valid, m.slotB.version)
         == Choice(m.flash.State())
  {
    hide SystemOf, Unambiguous, Outside, AtRest, Startable, VersionOf;
    SettledReleases(m, SLOT_A);
    SettledReleases(m, SLOT_B);
  }

  /** A first start that was cut stays so, whatever happens to the start. */
  lemma StrandedStarted(d: System, e: System, inputs: Inputs, uneventful: bool, fault: bool)
    requires Lifecycle.Stranded(d) && Started(d, e, inputs, uneventful, fault)
    ensures e == d && AtRest(d) && IsSlot(d.journal.record.active)
    ensures !d.metadata.a.Present? && !d.metadata.b.Present? && Choice(d) == None
  {
    hide Safe, Reaches, Asked, Lifecycle.Starting, Lifecycle.Restarts, Choice;
    Lifecycle.StrandedStays(d, e, inputs.reason, uneventful, fault);
  }

  /** A start that may go no further after a fault has nothing to run anyway. */
  lemma SettledTarget(m: Manager, target: Option<slot>)
    requires m.Valid() && AtRest(m.flash.State()) && (m.lifecycle.storageFault ==> Choice(m.flash.State()) == None)
    requires target == m.lifecycle.Select(m.slotA.valid, m.slotA.version, m.slotB.valid, m.slotB.version)
    requires m.Settled() ==> target == Choice(m.flash.State())
    ensures target == Choice(m.flash.State())
  {
    hide SystemOf, Unambiguous, Outside, AtRest, Choice;
  }

  predicate Recoverable(d: System) { d.journal.Present? && IsSlot(d.journal.record.target) }

  class Manager {
    const flash: Flash
    const update: Update
    const lifecycle: Lifecycle.Lifecycle
    var slotA: Info
    var slotB: Info
    var activeSlot: word
    var activeVersion: word

    constructor (flash: Flash, update: Update, lifecycle: Lifecycle.Lifecycle)
      ensures this.flash == flash && this.update == update && this.lifecycle == lifecycle
    {
      this.flash, this.update, this.lifecycle := flash, update, lifecycle;
      slotA, slotB, activeSlot, activeVersion := Info(false, 0), Info(false, 0), UNKNOWN, 0;
    }

    ghost predicate Valid()
      reads this, lifecycle, update, lifecycle.update, lifecycle.store, flash, flash.mem
    {
      && flash.mem.Length == FLASH_SIZE
      && lifecycle.update == update && lifecycle.flash == flash && lifecycle.Valid()
      && (lifecycle.storageFault || lifecycle.metadata == flash.State().metadata)
      && (lifecycle.storageFault || update.CanContinue())
    }

    /** BootManager_Init. */
    method Init(reason: word)
      requires flash.Consistent() && update.flash == flash && update.journal.flash == flash && reason <= M.RESET_DEBUG
      requires lifecycle.update == update && lifecycle.flash == flash && lifecycle.store.flash == flash
      requires lifecycle.resetReason <= M.RESET_DEBUG
      modifies update, update.journal, lifecycle, lifecycle.store, flash, flash.mem
      ensures Valid() && flash.Onward() && lifecycle.resetReason == reason && NothingOpen()
      ensures Rebooted(old(flash.State()), flash.State(), reason, flash.failures == old(flash.failures),
                       flash.Uneventful(), lifecycle.storageFault)
      ensures old(Lifecycle.Starting(flash.State())) ==>
        Lifecycle.Restarts(old(flash.State()), flash.State(), reason, flash.Uneventful(), lifecycle.storageFault)
    {
      hide SystemOf, Unambiguous, Outside, Safe, Continues, Recover, HandOff, Resolved, Lifecycle.Starting,
           Lifecycle.Restarts;
      ghost var d := flash.State();
      var recovered := update.LoadRecoveryState();
      ghost var e := flash.State();
      ghost var can, recovery := update.CanContinue(), flash.Uneventful();
      ghost var intact := flash.failures == old(flash.failures);
      label recovery:
      if Safe(d) {
        SafeIsPresent(d);
        ContinuesSafely(d, e, intact);
      }
      if Lifecycle.Starting(d) {
        Lifecycle.StartingRecord(d);
      }
      var ready := lifecycle.Init(reason);
      if Safe(d) {
        BootMoves(d, e, flash.State(), reason, can, recovery, intact, flash.Uneventful@recovery(),
                  flash.failures == old@recovery(flash.failures), ready,
                  update.CanContinue() && !lifecycle.storageFault);
      }
    }

    /** No update is left in the middle, as far as RAM may go on from it. */
    predicate NothingOpen()
      reads update
    {
      update.CanContinue() ==> !(J.PREPARING <= update.current.state < J.PENDING_ACTIVATION)
    }

    /** Look into the slots that journal and metadata both release. */
    method ScanSlots()
      requires Valid()
      modifies this`slotA, this`slotB
      ensures Valid() && InfosRight()
    {
      hide SystemOf, Unambiguous, Outside, ImageFormat.LoadInfo, HeaderOf;
      slotA, slotB := Info(false, 0), Info(false, 0);
      if update.IsSlotBootable(SLOT_A) && lifecycle.IsSlotBootable(SLOT_A) {
        var verdict, h := BootImage.LoadInfo(flash, SLOT_A);
        slotA := Info(verdict == Verdict.VALID, h.softwareVersion);
      }
      if update.IsSlotBootable(SLOT_B) && lifecycle.IsSlotBootable(SLOT_B) {
        var verdict, h := BootImage.LoadInfo(flash, SLOT_B);
        slotB := Info(verdict == Verdict.VALID, h.softwareVersion);
      }
    }

    /** BootManager_SelectBootTarget: a slot that journal and metadata do not both
      * release is not even scanned. */
    method SelectBootTarget() returns (target: Option<slot>)
      requires Valid()
      modifies this`slotA, this`slotB
      ensures Valid() && InfosRight()
      ensures target == lifecycle.Select(slotA.valid, slotA.version, slotB.valid, slotB.version)
      ensures target.Some? ==> update.CanContinue() && Released(target.value)
      ensures lifecycle.storageFault ==> target == None && !slotA.valid && !slotB.valid
      ensures Settled() ==> target == Choice(flash.State())
    {
      hide SystemOf, Unambiguous, Outside, ImageFormat.LoadInfo, HeaderOf, Safe, Choice, Settled;
      ScanSlots();
      target := lifecycle.Select(slotA.valid, slotA.version, slotB.valid, slotB.version);
      if Settled() {
        SettledChoice(this);
      }
    }

    function InfoOf(s: slot): Info
      reads this`slotA, this`slotB
    {
      if s == SLOT_A then slotA else slotB
    }

    /** Journal, metadata and image all release the slot. */
    ghost predicate Released(s: slot)
      reads lifecycle, update, flash, flash.mem
    {
      && flash.mem.Length == FLASH_SIZE && update.IsSlotBootable(s) && lifecycle.IsSlotBootable(s)
      && Bootable(s, flash.State().slots.At(s))
    }

    ghost predicate InfosRight()
      reads this`slotA, this`slotB, lifecycle, update, flash, flash.mem
    {
      && flash.mem.Length == FLASH_SIZE
      && (slotA.valid <==> Released(SLOT_A)) && (slotA.valid ==> slotA.version == VersionOf(flash.State().slots.a))
      && (slotB.valid <==> Released(SLOT_B)) && (slotB.valid ==> slotB.version == VersionOf(flash.State().slots.b))
    }

    /** Nothing went wrong in this boot, and nothing is left to do. */
    ghost predicate Settled()
      reads lifecycle, update, flash, flash.mem
    {
      flash.mem.Length == FLASH_SIZE && !lifecycle.storageFault && AtRest(flash.State())
    }

    /** BootManager_CaptureActiveSlot: the slot an update has to leave alone, and
      * the version it has to exceed. */
    method CaptureActiveSlot(softwareRequest: bool, requested: word)
      requires Valid()
      modifies this
      ensures Valid() && (IsSlot(activeSlot) || activeSlot == UNKNOWN)
      ensures activeSlot == UNKNOWN ==> !(update.journalValid && IsSlot(update.current.active))
      ensures CapturedRight(softwareRequest, requested) && VersionCaptured()
    {
      hide SystemOf, Unambiguous, Outside, Bootable, HeaderOf, Safe, Choice, AtRest, VersionOf, Programming.MayStart;
      ChooseActiveSlot(softwareRequest, requested);
      activeVersion := if IsSlot(activeSlot) && InfoOf(activeSlot).valid then InfoOf(activeSlot).version else 0;
      if IsSlot(activeSlot) {
        StartIsReleased(this, activeSlot);
      }
    }

    method ChooseActiveSlot(softwareRequest: bool, requested: word)
      requires Valid()
      modifies this
      ensures Valid() && InfosRight() && (IsSlot(activeSlot) || activeSlot == UNKNOWN)
      ensures activeSlot == UNKNOWN ==> !(update.journalValid && IsSlot(update.current.active))
      ensures CapturedRight(softwareRequest, requested)
    {
      hide SystemOf, Unambiguous, Outside, Bootable, HeaderOf, Safe, Choice, VersionOf, SelectLifecycle, Released,
           Lifecycle.Lifecycle.Select, InfosRight, AtRest;
      var target := SelectBootTarget();
      ReleasedByInfo(this, requested);
      SelectsNothing(this);
      activeSlot := if target.Some? then target.value else UNKNOWN;
      if activeSlot == UNKNOWN && update.journalValid && update.current.active <= 1 {
        activeSlot := update.current.active;
      }
      if softwareRequest && IsSlot(requested) && InfoOf(requested).valid {
        activeSlot := requested;
      }
    }

    /** A released slot that the application names is taken at its word; otherwise it
      * is the slot this start would run, and only where there is none to run the one
      * the journal protects. */
    ghost predicate CapturedRight(softwareRequest: bool, requested: word)
      reads this, lifecycle, update, flash, flash.mem
    {
      && flash.mem.Length == FLASH_SIZE
      && if softwareRequest && IsSlot(requested) && Released(requested) then activeSlot == requested
         else
           && (Settled() && Choice(flash.State()).Some? ==> activeSlot == Choice(flash.State()).value)
           && (Settled() && Choice(flash.State()) == None && update.journalValid && IsSlot(update.current.active) ==>
                 activeSlot == update.current.active)
           && (lifecycle.storageFault && update.journalValid && IsSlot(update.current.active) ==>
                 activeSlot == update.current.active)
    }

    /** The lifecycle lets an update begin beside the captured slot. */
    predicate MayUpdate()
      reads this, lifecycle
    {
      lifecycle.CanStartUpdate(activeSlot, Programming.TargetOf(activeSlot))
    }

    /** The captured version is that of the image in the captured slot, if it is
      * released, which it is wherever an update may be started. */
    ghost predicate VersionCaptured()
      reads this, lifecycle, update, flash, flash.mem
    {
      && flash.mem.Length == FLASH_SIZE
      && (IsSlot(activeSlot) && Released(activeSlot) ==> activeVersion == VersionOf(flash.State().slots.At(activeSlot)))
      && Programming.Captured(Programming.MayStart(update, lifecycle, activeSlot), activeSlot, activeVersion,
                              flash.State().slots)
    }

    /** The jump, as the history records it. */
    ghost method NoteJump(s: slot)
      requires flash.mem.Length == FLASH_SIZE
      modifies flash`history
      ensures flash.State() == Jumped(old(flash.State()), s)
    {
      hide JournalOf, SlotOf;
      if StateOf(flash.State().metadata.At(s)) == M.TRIAL {
        var jumps := flash.history.trialJumps;
        flash.history := flash.history.(trialJumps := jumps.Put(s, jumps.At(s) + 1));
      }
      flash.history := flash.history.(armed := None);
    }

    /** BootManager_Run up to the requests. */
    method Start(inputs: Inputs)
      requires flash.Consistent() && update.flash == flash && update.journal.flash == flash
      requires inputs.reason <= M.RESET_DEBUG
      requires lifecycle.update == update && lifecycle.flash == flash && lifecycle.store.flash == flash
      requires lifecycle.resetReason <= M.RESET_DEBUG
      modifies this, update, update.journal, lifecycle, lifecycle.store, flash, flash.mem
      ensures Valid() && flash.Onward() && lifecycle.resetReason == inputs.reason && NothingOpen()
      ensures Started(old(flash.State()), flash.State(), inputs, flash.Uneventful(), lifecycle.storageFault)
    {
      hide SystemOf, Unambiguous, Outside, Safe, Reaches, Booted, ConfirmRequested, Recoverable, Lifecycle.Restarts,
           Continues, Lifecycle.Starting;
      ghost var d := flash.State();
      Init(inputs.reason);
      ghost var e := flash.State();
      ghost var booting, fault := flash.Uneventful(), lifecycle.storageFault;
      ghost var intact := flash.failures == old(flash.failures);
      RebootedReaches(d, e, inputs.reason, intact, booting, fault);
      label booted:
      if inputs.confirmRequest && IsSlot(inputs.requested) {
        if Lifecycle.Starting(d) {
          FirstStartHasNoTrial(d, e, inputs.requested, inputs.reason, booting, fault);
        }
        var confirmed := lifecycle.Confirm(inputs.requested);
        StartMoves(d, e, flash.State(), inputs, fault, flash.Uneventful@booted(), confirmed);
      }
    }

    /** The CHECK_REQUEST state: all that precedes the decision. */
    method Prepare(inputs: Inputs)
      requires flash.Consistent() && update.flash == flash && update.journal.flash == flash
      requires inputs.reason <= M.RESET_DEBUG
      requires lifecycle.update == update && lifecycle.flash == flash && lifecycle.store.flash == flash
      requires lifecycle.resetReason <= M.RESET_DEBUG
      modifies this, update, update.journal, lifecycle, lifecycle.store, flash, flash.mem
      ensures Valid() && flash.Onward() && lifecycle.resetReason == inputs.reason && NothingOpen()
      ensures CapturedRight(inputs.softwareRequest, inputs.requested) && VersionCaptured()
      ensures IsSlot(activeSlot) || activeSlot == UNKNOWN
      ensures Checked(old(flash.State()), flash.State(), inputs, flash.Uneventful(), lifecycle.storageFault)
      ensures old(Lifecycle.Stranded(flash.State())) ==> !MayUpdate()
    {
      hide SystemOf, Unambiguous, Outside, Safe, Choice, AtRest, Asked, Recoverable, Bootable, VersionOf, Moves,
           Started, Decides, Lifecycle.Starting, Lifecycle.Stranded, Released;
      ghost var d := flash.State();
      Start(inputs);
      if Lifecycle.Stranded(d) {
        StrandedStarted(d, flash.State(), inputs, flash.Uneventful(), lifecycle.storageFault);
      }
      StartedMoves(d, flash.State(), inputs, flash.Uneventful(), lifecycle.storageFault);
      CaptureActiveSlot(inputs.softwareRequest, inputs.requested);
    }

    /** BootManager_Run up to its end: the jump, the programming server, the reset
      * that normalises the start, or the error state. */
    method Run(inputs: Inputs) returns (ending: Ending)
      requires flash.Consistent() && update.flash == flash && update.journal.flash == flash
      requires inputs.reason <= M.RESET_DEBUG
      requires lifecycle.update == update && lifecycle.flash == flash && lifecycle.store.flash == flash
      requires lifecycle.resetReason <= M.RESET_DEBUG
      modifies this, update, update.journal, lifecycle, lifecycle.store, flash, flash.mem
      ensures flash.Consistent() && flash.Onward()
      ensures Moves(old(flash.State()), flash.State())
      ensures ending == Server ==> Valid() && VersionCaptured() && (IsSlot(activeSlot) || activeSlot == UNKNOWN)
      ensures ending.Jump? ==> Entitled(flash.State(), ending.target)
      ensures Ended(old(flash.State()), flash.State(), inputs, flash.Uneventful(), ending)
      ensures old(Lifecycle.Stranded(flash.State())) ==>
        ending == Server && flash.State() == old(flash.State()) && !MayUpdate()
      ensures ending == Server ==> CapturedRight(inputs.softwareRequest, inputs.requested) && NothingOpen()
      ensures old(Safe(flash.State())) && ending == Server ==> lifecycle.storageFault || Settled()
      ensures old(Safe(flash.State())) && ending == Server && flash.Uneventful() ==>
        Settled() && Recoverable(old(flash.State())) && flash.State() == Asked(old(flash.State()), inputs)
    {
      hide SystemOf, Unambiguous, Outside, Safe, Choice, AtRest, Asked, Recoverable, Bootable, VersionOf, Entitled,
           Moves, Launches, Started, Ended, Decides, Lifecycle.Starting, Lifecycle.Stranded, Released;
      ghost var d := flash.State();
      Prepare(inputs);
      ghost var e := flash.State();
      ghost var starting := flash.Uneventful();
      if inputs.softwareRequest || inputs.hardwareRequest {
        RequestEnds(d, e, inputs, starting);
        return Server;
      }
      var target := SelectBootTarget();
      if ((Safe(d) || Lifecycle.Starting(d)) && starting) || Lifecycle.Stranded(d) {
        SettledTarget(this, target);
      }
      if target == None || !inputs.softwareReset {
        ending := if target == None then Server else Normalisation;
        SelectionEnds(d, e, inputs, starting, target, ending);
        return;
      }
      label selected:
      ending := JumpApp(target.value);
      LaunchMoves(d, e, flash.State(), target.value, inputs.reason, flash.Uneventful@selected(), ending);
      LaunchEnds(d, e, flash.State(), inputs, starting, target.value, flash.Uneventful@selected(), ending);
    }

    /** The JUMP_APP state. */
    method JumpApp(s: slot) returns (ending: Ending)
      requires Valid() && update.CanContinue() && Released(s)
      modifies lifecycle, lifecycle.store, flash, flash.mem
      ensures flash.Consistent() && flash.Onward()
      ensures Launches(old(flash.State()), flash.State(), s, lifecycle.resetReason, flash.Uneventful(), ending)
      ensures lifecycle.resetReason == old(lifecycle.resetReason)
    {
      hide SystemOf, Unambiguous, Outside, Safe, Reaches, Bootable, VersionOf, Moves, Prepared;
      ghost var d := flash.State();
      var ok := lifecycle.PrepareBoot(s);
      PrepareMoves(d, flash.State(), s, lifecycle.resetReason, flash.Uneventful(), ok);
      if !ok {
        return Error;
      }
      PreparedRuns(d, s, lifecycle.resetReason);
      ok := JumpGate(s);
      if !ok {
        return Error;
      }
      JumpMoves(d, flash.State(), s, lifecycle.resetReason);
      NoteJump(s);
      return Jump(s);
    }

    /** BootJump_ToSlot up to the point of no return. Its own look at the vectors
      * refuses no slot that journal, metadata and image release. */
    method JumpGate(s: slot) returns (ok: bool)
      requires Valid()
      ensures ok == Released(s)
    {
      hide SystemOf, Unambiguous, Outside, HeaderOf, ImageFormat.Validate, VectorsSafe, WordAt;
      if !update.IsSlotBootable(s) || !lifecycle.IsSlotBootable(s) {
        return false;
      }
      var verdict, h := BootImage.LoadInfo(flash, s);
      if verdict != Verdict.VALID {
        return false;
      }
      var vector := Base(s);
      if vector % VECTOR_ALIGNMENT != 0 || !ContainsRange(s, vector, 8) || vector >= HeaderAddress(s) {
        return false;
      }
      var bytes := flash.mem[vector..vector + SLOT_SIZE];
      assert bytes == SlotOf(flash.mem[..], s);
      SystemSlots(flash.mem[..], flash.history, s);
      ValidVectors(s, bytes);
      return VectorsSafe(s, WordAt(bytes, 0), WordAt(bytes, 4));
    }
  }
}
