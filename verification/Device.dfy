/** The device over its life: power cycles in which the bootloader starts, serves
  * programming requests (boot_uds.c), and may lose power at any flash command. */
module Device {
  import opened Bytes
  import opened Slots
  import opened TwinStore
  import opened ImageFormat
  import opened Protocol
  import opened Safety
  import opened BootCycle
  import opened FlashMap
  import opened FlashModel
  import opened UpdateManager
  import opened BootManager
  import opened Uds
  import Programming
  import Lifecycle
  import JournalStore
  import MetadataStore
  import J = JournalFormat
  import M = MetadataFormat

  /** The server's life from one request to the next: each was answered, in order and
    * on the state the one before it left, up to the reset or the last. */
  predicate Served(requests: seq<Request>, trace: seq<Standing>, under: seq<Conditions>, answers: seq<byte>) {
    && |trace| == |answers| + 1 && |under| == |answers| <= |requests|
    && (forall i :: 0 <= i < |answers| ==>
          && Handled(requests[i], trace[i], trace[i + 1], under[i], answers[i])
          && Obeyed(requests[i], trace[i], trace[i + 1], under[i], answers[i]) && !trace[i].resetPending)
    && (trace[|answers|].resetPending || |answers| == |requests|)
  }

  /** The programming server until it resets the device or the requests end. */
  method Serve(server: Server, requests: seq<Request>)
      returns (answers: seq<byte>, ghost trace: seq<Standing>, ghost under: seq<Conditions>)
    requires server.session.Valid()
    modifies server, server.session, server.session.buffer, server.session.update, server.session.update.journal,
             server.session.flash, server.session.flash.mem
    ensures server.session.Valid() && server.session.flash.Onward()
    ensures server.session.Within() && server.session.StillBarred()
    ensures server.session.flash.mem.Length == FLASH_SIZE && Served(requests, trace, under, answers)
    ensures trace[0] == old(server.Now()) && trace[|answers|] == server.Now()
  {
    hide SystemOf, Unambiguous, Outside, Moves, Programming.InOrder, Programming.VersionRight, Programming.MayStart,
         Programming.Confined, Handled, Obeyed;
    ghost var d := server.session.flash.State();
    NothingHappens(d, server.session.c.target);
    answers, trace, under := [], [server.Now()], [];
    while |answers| < |requests| && !server.resetPending
      invariant |trace| == |answers| + 1 && |under| == |answers| <= |requests|
      invariant server.session.Valid() && server.session.flash.Onward()
      invariant server.session.Within() && server.session.StillBarred()
      invariant trace[0] == old(server.Now()) && trace[|answers|] == server.Now()
      invariant forall i :: 0 <= i < |answers| ==>
        && Handled(requests[i], trace[i], trace[i + 1], under[i], answers[i])
        && Obeyed(requests[i], trace[i], trace[i + 1], under[i], answers[i]) && !trace[i].resetPending
    {
      ghost var e := server.session.flash.State();
      label before:
      var nrc := server.Handle(requests[|answers|]);
      MovesCompose(d, e, server.session.flash.State());
      Programming.ConfinedCompose(d, e, server.session.flash.State(), server.session.c.target);
      answers, trace, under := answers + [nrc], trace + [server.Now()], under + [server.Under@before()];
    }
  }

  /** One power cycle: everything in RAM is new, flash is what was left. */
  method PowerCycle(flash: Flash, inputs: Inputs, requests: seq<Request>)
      returns (ending: Ending, ghost decided: System)
    requires flash.Consistent() && inputs.reason <= M.RESET_DEBUG
    modifies flash, flash.mem
    ensures flash.Consistent() && flash.KeptOutside() && old(flash.failures) <= flash.failures
    ensures Moves(old(flash.State()), flash.State()) && Moves(old(flash.State()), decided)
    ensures ending.Jump? ==> Entitled(flash.State(), ending.target)
    ensures requests == [] ==>
      Ended(old(flash.State()).(armed := None), flash.State(), inputs,
            flash.powered && flash.failures == old(flash.failures), ending)
    ensures old(Lifecycle.Stranded(flash.State())) ==>
      ending == Server && flash.State() == old(flash.State()).(armed := None)
    ensures old(Safe(flash.State())) && ending == Server ==> RunnableKept(decided, flash.State(), inputs)
    ensures old(Safe(flash.State())) && ending == Server && flash.powered && flash.failures == old(flash.failures) ==>
      Recoverable(old(flash.State()).(armed := None)) && decided == Asked(old(flash.State()).(armed := None), inputs)
  {
    hide SystemOf, Unambiguous, Outside, Moves, Ended, Entitled, Lifecycle.Stranded, Safe, Asked, Recoverable,
         RunnableKept, Manager.CapturedRight, Manager.VersionCaptured;
    ghost var d := flash.State();
    flash.PowerOn();
    ghost var e := flash.State();
    PowerOnMoves(d);
    if Lifecycle.Stranded(d) {
      StrandedReset(d);
    }
    if Safe(d) {
      ResetKeepsSafe(d);
    }
    var journal := new JournalStore.JournalStore(flash);
    var store := new MetadataStore.MetadataStore(flash);
    var update := new Update(flash, journal);
    var lifecycle := new Lifecycle.Lifecycle(flash, update, store);
    var manager := new Manager(flash, update, lifecycle);
    ending := manager.Run(inputs);
    decided := flash.State();
    MovesCompose(d, e, decided);
    RunnableSelf(decided, inputs);
    if ending == Server && requests != [] {
      ServeAll(manager, inputs, requests);
      MovesCompose(d, decided, flash.State());
    }
  }

  /** The programming server after a start. */
  method ServeAll(manager: Manager, inputs: Inputs, requests: seq<Request>)
    requires manager.Valid() && manager.VersionCaptured() && manager.NothingOpen()
    requires manager.CapturedRight(inputs.softwareRequest, inputs.requested)
    requires IsSlot(manager.activeSlot) || manager.activeSlot == UNKNOWN
    modifies manager.update, manager.update.journal, manager.flash, manager.flash.mem
    ensures manager.flash.Consistent() && manager.flash.Onward()
    ensures Moves(old(manager.flash.State()), manager.flash.State())
    ensures !old(manager.MayUpdate()) ==> manager.flash.State() == old(manager.flash.State())
    ensures old(manager.Settled() || manager.lifecycle.storageFault) ==>
      RunnableKept(old(manager.flash.State()), manager.flash.State(), inputs)
  {
    hide SystemOf, Unambiguous, Outside, Moves, Programming.InOrder, Programming.VersionRight, Programming.MayStart,
         Bootable, Choice, Programming.Confined, RunnableKept, Served;
    ghost var d := manager.flash.State();
    if manager.Settled() {
      CapturedTarget(manager, inputs);
    }
    var session := new Programming.Session(manager.flash, manager.update, manager.lifecycle, manager.activeSlot,
                                           manager.activeVersion);
    ghost var target := session.c.target;
    assert target == Programming.TargetOf(manager.activeSlot);
    var server := new Server(session);
    var answers, trace, under := Serve(server, requests);
    RunnableSelf(d, inputs);
    if old(manager.Settled()) {
      assert Programming.Confined(d, manager.flash.State(), target);
      TargetOnly(d, manager.flash.State(), target, inputs);
    }
  }

  /** The application named the slot beside the one this start would run. */
  predicate Overridden(inputs: Inputs, c: System, s: slot) {
    inputs.softwareRequest && inputs.requested == Other(s) && Startable(c, Other(s))
  }

  /** The slot this start would have run in state `c` holds what it held, unless the
    * application named the other one. */
  predicate RunnableKept(c: System, e: System, inputs: Inputs) {
    forall s: slot :: Choice(c) == Some(s) && !Overridden(inputs, c, s) ==> e.slots.At(s) == c.slots.At(s)
  }

  lemma RunnableSelf(c: System, inputs: Inputs)
    ensures RunnableKept(c, c, inputs)
  {
  }

  /** The slot an erase request may touch is the one this start would have run if
    * and only if the application named the other one. */
  lemma CapturedTarget(m: Manager, inputs: Inputs)
    requires m.Valid() && m.Settled() && m.CapturedRight(inputs.softwareRequest, inputs.requested)
    ensures forall s: slot :: Choice(m.flash.State()) == Some(s) ==>
      (Programming.TargetOf(m.activeSlot) == s <==> Overridden(inputs, m.flash.State(), s))
  {
    hide SystemOf, Unambiguous, Outside, Bootable, VersionOf, Choice;
    SettledReleases(m, SLOT_A);
    SettledReleases(m, SLOT_B);
  }

  lemma TargetOnly(c: System, e: System, target: slot, inputs: Inputs)
    requires Programming.Confined(c, e, target)
    requires forall s: slot :: Choice(c) == Some(s) ==> (target == s <==> Overridden(inputs, c, s))
    ensures RunnableKept(c, e, inputs)
  {
    hide Choice;
  }

  lemma StrandedReset(d: System)
    requires Lifecycle.Stranded(d)
    ensures Lifecycle.Stranded(d.(armed := None)) && Programming.NothingUnderWay(d.(armed := None))
  {
    hide Bootable;
  }

  lemma PowerOnMoves(d: System)
    ensures Moves(d, d.(armed := None))
  {
    hide Safe;
    assert Step(d, d.(armed := None));
    MovesStep(d, d.(armed := None));
  }

  /** A reset changes nothing a boot goes by. */
  lemma ResetContinues(d: System)
    requires Safe(d)
    ensures Continues(d, d.(armed := None), true)
  {
    hide Safe, Reaches, BootOutcome;
    var e := d.(armed := None);
    SafeIsPresent(d);
    assert Step(d, e);
    ReachesStep(d, e);
    ResetAgrees(d);
  }

  lemma ResetAgrees(d: System)
    requires d.journal.Present? && IsSlot(d.journal.record.target)
    ensures BootOutcome(d.(armed := None)) == BootOutcome(d)
  {
    hide HandOff, Recover, Resolved, OutcomeOf, Agree;
    ResetHandsOver(d);
    ResolvedAgree(HandOff(Recover(d), 0), HandOff(Recover(d.(armed := None)), 0), 0, 0);
  }

  lemma ResetHandsOver(d: System)
    requires d.journal.Present? && IsSlot(d.journal.record.target)
    ensures Agree(HandOff(Recover(d), 0), HandOff(Recover(d.(armed := None)), 0))
  {
    hide J.BodyCrc, M.BodyCrc, Accepted, PublishedIn, Recovered;
  }

  /** A start up to the point where it looks for requests. */
  method BeginStart(flash: Flash, reason: word)
    requires flash.Consistent() && reason <= M.RESET_DEBUG
    modifies flash, flash.mem
    ensures flash.Consistent() && flash.KeptOutside() && old(flash.failures) <= flash.failures
    ensures old(Safe(flash.State())) ==>
      Continues(old(flash.State()), flash.State(), flash.failures == old(flash.failures))
    ensures old(Safe(flash.State())) && flash.powered && flash.failures == old(flash.failures) ==>
      EndsAs(old(flash.State()), flash.State())
  {
    hide SystemOf, Unambiguous, Outside, Safe, Continues, Rebooted, EndsAs;
    ghost var d := flash.State();
    flash.PowerOn();
    ghost var e := flash.State();
    var journal := new JournalStore.JournalStore(flash);
    var store := new MetadataStore.MetadataStore(flash);
    var update := new Update(flash, journal);
    var lifecycle := new Lifecycle.Lifecycle(flash, update, store);
    var manager := new Manager(flash, update, lifecycle);
    manager.Init(reason);
    if Safe(d) {
      StartContinues(d, e, flash.State(), reason, flash.failures == old(flash.failures),
                     flash.powered && flash.failures == old(flash.failures), lifecycle.storageFault);
    }
  }

  /** Journal and metadata are as a boot from `d` that is left alone leaves them. */
  predicate EndsAs(d: System, e: System) {
    d.journal.Present? && IsSlot(d.journal.record.target) && OutcomeOf(e) == BootOutcome(d)
  }

  lemma StartContinues(d: System, e: System, f: System, reason: word, undisturbed: bool, uneventful: bool, fault: bool)
    requires Safe(d) && e == d.(armed := None) && Rebooted(e, f, reason, undisturbed, uneventful, fault)
    ensures Continues(d, f, undisturbed) && (uneventful ==> EndsAs(d, f))
  {
    hide Safe, Reaches, BootOutcome, Booted, OutcomeOf;
    ResetKeepsSafe(d);
    ResetContinues(d);
    ContinuesThen(d, e, f, true, undisturbed);
    if uneventful {
      OutcomeIgnoresReason(e, reason);
    }
  }

  /** Starts converge: however many are cut short, anywhere, by a loss of power, the
    * one that is finally left alone leaves journal and metadata as the first would have. */
  method StartsConverge(flash: Flash, cut: seq<word>, last: word)
    requires flash.Consistent() && last <= M.RESET_DEBUG && forall i :: 0 <= i < |cut| ==> cut[i] <= M.RESET_DEBUG
    modifies flash, flash.mem
    ensures flash.Consistent() && flash.KeptOutside()
    ensures old(Safe(flash.State())) && flash.powered && flash.failures == old(flash.failures) ==>
      EndsAs(old(flash.State()), flash.State())
  {
    hide SystemOf, Unambiguous, Outside, Safe, Continues, EndsAs;
    ghost var d := flash.State();
    if Safe(d) {
      SafeContinues(d);
    }
    for i := 0 to |cut|
      invariant flash.Consistent() && flash.KeptOutside() && old(flash.failures) <= flash.failures
      invariant Safe(d) ==> Continues(d, flash.State(), flash.failures == old(flash.failures))
    {
      ghost var e, whole := flash.State(), flash.failures == old(flash.failures);
      label cycle:
      BeginStart(flash, cut[i]);
      if Safe(d) {
        ContinuesSafely(d, e, whole);
        ContinuesAlso(e, flash.State(), flash.failures == old@cycle(flash.failures),
                      flash.failures == old(flash.failures));
        ContinuesThen(d, e, flash.State(), whole, flash.failures == old(flash.failures));
      }
    }
    ghost var e, whole := flash.State(), flash.failures == old(flash.failures);
    if Safe(d) {
      ContinuesSafely(d, e, whole);
    }
    BeginStart(flash, last);
    if Safe(d) && flash.powered && flash.failures == old(flash.failures) {
      SameEnd(d, e, flash.State());
    }
  }

  lemma SafeContinues(d: System)
    requires Safe(d)
    ensures Continues(d, d, true)
  {
    hide Safe, Reaches, BootOutcome;
    SafeIsPresent(d);
    ReachesSelf(d);
  }

  lemma SameEnd(d: System, e: System, f: System)
    requires Continues(d, e, true) && EndsAs(e, f)
    ensures EndsAs(d, f)
  {
    hide Safe, Reaches, BootOutcome, OutcomeOf;
  }

  datatype Cycle = Cycle(inputs: Inputs, requests: seq<Request>)

  /** Any life of the device: power cycles with whatever requests, any of them cut
    * short by a loss of power between or in the middle of flash commands. */
  method Live(flash: Flash, life: seq<Cycle>)
    requires flash.Consistent() && forall i :: 0 <= i < |life| ==> life[i].inputs.reason <= M.RESET_DEBUG
    modifies flash, flash.mem
    ensures flash.Consistent() && flash.KeptOutside()
    ensures Moves(old(flash.State()), flash.State())
  {
    hide SystemOf, Unambiguous, Outside, Moves, Ended, Entitled;
    ghost var d := flash.State();
    MovesSelf(d);
    var i := 0;
    while i < |life|
      invariant 0 <= i <= |life| && flash.Consistent() && flash.KeptOutside()
      invariant Moves(d, flash.State())
    {
      ghost var e := flash.State();
      ghost var decided;
      var ending;
      ending, decided := PowerCycle(flash, life[i].inputs, life[i].requests);
      MovesCompose(d, e, flash.State());
      i := i + 1;
    }
  }

  /** Never bricked: after any life of a commissioned device, a start that is left
    * alone and asks for nothing ends in a slot that holds, byte for byte, the
    * image certified for it. */
  method LiveAndStart(flash: Flash, life: seq<Cycle>, reason: word) returns (ending: Ending)
    requires flash.Consistent() && Commissioned(flash.State()) && reason <= M.RESET_DEBUG
    requires forall i :: 0 <= i < |life| ==> life[i].inputs.reason <= M.RESET_DEBUG
    modifies flash, flash.mem
    ensures flash.Consistent() && flash.KeptOutside()
    ensures flash.powered && flash.failures == 0 ==> LeftRunning(flash.State(), ending)
  {
    hide SystemOf, Unambiguous, Outside, Commissioned, Safe, Reaches, Ended, Entitled;
    CommissionedIsSafe(flash.State());
    ghost var d := flash.State();
    Live(flash, life);
    ReachableIsSafe(d, flash.State());
    flash.failures := 0;
    ghost var e := flash.State();
    ghost var decided;
    ending, decided := PowerCycle(flash, Inputs(reason, true, false, false, false, 0), []);
    StartEnds(e, flash.State(), reason, flash.powered && flash.failures == 0, ending);
  }

  predicate LeftRunning(d: System, ending: Ending) {
    ending.Jump? && Entitled(d, ending.target) && d.slots.At(ending.target) == d.certified.At(ending.target)
  }

  lemma StartEnds(d: System, e: System, reason: word, uneventful: bool, ending: Ending)
    requires Safe(d) && Moves(d, e) && reason <= M.RESET_DEBUG
    requires Ended(d.(armed := None), e, Inputs(reason, true, false, false, false, 0), uneventful, ending)
    requires ending.Jump? ==> Entitled(e, ending.target)
    ensures uneventful ==> LeftRunning(e, ending)
  {
    hide Safe, Reaches, Asked, Choice, Bootable;
    ResetKeepsSafe(d);
    ReachableIsSafe(d, e);
    if ending.Jump? {
      SafeSlot(e, ending.target);
    }
  }

  lemma SafeSlot(d: System, s: slot)
    requires Safe(d) && Allowed(d.journal.record, s)
    ensures d.slots.At(s) == d.certified.At(s)
  {
    hide Bootable, Installed;
  }
}
