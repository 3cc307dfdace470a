/** What every reachable durable state satisfies. */
module Safety {
  import opened Bytes
  import opened Slots
  import opened TwinStore
  import opened ImageFormat
  import opened Protocol
  import J = JournalFormat
  import M = MetadataFormat

  /** Started by BootManager when the journal and the image agree. */
  predicate Runs(m: Loaded<M.Metadata>) { Priority(StateOf(m)) != 0 }

  /** An image on trial comes before one that waits for its first start, that one
    * before a confirmed one, and nothing else is started at all. */
  lemma PriorityOrder(state: word)
    ensures Priority(4) > Priority(3) > Priority(5) > 0
    ensures state !in {3, 4, 5} ==> Priority(state) == 0
  {
  }

  /** Every slot the journal allows holds, byte for byte, what was certified,
    * and a validated image if its metadata would start it. */
  predicate AllowedSlotsIntact(d: System, r: J.Journal) {
    forall s: slot :: Allowed(r, s) ==>
      && d.slots.At(s) == d.certified.At(s)
      && (Runs(d.metadata.At(s)) ==> Bootable(s, d.slots.At(s)))
  }

  /** While an update is under way its active slot stays confirmed; otherwise
    * some slot is. */
  predicate Fallback(d: System, r: J.Journal) {
    if r.state == J.IDLE then Confirmed(d, SLOT_A) || Confirmed(d, SLOT_B) else Confirmed(d, r.active)
  }

  /** The trial account of one slot: a jump never precedes its durable count. */
  predicate TrialAccount(d: System, s: slot) {
    var m := d.metadata.At(s);
    && d.trialJumps.At(s) <= MAX_TRIAL_ATTEMPTS
    && (d.armed == Some(s) ==> StateOf(m) == M.TRIAL)
    && (StateOf(m) == M.TRIAL ==>
        d.trialJumps.At(s) + (if d.armed == Some(s) then 1 else 0) <= AttemptsOf(m) <= MAX_TRIAL_ATTEMPTS)
    && (StateOf(m) in {M.VERIFIED, M.PENDING} ==> d.trialJumps.At(s) == 0)
  }

  /** A transaction is installed at most once, and its image is not started before
    * it was handed over. */
  predicate InstallAccount(d: System, r: J.Journal) {
    && d.installs <= 1
    && (r.state == J.PENDING_ACTIVATION && IsSlot(r.target) ==>
        && d.trialJumps.At(r.target) == 0
        && (d.installs == 1 ==> Handed(r, d.metadata.At(r.target)) || InstalledFor(r, d.metadata.At(r.target))))
  }

  predicate RecordsValid(d: System) {
    && d.journal.Present? && J.FieldsValid(d.journal.record) && IsSlot(d.journal.record.active)
    && (forall s: slot :: d.metadata.At(s).Present? ==> M.FieldsValid(d.metadata.At(s).record))
  }

  predicate Safe(d: System) {
    && RecordsValid(d)
    && AllowedSlotsIntact(d, d.journal.record)
    && Fallback(d, d.journal.record)
    && (d.journal.record.state == J.PENDING_ACTIVATION ==> Installed(d.journal.record, d.slots))
    && (forall s: slot :: TrialAccount(d, s))
    && InstallAccount(d, d.journal.record)
  }

  /** A device right after the journal was initialised for its active slot and
    * one boot recorded that slot as confirmed. */
  predicate Commissioned(d: System) {
    && d.journal.Present? && J.FieldsValid(d.journal.record)
    && var r := d.journal.record;
       && r.state == J.ABORTED && r.lastResult == J.COMMISSIONED && IsSlot(r.active)
       && Confirmed(d, r.active) && M.FieldsValid(d.metadata.At(r.active).record)
       && Bootable(r.active, d.slots.At(r.active))
       && d.metadata.At(Other(r.active)) == Empty
       && d.certified == d.slots && d.trialJumps == Pair(0, 0) && d.installs == 0 && d.armed == None
  }

  lemma CommissionedIsSafe(d: System)
    requires Commissioned(d)
    ensures Safe(d)
  {
    hide Bootable;
  }

  lemma BeginKeepsSafe(d: System, r: J.Journal, n: J.Journal, active: word, target: slot)
    requires Safe(d) && d.journal == Present(r) && BeginStep(d, r, n, active, target) && J.FieldsValid(n)
    ensures Safe(WithJournal(d, n))
  {
    hide Bootable, J.BodyCrc, Installed;
    assert Confirmed(d, SLOT_A) || Confirmed(d, SLOT_B);
    assert active != UNKNOWN;
    var e := WithJournal(d, n);
    forall s: slot ensures TrialAccount(e, s) {
      assert TrialAccount(d, s);
    }
  }

  /** Every durable change of the journal is in the transition table or a
    * checkpoint, continues the sequence, and counts a new transaction exactly
    * when it begins one. */
  lemma JournalStepsFollowTheTable(d: System, e: System)
    requires JournalStep(d, e)
    ensures var r, n := d.journal.record, e.journal.record;
      && J.FieldsValid(n) && n.sequence == Add(r.sequence, 1)
      && (TransitionAllowed(r.state, n.state) || (r.state == J.PROGRAMMING && n.state == J.PROGRAMMING))
      && n.transaction == (if n.state == J.PREPARING then Add(r.transaction, 1) else r.transaction)
      && (n.state != J.PREPARING ==> n.active == r.active && n.target == r.target)
  {
    hide Bootable, J.BodyCrc, Installed;
  }

  /** The table, pair by pair: IDLE 0, PREPARING 1, ERASING 2, DOWNLOAD_READY 3,
    * PROGRAMMING 4, TRANSFER_COMPLETE 5, VERIFYING 6, VERIFIED 7,
    * PENDING_ACTIVATION 8, ABORTED 9. */
  lemma TransitionTable(from: word, to: word)
    requires from <= 9 && to <= 9
    ensures TransitionAllowed(from, to) <==>
      (from, to) in {(0, 1), (1, 2), (2, 3), (3, 4), (4, 5), (5, 6), (6, 7), (7, 8), (8, 0), (8, 1), (9, 1),
                     (1, 9), (2, 9), (3, 9), (4, 9), (5, 9), (6, 9), (7, 9), (8, 9), (9, 9)}
  {
  }

  lemma JournalStepKeepsSafe(d: System, e: System)
    requires Safe(d) && JournalStep(d, e)
    ensures Safe(e)
  {
    hide Bootable, J.BodyCrc, Installed;
    var r, n := d.journal.record, e.journal.record;
    if active: word, t: slot :| BeginStep(d, r, n, active, t) {
      BeginKeepsSafe(d, r, n, active, t);
    } else {
      forall s: slot ensures TrialAccount(e, s) {
        assert TrialAccount(d, s);
      }
      if n.state == J.PENDING_ACTIVATION {
        InstalledReads(r, n, d.slots);
      }
      forall s: slot | Allowed(n, s)
        ensures e.slots.At(s) == e.certified.At(s) && (Runs(e.metadata.At(s)) ==> Bootable(s, e.slots.At(s)))
      {
        if Allowed(r, s) {} else { InstalledBoots(n, d.slots); }
      }
    }
  }

  /** `Installed` depends on the target, the active slot and the header only. */
  lemma InstalledReads(r: J.Journal, n: J.Journal, slots: Pair<SlotBytes>)
    requires n.target == r.target && n.active == r.active && n.header == r.header
    ensures Installed(r, slots) == Installed(n, slots)
  {
  }

  lemma InstalledBoots(r: J.Journal, slots: Pair<SlotBytes>)
    requires Installed(r, slots)
    ensures Bootable(r.target, slots.At(r.target))
  {
  }

  lemma MetadataStepKeepsSafe(d: System, e: System, s: slot, n: M.Metadata)
    requires Safe(d) && MetadataStep(d, e, s, n)
    ensures Safe(e)
  {
    hide Bootable, Installed;
    var r := d.journal.record;
    assert TrialAccount(d, SLOT_A) && TrialAccount(d, SLOT_B);
    if r.state == J.PENDING_ACTIVATION {
      InstalledBoots(r, d.slots);
    }
    forall t: slot ensures TrialAccount(e, t) {
      if t != s {
        assert e.metadata.At(t) == d.metadata.At(t);
      }
    }
    forall t: slot | Allowed(r, t)
      ensures e.slots.At(t) == e.certified.At(t) && (Runs(e.metadata.At(t)) ==> Bootable(t, e.slots.At(t)))
    {
      if t != s {
        assert e.metadata.At(t) == d.metadata.At(t);
      }
    }
  }

  lemma BlankStepKeepsSafe(d: System, e: System, s: slot)
    requires Safe(d) && BlankStep(d, e, s)
    ensures Safe(e)
  {
    hide Bootable, Installed;
    assert TrialAccount(d, SLOT_A) && TrialAccount(d, SLOT_B);
  }

  lemma SlotStepKeepsSafe(d: System, e: System, s: slot)
    requires Safe(d) && SlotStep(d, e, s)
    ensures Safe(e)
  {
    hide Bootable, Installed;
    forall t: slot ensures TrialAccount(e, t) {
      assert TrialAccount(d, t);
    }
    assert !Allowed(d.journal.record, s);
  }

  lemma CertifyStepKeepsSafe(d: System, e: System)
    requires Safe(d) && CertifyStep(d, e)
    ensures Safe(e)
  {
    hide Bootable, Installed;
    forall t: slot ensures TrialAccount(e, t) {
      assert TrialAccount(d, t);
    }
  }

  lemma JumpStepKeepsSafe(d: System, e: System, s: slot)
    requires Safe(d) && JumpStep(d, e, s)
    ensures Safe(e)
  {
    hide Bootable, Installed;
    assert TrialAccount(d, SLOT_A) && TrialAccount(d, SLOT_B);
  }

  lemma StepKeepsSafe(d: System, e: System)
    requires Safe(d) && Step(d, e)
    ensures Safe(e)
  {
    hide Safe, JournalStep, MetadataStep, BlankStep, SlotStep, CertifyStep, JumpStep;
    if JournalStep(d, e) {
      JournalStepKeepsSafe(d, e);
    } else if s: slot, n: M.Metadata :| MetadataStep(d, e, s, n) {
      MetadataStepKeepsSafe(d, e, s, n);
    } else if s: slot :| BlankStep(d, e, s) {
      BlankStepKeepsSafe(d, e, s);
    } else if s: slot :| SlotStep(d, e, s) {
      SlotStepKeepsSafe(d, e, s);
    } else if CertifyStep(d, e) {
      CertifyStepKeepsSafe(d, e);
    } else if s: slot :| JumpStep(d, e, s) {
      JumpStepKeepsSafe(d, e, s);
    } else {
      ResetKeepsSafe(d);
    }
  }

  /** Losing RAM loses the right to a jump that was already counted. */
  lemma ResetKeepsSafe(d: System)
    requires Safe(d)
    ensures Safe(d.(armed := None))
  {
    hide Bootable, Installed;
    assert TrialAccount(d, SLOT_A) && TrialAccount(d, SLOT_B);
  }

  lemma {:induction false} StepsKeepSafe(d: System, e: System, n: nat)
    requires Safe(d) && Steps(d, e, n)
    ensures Safe(e)
    decreases n
  {
    hide Safe, Step;
    if n > 0 {
      var m: System :| Step(d, m) && Steps(m, e, n - 1);
      StepKeepsSafe(d, m);
      StepsKeepSafe(m, e, n - 1);
    }
  }

  /** Every state of every run from a commissioned device is safe. */
  lemma ReachableIsSafe(d: System, e: System)
    requires Safe(d) && Reaches(d, e)
    ensures Safe(e)
  {
    hide Safe, Steps;
    var n: nat :| Steps(d, e, n);
    StepsKeepSafe(d, e, n);
  }

  /** From a safe state, this change is a run of the protocol. */
  ghost predicate Moves(d: System, e: System) { Safe(d) ==> Reaches(d, e) }

  lemma MovesSelf(d: System)
    ensures Moves(d, d)
  {
    hide Safe, Reaches;
    ReachesSelf(d);
  }

  lemma MovesStep(d: System, e: System)
    requires Safe(d) ==> e == d || Step(d, e)
    ensures Moves(d, e)
  {
    hide Safe, Step, Reaches;
    ReachesSelf(d);
    if Safe(d) && e != d {
      ReachesStep(d, e);
    }
  }

  lemma MovesCompose(d: System, e: System, f: System)
    requires Moves(d, e) && Moves(e, f)
    ensures Moves(d, f)
  {
    hide Safe, Reaches;
    if Safe(d) {
      ReachableIsSafe(d, e);
      ReachesTransitive(d, e, f);
    }
  }
}
