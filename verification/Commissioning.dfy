/** How a device comes to be commissioned, and the one place where losing power
  * is not undone. */
module Commissioning {
  import opened Bytes
  import opened Slots
  import opened TwinStore
  import opened SealedRecord
  import opened ImageFormat
  import opened Protocol
  import opened Safety
  import opened BootCycle
  import opened FlashMap
  import opened FlashModel
  import opened UpdateManager
  import opened BootManager
  import Device
  import Lifecycle
  import JournalStore
  import PackedImage
  import MetadataStore
  import J = JournalFormat
  import M = MetadataFormat

  /** A device with an image in `active` and neither journal nor metadata. */
  predicate Blank(d: System, active: slot) {
    && !d.journal.Present? && d.metadata == Pair(Empty, Empty) && Bootable(active, d.slots.At(active))
  }

  /** The commissioning routine (request 0xFF02): initialise the journal, then run
    * the lifecycle's start. What the slots hold now is what they are trusted to
    * hold. */
  method Commission(flash: Flash, active: slot, reason: word) returns (ok: bool)
    requires flash.Consistent() && Blank(flash.State(), active) && reason <= M.RESET_DEBUG
    modifies flash, flash.mem
    ensures flash.Consistent() && flash.Onward()
    ensures flash.Uneventful() ==> ok && Commissioned(flash.State()) && flash.State().slots == old(flash.State()).slots
    ensures CommissionCut(flash.State(), active)
  {
    hide SystemOf, Unambiguous, Outside, Blank, Commissioned, Lifecycle.FirstStart, Lifecycle.FirstStarted,
         Lifecycle.Starting, Lifecycle.Restarts, J.FieldsValid, Initialized, CommissionCut, Safe, Lifecycle.Initialised,
         AtRest;
    var journal := new JournalStore.JournalStore(flash);
    var store := new MetadataStore.MetadataStore(flash);
    var update := new Update(flash, journal);
    var lifecycle := new Lifecycle.Lifecycle(flash, update, store);
    Trust(flash);
    ghost var d := flash.State();
    ok := update.InitializeJournal(active);
    ghost var e := flash.State();
    InitializedStart(d, e, active, flash.Uneventful(), ok, update.CanContinue(), update.current);
    if !ok {
      return;
    }
    label initialised:
    ghost var initialising := flash.Uneventful();
    ok := lifecycle.Init(reason);
    Commissions(d, e, flash.State(), active, reason, flash.Uneventful@initialised(), lifecycle.storageFault);
  }

  /** However commissioning was cut: the device is blank as before, its first start
    * is still to be made, or it is commissioned. */
  predicate CommissionCut(e: System, active: slot) {
    || Blank(e, active)
    || (Lifecycle.Starting(e) && e.journal.record.active == active)
    || (Commissioned(e) && e.journal.record.active == active)
  }

  lemma Commissions(d: System, e: System, f: System, active: slot, reason: word, uneventful: bool, fault: bool)
    requires Lifecycle.FirstStart(e) && e.journal.record.active == active && e.slots == d.slots
    requires reason <= M.RESET_DEBUG
    requires Lifecycle.Starting(e) && Lifecycle.Restarts(e, f, reason, uneventful, fault)
    ensures CommissionCut(f, active)
    ensures uneventful ==> !fault && Commissioned(f) && f.slots == d.slots
  {
    hide Commissioned, Lifecycle.Starting, Lifecycle.FirstStarted, Bootable;
    Lifecycle.FirstStartCommissions(e, reason);
    FirstStartedSlots(e, reason);
    FirstStartedJournal(e, reason);
    CutStartIsStarting(e, f, reason, uneventful, fault);
    CutStartKeepsJournal(e, f, reason, uneventful, fault);
  }

  lemma CutStartKeepsJournal(d: System, e: System, reason: word, uneventful: bool, fault: bool)
    requires Lifecycle.Starting(d) && Lifecycle.Restarts(d, e, reason, uneventful, fault)
    ensures e.journal == d.journal
  {
    hide Bootable, VersionOf, M.BodyCrc;
  }

  /** The present contents become the certified ones. */
  ghost method Trust(flash: Flash)
    requires flash.Consistent()
    modifies flash`history
    ensures flash.Consistent() && Blank(flash.State(), SLOT_A) == old(Blank(flash.State(), SLOT_A))
    ensures Blank(flash.State(), SLOT_B) == old(Blank(flash.State(), SLOT_B))
    ensures var d := old(flash.State());
      flash.State() == d.(certified := d.slots, trialJumps := Pair(0, 0), installs := 0, armed := None)
  {
    hide JournalOf, MetadataOf, SlotOf, Unambiguous, Bootable;
    flash.history := History(flash.State().slots, Pair(0, 0), 0, None);
  }

  lemma InitializedStart(d: System, e: System, active: slot, uneventful: bool, ok: bool, can: bool, current: J.Journal)
    requires Blank(d, active) && d.certified == d.slots && d.trialJumps == Pair(0, 0) && d.installs == 0
    requires d.armed == None
    requires Initialized(d, e, active, uneventful, ok, can, current)
    ensures ok ==>
      can && Lifecycle.FirstStart(e) && Lifecycle.Starting(e) && e.slots == d.slots && e.journal.record.active == active
    ensures uneventful ==> ok
    ensures CommissionCut(e, active)
  {
    hide Bootable, J.BodyCrc, Commissioned;
    InitialFields(active);
  }

  lemma FirstStartedSlots(d: System, reason: word)
    requires d.journal.Present? && IsSlot(d.journal.record.active)
    ensures Lifecycle.FirstStarted(d, reason).slots == d.slots
  {
    hide VersionOf, M.BodyCrc;
  }

  /** There are such devices: any packed image for the slot makes one. */
  lemma PackedImageCommissions(payload: seq<byte>, active: slot, version: word)
    requires PackedImage.PayloadFits(payload, active)
    ensures exists d: System ::
      Commissioned(d) && d.journal.record.active == active && VersionOf(d.slots.At(active)) == version
  {
    hide Bootable, VersionOf, J.BodyCrc, M.BodyCrc, PackedImage.PackedBytes, PackedImage.BuiltHeader,
         PackedImage.PayloadFits, Lifecycle.FirstStarted;
    PackedBoots(payload, active, version);
    var image := PackedImage.PackedBytes(payload, PackedImage.BuiltHeader(payload, active, version, None, 0));
    var r := J.Stamp(InitialRecord(active), 1);
    InitialFields(active);
    var d := System(Present(r), Pair(Empty, Empty), Pair(image, image), Pair(image, image), Pair(0, 0), 0, None);
    assert Lifecycle.FirstStart(d);
    Lifecycle.FirstStartCommissions(d, 0);
    FirstStartedSlots(d, 0);
    FirstStartedJournal(d, 0);
    assert Commissioned(Lifecycle.FirstStarted(d, 0));
  }

  lemma PackedBoots(payload: seq<byte>, id: slot, version: word)
    requires PackedImage.PayloadFits(payload, id)
    ensures 8 <= |payload| <= HEADER_OFFSET
    ensures var image := PackedImage.PackedBytes(payload, PackedImage.BuiltHeader(payload, id, version, None, 0));
      Bootable(id, image) && VersionOf(image) == version
  {
    hide PackedImage.PackedBytes, PackedImage.BuiltHeader, ImageFormat.LoadInfo, HeaderOf;
    var image := PackedImage.PackedBytes(payload, PackedImage.BuiltHeader(payload, id, version, None, 0));
    PackedImage.PackedIsValid(payload, id, version, None, 0);
    PackedImage.ParseAgrees(image);
  }

  lemma FirstStartedJournal(d: System, reason: word)
    requires d.journal.Present? && IsSlot(d.journal.record.active)
    ensures Lifecycle.FirstStarted(d, reason).journal == d.journal
  {
    hide VersionOf, M.BodyCrc;
  }

  // ------------------------------------------------- a first start cut short

  /** While the first metadata record of a slot is being written, the store stops
    * being empty before it holds a record. */
  lemma FirstWriteCut(id: slot, next: M.Metadata, k: nat)
    requires M.Valid(id, next) && 8 <= 8 * k < METADATA_SIZE
    ensures var torn := Torn(M.Encode(next), k, [ERASED, ERASED, ERASED, ERASED, ERASED, ERASED, ERASED, ERASED]);
      var blank := seq(METADATA_SIZE, _ => ERASED);
      Load(M.ReadCopy(id, torn), M.ReadCopy(id, blank), IsErased(torn) && IsErased(blank)) == Invalid
  {
    hide M.Valid, M.Encode, M.Decode;
    var inFlight := [ERASED, ERASED, ERASED, ERASED, ERASED, ERASED, ERASED, ERASED];
    var torn := Torn(M.Encode(next), k, inFlight);
    assert IsErased(torn[METADATA_SIZE - 4..]);
    M.ErasedCopy(id, torn);
    M.ErasedCopy(id, seq(METADATA_SIZE, _ => ERASED));
    FirstByte(next, id);
    assert torn[0] == M.Encode(next)[0];
  }

  lemma FirstByte(r: M.Metadata, id: slot)
    requires M.Valid(id, r)
    ensures M.Encode(r)[0] == 0x42
  {
    hide M.BodyCrc;
    assert M.MetadataWords(r)[0] == M.METADATA_MAGIC;
  }

  /** What an undisturbed start makes of a device whose first start is still to be
    * made or was cut short: the image is confirmed and chosen if and only if the
    * metadata of the active slot is entirely erased. No update can begin before. */
  lemma FirstStartIsNotRepeated(d: System, reason: word)
    requires Lifecycle.Starting(d)
    ensures d.journal.Present? && IsSlot(d.journal.record.active)
    ensures var e, active := Lifecycle.Restarted(d, reason), d.journal.record.active;
      && (Choice(e) == Some(active) <==> d.metadata.At(active) == Empty)
      && (Choice(e) == None <==> d.metadata.At(active) == Invalid)
      && (d.metadata.At(active) == Invalid ==> e == d)
    ensures forall active: word, target: slot, n: J.Journal :: !BeginStep(d, d.journal.record, n, active, target)
  {
    hide Bootable, VersionOf, M.BodyCrc;
  }

  /** A first start cut before its record was whole is still to be made. */
  lemma CutStartIsStarting(d: System, e: System, reason: word, uneventful: bool, fault: bool)
    requires Lifecycle.Starting(d) && Lifecycle.Restarts(d, e, reason, uneventful, fault)
    ensures Lifecycle.Starting(e) || e == Lifecycle.FirstStarted(d, reason)
  {
    hide Bootable, VersionOf, M.BodyCrc;
  }

  /** Cut after its first phrase, the first start is never made up for: every power
    * cycle from there, whatever is requested in it and wherever it is cut, ends in
    * the programming server, and the durable state stays as it was. */
  method StrandedLife(flash: Flash, life: seq<Device.Cycle>) returns (endings: seq<Ending>)
    requires flash.Consistent() && Lifecycle.Stranded(flash.State())
    requires forall i :: 0 <= i < |life| ==> life[i].inputs.reason <= M.RESET_DEBUG
    modifies flash, flash.mem
    ensures flash.Consistent() && Lifecycle.Stranded(flash.State())
    ensures |endings| == |life| && forall ending :: ending in endings ==> ending == Server
    ensures life != [] ==> flash.State() == old(flash.State()).(armed := None)
  {
    hide SystemOf, Unambiguous, Outside, Safe, Lifecycle.Stranded, Ended, Moves, Entitled;
    ghost var d := flash.State();
    endings := [];
    for i := 0 to |life|
      invariant |endings| == i && forall ending :: ending in endings ==> ending == Server
      invariant flash.Consistent() && Lifecycle.Stranded(flash.State())
      invariant flash.State() == if i == 0 then d else d.(armed := None)
    {
      Device.StrandedReset(flash.State());
      ghost var decided;
      var ending;
      ending, decided := Device.PowerCycle(flash, life[i].inputs, life[i].requests);
      endings := endings + [ending];
    }
  }
}
