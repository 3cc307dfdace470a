/** The two-copy slot metadata (boot_metadata.c). */
module MetadataStore {
  import opened Bytes
  import opened Slots
  import opened TwinStore
  import opened SealedRecord
  import opened Protocol
  import opened FlashMap
  import opened FlashModel
  import opened BootCycle
  import opened Trials
  import M = MetadataFormat

  /** The copy a commit overwrites: never the only current one. */
  function Spare(m: Memory, id: slot): nat {
    SpareOf(MetadataCopy(m, id, 0), MetadataCopy(m, id, 1))
  }

  /** A commit cut anywhere: the spare copy is still the old one, does not read
    * as a record, or is the new record, and everything else is as before. */
  predicate Cut(m: Memory, n: Memory, id: slot, next: M.Metadata) {
    && ChangedWithin(m, n, MetadataAddress(id, Spare(m, id)), MetadataAddress(id, Spare(m, id)) + SECTOR)
    && MetadataCopy(n, id, Spare(m, id)) in
         {MetadataCopy(m, id, Spare(m, id)), Damaged, Intact(next.sequence, next)}
  }

  /** Then loading gives the previous or the new record, and no ambiguity ever arises. */
  lemma CommitIsAtomic(m: Memory, n: Memory, id: slot, next: M.Metadata, h: History)
    requires Unambiguous(m) && Cut(m, n, id, next)
    requires MetadataOf(m, id).Present? ==> next.sequence == Add(MetadataOf(m, id).record.sequence, 1)
    ensures Unambiguous(n)
    ensures SystemOf(n, h) == SystemOf(m, h).(metadata := SystemOf(m, h).metadata.Put(id, MetadataOf(n, id)))
    ensures MetadataCopy(n, id, Spare(m, id)) == Intact(next.sequence, next) ==> MetadataOf(n, id) == Present(next)
    ensures MetadataOf(m, id).Present? ==> MetadataOf(n, id) in {MetadataOf(m, id), Present(next)}
    ensures !MetadataOf(m, id).Present? ==> MetadataOf(n, id) == Present(next) || !MetadataOf(n, id).Present?
  {
    hide MetadataCopy, SystemOf, JournalCopy, Latest;
    OthersCopyKept(m, n, id, Spare(m, id));
    IntactCarriesSequence(m, id, 0);
    IntactCarriesSequence(m, id, 1);
    ReplacingIsAtomic(MetadataCopy(m, id, 0), MetadataCopy(m, id, 1),
                      IsErased(MetadataBytes(m, id, 0)) && IsErased(MetadataBytes(m, id, 1)),
                      MetadataCopy(n, id, 0), MetadataCopy(n, id, 1),
                      IsErased(MetadataBytes(n, id, 0)) && IsErased(MetadataBytes(n, id, 1)),
                      next.sequence, next);
    MetadataChange(m, n, id, Spare(m, id), h);
  }

  lemma IntactCarriesSequence(m: Memory, id: slot, copy: nat)
    requires copy < 2
    ensures MetadataCopy(m, id, copy).Intact? ==>
      MetadataCopy(m, id, copy).sequence == MetadataCopy(m, id, copy).record.sequence
  {
    hide M.Valid, M.Decode;
  }

  lemma OthersCopyKept(m: Memory, n: Memory, id: slot, copy: nat)
    requires copy < 2 && ChangedWithin(m, n, MetadataAddress(id, copy), MetadataAddress(id, copy) + SECTOR)
    ensures MetadataCopy(n, id, 1 - copy) == MetadataCopy(m, id, 1 - copy)
  {
    hide M.ReadCopy;
    RegionKept(m, n, MetadataAddress(id, copy), MetadataAddress(id, copy) + SECTOR,
               MetadataAddress(id, 1 - copy), MetadataAddress(id, 1 - copy) + METADATA_SIZE);
  }

  /** While phrase `k` is being written the sector reads as nothing or as the record. */
  lemma WritingIsCut(m: Memory, n: Memory, id: slot, next: M.Metadata, k: nat)
    requires M.Valid(id, next) && 8 * k + 8 <= METADATA_SIZE
    requires InFlight(m, n, MetadataAddress(id, Spare(m, id)), METADATA_SIZE, M.Encode(next), 8 * k)
    ensures Cut(m, n, id, next)
  {
    hide M.Encode, M.Valid, M.ReadCopy, ChangedWithin;
    var bytes := RecordAt(n, MetadataAddress(id, Spare(m, id)), METADATA_SIZE);
    assert bytes == Torn(M.Encode(next), k, bytes[8 * k..8 * k + 8]);
    M.TornCopy(id, next, k, bytes[8 * k..8 * k + 8]);
  }

  datatype Status = VALID | EMPTY | INVALID

  function StatusOf(m: Loaded<M.Metadata>): Status {
    match m
    case Present(_) => VALID
    case Empty => EMPTY
    case Invalid => INVALID
  }

  /** transition_allowed: within one installed image only. */
  predicate LifecycleTransition(current: M.Metadata, next: M.Metadata) {
    && current.imageVersion == next.imageVersion && current.updateCounter == next.updateCounter
    && if current.state == next.state then current.state == M.TRIAL && next.attempts == Add(current.attempts, 1)
       else if current.state == M.VERIFIED && next.state == M.PENDING then next.attempts == 0
       else if current.state == M.PENDING && next.state == M.TRIAL then next.attempts == 1
       else if current.state == M.TRIAL && next.state == M.CONFIRMED then next.attempts == 0
       else current.state == M.TRIAL && next.state == M.INVALID && next.attempts == current.attempts
  }

  /** The transitions one installed image may make, with its attempts: to PENDING
    * with none, to TRIAL with the first or one more, to CONFIRMED with none, to
    * INVALID with those it had. */
  lemma TransitionsExactly(current: M.Metadata, next: M.Metadata)
    requires current.attempts < 3
    ensures LifecycleTransition(current, next) <==>
      && current.imageVersion == next.imageVersion && current.updateCounter == next.updateCounter
      && (current.state, next.state, next.attempts as int) in
           {(2, 3, 0), (3, 4, 1), (4, 4, current.attempts + 1), (4, 5, 0), (4, 6, current.attempts as int)}
  {
  }

  /** When write_record writes at all. */
  predicate Permitted(before: Loaded<M.Metadata>, next: M.Metadata, expected: Status, programming: bool) {
    && StatusOf(before) == expected && M.FieldsValid(next)
    && (!programming ==> if before.Present? then LifecycleTransition(before.record, next)
        else next.state == M.CONFIRMED)
  }

  /** The history after a record became durable, matching WithMetadata. */
  function Noted(h: History, id: slot, next: M.Metadata): History {
    h.(installs := if next.state == M.VERIFIED then h.installs + 1 else h.installs,
       armed := if next.state == M.TRIAL then Some(id) else None)
  }

  /** What a write of `next` may leave of `d`: the record durable, or not. */
  predicate Wrote(d: System, e: System, id: slot, next: M.Metadata) {
    || e == d
    || e == WithMetadata(d, id, next)
    || (!d.metadata.At(id).Present? && BlankStep(d, e, id))
  }

  /** A write behind a condition: nothing at all happens when it fails. */
  predicate Stored(d: System, e: System, id: slot, record: M.Metadata, permitted: bool, uneventful: bool, ok: bool) {
    if permitted then
      && Wrote(d, e, id, MetadataCommitted(id, d.metadata.At(id), record))
      && (ok ==> e == WithMetadata(d, id, MetadataCommitted(id, d.metadata.At(id), record)))
      && (uneventful ==> ok)
    else
      !ok && e == d
  }

  predicate Initializes(before: Loaded<M.Metadata>, record: M.Metadata) {
    !before.Present? && M.FieldsValid(record) && (record.state == M.VERIFIED || record.state == M.CONFIRMED)
  }

  predicate InstallResult(d: System, e: System, id: slot, version: word, counter: word, reason: word, uneventful: bool,
                          ok: bool) {
    var m, record := d.metadata.At(id), InstalledRecord(version, counter, reason);
    if AlreadyInstalled(m, version, counter) then ok && e == d
    else Stored(d, e, id, record, M.FieldsValid(record), uneventful, ok)
  }

  predicate SetResult(d: System, e: System, id: slot, state: word, reason: word, result: word, uneventful: bool,
                      ok: bool) {
    var m := d.metadata.At(id);
    if !m.Present? then !ok && e == d
    else if m.record.state == state then ok && e == d
    else
      var record := Moved(m.record, state, reason, result);
      Stored(d, e, id, record, Permitted(m, record, VALID, false), uneventful, ok)
  }

  lemma SystemMetadata(m: Memory, h: History, id: slot)
    ensures SystemOf(m, h).metadata.At(id) == MetadataOf(m, id)
    ensures MetadataOf(m, id).Present? ==> M.FieldsValid(MetadataOf(m, id).record)
  {
    hide M.Decode, M.FieldsValid, M.BodyCrc, JournalOf;
  }

  lemma CutIsInMetadata(m: Memory, n: Memory, id: slot, next: M.Metadata)
    requires Cut(m, n, id, next)
    ensures ChangedWithin(m, n, MetadataAddress(id, 0), MetadataAddress(id, 2))
  {
    hide M.ReadCopy, MetadataCopy;
  }

  lemma NothingChanged(m: Memory, id: slot)
    ensures ChangedWithin(m, m, MetadataAddress(id, 0), MetadataAddress(id, 2))
  {
  }

  lemma PresentIsLatest(m: Memory, id: slot)
    ensures MetadataOf(m, id).Present? <==> Latest(MetadataCopy(m, id, 0), MetadataCopy(m, id, 1)) != -1
    ensures MetadataOf(m, id).Present? ==> Spare(m, id) == 1 - Latest(MetadataCopy(m, id, 0), MetadataCopy(m, id, 1))
    ensures !MetadataOf(m, id).Present? ==> Spare(m, id) == 0
  {
    hide MetadataCopy;
  }

  lemma StampFields(id: slot, r: M.Metadata, sequence: word)
    ensures M.Stamp(id, r, sequence).sequence == sequence && M.Stamp(id, r, sequence).state == r.state
  {
    hide M.BodyCrc;
  }

  lemma EraseIsCut(m: Memory, n: Memory, id: slot, next: M.Metadata)
    requires var address := MetadataAddress(id, Spare(m, id));
      && ChangedWithin(m, n, address, address + SECTOR)
      && (n == m || Residue(address, n[address..address + SECTOR]))
    ensures Cut(m, n, id, next)
  {
    hide M.ReadCopy;
    var address := MetadataAddress(id, Spare(m, id));
    PrefixOfSlice(n, address, SECTOR, METADATA_SIZE);
  }

  lemma WholeIsCut(m: Memory, n: Memory, id: slot, next: M.Metadata)
    requires ChangedWithin(m, n, MetadataAddress(id, Spare(m, id)), MetadataAddress(id, Spare(m, id)) + SECTOR)
    requires RecordAt(n, MetadataAddress(id, Spare(m, id)), METADATA_SIZE) == M.Encode(next) && M.Valid(id, next)
    ensures Cut(m, n, id, next) && MetadataCopy(n, id, Spare(m, id)) == Intact(next.sequence, next)
  {
    hide M.Encode, M.Decode, M.Valid, ChangedWithin;
    M.RoundTrip(next, M.Encode(next));
  }

  /** The record to write over this copy next. */
  predicate Succeeds(m: Memory, id: slot, copy: nat, next: M.Metadata) {
    && M.Valid(id, next) && copy == Spare(m, id)
    && (MetadataOf(m, id).Present? ==> next.sequence == Add(MetadataOf(m, id).record.sequence, 1))
  }

  class MetadataStore {
    const flash: Flash
    /** Static latest_copy[2]. */
    var latestCopy: Pair<int>

    constructor (flash: Flash)
      ensures this.flash == flash
    {
      this.flash := flash;
      latestCopy := Pair(-1, -1);
    }

    /** BootMetadataStorage_Read. */
    method Read(id: slot, copy: nat) returns (bytes: seq<byte>)
      requires flash.Ready() && copy < 2
      ensures bytes == RecordAt(flash.mem[..], MetadataAddress(id, copy), METADATA_SIZE)
    {
      bytes := [];
      var i := 0;
      while i < METADATA_SIZE
        invariant 0 <= i <= METADATA_SIZE
        invariant bytes == flash.mem[MetadataAddress(id, copy)..MetadataAddress(id, copy) + i]
      {
        bytes := bytes + [flash.mem[METADATA_BASE + (id * 2 + copy) * SECTOR + i]];
        i := i + 1;
      }
      assert flash.mem[..][MetadataAddress(id, copy)..MetadataAddress(id, copy) + METADATA_SIZE]
        == flash.mem[MetadataAddress(id, copy)..MetadataAddress(id, copy) + METADATA_SIZE];
    }

    /** BootMetadata_Load. */
    method Load(id: slot) returns (result: Loaded<M.Metadata>)
      requires flash.Ready()
      modifies this
      ensures result == MetadataOf(flash.mem[..], id)
      ensures latestCopy.At(id) == Latest(MetadataCopy(flash.mem[..], id, 0), MetadataCopy(flash.mem[..], id, 1))
    {
      hide M.Valid, M.Decode;
      latestCopy := latestCopy.Put(id, -1);
      var bytes0 := Read(id, 0);
      var bytes1 := Read(id, 1);
      var record0, record1 := M.Decode(bytes0), M.Decode(bytes1);
      var valid0 := M.Validate(id, record0);
      var valid1 := M.Validate(id, record1);
      var erased := IsErased(bytes0) && IsErased(bytes1);
      if valid0 && valid1 {
        if Newer(record0.sequence, record1.sequence) {
          latestCopy := latestCopy.Put(id, 0);
        } else if Newer(record1.sequence, record0.sequence) {
          latestCopy := latestCopy.Put(id, 1);
        } else if record0 == record1 {
          latestCopy := latestCopy.Put(id, 0);
        } else {
          return Invalid;
        }
      } else if valid0 {
        latestCopy := latestCopy.Put(id, 0);
      } else if valid1 {
        latestCopy := latestCopy.Put(id, 1);
      } else {
        return if erased then Empty else Invalid;
      }
      return Present(if latestCopy.At(id) == 0 then record0 else record1);
    }

    /** The phrases of a record, into an erased sector of what was `m` before. */
    method WritePhrases(id: slot, copy: nat, encoded: seq<byte>, ghost m: Memory, ghost next: M.Metadata)
      returns (ok: bool)
      requires flash.Valid() && !flash.misuse && flash.powered && M.Valid(id, next) && encoded == M.Encode(next)
      requires copy == Spare(m, id)
      requires ChangedWithin(m, flash.mem[..], MetadataAddress(id, copy), MetadataAddress(id, copy) + SECTOR)
      requires IsErased(flash.mem[MetadataAddress(id, copy)..MetadataAddress(id, copy) + SECTOR])
      requires flash.Clean(MetadataAddress(id, copy), MetadataAddress(id, copy) + SECTOR)
      modifies flash`powered, flash`failures, flash`misuse, flash`touched, flash`windowStart, flash`windowEnd, flash.mem
      ensures flash.Valid() && !flash.misuse && flash.Onward() && flash.SlotsAlone()
      ensures ok ==>
        && flash.Uneventful()
        && ChangedWithin(m, flash.mem[..], MetadataAddress(id, copy), MetadataAddress(id, copy) + SECTOR)
      ensures ok ==> RecordAt(flash.mem[..], MetadataAddress(id, copy), METADATA_SIZE) == encoded
      ensures !ok ==> Cut(m, flash.mem[..], id, next)
      ensures flash.Uneventful() ==> ok
    {
      hide M.Valid, M.Encode, RecordAt, MetadataCopy, ChangedWithin, Outside, Cut, Latest, WrittenTo, InFlight;
      var offset := 0;
      ghost var at := MetadataAddress(id, copy);
      NothingWritten(m, flash.mem[..], at, METADATA_SIZE, encoded);
      while offset < METADATA_SIZE
        invariant 0 <= offset <= METADATA_SIZE && offset % PHRASE == 0
        invariant flash.Valid() && !flash.misuse && flash.Onward() && flash.Uneventful() && flash.SlotsAlone()
        invariant flash.Clean(at + offset, at + SECTOR)
        invariant WrittenTo(m, flash.mem[..], at, METADATA_SIZE, encoded, offset)
      {
        ghost var n := flash.mem[..];
        NextPhrase(m, n, at, METADATA_SIZE, encoded, offset);
        ok := flash.MetadataProgram(id, copy, offset, encoded[offset..offset + PHRASE]);
        PhraseProgrammed(m, n, flash.mem[..], at, METADATA_SIZE, encoded, offset);
        if !ok {
          WritingIsCut(m, flash.mem[..], id, next, offset / PHRASE);
          return;
        }
        offset := offset + PHRASE;
      }
      AllWritten(m, flash.mem[..], at, METADATA_SIZE, encoded);
      ok := true;
    }

    /** Erase the spare copy, write `next` into it phrase by phrase, read it back. */
    method WriteCopy(id: slot, copy: nat, next: M.Metadata) returns (ok: bool)
      requires flash.Valid() && !flash.misuse && M.Valid(id, next)
      requires copy == Spare(flash.mem[..], id)
      modifies flash`powered, flash`failures, flash`misuse, flash`touched, flash`windowStart, flash`windowEnd, flash.mem
      ensures flash.Valid() && !flash.misuse
      ensures flash.Onward() && flash.SlotsAlone()
      ensures Cut(old(flash.mem[..]), flash.mem[..], id, next)
      ensures ok ==> flash.powered && MetadataCopy(flash.mem[..], id, copy) == Intact(next.sequence, next)
      ensures flash.powered && flash.failures == old(flash.failures) ==> ok
      ensures !old(flash.powered) ==> flash.mem[..] == old(flash.mem[..]) && flash.failures == old(flash.failures)
    {
      hide M.Valid, M.Encode, M.Decode, RecordAt, MetadataCopy, ChangedWithin, Residue, Outside, Cut;
      ghost var m := flash.mem[..];
      var done := flash.MetadataErase(id, copy);
      if !done {
        EraseIsCut(m, flash.mem[..], id, next);
        return false;
      }
      var encoded := M.Encode(next);
      done := WritePhrases(id, copy, encoded, m, next);
      if !done {
        return false;
      }
      var bytes := Read(id, copy);
      var readback := M.Decode(bytes);
      assert bytes == encoded;
      M.RoundTrip(next, bytes);
      WholeIsCut(m, flash.mem[..], id, next);
      ok := M.Validate(id, readback);
      return ok && readback == next;
    }

    /** The spare copy is overwritten, and the history noted. */
    method Replace(id: slot, copy: nat, next: M.Metadata) returns (ok: bool)
      requires flash.Consistent() && Succeeds(flash.mem[..], id, copy, next)
      modifies flash`powered, flash`failures, flash`misuse, flash`touched, flash`windowStart, flash`windowEnd,
               flash`history, flash.mem
      ensures flash.Consistent() && flash.Onward() && flash.SlotsAlone()
      ensures Wrote(old(flash.State()), flash.State(), id, next)
      ensures ok ==> flash.powered && flash.State() == WithMetadata(old(flash.State()), id, next)
      ensures flash.Uneventful() ==> ok
      ensures !old(flash.powered) ==> flash.State() == old(flash.State())
      ensures ChangedWithin(old(flash.mem[..]), flash.mem[..], MetadataAddress(id, 0), MetadataAddress(id, 2))
    {
      hide M.Valid, MetadataCopy, MetadataOf, JournalOf, SlotOf, Unambiguous, Cut, Outside, ChangedWithin, Spare;
      ghost var m, h := flash.mem[..], flash.history;
      ok := WriteCopy(id, copy, next);
      CommitIsAtomic(m, flash.mem[..], id, next, h);
      CutIsInMetadata(m, flash.mem[..], id, next);
      Note(id, next);
    }

    /** write_record. */
    method Write(id: slot, record: M.Metadata, expected: Status, programming: bool)
      returns (ok: bool, stored: M.Metadata)
      requires flash.Consistent()
      modifies this, flash`powered, flash`failures, flash`misuse, flash`touched, flash`windowStart, flash`windowEnd,
               flash`history, flash.mem
      ensures flash.Consistent()
      ensures flash.Onward() && flash.SlotsAlone()
      ensures Stored(old(flash.State()), flash.State(), id, record,
                     Permitted(old(flash.State()).metadata.At(id), record, expected, programming),
                     flash.Uneventful(), ok)
      ensures ok ==> flash.powered && stored == MetadataCommitted(id, old(flash.State()).metadata.At(id), record)
      ensures !old(flash.powered) ==> flash.State() == old(flash.State())
      ensures ChangedWithin(old(flash.mem[..]), flash.mem[..], MetadataAddress(id, 0), MetadataAddress(id, 2))
    {
      hide M.Valid, M.Stamp, M.FieldsValid, MetadataCopy, MetadataOf, SystemOf, Unambiguous, LifecycleTransition, Cut,
           Outside, ChangedWithin, Wrote, WithMetadata, Latest, Spare;
      ghost var m := flash.mem[..];
      NothingChanged(m, id);
      SystemMetadata(m, flash.history, id);
      stored := record;
      var loaded := Load(id);
      PresentIsLatest(m, id);
      if StatusOf(loaded) != expected {
        return false, record;
      }
      if loaded.Present? && !programming && !LifecycleTransition(loaded.record, record) {
        return false, record;
      }
      if !loaded.Present? && !programming && record.state != M.CONFIRMED {
        return false, record;
      }
      var copy: nat := if loaded.Present? then 1 - latestCopy.At(id) else 0;
      var sequence := if loaded.Present? then Add(loaded.record.sequence, 1) else 1;
      var next := M.Seal(id, record, sequence);
      M.StampValid(id, record, sequence);
      var valid := M.Validate(id, next);
      if !valid {
        return false, record;
      }
      StampFields(id, record, sequence);
      ok := Replace(id, copy, next);
      if ok {
        stored := next;
      }
    }

    /** BootMetadata_Initialize: only where there is no record yet. */
    method Initialize(id: slot, record: M.Metadata) returns (ok: bool)
      requires flash.Consistent()
      modifies this, flash`powered, flash`failures, flash`misuse, flash`touched, flash`windowStart, flash`windowEnd,
               flash`history, flash.mem
      ensures flash.Consistent() && flash.Onward() && (ok ==> flash.powered)
      ensures Stored(old(flash.State()), flash.State(), id, record,
                     Initializes(old(flash.State()).metadata.At(id), record), flash.Uneventful(), ok)
    {
      hide SystemOf, Unambiguous, M.FieldsValid, MetadataCommitted, Wrote, Outside, Latest, MetadataCopy;
      var loaded := Load(id);
      SystemMetadata(flash.mem[..], flash.history, id);
      if loaded.Present? {
        return false;
      }
      var stored;
      ok, stored := Write(id, record, StatusOf(loaded), record.state == M.VERIFIED);
    }

    /** BootMetadata_Commit. */
    method Commit(id: slot, record: M.Metadata) returns (ok: bool, stored: M.Metadata)
      requires flash.Consistent()
      modifies this, flash`powered, flash`failures, flash`misuse, flash`touched, flash`windowStart, flash`windowEnd,
               flash`history, flash.mem
      ensures flash.Consistent() && flash.Onward()
      ensures ok ==> flash.powered && stored == MetadataCommitted(id, old(flash.State()).metadata.At(id), record)
      ensures Stored(old(flash.State()), flash.State(), id, record,
                     Permitted(old(flash.State()).metadata.At(id), record, VALID, false), flash.Uneventful(), ok)
    {
      ok, stored := Write(id, record, VALID, false);
    }

    /** BootMetadata_InstallVerified: a repeated installation changes nothing. */
    method InstallVerified(id: slot, version: word, counter: word, reason: word) returns (ok: bool)
      requires flash.Consistent()
      modifies this, flash`powered, flash`failures, flash`misuse, flash`touched, flash`windowStart, flash`windowEnd,
               flash`history, flash.mem
      ensures flash.Consistent() && flash.Onward() && (ok ==> flash.powered || flash.State() == old(flash.State()))
      ensures InstallResult(old(flash.State()), flash.State(), id, version, counter, reason, flash.Uneventful(), ok)
    {
      hide SystemOf, Unambiguous, M.FieldsValid, MetadataCommitted, Wrote, Outside, Latest, MetadataCopy;
      var loaded := Load(id);
      SystemMetadata(flash.mem[..], flash.history, id);
      if AlreadyInstalled(loaded, version, counter) {
        return true;
      }
      var stored;
      ok, stored := Write(id, InstalledRecord(version, counter, reason), StatusOf(loaded), true);
    }

    /** BootMetadata_SetState. */
    method SetState(id: slot, state: word, reason: word, result: word) returns (ok: bool)
      requires flash.Consistent()
      modifies this, flash`powered, flash`failures, flash`misuse, flash`touched, flash`windowStart, flash`windowEnd,
               flash`history, flash.mem
      ensures flash.Consistent() && flash.Onward() && (ok ==> flash.powered || flash.State() == old(flash.State()))
      ensures SetResult(old(flash.State()), flash.State(), id, state, reason, result, flash.Uneventful(), ok)
    {
      hide SystemOf, Unambiguous, M.FieldsValid, MetadataCommitted, Wrote, Outside, Stored, Permitted, Latest,
           MetadataCopy;
      var loaded := Load(id);
      SystemMetadata(flash.mem[..], flash.history, id);
      if !loaded.Present? {
        return false;
      }
      var r := loaded.record;
      if r.state == state {
        return true;
      }
      r := r.(state := state, resetReason := reason, lastResult := result);
      if state == M.TRIAL {
        r := r.(attempts := 1, lastAttempts := 1);
      } else if state == M.CONFIRMED {
        r := r.(attempts := 0, successfulBoots := Add(r.successfulBoots, 1), lastAttempts := 0);
      }
      var stored;
      ok, stored := Commit(id, r);
    }

    /** BootMetadata_IncrementAttempt. */
    method IncrementAttempt(id: slot, reason: word) returns (ok: bool)
      requires flash.Consistent()
      modifies this, flash`powered, flash`failures, flash`misuse, flash`touched, flash`windowStart, flash`windowEnd,
               flash`history, flash.mem
      ensures flash.Consistent() && flash.Onward() && (ok ==> flash.powered)
      ensures var m := old(flash.State()).metadata.At(id);
        if StateOf(m) == M.TRIAL && AttemptsOf(m) < MAX_TRIAL_ATTEMPTS then
          Stored(old(flash.State()), flash.State(), id, Retried(m.record, reason),
                 Permitted(m, Retried(m.record, reason), VALID, false), flash.Uneventful(), ok)
        else !ok && flash.State() == old(flash.State())
    {
      hide SystemOf, Unambiguous, M.FieldsValid, MetadataCommitted, Wrote, Outside, Stored, Permitted, Latest,
           MetadataCopy;
      var loaded := Load(id);
      SystemMetadata(flash.mem[..], flash.history, id);
      if !loaded.Present? || loaded.record.state != M.TRIAL || loaded.record.attempts >= MAX_TRIAL_ATTEMPTS {
        return false;
      }
      var attempts := Add(loaded.record.attempts, 1);
      var stored;
      ok, stored := Commit(id, loaded.record.(attempts := attempts, lastAttempts := attempts, resetReason := reason,
                                              lastResult := M.TRIAL_STARTED));
    }

    /** Bring the history up to date with what is durable. */
    ghost method Note(id: slot, next: M.Metadata)
      requires flash.Ready()
      modifies flash`history
      ensures flash.history ==
        if MetadataOf(flash.mem[..], id) == Present(next) then Noted(old(flash.history), id, next)
        else old(flash.history)
    {
      hide MetadataOf, Noted;
      if MetadataOf(flash.mem[..], id) == Present(next) {
        flash.history := Noted(flash.history, id, next);
      }
    }
  }
}
