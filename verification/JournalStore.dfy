/** The two-copy update journal (boot_journal.c). */
module JournalStore {
  import opened Bytes
  import opened Slots
  import opened TwinStore
  import opened SealedRecord
  import opened Protocol
  import opened FlashMap
  import opened FlashModel
  import J = JournalFormat

  /** The copy a commit overwrites: never the only current one. */
  function Spare(m: Memory): nat {
    SpareOf(JournalCopy(m, 0), JournalCopy(m, 1))
  }

  /** What the next commit of `r` writes. */
  function Next(before: Loaded<J.Journal>, r: J.Journal): J.Journal {
    if before.Present? then Committed(before.record, r) else J.Stamp(r, 1)
  }

  /** A commit cut anywhere: the spare copy is still the old one, does not read
    * as a record, or is the new record, and everything else is as before. */
  predicate Cut(m: Memory, n: Memory, next: J.Journal) {
    && ChangedWithin(m, n, JournalAddress(Spare(m)), JournalAddress(Spare(m)) + SECTOR)
    && JournalCopy(n, Spare(m)) in
         {JournalCopy(m, Spare(m)), Damaged, Intact(next.sequence, next)}
  }

  /** Then loading gives the previous or the new record, and no ambiguity ever arises. */
  lemma CommitIsAtomic(m: Memory, n: Memory, next: J.Journal, h: History)
    requires Unambiguous(m) && Cut(m, n, next)
    requires JournalOf(m).Present? ==> next.sequence == Add(JournalOf(m).record.sequence, 1)
    ensures Unambiguous(n)
    ensures SystemOf(n, h) == SystemOf(m, h).(journal := JournalOf(n))
    ensures JournalCopy(n, Spare(m)) == Intact(next.sequence, next) ==> JournalOf(n) == Present(next)
    ensures JournalOf(m).Present? ==> JournalOf(n) in {JournalOf(m), Present(next)}
    ensures !JournalOf(m).Present? ==> JournalOf(n) == Present(next) || !JournalOf(n).Present?
  {
    hide JournalCopy, SystemOf, MetadataCopy, Latest;
    OthersCopyKept(m, n, Spare(m));
    IntactCarriesSequence(m, 0);
    IntactCarriesSequence(m, 1);
    ReplacingIsAtomic(JournalCopy(m, 0), JournalCopy(m, 1),
                      IsErased(JournalBytes(m, 0)) && IsErased(JournalBytes(m, 1)),
                      JournalCopy(n, 0), JournalCopy(n, 1),
                      IsErased(JournalBytes(n, 0)) && IsErased(JournalBytes(n, 1)),
                      next.sequence, next);
    JournalChange(m, n, Spare(m), h);
  }

  lemma IntactCarriesSequence(m: Memory, copy: nat)
    requires copy < 2
    ensures JournalCopy(m, copy).Intact? ==> JournalCopy(m, copy).sequence == JournalCopy(m, copy).record.sequence
  {
    hide J.Valid, J.Decode;
  }

  lemma OthersCopyKept(m: Memory, n: Memory, copy: nat)
    requires copy < 2 && ChangedWithin(m, n, JournalAddress(copy), JournalAddress(copy) + SECTOR)
    ensures JournalCopy(n, 1 - copy) == JournalCopy(m, 1 - copy)
  {
    hide J.ReadCopy;
    RegionKept(m, n, JournalAddress(copy), JournalAddress(copy) + SECTOR,
               JournalAddress(1 - copy), JournalAddress(1 - copy) + JOURNAL_SIZE);
  }

  /** While phrase `k` is being written the sector reads as nothing or as the record. */
  lemma WritingIsCut(m: Memory, n: Memory, next: J.Journal, k: nat)
    requires J.Valid(next) && 8 * k + 8 <= JOURNAL_SIZE
    requires InFlight(m, n, JournalAddress(Spare(m)), JOURNAL_SIZE, J.Encode(next), 8 * k)
    ensures Cut(m, n, next)
  {
    hide J.Encode, J.Valid, J.ReadCopy, ChangedWithin;
    var bytes := RecordAt(n, JournalAddress(Spare(m)), JOURNAL_SIZE);
    assert bytes == Torn(J.Encode(next), k, bytes[8 * k..8 * k + 8]);
    J.TornCopy(next, k, bytes[8 * k..8 * k + 8]);
  }

  /** The history after a record became durable, matching WithJournal. */
  function Noted(h: History, before: Loaded<J.Journal>, next: J.Journal): History {
    if Activates(before, next) then h.(trialJumps := h.trialJumps.Put(next.target, 0), installs := 0) else h
  }

  lemma CutIsInJournal(m: Memory, n: Memory, next: J.Journal)
    requires Cut(m, n, next)
    ensures ChangedWithin(m, n, JOURNAL_BASE, METADATA_BASE)
  {
    hide J.ReadCopy, JournalCopy;
  }

  lemma NothingChanged(m: Memory)
    ensures ChangedWithin(m, m, JOURNAL_BASE, METADATA_BASE)
  {
  }

  predicate Cleared(d: System, e: System, uneventful: bool, ok: bool) {
    if d.journal.Present? && d.journal.record.state == J.IDLE then
      && e in {d, WithJournal(d, Committed(d.journal.record, d.journal.record.(lastResult := J.NONE)))}
      && (ok ==> e == WithJournal(d, Committed(d.journal.record, d.journal.record.(lastResult := J.NONE))))
      && (uneventful ==> ok)
    else !ok && e == d
  }

  lemma LoadedFields(m: Memory)
    ensures JournalOf(m).Present? ==> J.FieldsValid(JournalOf(m).record)
  {
    hide J.Decode, J.BodyCrc, J.FieldsValid;
  }

  lemma ClearedFields(r: J.Journal)
    ensures J.FieldsValid(r) ==> J.FieldsValid(r.(lastResult := J.NONE))
  {
  }

  lemma PresentIsLatest(m: Memory)
    ensures JournalOf(m).Present? <==> Latest(JournalCopy(m, 0), JournalCopy(m, 1)) != -1
    ensures JournalOf(m).Present? ==> Spare(m) == 1 - Latest(JournalCopy(m, 0), JournalCopy(m, 1))
    ensures !JournalOf(m).Present? ==> Spare(m) == 0
  {
    hide JournalCopy;
  }

  lemma StampSequence(r: J.Journal, sequence: word)
    ensures J.Stamp(r, sequence).sequence == sequence
  {
    hide J.BodyCrc;
  }

  lemma EraseIsCut(m: Memory, n: Memory, next: J.Journal)
    requires var address := JournalAddress(Spare(m));
      && ChangedWithin(m, n, address, address + SECTOR)
      && (n == m || Residue(address, n[address..address + SECTOR]))
    ensures Cut(m, n, next)
  {
    hide J.ReadCopy;
    var address := JournalAddress(Spare(m));
    PrefixOfSlice(n, address, SECTOR, JOURNAL_SIZE);
  }

  lemma WholeIsCut(m: Memory, n: Memory, next: J.Journal)
    requires ChangedWithin(m, n, JournalAddress(Spare(m)), JournalAddress(Spare(m)) + SECTOR)
    requires RecordAt(n, JournalAddress(Spare(m)), JOURNAL_SIZE) == J.Encode(next) && J.Valid(next)
    ensures Cut(m, n, next) && JournalCopy(n, Spare(m)) == Intact(next.sequence, next)
  {
    hide J.Encode, J.Decode, J.Valid, ChangedWithin;
    J.RoundTrip(next, J.Encode(next));
  }

  class JournalStore {
    const flash: Flash
    /** Static latest_copy: -1 when there is none. */
    var latestCopy: int

    constructor (flash: Flash)
      ensures this.flash == flash
    {
      this.flash := flash;
      latestCopy := -1;
    }

    /** BootJournalStorage_Read. */
    method Read(copy: nat) returns (bytes: seq<byte>)
      requires flash.Ready() && copy < 2
      ensures bytes == RecordAt(flash.mem[..], JournalAddress(copy), JOURNAL_SIZE)
    {
      bytes := [];
      var i := 0;
      while i < JOURNAL_SIZE
        invariant 0 <= i <= JOURNAL_SIZE
        invariant bytes == flash.mem[JournalAddress(copy)..JournalAddress(copy) + i]
      {
        bytes := bytes + [flash.mem[JOURNAL_BASE + copy * SECTOR + i]];
        i := i + 1;
      }
      assert flash.mem[..][JournalAddress(copy)..JournalAddress(copy) + JOURNAL_SIZE]
        == flash.mem[JournalAddress(copy)..JournalAddress(copy) + JOURNAL_SIZE];
    }

    /** BootJournal_LoadLatest. */
    method LoadLatest() returns (result: Loaded<J.Journal>)
      requires flash.Ready()
      modifies this
      ensures result == JournalOf(flash.mem[..])
      ensures latestCopy == Latest(JournalCopy(flash.mem[..], 0), JournalCopy(flash.mem[..], 1))
    {
      hide J.Valid, J.Decode;
      latestCopy := -1;
      var bytes0 := Read(0);
      var bytes1 := Read(1);
      var record0, record1 := J.Decode(bytes0), J.Decode(bytes1);
      var valid0 := J.Validate(record0);
      var valid1 := J.Validate(record1);
      var erased := IsErased(bytes0) && IsErased(bytes1);
      if valid0 && valid1 {
        if Newer(record0.sequence, record1.sequence) {
          latestCopy := 0;
        } else if Newer(record1.sequence, record0.sequence) {
          latestCopy := 1;
        } else if record0 == record1 {
          latestCopy := 0;
        } else {
          return Invalid;
        }
      } else if valid0 {
        latestCopy := 0;
      } else if valid1 {
        latestCopy := 1;
      } else {
        return if erased then Empty else Invalid;
      }
      return Present(if latestCopy == 0 then record0 else record1);
    }

    /** The phrases of a record, into an erased sector of what was `m` before. */
    method WritePhrases(copy: nat, encoded: seq<byte>, ghost m: Memory, ghost next: J.Journal) returns (ok: bool)
      requires flash.Valid() && !flash.misuse && flash.powered && J.Valid(next) && encoded == J.Encode(next)
      requires copy == Spare(m)
      requires ChangedWithin(m, flash.mem[..], JournalAddress(copy), JournalAddress(copy) + SECTOR)
      requires IsErased(flash.mem[JournalAddress(copy)..JournalAddress(copy) + SECTOR])
      requires flash.Clean(JournalAddress(copy), JournalAddress(copy) + SECTOR)
      modifies flash`powered, flash`failures, flash`misuse, flash`touched, flash`windowStart, flash`windowEnd, flash.mem
      ensures flash.Valid() && !flash.misuse && flash.Onward() && flash.SlotsAlone()
      ensures ok ==>
        flash.Uneventful() && ChangedWithin(m, flash.mem[..], JournalAddress(copy), JournalAddress(copy) + SECTOR)
      ensures ok ==> RecordAt(flash.mem[..], JournalAddress(copy), JOURNAL_SIZE) == encoded
      ensures !ok ==> Cut(m, flash.mem[..], next)
      ensures flash.Uneventful() ==> ok
    {
      hide J.Valid, J.Encode, RecordAt, JournalCopy, ChangedWithin, Outside, Cut, Latest, WrittenTo, InFlight;
      var offset := 0;
      ghost var at := JournalAddress(copy);
      NothingWritten(m, flash.mem[..], at, JOURNAL_SIZE, encoded);
      while offset < JOURNAL_SIZE
        invariant 0 <= offset <= JOURNAL_SIZE && offset % PHRASE == 0
        invariant flash.Valid() && !flash.misuse && flash.Onward() && flash.Uneventful() && flash.SlotsAlone()
        invariant flash.Clean(at + offset, at + SECTOR)
        invariant WrittenTo(m, flash.mem[..], at, JOURNAL_SIZE, encoded, offset)
      {
        ghost var n := flash.mem[..];
        NextPhrase(m, n, at, JOURNAL_SIZE, encoded, offset);
        ok := flash.JournalProgram(copy, offset, encoded[offset..offset + PHRASE]);
        PhraseProgrammed(m, n, flash.mem[..], at, JOURNAL_SIZE, encoded, offset);
        if !ok {
          WritingIsCut(m, flash.mem[..], next, offset / PHRASE);
          return;
        }
        offset := offset + PHRASE;
      }
      AllWritten(m, flash.mem[..], at, JOURNAL_SIZE, encoded);
      ok := true;
    }

    /** Erase the spare copy, write `next` into it phrase by phrase, read it back. */
    method WriteCopy(copy: nat, next: J.Journal) returns (ok: bool)
      requires flash.Valid() && !flash.misuse && J.Valid(next)
      requires copy == Spare(flash.mem[..])
      modifies flash`powered, flash`failures, flash`misuse, flash`touched, flash`windowStart, flash`windowEnd, flash.mem
      ensures flash.Valid() && !flash.misuse
      ensures flash.Onward() && flash.SlotsAlone()
      ensures Cut(old(flash.mem[..]), flash.mem[..], next)
      ensures ok ==> flash.powered && JournalCopy(flash.mem[..], copy) == Intact(next.sequence, next)
      ensures flash.powered && flash.failures == old(flash.failures) ==> ok
      ensures !old(flash.powered) ==> flash.mem[..] == old(flash.mem[..]) && flash.failures == old(flash.failures)
    {
      hide J.Valid, J.Encode, J.Decode, RecordAt, JournalCopy, ChangedWithin, Residue, Outside, Cut;
      ghost var m := flash.mem[..];
      var done := flash.JournalErase(copy);
      if !done {
        EraseIsCut(m, flash.mem[..], next);
        return false;
      }
      var encoded := J.Encode(next);
      done := WritePhrases(copy, encoded, m, next);
      if !done {
        return false;
      }
      var bytes := Read(copy);
      var readback := J.Decode(bytes);
      assert bytes == encoded;
      J.RoundTrip(next, bytes);
      WholeIsCut(m, flash.mem[..], next);
      ok := J.Validate(readback);
      return ok && readback == next;
    }

    /** commit: BootJournal_Commit, or BootJournal_Initialize when `initialize`. */
    method Commit(record: J.Journal, initialize: bool) returns (ok: bool, stored: J.Journal)
      requires flash.Consistent()
      modifies this, flash`powered, flash`failures, flash`misuse, flash`touched, flash`windowStart, flash`windowEnd,
               flash`history, flash.mem
      ensures flash.Consistent()
      ensures flash.Onward() && flash.SlotsAlone()
      ensures var before := old(flash.State());
        var next := Next(before.journal, record);
        var permitted := before.journal.Present? != initialize && J.FieldsValid(record);
        && (ok ==> permitted && flash.powered && stored == next && flash.State() == WithJournal(before, next))
        && (!permitted ==>
              flash.State() == before && flash.powered == old(flash.powered) && flash.failures == old(flash.failures))
        && (permitted && !initialize ==> flash.State() in {before, WithJournal(before, next)})
        && (permitted && initialize ==>
             || flash.State() == WithJournal(before, next)
             || (flash.State() == before.(journal := flash.State().journal) && !flash.State().journal.Present?))
        && (permitted && flash.powered && flash.failures == old(flash.failures) ==> ok)
      ensures ChangedWithin(old(flash.mem[..]), flash.mem[..], JOURNAL_BASE, METADATA_BASE)
      ensures !old(flash.powered) ==> flash.State() == old(flash.State()) && flash.failures == old(flash.failures)
    {
      hide J.Valid, J.Stamp, J.FieldsValid, JournalCopy, JournalOf, MetadataOf, SlotOf, Unambiguous, Cut, Outside,
           ChangedWithin;
      ghost var m := flash.mem[..];
      ghost var before := JournalOf(m);
      NothingChanged(m);
      stored := record;
      var previous := LoadLatest();
      PresentIsLatest(m);
      if previous.Present? == initialize {
        return false, stored;
      }
      var copy: nat := if previous.Present? then 1 - latestCopy else 0;
      var sequence := if previous.Present? then Add(previous.record.sequence, 1) else 1;
      var next := J.Seal(record, sequence);
      J.StampValid(record, sequence);
      var valid := J.Validate(next);
      if !valid {
        return false, stored;
      }
      StampSequence(record, sequence);
      ok := WriteCopy(copy, next);
      CommitIsAtomic(m, flash.mem[..], next, flash.history);
      CutIsInJournal(m, flash.mem[..], next);
      Note(before, next);
      if ok {
        stored := next;
      }
    }

    /** Bring the history up to date with what is durable. */
    ghost method Note(before: Loaded<J.Journal>, next: J.Journal)
      requires flash.Ready()
      modifies flash`history
      ensures flash.history ==
        if JournalOf(flash.mem[..]) == Present(next) then Noted(old(flash.history), before, next)
        else old(flash.history)
    {
      hide JournalOf, Noted;
      if JournalOf(flash.mem[..]) == Present(next) {
        flash.history := Noted(flash.history, before, next);
      }
    }

    /** BootJournal_Clear: only an idle journal, which stays one. */
    method Clear() returns (ok: bool)
      requires flash.Consistent()
      modifies this, flash`powered, flash`failures, flash`misuse, flash`touched, flash`windowStart, flash`windowEnd,
               flash`history, flash.mem
      ensures flash.Consistent() && flash.Onward()
      ensures Cleared(old(flash.State()), flash.State(), flash.Uneventful(), ok)
    {
      hide J.Stamp, J.FieldsValid, JournalCopy, JournalOf, MetadataOf, SlotOf, Unambiguous;
      LoadedFields(flash.mem[..]);
      var loaded := LoadLatest();
      if !loaded.Present? || loaded.record.state != J.IDLE {
        return false;
      }
      ClearedFields(loaded.record);
      var stored;
      ok, stored := Commit(loaded.record.(lastResult := J.NONE), false);
    }
  }
}
