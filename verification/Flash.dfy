/** The flash array, the commands of its controller, the RAM-resident driver and
  * the facade in front of it (flash_driver.c, boot_flash.c).
  *
  * Losing power is a step any command may take: from then on `powered` is false
  * and no command has an effect. Code that goes on running after that stands
  * for nothing that happens; what it can prove about `mem` is what holds when
  * power fails at an arbitrary command. */
module FlashModel {
  import opened Bytes
  import opened Slots
  import opened Protocol
  import opened FlashMap

  class Flash {
    const mem: array<byte>
    var powered: bool
    /** Commands that reported an error while power was present. */
    ghost var failures: nat
    /** The phrases that were programmed, or tried to, since their sector was erased. */
    ghost var touched: set<int>
    /** A phrase was programmed that was not erased, or a second time since it was,
      * or was expected to be blank and was not. */
    ghost var misuse: bool
    ghost var history: History

    // The driver's window.
    var windowStart: nat
    var windowEnd: nat
    // The facade's slots.
    var activeSlot: word
    var targetSlot: word

    ghost predicate Ready()
      reads this
    {
      mem.Length == FLASH_SIZE && windowStart <= windowEnd <= FLASH_SIZE
    }

    /** Between calls the window is empty or one slot, the target if configured. */
    ghost predicate Valid()
      reads this
    {
      && Ready()
      && (windowStart == windowEnd == 0 || exists s: slot :: windowStart == Base(s) && windowEnd == Base(s) + SLOT_SIZE)
      && (IsSlot(targetSlot) && targetSlot != activeSlot ==>
          windowStart == Base(targetSlot) && windowEnd == Base(targetSlot) + SLOT_SIZE)
    }

    ghost predicate Consistent()
      reads this, mem
    {
      Valid() && Unambiguous(mem[..]) && !misuse
    }

    ghost function State(): System
      requires mem.Length == FLASH_SIZE
      reads this, mem
    {
      SystemOf(mem[..], history)
    }

    /** Power once lost stays lost, and only a powered command can fail. */
    twostate predicate PowerOnward()
      reads this
    {
      && (powered ==> old(powered)) && old(failures) <= failures
      && (!old(powered) ==> failures == old(failures))
    }

    /** ... and nothing outside the slots and the record sectors was touched. */
    twostate predicate Onward()
      reads this, mem
    {
      PowerOnward() && KeptOutside()
    }

    twostate predicate KeptOutside()
      reads this, mem
    {
      mem.Length == FLASH_SIZE && Outside(mem[..]) == Outside(old(mem[..]))
    }

    /** Nothing in [low, high) was programmed since it was erased. */
    ghost predicate Clean(low: int, high: int)
      reads this
    {
      CleanIn(touched, low, high)
    }

    /** Only phrases in [low, high) were programmed. */
    twostate predicate TouchedWithin(low: int, high: int)
      reads this
    {
      GrownWithin(old(touched), touched, low, high)
    }

    /** ... none of them in a slot. */
    twostate predicate SlotsAlone()
      reads this
    {
      TouchedWithin(JOURNAL_BASE, RECORDS_END)
    }

    /** No command failed and power was never lost. */
    twostate predicate Uneventful()
      reads this
    {
      powered && failures == old(failures)
    }

    predicate InWindow(address: int, size: int)
      reads this
    {
      size > 0 && windowStart <= address < windowEnd && size <= windowEnd - address
    }

    /** No command was issued. */
    twostate predicate Idle()
      reads this
    {
      powered == old(powered) && failures == old(failures)
    }

    twostate predicate SameFacade()
      reads this
    {
      activeSlot == old(activeSlot) && targetSlot == old(targetSlot)
    }

    /** Record what a slot held when it was validated for activation. */
    ghost method Certify(id: slot)
      requires mem.Length == FLASH_SIZE
      modifies this`history
      ensures State() == WithCertified(old(State()), id)
    {
      hide JournalOf, MetadataOf, SlotOf;
      history := history.(certified := history.certified.Put(id, SlotOf(mem[..], id)));
    }

    // ------------------------------------------------------------- commands

    /** Erase one sector. It may fail, or power may fail under it. */
    method EraseCommand(address: nat) returns (ok: bool)
      requires mem.Length == FLASH_SIZE && address + SECTOR <= FLASH_SIZE
      modifies this`powered, this`failures, this`touched, mem
      ensures ChangedWithin(old(mem[..]), mem[..], address, address + SECTOR)
      ensures ok ==> powered && failures == old(failures) && IsErased(mem[address..address + SECTOR])
      ensures touched <= old(touched) && (ok ==> Clean(address, address + SECTOR))
      ensures !ok ==> mem[..] == old(mem[..]) || Residue(address, mem[address..address + SECTOR])
      ensures powered && failures == old(failures) ==> ok
      ensures PowerOnward()
      ensures !old(powered) ==> mem[..] == old(mem[..]) && failures == old(failures)
    {
      if !powered {
        return false;
      }
      if * {
        forall i | address <= i < address + SECTOR {
          mem[i] := ERASED;
        }
        touched := set a | a in touched && !(address <= a < address + SECTOR);
        return true;
      }
      if * {
        ZeroIsResidue(address);
        assert |seq(SECTOR, _ => 0)| == SECTOR;
        var residue: seq<byte> :| |residue| == SECTOR && Residue(address, residue);
        forall i | address <= i < address + SECTOR {
          mem[i] := residue[i - address];
        }
        ghost var sector := mem[address..address + SECTOR];
        assert |sector| == |residue|;
        assert forall i :: 0 <= i < SECTOR ==> sector[i] == residue[i];
        assert sector == residue;
      }
      if * {
        powered := false;
      } else {
        failures := failures + 1;
      }
      return false;
    }

    /** Program one phrase. A phrase that is not erased is rejected; any command
      * that does not complete leaves anything in the phrase. */
    method ProgramCommand(address: nat, data: seq<byte>) returns (ok: bool)
      requires mem.Length == FLASH_SIZE && address + PHRASE <= FLASH_SIZE && |data| == PHRASE
      modifies this`powered, this`failures, this`misuse, this`touched, mem
      ensures ChangedWithin(old(mem[..]), mem[..], address, address + PHRASE)
      ensures ok ==> powered && failures == old(failures) && mem[address..address + PHRASE] == data
      ensures touched == if old(powered) then old(touched) + {address} else old(touched)
      ensures misuse ==
        (old(misuse)
         || (old(powered) && (!IsErased(old(mem[address..address + PHRASE])) || address in old(touched))))
      ensures powered && failures == old(failures) ==> ok
      ensures PowerOnward()
      ensures !old(powered) ==> mem[..] == old(mem[..]) && failures == old(failures)
    {
      if !powered {
        return false;
      }
      misuse := misuse || !IsErased(mem[address..address + PHRASE]) || address in touched;
      touched := touched + {address};
      var done: bool := *;
      if done && IsErased(mem[address..address + PHRASE]) {
        forall i | address <= i < address + PHRASE {
          mem[i] := data[i - address];
        }
        ghost var phrase := mem[address..address + PHRASE];
        assert |phrase| == |data|;
        assert forall i :: 0 <= i < PHRASE ==> phrase[i] == data[i];
        assert phrase == data;
        return true;
      }
      var junk: seq<byte> := *;
      if |junk| == PHRASE {
        forall i | address <= i < address + PHRASE {
          mem[i] := junk[i - address];
        }
      }
      if * {
        powered := false;
      } else {
        failures := failures + 1;
      }
      return false;
    }

    // --------------------------------------------------------------- driver

    /** FlashDriver_Init. */
    method DriverInit(active: word, target: word) returns (ok: bool)
      requires Ready()
      modifies this`windowStart, this`windowEnd
      ensures Ready()
      ensures ok == (IsSlot(target) && target != active && (IsSlot(active) || active == UNKNOWN))
      ensures ok ==> windowStart == Base(target) && windowEnd == Base(target) + SLOT_SIZE
      ensures !ok ==> windowStart == windowEnd == 0
    {
      windowStart, windowEnd := 0, 0;
      if target > 1 || target == active || (active > 1 && active != UNKNOWN) {
        return false;
      }
      windowStart := Base(target);
      windowEnd := windowStart + SLOT_SIZE;
      return true;
    }

    /** FlashDriver_Verify. Without power nothing reads back. */
    method DriverVerify(address: nat, data: seq<byte>) returns (ok: bool)
      requires Ready()
      ensures ok == (powered && InWindow(address, |data|) && mem[address..address + |data|] == data)
    {
      if !powered || !InWindow(address, |data|) {
        return false;
      }
      var i := 0;
      while i < |data|
        invariant 0 <= i <= |data|
        invariant mem[address..address + i] == data[..i]
      {
        if mem[address + i] != data[i] {
          assert mem[address..address + |data|][i] == mem[address + i];
          return false;
        }
        i := i + 1;
      }
      return true;
    }

    /** FlashDriver_Erase: one sector, read back. */
    method DriverErase(address: nat, size: nat) returns (ok: bool)
      requires Ready()
      modifies this`powered, this`failures, this`touched, mem
      ensures var accepted := InWindow(address, size) && size == SECTOR && address % SECTOR == 0;
        && ChangedWithin(old(mem[..]), mem[..], address, address + SECTOR)
        && (!accepted ==> !ok && mem[..] == old(mem[..]) && powered == old(powered) && failures == old(failures))
        && touched <= old(touched) && (ok ==> Clean(address, address + SECTOR))
        && (ok ==> powered && failures == old(failures) && IsErased(mem[address..address + SECTOR]))
        && (accepted && !ok ==> mem[..] == old(mem[..]) || Residue(address, mem[address..address + SECTOR]))
        && (accepted && powered && failures == old(failures) ==> ok)
      ensures PowerOnward()
      ensures !old(powered) ==> mem[..] == old(mem[..]) && failures == old(failures)
    {
      if !InWindow(address, size) || size != SECTOR || address % SECTOR != 0 {
        return false;
      }
      var done := EraseCommand(address);
      if !done {
        return false;
      }
      var i := 0;
      while i < size
        invariant 0 <= i <= size
      {
        assert mem[address + i] == mem[address..address + SECTOR][i];
        if mem[address + i] != ERASED {
          return false;
        }
        i := i + 1;
      }
      return true;
    }

    /** One iteration of FlashDriver_Program: blank phrases are only read back. */
    method DriverProgramPhrase(address: nat, phrase: seq<byte>) returns (ok: bool)
      requires Ready() && |phrase| == PHRASE && InWindow(address, PHRASE)
      modifies this`powered, this`failures, this`misuse, this`touched, mem
      ensures Programmed(address, phrase, ok)
      ensures PowerOnward()
      ensures !old(powered) ==> !ok && mem[..] == old(mem[..]) && failures == old(failures) && misuse == old(misuse)
    {
      var blank := true;
      var i := 0;
      while i < PHRASE
        invariant 0 <= i <= PHRASE
        invariant blank <==> IsErased(phrase[..i])
      {
        if phrase[i] != ERASED {
          blank := false;
        }
        i := i + 1;
      }
      assert phrase[..PHRASE] == phrase;
      if !blank {
        var done := ProgramCommand(address, phrase);
        if !done {
          return false;
        }
      }
      ok := DriverVerify(address, phrase);
      if !ok {
        misuse := misuse || powered;
        if blank && IsErased(mem[address..address + PHRASE]) {
          assert mem[address..address + PHRASE] == phrase;
        }
      }
    }

    /** FlashDriver_Program. */
    method DriverProgram(address: nat, data: seq<byte>) returns (ok: bool)
      requires Ready()
      modifies this`powered, this`failures, this`misuse, this`touched, mem
      ensures var accepted := InWindow(address, |data|) && address % PHRASE == 0 && |data| % PHRASE == 0;
        && (!accepted ==> !ok && mem[..] == old(mem[..]) && powered == old(powered) && failures == old(failures)
                          && misuse == old(misuse) && touched == old(touched))
        && (accepted ==> Programmed(address, data, ok))
      ensures PowerOnward()
      ensures !old(powered) ==> !ok && mem[..] == old(mem[..]) && failures == old(failures) && misuse == old(misuse)
    {
      if !InWindow(address, |data|) || address % PHRASE != 0 || |data| % PHRASE != 0 {
        return false;
      }
      ok := DriverPhrases(address, data);
    }

    /** The phrase loop of FlashDriver_Program. */
    method DriverPhrases(address: nat, data: seq<byte>) returns (ok: bool)
      requires Ready() && InWindow(address, |data|) && |data| % PHRASE == 0
      modifies this`powered, this`failures, this`misuse, this`touched, mem
      ensures Programmed(address, data, ok) && PowerOnward()
      ensures !old(powered) ==> !ok && mem[..] == old(mem[..]) && failures == old(failures) && misuse == old(misuse)
    {
      hide ChangedWithin, IsErased, Effect, Fit;
      ghost var before, were, was := mem[..], touched, misuse;
      NoEffect(before, were, was, address, data[..0]);
      EffectWidens(before, were, was, before, were, was, address, data, 0);
      var offset := 0;
      while offset < |data|
        invariant 0 <= offset <= |data| && offset % PHRASE == 0
        invariant Effect(before, were, was, mem[..], touched, misuse, address, data[..offset])
        invariant mem[address..address + offset] == data[..offset]
        invariant powered == old(powered) && failures == old(failures)
        invariant !powered ==> offset == 0 && mem[..] == before && misuse == old(misuse)
      {
        MorePhrases(offset, |data|);
        ghost var n, middle, between := mem[..], touched, misuse;
        var done := DriverProgramPhrase(address + offset, data[offset..offset + PHRASE]);
        EffectExtends(before, were, was, n, middle, between, mem[..], touched, misuse, address, data, offset);
        EffectWidens(before, were, was, mem[..], touched, misuse, address, data, offset + PHRASE);
        if !done {
          return false;
        }
        PhraseFollows(data, n, mem[..], address, offset, middle, touched, between, misuse);
        offset := offset + PHRASE;
      }
      assert data[..|data|] == data;
      return true;
    }

    static lemma MorePhrases(offset: nat, size: nat)
      requires offset < size && offset % PHRASE == 0 && size % PHRASE == 0
      ensures offset + PHRASE <= size && (offset + PHRASE) % PHRASE == 0
    {
    }

    static lemma PhraseFollows(data: seq<byte>, m: Memory, n: Memory, address: nat, offset: nat,
                               touched: set<int>, after: set<int>, misuse: bool, misused: bool)
      requires offset + PHRASE <= |data| && address + offset + PHRASE <= FLASH_SIZE
      requires Effect(m, touched, misuse, n, after, misused, address + offset, data[offset..offset + PHRASE])
      requires m[address..address + offset] == data[..offset]
      requires n[address + offset..address + offset + PHRASE] == data[offset..offset + PHRASE]
      ensures n[address..address + offset + PHRASE] == data[..offset + PHRASE]
    {
      hide ChangedWithin;
      PrefixExtends(data, m, n, address, offset);
    }

    static lemma PrefixExtends(data: seq<byte>, m: Memory, n: Memory, address: nat, offset: nat)
      requires offset + PHRASE <= |data| && address + offset + PHRASE <= FLASH_SIZE
      requires ChangedWithin(m, n, address + offset, address + offset + PHRASE)
      requires m[address..address + offset] == data[..offset]
      requires n[address + offset..address + offset + PHRASE] == data[offset..offset + PHRASE]
      ensures n[address..address + offset + PHRASE] == data[..offset + PHRASE]
    {
      RegionKept(m, n, address + offset, address + offset + PHRASE, address, address + offset);
      assert n[address..address + offset + PHRASE]
        == n[address..address + offset] + n[address + offset..address + offset + PHRASE];
      assert data[..offset + PHRASE] == data[..offset] + data[offset..offset + PHRASE];
    }

    /** FlashDriver_JournalErase: a narrow window for the one sector, restored after. */
    method JournalErase(copy: nat) returns (ok: bool)
      requires Ready()
      modifies this`powered, this`failures, this`touched, this`windowStart, this`windowEnd, mem
      ensures windowStart == old(windowStart) && windowEnd == old(windowEnd) && touched <= old(touched)
      ensures copy > 1 ==> !ok && mem[..] == old(mem[..]) && powered == old(powered) && failures == old(failures)
      ensures copy <= 1 ==>
        && var address := JournalAddress(copy);
        && ChangedWithin(old(mem[..]), mem[..], address, address + SECTOR)
        && (ok ==> Clean(address, address + SECTOR))
        && (ok ==> powered && failures == old(failures) && IsErased(mem[address..address + SECTOR]))
        && (!ok ==> mem[..] == old(mem[..]) || Residue(address, mem[address..address + SECTOR]))
        && (powered && failures == old(failures) ==> ok)
      ensures Onward()
      ensures !old(powered) ==> mem[..] == old(mem[..]) && failures == old(failures)
    {
      hide Outside, ChangedWithin, Residue, IsErased;
      if copy > 1 {
        return false;
      }
      var savedStart, savedEnd := windowStart, windowEnd;
      windowStart := JOURNAL_BASE + copy * SECTOR;
      windowEnd := windowStart + SECTOR;
      ok := DriverErase(windowStart, SECTOR);
      OutsideKept(old(mem[..]), mem[..], windowStart, windowEnd);
      windowStart, windowEnd := savedStart, savedEnd;
    }

    /** FlashDriver_JournalProgram. */
    method JournalProgram(copy: nat, offset: nat, data: seq<byte>) returns (ok: bool)
      requires Ready()
      modifies this`powered, this`failures, this`misuse, this`touched, this`windowStart, this`windowEnd, mem
      ensures windowStart == old(windowStart) && windowEnd == old(windowEnd)
      ensures var accepted := copy <= 1 && offset + |data| <= JOURNAL_SIZE && |data| > 0
                              && offset % PHRASE == 0 && |data| % PHRASE == 0;
        && (!accepted ==> !ok && mem[..] == old(mem[..]) && powered == old(powered) && failures == old(failures)
                          && misuse == old(misuse) && touched == old(touched))
        && (accepted ==> Programmed(JournalAddress(copy) + offset, data, ok))
      ensures Onward()
      ensures !old(powered) ==> mem[..] == old(mem[..]) && failures == old(failures)
    {
      hide Outside, ChangedWithin, IsErased;
      if copy > 1 || offset >= JOURNAL_SIZE || |data| > JOURNAL_SIZE - offset {
        return false;
      }
      var savedStart, savedEnd := windowStart, windowEnd;
      windowStart := JOURNAL_BASE + copy * SECTOR;
      windowEnd := windowStart + JOURNAL_SIZE;
      ok := DriverProgram(windowStart + offset, data);
      if mem[..] != old(mem[..]) {
        OutsideKept(old(mem[..]), mem[..], windowStart + offset, windowStart + offset + |data|);
      }
      windowStart, windowEnd := savedStart, savedEnd;
    }

    /** FlashDriver_MetadataErase. */
    method MetadataErase(id: word, copy: nat) returns (ok: bool)
      requires Ready()
      modifies this`powered, this`failures, this`touched, this`windowStart, this`windowEnd, mem
      ensures windowStart == old(windowStart) && windowEnd == old(windowEnd) && touched <= old(touched)
      ensures !(IsSlot(id) && copy <= 1) ==>
        !ok && mem[..] == old(mem[..]) && powered == old(powered) && failures == old(failures)
      ensures IsSlot(id) && copy <= 1 ==>
        && var address := MetadataAddress(id, copy);
        && ChangedWithin(old(mem[..]), mem[..], address, address + SECTOR)
        && (ok ==> Clean(address, address + SECTOR))
        && (ok ==> powered && failures == old(failures) && IsErased(mem[address..address + SECTOR]))
        && (!ok ==> mem[..] == old(mem[..]) || Residue(address, mem[address..address + SECTOR]))
        && (powered && failures == old(failures) ==> ok)
      ensures Onward()
      ensures !old(powered) ==> mem[..] == old(mem[..]) && failures == old(failures)
    {
      hide Outside, ChangedWithin, Residue, IsErased;
      if id > 1 || copy > 1 {
        return false;
      }
      var savedStart, savedEnd := windowStart, windowEnd;
      windowStart := METADATA_BASE + (id * 2 + copy) * SECTOR;
      windowEnd := windowStart + SECTOR;
      ok := DriverErase(windowStart, SECTOR);
      OutsideKept(old(mem[..]), mem[..], windowStart, windowEnd);
      windowStart, windowEnd := savedStart, savedEnd;
    }

    /** FlashDriver_MetadataProgram. */
    method MetadataProgram(id: word, copy: nat, offset: nat, data: seq<byte>) returns (ok: bool)
      requires Ready()
      modifies this`powered, this`failures, this`misuse, this`touched, this`windowStart, this`windowEnd, mem
      ensures windowStart == old(windowStart) && windowEnd == old(windowEnd)
      ensures var accepted := IsSlot(id) && copy <= 1 && offset + |data| <= METADATA_SIZE && |data| > 0
                              && offset % PHRASE == 0 && |data| % PHRASE == 0;
        && (!accepted ==> !ok && mem[..] == old(mem[..]) && powered == old(powered) && failures == old(failures)
                          && misuse == old(misuse) && touched == old(touched))
        && (accepted ==> Programmed(MetadataAddress(id, copy) + offset, data, ok))
      ensures Onward()
      ensures !old(powered) ==> mem[..] == old(mem[..]) && failures == old(failures)
    {
      hide Outside, ChangedWithin, IsErased;
      if id > 1 || copy > 1 || offset >= METADATA_SIZE || |data| > METADATA_SIZE - offset {
        return false;
      }
      var savedStart, savedEnd := windowStart, windowEnd;
      windowStart := METADATA_BASE + (id * 2 + copy) * SECTOR;
      windowEnd := windowStart + METADATA_SIZE;
      ok := DriverProgram(windowStart + offset, data);
      if mem[..] != old(mem[..]) {
        OutsideKept(old(mem[..]), mem[..], windowStart + offset, windowStart + offset + |data|);
      }
      windowStart, windowEnd := savedStart, savedEnd;
    }

    /** The effect of an accepted program of `data`, done if `ok`. */
    twostate predicate Programmed(address: nat, data: seq<byte>, ok: bool)
      requires mem.Length == FLASH_SIZE && address + |data| <= FLASH_SIZE
      reads this, mem
    {
      && Effect(old(mem[..]), old(touched), old(misuse), mem[..], touched, misuse, address, data)
      && (ok ==> powered && failures == old(failures) && mem[address..address + |data|] == data)
      && (Fit(old(mem[..]), old(touched), address, data) && powered && failures == old(failures) ==> ok)
    }

    // --------------------------------------------------------------- facade

    /** Power returns, and BootFlash_Init sets up the driver: nothing that was in
      * RAM is left, in particular no right to a jump that was counted before. */
    method PowerOn()
      requires Consistent()
      modifies this`powered, this`history, this`windowStart, this`windowEnd, this`activeSlot, this`targetSlot
      ensures Consistent() && powered && State() == old(State()).(armed := None)
    {
      hide JournalOf, MetadataOf, SlotOf, Unambiguous;
      powered := true;
      history := history.(armed := None);
      activeSlot, targetSlot := UNKNOWN, UNKNOWN;
      var done := DriverInit(UNKNOWN, SLOT_A);
      assert windowStart == Base(SLOT_A);
    }

    /** BootFlash_ConfigureSlots. */
    method ConfigureSlots(active: word, target: word) returns (ok: bool)
      requires Valid()
      modifies this`windowStart, this`windowEnd, this`activeSlot, this`targetSlot
      ensures Valid()
      ensures ok == (IsSlot(target) && target != active && (IsSlot(active) || active == UNKNOWN))
      ensures ok ==> activeSlot == active && targetSlot == target
      ensures !ok ==> activeSlot == targetSlot == UNKNOWN
    {
      activeSlot, targetSlot := UNKNOWN, UNKNOWN;
      if !IsSlot(target) || active == target || (!IsSlot(active) && active != UNKNOWN) {
        return false;
      }
      var done := DriverInit(active, target);
      if !done {
        return false;
      }
      activeSlot, targetSlot := active, target;
      return true;
    }

    /** BootFlash_IsRangeValid. */
    predicate IsRangeValid(address: int, size: int)
      reads this
    {
      targetSlot != activeSlot && IsSlot(targetSlot) && ContainsRange(targetSlot, address, size)
    }

    /** BootFlash_Erase: one sector of the configured target slot, nothing else. */
    method Erase(address: nat, size: nat) returns (ok: bool)
      requires Valid()
      modifies this`powered, this`failures, this`touched, mem
      ensures Valid()
      ensures var accepted := IsRangeValid(address, size) && size == SECTOR && address % SECTOR == 0;
        && (!accepted ==> !ok && mem[..] == old(mem[..]) && powered == old(powered) && failures == old(failures))
        && (accepted ==>
            && ChangedWithin(old(mem[..]), mem[..], address, address + SECTOR)
            && address + SECTOR <= Base(targetSlot) + SLOT_SIZE
            && (ok ==> Clean(address, address + SECTOR))
            && (ok ==> powered && failures == old(failures) && IsErased(mem[address..address + SECTOR]))
            && (powered && failures == old(failures) ==> ok))
      ensures touched <= old(touched)
      ensures Onward()
      ensures !old(powered) ==> mem[..] == old(mem[..]) && failures == old(failures)
    {
      hide Outside, ChangedWithin, IsErased;
      if !IsRangeValid(address, size) || size != SECTOR || address % SECTOR != 0 {
        return false;
      }
      ok := DriverErase(address, size);
      if mem[..] != old(mem[..]) {
        OutsideKept(old(mem[..]), mem[..], address, address + SECTOR);
      }
    }

    /** BootFlash_Program: phrases of the configured target slot, nothing else. */
    method Program(address: nat, data: seq<byte>) returns (ok: bool)
      requires Valid()
      modifies this`powered, this`failures, this`misuse, this`touched, mem
      ensures Valid()
      ensures var accepted := IsRangeValid(address, |data|) && address % PHRASE == 0 && |data| % PHRASE == 0;
        && (!accepted ==> !ok && mem[..] == old(mem[..]) && powered == old(powered) && failures == old(failures)
                          && misuse == old(misuse) && touched == old(touched))
        && (accepted ==> Programmed(address, data, ok))
      ensures Onward()
      ensures !old(powered) ==> mem[..] == old(mem[..]) && failures == old(failures)
    {
      hide Outside, ChangedWithin, IsErased;
      if !IsRangeValid(address, |data|) || address % PHRASE != 0 || |data| % PHRASE != 0 {
        return false;
      }
      ok := DriverProgram(address, data);
      if mem[..] != old(mem[..]) {
        OutsideKept(old(mem[..]), mem[..], address, address + |data|);
      }
    }
  }
}
