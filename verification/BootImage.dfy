/** Checking the image in a slot of the flash, and publishing its header
  * (boot_image.c, boot_image_install.c). */
module BootImage {
  import opened Bytes
  import opened Slots
  import opened ImageFormat
  import opened Protocol
  import opened FlashMap
  import opened FlashModel
  import Crc32
  import Version

  /** BootImage_Validate of `h` against the payload in slot `id`. */
  method Validate(flash: Flash, id: slot, h: Header) returns (verdict: Verdict)
    requires flash.Ready()
    ensures verdict == ImageFormat.Validate(id, h, SlotOf(flash.mem[..], id))
  {
    hide Crc32.Checksum, EncodeHeader;
    var headerCrc := Crc32.CalculateBranch(EncodeHeader(h)[..CRC_LENGTH]);
    if AllWords(h, 0xFFFF_FFFF) || AllWords(h, 0) { return EMPTY; }
    if h.magic != MAGIC { return ERR_MAGIC; }
    if h.headerVersion != VERSION { return ERR_HEADER_VERSION; }
    if h.imageSize == 0 || h.imageSize > HEADER_OFFSET { return ERR_SIZE; }
    if headerCrc != h.headerCrc { return ERR_HEADER_CRC; }
    if h.vectorAddress != Base(id) { return ERR_VECTOR; }
    var bytes := flash.mem[Base(id)..Base(id) + SLOT_SIZE];
    assert bytes == SlotOf(flash.mem[..], id);
    var msp, reset := WordAt(bytes, 0), WordAt(bytes, 4);
    if !StackPointerOk(msp) { return ERR_STACK_POINTER; }
    if !ResetHandlerOk(reset, h.vectorAddress, h.imageSize) { return ERR_RESET_HANDLER; }
    if h.entryAddress != reset { return ERR_ENTRY_MISMATCH; }
    var imageCrc := Crc32.CalculateBranch(bytes[..h.imageSize]);
    if imageCrc != h.imageCrc { return ERR_IMAGE_CRC; }
    return VALID;
  }

  lemma HeaderBytes(m: Memory, id: slot)
    ensures SlotOf(m, id)[HEADER_OFFSET..HEADER_OFFSET + HEADER_SIZE]
      == m[HeaderAddress(id)..HeaderAddress(id) + HEADER_SIZE]
  {
    SliceOfSlice(m, Base(id), SLOT_SIZE, HEADER_OFFSET, HEADER_SIZE);
  }

  /** BootImage_LoadInfo. */
  method LoadInfo(flash: Flash, id: slot) returns (verdict: Verdict, h: Header)
    requires flash.Ready()
    ensures h == HeaderOf(flash.State().slots.At(id))
    ensures verdict == ImageFormat.LoadInfo(id, flash.State().slots.At(id))
  {
    hide ImageFormat.Validate, DecodeHeader, JournalOf, MetadataOf;
    var bytes := flash.mem[HeaderAddress(id)..HeaderAddress(id) + HEADER_SIZE];
    HeaderBytes(flash.mem[..], id);
    h := DecodeHeader(bytes);
    verdict := Validate(flash, id, h);
  }

  /** The header sector of `target` changed, its payload did not. */
  predicate HeaderTouched(d: System, e: System, target: slot) {
    && e == WithSlot(d, target, e.slots.At(target))
    && e.slots.At(target)[..HEADER_OFFSET] == d.slots.At(target)[..HEADER_OFFSET]
  }

  lemma HeaderSectorChange(m: Memory, n: Memory, id: slot, h: History)
    requires ChangedWithin(m, n, HeaderAddress(id), HeaderAddress(id) + SECTOR) && Unambiguous(m)
    ensures Unambiguous(n) && HeaderTouched(SystemOf(m, h), SystemOf(n, h), id)
  {
    hide JournalOf, MetadataOf, Unambiguous;
    SlotChange(m, n, id, HeaderAddress(id), HeaderAddress(id) + SECTOR, h);
    assert SlotOf(n, id)[..HEADER_OFFSET] == SlotOf(m, id)[..HEADER_OFFSET];
  }

  lemma HeaderWritten(m: Memory, n: Memory, o: Memory, id: slot, h: Header)
    requires ChangedWithin(m, n, HeaderAddress(id), HeaderAddress(id) + SECTOR)
    requires IsErased(n[HeaderAddress(id)..HeaderAddress(id) + SECTOR])
    requires ChangedWithin(n, o, HeaderAddress(id), HeaderAddress(id) + HEADER_SIZE)
    ensures ChangedWithin(m, o, HeaderAddress(id), HeaderAddress(id) + SECTOR)
    ensures o[HeaderAddress(id)..HeaderAddress(id) + HEADER_SIZE] == EncodeHeader(h) ==>
      SlotOf(o, id) == Published(SlotOf(m, id), h)
  {
    hide EncodeHeader;
    if o[HeaderAddress(id)..HeaderAddress(id) + HEADER_SIZE] == EncodeHeader(h) {
      var s, t := SlotOf(o, id), Published(SlotOf(m, id), h);
      forall i | 0 <= i < SLOT_SIZE ensures s[i] == t[i] {
        if i >= HEADER_OFFSET + HEADER_SIZE {
          assert n[HeaderAddress(id)..HeaderAddress(id) + SECTOR][i - HEADER_OFFSET] == ERASED;
        } else if i >= HEADER_OFFSET {
          assert o[HeaderAddress(id)..HeaderAddress(id) + HEADER_SIZE][i - HEADER_OFFSET] == s[i];
        }
      }
    }
  }

  /** Erase the header sector of the configured target and program `h` into it. */
  method WriteHeader(flash: Flash, target: slot, h: Header) returns (ok: bool)
    requires flash.Consistent() && flash.targetSlot == target && flash.activeSlot != target
    modifies flash`powered, flash`failures, flash`misuse, flash`touched, flash.mem
    ensures flash.Consistent() && flash.Onward()
    ensures HeaderTouched(old(flash.State()), flash.State(), target)
    ensures var d := old(flash.State());
      ok ==> flash.powered && flash.State() == WithSlot(d, target, Published(d.slots.At(target), h))
    ensures flash.powered && flash.failures == old(flash.failures) ==> ok
    ensures !old(flash.powered) ==> flash.State() == old(flash.State()) && flash.failures == old(flash.failures)
  {
    hide EncodeHeader, Published, ChangedWithin, JournalOf, MetadataOf, Unambiguous, SlotOf;
    ghost var m := flash.mem[..];
    HeaderSame(m, target, flash.history);
    var address := HeaderAddress(target);
    ok := flash.Erase(address, SECTOR);
    ghost var n := flash.mem[..];
    if !ok {
      HeaderSectorChange(m, n, target, flash.history);
      return;
    }
    FirstBytesErased(n, address);
    ok := flash.Program(address, EncodeHeader(h));
    HeaderWritten(m, n, flash.mem[..], target, h);
    HeaderSectorChange(m, flash.mem[..], target, flash.history);
  }

  lemma HeaderSame(m: Memory, id: slot, h: History)
    ensures ChangedWithin(m, m, HeaderAddress(id), HeaderAddress(id) + SECTOR)
  {
  }

  lemma FirstBytesErased(n: Memory, address: nat)
    requires address + SECTOR <= FLASH_SIZE && IsErased(n[address..address + SECTOR])
    ensures IsErased(n[address..address + HEADER_SIZE]) && IsErased(n[address..address + PHRASE])
  {
    PrefixOfSlice(n, address, SECTOR, HEADER_SIZE);
    PrefixOfSlice(n, address, SECTOR, PHRASE);
  }

  /** The checks of BootImageInstall_ValidateAndPublish before it writes. */
  method Accepts(flash: Flash, active: word, target: word, h: Header) returns (ok: bool)
    requires flash.Ready()
    ensures ok == AcceptedHeader(active, target, h, flash.State().slots)
    ensures var slots := flash.State().slots;
      ok <==>
        && IsSlot(target) && target != active
        && ImageFormat.Validate(target, h, slots.At(target)) == VALID
        && (IsSlot(active) && ImageFormat.LoadInfo(active, slots.At(active)) == VALID ==>
              h.softwareVersion > VersionOf(slots.At(active)))
  {
    hide ImageFormat.Validate, HeaderOf, JournalOf, MetadataOf, SlotOf;
    if active == target || !IsSlot(target) {
      return false;
    }
    var verdict := Validate(flash, target, h);
    if verdict != VALID {
      return false;
    }
    if IsSlot(active) {
      var found, running := LoadInfo(flash, active);
      if found == VALID {
        var order := Version.CompareParts(h.softwareVersion, running.softwareVersion);
        return order == Version.GREATER;
      }
    }
    return true;
  }

  method IsPublished(flash: Flash, target: slot, h: Header) returns (ok: bool)
    requires flash.Ready()
    ensures ok == Matches(target, flash.State().slots.At(target), h)
  {
    hide ImageFormat.Validate, HeaderOf, JournalOf, MetadataOf, SlotOf;
    var already, published := LoadInfo(flash, target);
    return already == VALID && published.headerCrc == h.headerCrc
      && published.softwareVersion == h.softwareVersion && published.imageCrc == h.imageCrc;
  }

  /** Without acceptance nothing happens; with it only the header sector of the
    * target is touched, not even that if the header is there already, and on
    * success it is there. */
  predicate PublishResult(d: System, e: System, active: word, target: word, h: Header, ok: bool) {
    if AcceptedHeader(active, target, h, d.slots) then
      && HeaderTouched(d, e, target)
      && (ok ==> e.slots == PublishedIn(target, h, d.slots) && Shows(target, h, e.slots.At(target)))
      && (Matches(target, d.slots.At(target), h) ==> ok && e == d)
    else
      !ok && e == d
  }

  /** A valid image is visible in the slot, under this header or one that agrees with it
    * in checksums and version. */
  predicate Shows(id: slot, h: Header, bytes: SlotBytes) {
    && ImageFormat.LoadInfo(id, bytes) == VALID && HeaderOf(bytes).headerCrc == h.headerCrc
    && HeaderOf(bytes).softwareVersion == h.softwareVersion && HeaderOf(bytes).imageCrc == h.imageCrc
  }

  lemma PublishedShows(active: word, target: word, h: Header, slots: Pair<SlotBytes>)
    requires AcceptedHeader(active, target, h, slots)
    ensures Shows(target, h, PublishedIn(target, h, slots).At(target))
  {
    hide ImageFormat.Validate, HeaderOf, Published;
    PublishedLoads(target, h, slots.At(target));
  }

  predicate PublishMustSucceed(d: System, active: word, target: word, h: Header) {
    AcceptedHeader(active, target, h, d.slots) && (IsSlot(active) || active == UNKNOWN)
  }

  /** BootImageInstall_ValidateAndPublish: idempotent publication of a header
    * that was kept in the journal. */
  method ValidateAndPublish(flash: Flash, active: word, target: word, h: Header) returns (ok: bool)
    requires flash.Consistent()
    modifies flash`powered, flash`failures, flash`misuse, flash`touched, flash`windowStart, flash`windowEnd,
             flash`activeSlot, flash`targetSlot, flash.mem
    ensures flash.Consistent() && flash.Onward()
    ensures PublishResult(old(flash.State()), flash.State(), active, target, h, ok)
    ensures (flash.powered && flash.failures == old(flash.failures)
             && PublishMustSucceed(old(flash.State()), active, target, h)) ==> ok
    ensures !old(flash.powered) ==> flash.State() == old(flash.State()) && flash.failures == old(flash.failures)
  {
    hide ImageFormat.Validate, AcceptedHeader, HeaderOf, Published, SystemOf, Unambiguous, Matches, Shows;
    ok := Accepts(flash, active, target, h);
    if !ok {
      return;
    }
    AcceptedTarget(active, target, h, flash.State().slots);
    PublishedShows(active, target, h, flash.State().slots);
    ok := IsPublished(flash, target, h);
    if ok {
      return;
    }
    ok := PublishHeader(flash, active, target, h);
  }

  /** The header sector is rewritten only when the header is not there yet. */
  method PublishHeader(flash: Flash, active: word, target: slot, h: Header) returns (ok: bool)
    requires flash.Consistent() && target != active
    requires ImageFormat.Validate(target, h, flash.State().slots.At(target)) == VALID
    modifies flash`powered, flash`failures, flash`misuse, flash`touched, flash`windowStart, flash`windowEnd,
             flash`activeSlot, flash`targetSlot, flash.mem
    ensures flash.Consistent() && flash.Onward()
    ensures var d := old(flash.State());
      && HeaderTouched(d, flash.State(), target)
      && (ok ==> flash.State() == WithSlot(d, target, Published(d.slots.At(target), h)))
    ensures (IsSlot(active) || active == UNKNOWN) && flash.powered && flash.failures == old(flash.failures) ==> ok
    ensures !old(flash.powered) ==> flash.State() == old(flash.State()) && flash.failures == old(flash.failures)
  {
    hide ImageFormat.Validate, HeaderOf, Published, SystemOf, Unambiguous;
    ghost var d := flash.State();
    ok := flash.ConfigureSlots(active, target);
    if !ok {
      return;
    }
    ok := WriteHeader(flash, target, h);
    if !ok {
      return;
    }
    PublishedLoads(target, h, d.slots.At(target));
    var verdict, published := LoadInfo(flash, target);
    return verdict == VALID;
  }

  lemma AcceptedTarget(active: word, target: word, h: Header, slots: Pair<SlotBytes>)
    requires AcceptedHeader(active, target, h, slots)
    ensures IsSlot(target) && target != active
    ensures ImageFormat.Validate(target, h, slots.At(target)) == VALID
  {
  }
}
