/** Where the durable state lies in flash, and what a change of some bytes
  * can do to the rest of it. */
module FlashMap {
  import opened Bytes
  import opened Slots
  import opened TwinStore
  import opened ImageFormat
  import opened Protocol
  import J = JournalFormat
  import M = MetadataFormat

  type Memory = m: seq<byte> | |m| == FLASH_SIZE witness seq(FLASH_SIZE, _ => 0)

  function JournalBytes(m: Memory, copy: nat): (s: seq<byte>)
    requires copy < 2
    ensures |s| == JOURNAL_SIZE
  {
    m[JournalAddress(copy)..JournalAddress(copy) + JOURNAL_SIZE]
  }

  function MetadataBytes(m: Memory, id: slot, copy: nat): (s: seq<byte>)
    requires copy < 2
    ensures |s| == METADATA_SIZE
  {
    m[MetadataAddress(id, copy)..MetadataAddress(id, copy) + METADATA_SIZE]
  }

  function SlotOf(m: Memory, id: slot): SlotBytes {
    m[Base(id)..Base(id) + SLOT_SIZE]
  }

  function JournalCopy(m: Memory, copy: nat): Copy<J.Journal>
    requires copy < 2
  {
    J.ReadCopy(JournalBytes(m, copy))
  }

  function MetadataCopy(m: Memory, id: slot, copy: nat): Copy<M.Metadata>
    requires copy < 2
  {
    M.ReadCopy(id, MetadataBytes(m, id, copy))
  }

  /** BootJournal_LoadLatest. */
  function JournalOf(m: Memory): Loaded<J.Journal> {
    Load(JournalCopy(m, 0), JournalCopy(m, 1), IsErased(JournalBytes(m, 0)) && IsErased(JournalBytes(m, 1)))
  }

  /** BootMetadata_Load. */
  function MetadataOf(m: Memory, id: slot): Loaded<M.Metadata> {
    Load(MetadataCopy(m, id, 0), MetadataCopy(m, id, 1),
         IsErased(MetadataBytes(m, id, 0)) && IsErased(MetadataBytes(m, id, 1)))
  }

  /** In each store, two intact copies are consecutive. */
  predicate Unambiguous(m: Memory) {
    && Consecutive(JournalCopy(m, 0), JournalCopy(m, 1))
    && Consecutive(MetadataCopy(m, SLOT_A, 0), MetadataCopy(m, SLOT_A, 1))
    && Consecutive(MetadataCopy(m, SLOT_B, 0), MetadataCopy(m, SLOT_B, 1))
  }

  datatype History = History(certified: Pair<SlotBytes>, trialJumps: Pair<nat>, installs: nat, armed: Option<slot>)

  function SystemOf(m: Memory, h: History): System {
    System(JournalOf(m), Pair(MetadataOf(m, SLOT_A), MetadataOf(m, SLOT_B)),
           Pair(SlotOf(m, SLOT_A), SlotOf(m, SLOT_B)), h.certified, h.trialJumps, h.installs, h.armed)
  }

  /** Only bytes in [low, high) differ. */
  predicate ChangedWithin(m: Memory, n: Memory, low: nat, high: nat) {
    forall i :: 0 <= i < FLASH_SIZE && !(low <= i < high) ==> n[i] == m[i]
  }

  /** What no update may touch: the bootloader below the slots, and the flash above
    * the last metadata sector. */
  function Outside(m: Memory): seq<byte> { m[..Base(SLOT_A)] + m[RECORDS_END..] }

  lemma OutsideKept(m: Memory, n: Memory, low: nat, high: nat)
    requires ChangedWithin(m, n, low, high) && Base(SLOT_A) <= low && high <= RECORDS_END
    ensures Outside(n) == Outside(m)
  {
    hide ChangedWithin;
    RegionKept(m, n, low, high, 0, Base(SLOT_A));
    RegionKept(m, n, low, high, RECORDS_END, FLASH_SIZE);
    assert m[..Base(SLOT_A)] == m[0..Base(SLOT_A)] && n[..Base(SLOT_A)] == n[0..Base(SLOT_A)];
    assert m[RECORDS_END..] == m[RECORDS_END..FLASH_SIZE] && n[RECORDS_END..] == n[RECORDS_END..FLASH_SIZE];
  }

  lemma RegionKept(m: Memory, n: Memory, low: nat, high: nat, from: nat, to: nat)
    requires ChangedWithin(m, n, low, high) && from <= to <= FLASH_SIZE
    requires to <= low || high <= from
    ensures m[from..to] == n[from..to]
  {
  }

  lemma JournalKept(m: Memory, n: Memory, low: nat, high: nat)
    requires ChangedWithin(m, n, low, high)
    requires high <= JOURNAL_BASE || METADATA_BASE <= low
    ensures JournalOf(n) == JournalOf(m) && JournalCopy(n, 0) == JournalCopy(m, 0)
    ensures JournalCopy(n, 1) == JournalCopy(m, 1)
  {
    hide J.ReadCopy, ChangedWithin;
    RegionKept(m, n, low, high, JournalAddress(0), JournalAddress(0) + JOURNAL_SIZE);
    RegionKept(m, n, low, high, JournalAddress(1), JournalAddress(1) + JOURNAL_SIZE);
  }

  lemma MetadataKept(m: Memory, n: Memory, low: nat, high: nat, id: slot)
    requires ChangedWithin(m, n, low, high)
    requires high <= MetadataAddress(id, 0) || MetadataAddress(id, 2) <= low
    ensures MetadataOf(n, id) == MetadataOf(m, id) && MetadataCopy(n, id, 0) == MetadataCopy(m, id, 0)
    ensures MetadataCopy(n, id, 1) == MetadataCopy(m, id, 1)
  {
    hide M.ReadCopy, ChangedWithin;
    RegionKept(m, n, low, high, MetadataAddress(id, 0), MetadataAddress(id, 0) + METADATA_SIZE);
    RegionKept(m, n, low, high, MetadataAddress(id, 1), MetadataAddress(id, 1) + METADATA_SIZE);
  }

  lemma SlotKept(m: Memory, n: Memory, low: nat, high: nat, id: slot)
    requires ChangedWithin(m, n, low, high)
    requires high <= Base(id) || Base(id) + SLOT_SIZE <= low
    ensures SlotOf(n, id) == SlotOf(m, id)
  {
  }

  /** A change inside one slot leaves the journal, the metadata and the other slot. */
  lemma SlotChange(m: Memory, n: Memory, id: slot, low: nat, high: nat, h: History)
    requires ChangedWithin(m, n, low, high) && Base(id) <= low && high <= Base(id) + SLOT_SIZE
    requires Unambiguous(m)
    ensures Unambiguous(n)
    ensures SystemOf(n, h) == WithSlot(SystemOf(m, h), id, SlotOf(n, id))
  {
    hide JournalOf, MetadataOf, JournalCopy, MetadataCopy, ChangedWithin, SlotOf, Consecutive;
    JournalKept(m, n, low, high);
    MetadataKept(m, n, low, high, SLOT_A);
    MetadataKept(m, n, low, high, SLOT_B);
    SlotKept(m, n, low, high, Other(id));
  }

  predicate JournalRewritten(m: Memory, n: Memory, copy: nat)
    requires copy < 2
  {
    && ChangedWithin(m, n, JournalAddress(copy), JournalAddress(copy) + SECTOR)
    && Unambiguous(m) && Consecutive(JournalCopy(n, 0), JournalCopy(n, 1))
  }

  /** A change inside one copy of the journal leaves everything else. */
  lemma JournalChange(m: Memory, n: Memory, copy: nat, h: History)
    requires copy < 2 && JournalRewritten(m, n, copy)
    ensures SystemOf(n, h) == SystemOf(m, h).(journal := JournalOf(n))
    ensures JournalBytes(n, 1 - copy) == JournalBytes(m, 1 - copy)
    ensures Unambiguous(n) && JournalCopy(n, 1 - copy) == JournalCopy(m, 1 - copy)
  {
    hide JournalOf, MetadataOf, MetadataCopy, ChangedWithin, SlotOf, J.ReadCopy, Consecutive;
    var low := JournalAddress(copy);
    RegionKept(m, n, low, low + SECTOR, JournalAddress(1 - copy), JournalAddress(1 - copy) + JOURNAL_SIZE);
    MetadataKept(m, n, low, low + SECTOR, SLOT_A);
    MetadataKept(m, n, low, low + SECTOR, SLOT_B);
    SlotKept(m, n, low, low + SECTOR, SLOT_A);
    SlotKept(m, n, low, low + SECTOR, SLOT_B);
  }

  predicate MetadataRewritten(m: Memory, n: Memory, id: slot, copy: nat)
    requires copy < 2
  {
    && ChangedWithin(m, n, MetadataAddress(id, copy), MetadataAddress(id, copy) + SECTOR)
    && Unambiguous(m) && Consecutive(MetadataCopy(n, id, 0), MetadataCopy(n, id, 1))
  }

  /** A change inside one copy of a slot's metadata leaves everything else. */
  lemma MetadataChange(m: Memory, n: Memory, id: slot, copy: nat, h: History)
    requires copy < 2 && MetadataRewritten(m, n, id, copy)
    ensures Unambiguous(n) && MetadataCopy(n, id, 1 - copy) == MetadataCopy(m, id, 1 - copy)
    ensures MetadataBytes(n, id, 1 - copy) == MetadataBytes(m, id, 1 - copy)
    ensures SystemOf(n, h) == SystemOf(m, h).(metadata := SystemOf(m, h).metadata.Put(id, MetadataOf(n, id)))
  {
    hide JournalOf, MetadataOf, JournalCopy, ChangedWithin, SlotOf, M.ReadCopy, Consecutive;
    var low := MetadataAddress(id, copy);
    RegionKept(m, n, low, low + SECTOR, MetadataAddress(id, 1 - copy), MetadataAddress(id, 1 - copy) + METADATA_SIZE);
    JournalKept(m, n, low, low + SECTOR);
    MetadataKept(m, n, low, low + SECTOR, Other(id));
    SlotKept(m, n, low, low + SECTOR, SLOT_A);
    SlotKept(m, n, low, low + SECTOR, SLOT_B);
  }

  /** What a sector may hold after an erase that did not complete. The hardware
    * is trusted with one thing: such a sector does not pass for an intact record. */
  predicate Residue(address: nat, sector: seq<byte>)
    requires |sector| == SECTOR
  {
    && (JOURNAL_BASE <= address < METADATA_BASE ==> J.ReadCopy(sector[..JOURNAL_SIZE]).Damaged?)
    && (METADATA_BASE <= address ==>
        && M.ReadCopy(SLOT_A, sector[..METADATA_SIZE]).Damaged?
        && M.ReadCopy(SLOT_B, sector[..METADATA_SIZE]).Damaged?)
  }

  lemma ZeroIsResidue(address: nat)
    ensures Residue(address, seq(SECTOR, _ => 0))
  {
    hide J.ReadCopy, M.ReadCopy;
    var zero: seq<byte> := seq(SECTOR, _ => 0);
    assert zero[..JOURNAL_SIZE][..4] == zero[..METADATA_SIZE][..4] == [0, 0, 0, 0];
    J.ZeroCopy(zero[..JOURNAL_SIZE]);
    M.ZeroCopy(SLOT_A, zero[..METADATA_SIZE]);
    M.ZeroCopy(SLOT_B, zero[..METADATA_SIZE]);
  }

  // ----------------------------------------------------- programming phrases

  /** None of the touched phrases lies in [low, high). */
  predicate CleanIn(touched: set<int>, low: int, high: int) {
    forall a :: a in touched ==> !(low <= a < high)
  }

  predicate GrownWithin(touched: set<int>, after: set<int>, low: int, high: int) {
    forall a :: a in after ==> a in touched || low <= a < high
  }

  /** The phrases for `data` are erased, and need no program or had none since. */
  predicate Fit(m: Memory, touched: set<int>, address: nat, data: seq<byte>)
    requires address + |data| <= FLASH_SIZE
  {
    IsErased(m[address..address + |data|]) && (IsErased(data) || CleanIn(touched, address, address + |data|))
  }

  /** What programming `data` does, done or not. */
  predicate Effect(m: Memory, touched: set<int>, misuse: bool, n: Memory, after: set<int>, misused: bool,
                   address: nat, data: seq<byte>)
    requires address + |data| <= FLASH_SIZE
  {
    && ChangedWithin(m, n, address, address + |data|) && GrownWithin(touched, after, address, address + |data|)
    && (Fit(m, touched, address, data) ==> misused == misuse)
  }

  lemma NoEffect(m: Memory, touched: set<int>, misuse: bool, address: nat, data: seq<byte>)
    requires address + |data| <= FLASH_SIZE
    ensures Effect(m, touched, misuse, m, touched, misuse, address, data)
  {
  }

  /** One phrase after others. */
  lemma EffectExtends(m: Memory, touched: set<int>, misuse: bool, n: Memory, middle: set<int>, between: bool,
                      o: Memory, after: set<int>, misused: bool, address: nat, data: seq<byte>, offset: nat)
    requires address + |data| <= FLASH_SIZE && offset + PHRASE <= |data|
    requires Effect(m, touched, misuse, n, middle, between, address, data[..offset])
    requires Effect(n, middle, between, o, after, misused, address + offset, data[offset..offset + PHRASE])
    ensures Effect(m, touched, misuse, o, after, misused, address, data[..offset + PHRASE])
    ensures Fit(m, touched, address, data[..offset + PHRASE]) ==>
      Fit(n, middle, address + offset, data[offset..offset + PHRASE])
  {
    if Fit(m, touched, address, data[..offset + PHRASE]) {
      FitShrinks(m, touched, address, data[..offset + PHRASE], offset);
      var all := m[address..address + offset + PHRASE];
      forall i | address + offset <= i < address + offset + PHRASE ensures n[i] == ERASED {
        assert all[i - address] == m[i];
      }
      if IsErased(data[..offset + PHRASE]) {
        forall i | offset <= i < offset + PHRASE ensures data[i] == ERASED {
          assert data[..offset + PHRASE][i] == data[i];
        }
      }
    }
  }

  lemma FitShrinks(m: Memory, touched: set<int>, address: nat, data: seq<byte>, offset: nat)
    requires address + |data| <= FLASH_SIZE && offset <= |data|
    ensures Fit(m, touched, address, data) ==> Fit(m, touched, address, data[..offset])
  {
    PrefixOfSlice(m, address, |data|, offset);
  }

  /** A part of the phrases is no more than all of them. */
  lemma EffectWidens(m: Memory, touched: set<int>, misuse: bool, n: Memory, after: set<int>, misused: bool,
                     address: nat, data: seq<byte>, offset: nat)
    requires address + |data| <= FLASH_SIZE && offset <= |data|
    requires Effect(m, touched, misuse, n, after, misused, address, data[..offset])
    ensures Effect(m, touched, misuse, n, after, misused, address, data)
    ensures Fit(m, touched, address, data) ==> Fit(m, touched, address, data[..offset])
  {
    FitShrinks(m, touched, address, data, offset);
  }

  // ------------------------------------------- a record, phrase by phrase

  /** The record of `size` bytes at the beginning of a sector. */
  function RecordAt(m: Memory, address: nat, size: nat): (s: seq<byte>)
    requires address + size <= FLASH_SIZE
    ensures |s| == size
  {
    m[address..address + size]
  }

  lemma ErasedRecord(n: Memory, address: nat, size: nat)
    requires size <= SECTOR && address + SECTOR <= FLASH_SIZE && IsErased(n[address..address + SECTOR])
    ensures IsErased(RecordAt(n, address, size)) && IsErased(RecordAt(n, address, size)[0..])
  {
    PrefixOfSlice(n, address, SECTOR, size);
  }

  lemma PhraseIsErased(n: Memory, address: nat, size: nat, offset: nat)
    requires address + size <= FLASH_SIZE && offset + PHRASE <= size && IsErased(RecordAt(n, address, size)[offset..])
    ensures IsErased(n[address + offset..address + offset + PHRASE])
  {
    forall i | address + offset <= i < address + offset + PHRASE ensures n[i] == ERASED {
      assert RecordAt(n, address, size)[offset..][i - address - offset] == ERASED;
    }
  }

  lemma PhraseWritten(m: Memory, n: Memory, o: Memory, address: nat, size: nat, offset: nat)
    requires address + SECTOR <= FLASH_SIZE && size <= SECTOR && offset + PHRASE <= size
    requires ChangedWithin(m, n, address, address + SECTOR)
    requires ChangedWithin(n, o, address + offset, address + offset + PHRASE)
    requires IsErased(RecordAt(n, address, size)[offset..])
    ensures ChangedWithin(m, o, address, address + SECTOR)
    ensures RecordAt(o, address, size)[..offset] == RecordAt(n, address, size)[..offset]
    ensures IsErased(RecordAt(o, address, size)[offset + PHRASE..])
  {
    var before, after := RecordAt(n, address, size), RecordAt(o, address, size);
    forall i | 0 <= i < size && !(offset <= i < offset + PHRASE) ensures after[i] == before[i] {
      assert before[i] == n[address + i] && after[i] == o[address + i];
    }
    forall i | offset + PHRASE <= i < size ensures after[i] == ERASED {
      assert before[i] == before[offset..][i - offset];
    }
  }

  lemma PhraseCompleted(o: Memory, address: nat, size: nat, offset: nat, encoded: seq<byte>)
    requires address + size <= FLASH_SIZE && offset + PHRASE <= size && |encoded| == size
    requires RecordAt(o, address, size)[..offset] == encoded[..offset]
    requires o[address + offset..address + offset + PHRASE] == encoded[offset..offset + PHRASE]
    ensures RecordAt(o, address, size)[..offset + PHRASE] == encoded[..offset + PHRASE]
  {
    var bytes := RecordAt(o, address, size);
    SliceOfSlice(o, address, size, offset, PHRASE);
    assert bytes[offset..offset + PHRASE] == encoded[offset..offset + PHRASE];
    assert bytes[..offset + PHRASE] == bytes[..offset] + bytes[offset..offset + PHRASE];
    assert encoded[..offset + PHRASE] == encoded[..offset] + encoded[offset..offset + PHRASE];
  }

  /** The record is written up to `offset`, and the rest of it is erased. */
  predicate WrittenTo(m: Memory, n: Memory, address: nat, size: nat, encoded: seq<byte>, offset: nat)
    requires address + SECTOR <= FLASH_SIZE && offset <= size <= SECTOR && |encoded| == size
  {
    && ChangedWithin(m, n, address, address + SECTOR)
    && RecordAt(n, address, size)[..offset] == encoded[..offset] && IsErased(RecordAt(n, address, size)[offset..])
  }

  /** ... and the phrase at `offset` holds anything. */
  predicate InFlight(m: Memory, n: Memory, address: nat, size: nat, encoded: seq<byte>, offset: nat)
    requires address + SECTOR <= FLASH_SIZE && offset + PHRASE <= size <= SECTOR && |encoded| == size
  {
    && ChangedWithin(m, n, address, address + SECTOR)
    && RecordAt(n, address, size)[..offset] == encoded[..offset]
    && IsErased(RecordAt(n, address, size)[offset + PHRASE..])
  }

  lemma NothingWritten(m: Memory, n: Memory, address: nat, size: nat, encoded: seq<byte>)
    requires address + SECTOR <= FLASH_SIZE && size <= SECTOR && |encoded| == size
    requires ChangedWithin(m, n, address, address + SECTOR) && IsErased(n[address..address + SECTOR])
    ensures WrittenTo(m, n, address, size, encoded, 0)
  {
    ErasedRecord(n, address, size);
  }

  lemma AllWritten(m: Memory, n: Memory, address: nat, size: nat, encoded: seq<byte>)
    requires address + SECTOR <= FLASH_SIZE && size <= SECTOR && |encoded| == size
    requires WrittenTo(m, n, address, size, encoded, size)
    ensures ChangedWithin(m, n, address, address + SECTOR) && RecordAt(n, address, size) == encoded
  {
    hide ChangedWithin;
    assert RecordAt(n, address, size)[..size] == RecordAt(n, address, size) && encoded[..size] == encoded;
  }

  lemma NextPhrase(m: Memory, n: Memory, address: nat, size: nat, encoded: seq<byte>, offset: nat)
    requires address + SECTOR <= FLASH_SIZE && offset + PHRASE <= size <= SECTOR && |encoded| == size
    requires WrittenTo(m, n, address, size, encoded, offset)
    ensures IsErased(n[address + offset..address + offset + PHRASE])
  {
    hide ChangedWithin;
    PhraseIsErased(n, address, size, offset);
  }

  /** One program leaves its phrase in flight, or done. */
  lemma PhraseProgrammed(m: Memory, n: Memory, o: Memory, address: nat, size: nat, encoded: seq<byte>, offset: nat)
    requires address + SECTOR <= FLASH_SIZE && offset + PHRASE <= size <= SECTOR && |encoded| == size
    requires WrittenTo(m, n, address, size, encoded, offset)
    requires ChangedWithin(n, o, address + offset, address + offset + PHRASE)
    ensures InFlight(m, o, address, size, encoded, offset)
    ensures o[address + offset..address + offset + PHRASE] == encoded[offset..offset + PHRASE] ==>
      WrittenTo(m, o, address, size, encoded, offset + PHRASE)
  {
    hide ChangedWithin;
    PhraseWritten(m, n, o, address, size, offset);
    if o[address + offset..address + offset + PHRASE] == encoded[offset..offset + PHRASE] {
      PhraseCompleted(o, address, size, offset, encoded);
    }
  }
}
