/** Two copies of one record in two sectors: which copy is current. */
module TwinStore {
  import opened Bytes

  /** One sector, as validation sees it. */
  datatype Copy<+R> = Damaged | Intact(sequence: word, record: R)

  /** The outcome of loading the store: BootJournalStatus, BootMetadataStatus. */
  datatype Loaded<+R> = Present(record: R) | Empty | Invalid

  /** SequenceNewer: serial number arithmetic (section 3.2 of RFC 1982). */
  predicate Newer(a: word, b: word) {
    var difference := Subtract(a, b);
    difference != 0 && difference < 0x8000_0000
  }

  /** The index of the current copy; -1 when there is none or the pair is ambiguous. */
  function Latest<R(==)>(a: Copy<R>, b: Copy<R>): (index: int)
    ensures -1 <= index <= 1
    ensures index == 0 ==> a.Intact?
    ensures index == 1 ==> b.Intact?
  {
    if a.Intact? && b.Intact? then
      if Newer(a.sequence, b.sequence) then 0
      else if Newer(b.sequence, a.sequence) then 1
      else if a == b then 0
      else -1
    else if a.Intact? then 0
    else if b.Intact? then 1
    else -1
  }

  function Load<R(==)>(a: Copy<R>, b: Copy<R>, erased: bool): Loaded<R> {
    var index := Latest(a, b);
    if index == 0 then Present(a.record)
    else if index == 1 then Present(b.record)
    else if a.Damaged? && b.Damaged? && erased then Empty
    else Invalid
  }

  /** Two intact copies are consecutive, modulo 2^32. */
  predicate Consecutive<R>(a: Copy<R>, b: Copy<R>) {
    a.Intact? && b.Intact? ==>
      b.sequence == Add(a.sequence, 1) || a.sequence == Add(b.sequence, 1)
  }

  lemma SuccessorIsNewer(w: word)
    ensures Newer(Add(w, 1), w) && !Newer(w, Add(w, 1))
  {
    assert Subtract(Add(w, 1), w) == 1;
    assert Subtract(w, Add(w, 1)) == WORD_MODULUS - 1;
  }

  /** Loading a consecutive pair is never ambiguous, and picks the successor,
    * also across the wrap from 2^32 - 1 to 0. */
  lemma ConsecutivePicksSuccessor<R>(a: Copy<R>, b: Copy<R>)
    requires Consecutive(a, b)
    ensures a.Intact? || b.Intact? ==> Latest(a, b) != -1
    ensures a.Intact? && b.Intact? ==>
      (Latest(a, b) == 1 <==> b.sequence == Add(a.sequence, 1))
  {
    if a.Intact? && b.Intact? {
      SuccessorIsNewer(a.sequence);
      SuccessorIsNewer(b.sequence);
    }
  }

  /** The exact converse: of two intact copies with different contents, loading
    * is ambiguous if and only if the sequence numbers are equal or exactly half
    * the number range apart. */
  lemma AmbiguousExactly<R>(a: Copy<R>, b: Copy<R>)
    requires a.Intact? && b.Intact? && a != b
    ensures Latest(a, b) == -1 <==> Subtract(a.sequence, b.sequence) in {0, 0x8000_0000}
  {
    var x := a.sequence - b.sequence;
    assert Subtract(a.sequence, b.sequence) == if x >= 0 then x else x + WORD_MODULUS;
    assert Subtract(b.sequence, a.sequence) == if x > 0 then WORD_MODULUS - x else -x;
  }

  /** The copy a commit overwrites: never the only current one. */
  function SpareOf<R(==)>(a: Copy<R>, b: Copy<R>): nat {
    if Latest(a, b) == 0 then 1 else 0
  }

  /** The spare copy is still the old one, does not read as a record, or is the new one. */
  predicate Replaced<R(==)>(a: Copy<R>, b: Copy<R>, a2: Copy<R>, b2: Copy<R>, sequence: word, next: R) {
    if SpareOf(a, b) == 0 then b2 == b && a2 in {a, Damaged, Intact(sequence, next)}
    else a2 == a && b2 in {b, Damaged, Intact(sequence, next)}
  }

  /** Overwriting the spare copy with the successor, cut anywhere, leaves a store
    * that loads the previous or the new record, and no ambiguity ever arises. */
  lemma ReplacingIsAtomic<R>(a: Copy<R>, b: Copy<R>, erased: bool, a2: Copy<R>, b2: Copy<R>, erased2: bool,
                             sequence: word, next: R)
    requires Consecutive(a, b) && Replaced(a, b, a2, b2, sequence, next)
    requires Latest(a, b) != -1 ==> sequence == Add(if Latest(a, b) == 0 then a.sequence else b.sequence, 1)
    ensures Consecutive(a2, b2)
    ensures (if SpareOf(a, b) == 0 then a2 else b2) == Intact(sequence, next) ==> Load(a2, b2, erased2) == Present(next)
    ensures Load(a, b, erased).Present? ==> Load(a2, b2, erased2) in {Load(a, b, erased), Present(next)}
    ensures !Load(a, b, erased).Present? ==> Load(a2, b2, erased2) == Present(next) || !Load(a2, b2, erased2).Present?
  {
    ConsecutivePicksSuccessor(a, b);
    if Latest(a, b) != -1 {
      SuccessorIsNewer(if Latest(a, b) == 0 then a.sequence else b.sequence);
    }
    ConsecutivePicksSuccessor(a2, b2);
  }
}
