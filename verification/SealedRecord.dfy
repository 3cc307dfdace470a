/** Records whose last flash phrase holds the checksum of everything before it
  * followed by a commit marker. The journal and the slot metadata share it. */
module SealedRecord {
  import opened Bytes
  import Crc32

  predicate Sealed(record: seq<byte>, marker: word)
    requires |record| >= 8
  {
    && WordAt(record, |record| - 4) == marker
    && WordAt(record, |record| - 8) == Crc32.Checksum(record[..|record| - 8])
  }

  /** What a sector holds when power fails during phrase `k` of writing
    * `full`: the phrases before it complete, that phrase anything, the rest
    * still erased. */
  function Torn(full: seq<byte>, k: nat, inFlight: seq<byte>): (torn: seq<byte>)
    requires 8 * k + 8 <= |full| && |inFlight| == 8
    ensures |torn| == |full|
  {
    full[..8 * k] + inFlight + seq(|full| - 8 * k - 8, _ => ERASED)
  }

  /** The order of writing is what makes a commit atomic: whatever the phrase
    * in flight holds, a torn record passes the seal only if it is complete. */
  lemma TornIsWholeOrUnsealed(full: seq<byte>, k: nat, inFlight: seq<byte>, marker: word)
    requires |full| % 8 == 0 && 8 * k + 8 <= |full| && |inFlight| == 8
    requires marker != 0xFFFF_FFFF && Sealed(full, marker)
    ensures Sealed(Torn(full, k, inFlight), marker) ==> Torn(full, k, inFlight) == full
  {
    hide Crc32.Checksum;
    var torn := Torn(full, k, inFlight);
    var n := |full|;
    if 8 * k + 8 < n {
      ErasedTailIsUnsealed(torn, marker);
    } else if Sealed(torn, marker) {
      assert torn[..n - 8] == full[..n - 8];
      SameWordSameBytes(torn, full, n - 8);
      SameWordSameBytes(torn, full, n - 4);
      assert torn == torn[..n - 8] + torn[n - 8..n - 4] + torn[n - 4..];
      assert full == full[..n - 8] + full[n - 8..n - 4] + full[n - 4..];
    }
  }

  lemma SameWordSameBytes(s: seq<byte>, t: seq<byte>, at: nat)
    requires at + 4 <= |s| && at + 4 <= |t| && WordAt(s, at) == WordAt(t, at)
    ensures s[at..at + 4] == t[at..at + 4]
  {
    BytesOfWord(s, at);
    BytesOfWord(t, at);
  }

  lemma ErasedTailIsUnsealed(record: seq<byte>, marker: word)
    requires |record| >= 8 && marker != 0xFFFF_FFFF
    requires IsErased(record[|record| - 4..])
    ensures !Sealed(record, marker)
  {
    hide Crc32.Checksum;
    var n := |record|;
    assert record[n - 4..] == [record[n - 4], record[n - 3], record[n - 2], record[n - 1]];
    assert WordAt(record, n - 4) == 0xFFFF_FFFF;
  }
}
