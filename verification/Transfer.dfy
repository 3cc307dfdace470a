/** What a slot and the staged header hold while an image is streamed into the
  * slot: a function of the bytes received so far, and of nothing else. */
module Transfer {
  import opened Bytes
  import opened Slots
  import opened ImageFormat

  type Stream = s: seq<byte> | |s| <= SLOT_SIZE witness []

  /** The part of the stream that is complete phrases. */
  function Phrases(received: nat): nat { received / PHRASE * PHRASE }

  /** The payload area receives every complete phrase; the header sector keeps the
    * invalid marker that was programmed after the erase. */
  function WrittenAt(stream: Stream, i: nat): byte
    requires i < SLOT_SIZE
  {
    if i < HEADER_OFFSET then if i < Phrases(|stream|) then stream[i] else ERASED
    else if i < HEADER_OFFSET + PHRASE then 0
    else ERASED
  }

  function Written(stream: Stream): (slot: SlotBytes)
    ensures forall i: nat :: i < SLOT_SIZE ==> slot[i] == WrittenAt(stream, i)
  {
    seq(SLOT_SIZE, (i: nat) requires i < SLOT_SIZE => WrittenAt(stream, i))
  }

  /** The header is kept in RAM, erased where nothing has arrived. */
  function StagedAt(stream: Stream, i: nat): byte
    requires i < HEADER_SIZE
  {
    if HEADER_OFFSET + i < Phrases(|stream|) then stream[HEADER_OFFSET + i] else ERASED
  }

  function Staged(stream: Stream): (header: seq<byte>)
    ensures |header| == HEADER_SIZE
    ensures forall i: nat :: i < HEADER_SIZE ==> header[i] == StagedAt(stream, i)
  {
    seq(HEADER_SIZE, (i: nat) requires i < HEADER_SIZE => StagedAt(stream, i))
  }

  /** The complete phrases behind the header are erased. */
  predicate TailErased(stream: seq<byte>) {
    forall i :: HEADER_OFFSET + HEADER_SIZE <= i < Phrases(|stream|) ==> stream[i] == ERASED
  }

  /** Bytes short of a phrase show nowhere yet. */
  lemma PartialPhrase(before: Stream, after: Stream)
    requires |before| <= |after| && before == after[..|before|]
    requires Phrases(|after|) == Phrases(|before|)
    ensures Written(after) == Written(before) && Staged(after) == Staged(before)
    ensures TailErased(after) == TailErased(before)
  {
    assert forall i: nat :: i < SLOT_SIZE ==> WrittenAt(after, i) == WrittenAt(before, i);
    assert forall i: nat :: i < HEADER_SIZE ==> StagedAt(after, i) == StagedAt(before, i);
    forall i | HEADER_OFFSET + HEADER_SIZE <= i < Phrases(|after|) ensures after[i] == before[i] {
      assert before[i] == after[..|before|][i];
    }
  }

  /** One more phrase of payload. */
  lemma PayloadPhrase(before: Stream, after: Stream, slot: SlotBytes)
    requires |before| + PHRASE == |after| <= HEADER_OFFSET && |before| % PHRASE == 0 && before == after[..|before|]
    requires slot[..|before|] == Written(before)[..|before|] && slot[|after|..] == Written(before)[|after|..]
    requires slot[|before|..|after|] == after[|before|..]
    ensures slot == Written(after) && Staged(after) == Staged(before)
  {
    var written := Written(before);
    forall i: nat | i < SLOT_SIZE ensures slot[i] == Written(after)[i] {
      if i < |before| {
        assert slot[i] == slot[..|before|][i] == written[..|before|][i];
      } else if i < |after| {
        assert slot[i] == slot[|before|..|after|][i - |before|] == after[|before|..][i - |before|];
      } else {
        assert slot[i] == slot[|after|..][i - |after|] == written[|after|..][i - |after|];
      }
    }
    assert forall i: nat :: i < HEADER_SIZE ==> StagedAt(after, i) == StagedAt(before, i);
  }

  /** One more phrase of header. */
  lemma HeaderPhrase(before: Stream, after: Stream)
    requires |before| + PHRASE == |after| && |before| % PHRASE == 0 && before == after[..|before|]
    requires HEADER_OFFSET <= |before| < HEADER_OFFSET + HEADER_SIZE
    ensures Written(after) == Written(before)
    ensures var at := |before| - HEADER_OFFSET;
      && at + PHRASE <= HEADER_SIZE
      && Staged(after) == Staged(before)[..at] + after[|before|..] + Staged(before)[at + PHRASE..]
  {
    assert forall i: nat :: i < SLOT_SIZE ==> WrittenAt(after, i) == WrittenAt(before, i);
    var at := |before| - HEADER_OFFSET;
    var patched := Staged(before)[..at] + after[|before|..] + Staged(before)[at + PHRASE..];
    assert |patched| == HEADER_SIZE;
    forall i: nat | i < HEADER_SIZE ensures Staged(after)[i] == patched[i] {
      assert Staged(after)[i] == StagedAt(after, i);
      if i < at {
        assert patched[i] == Staged(before)[i] == StagedAt(before, i);
      } else if i >= at + PHRASE {
        assert patched[i] == Staged(before)[i] == StagedAt(before, i);
      }
    }
  }

  /** One more phrase of the tail, which must be erased. */
  lemma TailPhrase(before: Stream, after: Stream)
    requires |before| + PHRASE == |after| && |before| % PHRASE == 0 && before == after[..|before|]
    requires HEADER_OFFSET + HEADER_SIZE <= |before|
    ensures Written(after) == Written(before) && Staged(after) == Staged(before)
    ensures TailErased(after) <==> TailErased(before) && IsErased(after[|before|..])
    ensures Written(before)[|before|..|after|] == seq(PHRASE, _ => ERASED)
  {
    assert forall i: nat :: i < SLOT_SIZE ==> WrittenAt(after, i) == WrittenAt(before, i);
    assert forall i: nat :: i < HEADER_SIZE ==> StagedAt(after, i) == StagedAt(before, i);
    if TailErased(before) && IsErased(after[|before|..]) {
      forall i | HEADER_OFFSET + HEADER_SIZE <= i < |after| ensures after[i] == ERASED {
        if i < |before| {
          assert before[i] == after[i];
        } else {
          assert after[|before|..][i - |before|] == ERASED;
        }
      }
    }
    if TailErased(after) {
      forall i | HEADER_OFFSET + HEADER_SIZE <= i < Phrases(|before|) ensures before[i] == ERASED {
        assert after[..|before|][i] == after[i];
      }
    }
  }

  lemma NoTailYet(stream: Stream)
    requires |stream| <= HEADER_OFFSET + HEADER_SIZE
    ensures TailErased(stream)
  {
  }

  /** Publishing the staged header of a complete stream leaves the slot equal to
    * the stream, byte for byte. */
  lemma PublishedStream(stream: Stream)
    requires |stream| == SLOT_SIZE && TailErased(stream)
    ensures Published(Written(stream), DecodeHeader(Staged(stream))) == stream
    ensures DecodeHeader(Staged(stream)) == HeaderOf(stream)
    ensures Written(stream)[..HEADER_OFFSET] == stream[..HEADER_OFFSET]
  {
    hide DecodeHeader, EncodeHeader;
    var header := DecodeHeader(Staged(stream));
    HeaderRoundTrip(header, Staged(stream));
    assert Staged(stream) == stream[HEADER_OFFSET..HEADER_OFFSET + HEADER_SIZE];
    var published := Published(Written(stream), header);
    forall i: nat | i < SLOT_SIZE ensures published[i] == stream[i] {
      if i < HEADER_OFFSET {
        assert published[i] == Written(stream)[i] == WrittenAt(stream, i);
      } else if i < HEADER_OFFSET + HEADER_SIZE {
        assert published[i] == Staged(stream)[i - HEADER_OFFSET] == StagedAt(stream, i - HEADER_OFFSET);
      }
    }
  }
}
