/** Bytes, 32-bit words and their little-endian layout in flash. */
module Bytes {
  type byte = b: int | 0 <= b < 256
  const WORD_MODULUS: int := 0x1_0000_0000
  type word = w: int | 0 <= w < WORD_MODULUS

  /** A NOR flash cell that has been erased and not programmed since. */
  const ERASED: byte := 0xFF

  datatype Option<+T> = None | Some(value: T)

  predicate IsErased(s: seq<byte>) {
    forall i :: 0 <= i < |s| ==> s[i] == ERASED
  }

  /** uint32_t addition, subtraction wrap modulo 2^32. */
  function Add(a: word, b: word): word { (a + b) % WORD_MODULUS }

  function Subtract(a: word, b: word): word { (a - b) % WORD_MODULUS }

  function ByteOf(w: word, lane: nat): byte
    requires lane < 4
  {
    if lane == 0 then w % 0x100
    else if lane == 1 then (w / 0x100) % 0x100
    else if lane == 2 then (w / 0x1_0000) % 0x100
    else w / 0x100_0000
  }

  /** The word stored at byte offset `at`. */
  function WordAt(s: seq<byte>, at: nat): word
    requires at + 4 <= |s|
  {
    s[at] as int + 0x100 * (s[at + 1] as int) + 0x1_0000 * (s[at + 2] as int) + 0x100_0000 * (s[at + 3] as int)
  }

  /** A C struct of uint32_t members as it lies in memory. */
  function Flatten(words: seq<word>): (s: seq<byte>)
    ensures |s| == 4 * |words|
  {
    seq(4 * |words|, (i: nat) requires i < 4 * |words| => ByteOf(words[i / 4], i % 4))
  }

  function Words(s: seq<byte>): (words: seq<word>)
    ensures |words| == |s| / 4
  {
    seq(|s| / 4, (k: nat) requires k < |s| / 4 => WordAt(s, 4 * k))
  }

  lemma ByteOfWordAt(s: seq<byte>, at: nat, lane: nat)
    requires at + 4 <= |s| && lane < 4
    ensures ByteOf(WordAt(s, at), lane) == s[at + lane]
  {
    Lanes(s[at], s[at + 1], s[at + 2], s[at + 3], WordAt(s, at));
  }

  lemma BytesOfWord(s: seq<byte>, at: nat)
    requires at + 4 <= |s|
    ensures var w := WordAt(s, at);
      s[at..at + 4] == [ByteOf(w, 0), ByteOf(w, 1), ByteOf(w, 2), ByteOf(w, 3)]
  {
    ByteOfWordAt(s, at, 0);
    ByteOfWordAt(s, at, 1);
    ByteOfWordAt(s, at, 2);
    ByteOfWordAt(s, at, 3);
  }

  lemma Lanes(b0: byte, b1: byte, b2: byte, b3: byte, w: word)
    requires w == b0 as int + 0x100 * (b1 as int) + 0x1_0000 * (b2 as int) + 0x100_0000 * (b3 as int)
    ensures ByteOf(w, 0) == b0 && ByteOf(w, 1) == b1 && ByteOf(w, 2) == b2 && ByteOf(w, 3) == b3
  {
    var high := b2 as int + 0x100 * (b3 as int);
    assert w / 0x100 == b1 as int + 0x100 * high;
    assert w / 0x1_0000 == high;
  }

  lemma WordOfBytes(w: word)
    ensures ByteOf(w, 0) as int + 0x100 * (ByteOf(w, 1) as int) + 0x1_0000 * (ByteOf(w, 2) as int)
         + 0x100_0000 * (ByteOf(w, 3) as int) == w
  {
    var q := w / 0x100;
    var r := q / 0x100;
    assert w == 0x100 * q + w % 0x100 && q == 0x100 * r + q % 0x100 && r == 0x100 * (r / 0x100) + r % 0x100;
    assert w / 0x1_0000 == r && w / 0x100_0000 == r / 0x100;
  }

  lemma FlattenWordAt(words: seq<word>, k: nat)
    requires k < |words|
    ensures WordAt(Flatten(words), 4 * k) == words[k]
  {
    WordOfBytes(words[k]);
    assert (4 * k + 1) / 4 == (4 * k + 2) / 4 == (4 * k + 3) / 4 == k;
  }

  /** Reading back what was written gives the words that were written. */
  lemma WordsFlatten(words: seq<word>)
    ensures Words(Flatten(words)) == words
  {
    forall k: nat | k < |words| ensures Words(Flatten(words))[k] == words[k] {
      FlattenWordAt(words, k);
    }
  }

  /** ... and writing what was read gives the same bytes. */
  lemma FlattenWords(s: seq<byte>)
    requires |s| % 4 == 0
    ensures Flatten(Words(s)) == s
  {
    forall i: nat | i < |s| ensures Flatten(Words(s))[i] == s[i] {
      ByteOfWordAt(s, 4 * (i / 4), i % 4);
    }
  }

  lemma SliceOfSlice(s: seq<byte>, from: nat, size: nat, at: nat, length: nat)
    requires from + size <= |s| && at + length <= size
    ensures s[from..from + size][at..at + length] == s[from + at..from + at + length]
  {
    var outer := s[from..from + size];
    var inner, direct := outer[at..at + length], s[from + at..from + at + length];
    assert |inner| == |direct| == length;
    forall i | 0 <= i < length ensures inner[i] == direct[i] {
      assert inner[i] == outer[at + i] == s[from + at + i];
    }
  }

  lemma PrefixOfSlice(s: seq<byte>, from: nat, size: nat, length: nat)
    requires from + size <= |s| && length <= size
    ensures s[from..from + size][..length] == s[from..from + length]
  {
    var outer := s[from..from + size];
    var inner, direct := outer[..length], s[from..from + length];
    assert |inner| == |direct| == length;
    forall i | 0 <= i < length ensures inner[i] == direct[i] {
      assert inner[i] == outer[i] == s[from + i];
    }
  }

  lemma FlattenPrefix(v: seq<word>, w: seq<word>, n: nat)
    requires n <= |v| && n <= |w| && v[..n] == w[..n]
    ensures Flatten(v)[..4 * n] == Flatten(w)[..4 * n]
  {
    forall i: nat | i < 4 * n ensures Flatten(v)[..4 * n][i] == Flatten(w)[..4 * n][i] {
      assert v[i / 4] == v[..n][i / 4] == w[i / 4];
    }
  }

  lemma FlattenPart(words: seq<word>, from: nat, to: nat)
    requires from <= to <= |words|
    ensures Flatten(words)[4 * from..4 * to] == Flatten(words[from..to])
  {
    var part := words[from..to];
    forall i: nat | i < 4 * |part| ensures Flatten(words)[4 * from + i] == Flatten(part)[i] {
      assert (4 * from + i) / 4 == from + i / 4 && (4 * from + i) % 4 == i % 4;
    }
    assert |Flatten(words)[4 * from..4 * to]| == |Flatten(part)|;
  }

  /** Little-endian: the first byte is the least significant. */
  lemma LittleEndian(s: seq<byte>, at: nat)
    requires at + 4 <= |s|
    ensures WordAt(s, at) % 0x100 == s[at] && WordAt(s, at) / 0x100_0000 == s[at + 3]
    ensures WordAt([0x56, 0x32, 0x49, 0x42], 0) == 0x4249_3256
  {
    ByteOfWordAt(s, at, 0);
    ByteOfWordAt(s, at, 3);
  }
}
