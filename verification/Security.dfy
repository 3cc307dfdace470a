/** Seed and key (boot_security.c), and the gateway's side of it. */
module Security {
  import opened Bytes
  import Crc32

  const PATTERN: bv32 := 0xA5C3_9E71

  /** The register with these four bytes. */
  function Register(w: word): bv32 {
    Crc32.FromByte(ByteOf(w, 0)) | (Crc32.FromByte(ByteOf(w, 1)) << 8)
    | (Crc32.FromByte(ByteOf(w, 2)) << 16) | (Crc32.FromByte(ByteOf(w, 3)) << 24)
  }

  /** BootSecurity_RotateLeft of the disguised seed. */
  function Rotated(seed: bv32): bv32 { ((seed ^ PATTERN) << 7) | ((seed ^ PATTERN) >> 25) }

  /** The one key BootSecurity_ValidateKey takes. */
  function KeyFor(seed: word): word { Crc32.ToWord(Rotated(Register(seed))) }

  /** BootSecurity_GenerateSeed, whatever nonce and timer are: never zero. */
  function Seed(drawn: word): word { if drawn == 0 then 0x6D2B_79F5 else drawn }

  /** The gateway's arithmetic is on integers without a width, masked at the end. */
  function Wide(seed: bv32): bv64 {
    var value := ((seed as bv64) ^ 0xA5C3_9E71) & 0xFFFF_FFFF;
    ((value << 7) | (value >> 25)) & 0xFFFF_FFFF
  }

  /** calculate_key. */
  function CalculateKey(seed: word): word {
    WideFits(Register(seed));
    Crc32.ToWord(Wide(Register(seed)) as bv32)
  }

  lemma WideFits(seed: bv32)
    ensures Wide(seed) == Rotated(seed) as bv64
  {
  }

  /** The gateway computes the key the bootloader expects. */
  lemma KeysAgree(seed: word)
    ensures CalculateKey(seed) == KeyFor(seed)
  {
    hide Crc32.ToWord, Register, Rotated, Wide;
    WideFits(Register(seed));
    Narrow(Rotated(Register(seed)));
  }

  lemma Narrow(x: bv32)
    ensures (x as bv64) as bv32 == x
  {
  }

  /** The key to another seed is not the key to this one. */
  lemma KeysDiffer(seed: word, other: word)
    requires KeyFor(seed) == KeyFor(other)
    ensures seed == other
  {
    Crc32.ToWordInjective(Rotated(Register(seed)), Rotated(Register(other)));
    RotatedInjective(Register(seed), Register(other));
    RegisterInjective(seed, other);
  }

  lemma RotatedInjective(a: bv32, b: bv32)
    requires Rotated(a) == Rotated(b)
    ensures a == b
  {
  }

  lemma RegisterInjective(v: word, w: word)
    requires Register(v) == Register(w)
    ensures v == w
  {
    forall k: nat | k < 4 ensures ByteOf(v, k) == ByteOf(w, k) {
      RegisterLane(v, k);
      RegisterLane(w, k);
    }
    WordOfBytes(v);
    WordOfBytes(w);
  }

  lemma RegisterLane(w: word, k: nat)
    requires k < 4
    ensures Crc32.LaneAt(Register(w), k) == ByteOf(w, k)
  {
    hide ByteOf, Register, Crc32.Lane;
    Lane0(w);
    Lane1(w);
    Lane2(w);
    Lane3(w);
  }

  lemma Lane0(w: word)
    ensures Crc32.Lane(Register(w)) == ByteOf(w, 0)
  {
    hide ByteOf, Crc32.FromByte, Crc32.Lane, Register;
    RegisterBytes(w);
    Crc32.LaneReads(Register(w), Crc32.FromByte(ByteOf(w, 0)));
    Crc32.LaneOfByte(ByteOf(w, 0));
  }

  lemma Lane1(w: word)
    ensures Crc32.Lane(Register(w) >> 8) == ByteOf(w, 1)
  {
    hide ByteOf, Crc32.FromByte, Crc32.Lane, Register;
    RegisterBytes(w);
    Crc32.LaneReads(Register(w) >> 8, Crc32.FromByte(ByteOf(w, 1)));
    Crc32.LaneOfByte(ByteOf(w, 1));
  }

  lemma Lane2(w: word)
    ensures Crc32.Lane(Register(w) >> 16) == ByteOf(w, 2)
  {
    hide ByteOf, Crc32.FromByte, Crc32.Lane, Register;
    RegisterBytes(w);
    Crc32.LaneReads(Register(w) >> 16, Crc32.FromByte(ByteOf(w, 2)));
    Crc32.LaneOfByte(ByteOf(w, 2));
  }

  lemma Lane3(w: word)
    ensures Crc32.Lane(Register(w) >> 24) == ByteOf(w, 3)
  {
    hide ByteOf, Crc32.FromByte, Crc32.Lane, Register;
    RegisterBytes(w);
    Crc32.LaneReads(Register(w) >> 24, Crc32.FromByte(ByteOf(w, 3)));
    Crc32.LaneOfByte(ByteOf(w, 3));
  }

  lemma RegisterBytes(w: word)
    ensures Register(w) & 0xFF == Crc32.FromByte(ByteOf(w, 0)) & 0xFF
    ensures (Register(w) >> 8) & 0xFF == Crc32.FromByte(ByteOf(w, 1)) & 0xFF
    ensures (Register(w) >> 16) & 0xFF == Crc32.FromByte(ByteOf(w, 2)) & 0xFF
    ensures (Register(w) >> 24) & 0xFF == Crc32.FromByte(ByteOf(w, 3)) & 0xFF
  {
    hide ByteOf, Crc32.FromByte;
    Crc32.ByteFits(ByteOf(w, 0));
    Crc32.ByteFits(ByteOf(w, 1));
    Crc32.ByteFits(ByteOf(w, 2));
    Crc32.ByteFits(ByteOf(w, 3));
    Apart(Crc32.FromByte(ByteOf(w, 0)), Crc32.FromByte(ByteOf(w, 1)), Crc32.FromByte(ByteOf(w, 2)),
          Crc32.FromByte(ByteOf(w, 3)));
  }

  lemma Apart(c0: bv32, c1: bv32, c2: bv32, c3: bv32)
    requires c0 <= 0xFF && c1 <= 0xFF && c2 <= 0xFF && c3 <= 0xFF
    ensures var x := c0 | (c1 << 8) | (c2 << 16) | (c3 << 24);
      && x & 0xFF == c0 & 0xFF && (x >> 8) & 0xFF == c1 & 0xFF
      && (x >> 16) & 0xFF == c2 & 0xFF && (x >> 24) & 0xFF == c3 & 0xFF
  {
  }
}
