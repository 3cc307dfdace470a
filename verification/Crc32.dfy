/** CRC-32 as the implementations of the repository compute it, against the
  * bit-serial register of section 3.2.9 of IEEE Std 802.3: preset to ones, fed
  * least significant bit first, complemented at the end. */
module Crc32 {
  import opened Bytes

  const POLYNOMIAL: bv32 := 0xEDB88320
  const PRESET: bv32 := 0xFFFF_FFFF

  function Xor(a: bv32, b: bv32): bv32 { a ^ b }

  function Half(a: bv32): bv32 { a >> 1 }

  function LowBit(a: bv32): bv32 { a & 1 }

  /** Four bits as a register, the least significant first. */
  function Nibble(n: nat): bv32
    requires n < 16
  {
    (if n % 2 == 1 then 1 else 0) | (if n / 2 % 2 == 1 then 2 else 0)
    | (if n / 4 % 2 == 1 then 4 else 0) | (if n / 8 == 1 then 8 else 0)
  }

  /** The value of the lowest four bits. */
  function Low(x: bv32): (n: nat)
    ensures n < 16
  {
    (if x & 1 != 0 then 1 else 0) + (if x & 2 != 0 then 2 else 0)
    + (if x & 4 != 0 then 4 else 0) + (if x & 8 != 0 then 8 else 0)
  }

  /** uint32_t from uint8_t. */
  function FromByte(b: byte): bv32 { (Nibble(b / 16) << 4) | Nibble(b % 16) }

  /** One clock of the serial register: the feedback bit is the register's low
    * bit exclusive-or the incoming message bit. */
  function Clock(register: bv32, bit: bv32): bv32 {
    if (register ^ bit) & 1 == 1 then (register >> 1) ^ POLYNOMIAL else register >> 1
  }

  /** Feed the low `n` bits of `bits`, least significant first. */
  function Feed(register: bv32, bits: bv32, n: nat): bv32
    decreases n
  {
    if n == 0 then register else Feed(Clock(register, LowBit(bits)), Half(bits), n - 1)
  }

  function FeedByte(register: bv32, b: byte): bv32 {
    Feed(register, FromByte(b), 8)
  }

  function Register(data: seq<byte>): bv32 {
    if |data| == 0 then PRESET
    else FeedByte(Register(data[..|data| - 1]), data[|data| - 1])
  }

  /** The reference value of the checksum. */
  function Checksum(data: seq<byte>): word {
    ToWord(!Register(data))
  }

  /** The unsigned value of a 32-bit register, byte lane by byte lane. */
  function ToWord(x: bv32): word {
    Assembled(LaneAt(x, 0), LaneAt(x, 1), LaneAt(x, 2), LaneAt(x, 3))
  }

  function Assembled(b0: byte, b1: byte, b2: byte, b3: byte): word {
    b0 as int + 0x100 * (b1 as int) + 0x1_0000 * (b2 as int) + 0x100_0000 * (b3 as int)
  }

  function LaneAt(x: bv32, k: nat): byte
    requires k < 4
  {
    if k == 0 then Lane(x) else if k == 1 then Lane(x >> 8) else if k == 2 then Lane(x >> 16) else Lane(x >> 24)
  }

  /** The lowest eight bits. */
  function Lane(x: bv32): byte { 16 * Low(x >> 4) + Low(x) }

  lemma LowNibble(n: nat)
    requires n < 16
    ensures Low(Nibble(n)) == n && Nibble(n) <= 15
  {
  }

  lemma NibbleLow(x: bv32)
    ensures Nibble(Low(x)) == x & 0xF
  {
  }

  lemma LowReads(x: bv32, y: bv32)
    requires x & 0xF == y & 0xF
    ensures Low(x) == Low(y)
  {
    assert x & 1 == (x & 0xF) & 1 && x & 2 == (x & 0xF) & 2 && x & 4 == (x & 0xF) & 4 && x & 8 == (x & 0xF) & 8;
    assert y & 1 == (y & 0xF) & 1 && y & 2 == (y & 0xF) & 2 && y & 4 == (y & 0xF) & 4 && y & 8 == (y & 0xF) & 8;
  }

  /** One bit of the branch form (boot_crc32.c, tools/image_format.js). */
  function Branch(crc: bv32): bv32 {
    if crc & 1 != 0 then (crc >> 1) ^ POLYNOMIAL else crc >> 1
  }

  /** One bit of the mask form (boot_journal.c). */
  function Mask(crc: bv32): bv32 {
    (crc >> 1) ^ ((0 - (crc & 1)) & POLYNOMIAL)
  }

  lemma MaskIsBranch(crc: bv32)
    ensures Mask(crc) == Branch(crc)
  {
    assert crc & 1 == 0 || crc & 1 == 1;
  }

  lemma BranchIsClock(register: bv32, bits: bv32)
    ensures Branch(Xor(register, bits)) == Xor(Clock(register, LowBit(bits)), Half(bits))
  {
    ShiftXor(register, bits);
    FeedbackBit(register, bits);
    XorExchange(register >> 1, bits >> 1, POLYNOMIAL);
  }

  lemma ShiftXor(a: bv32, b: bv32)
    ensures (a ^ b) >> 1 == (a >> 1) ^ (b >> 1)
  {
  }

  lemma FeedbackBit(a: bv32, b: bv32)
    ensures (a ^ (b & 1)) & 1 == (a ^ b) & 1
    ensures (a ^ b) & 1 == 0 || (a ^ b) & 1 == 1
  {
  }

  lemma XorExchange(a: bv32, b: bv32, c: bv32)
    ensures (a ^ b) ^ c == (a ^ c) ^ b
  {
  }

  /** `n` bit steps of the branch form. */
  function Iterate(crc: bv32, n: nat): bv32
    decreases n
  {
    if n == 0 then crc else Iterate(Branch(crc), n - 1)
  }

  function Drop(bits: bv32, n: nat): bv32
    decreases n
  {
    if n == 0 then bits else Drop(Half(bits), n - 1)
  }

  /** The C and JavaScript forms add a whole byte first and then shift; that is
    * the serial register because addition over GF(2) commutes with the shift. */
  lemma {:induction false} ShiftedIn(register: bv32, bits: bv32, n: nat)
    ensures Iterate(Xor(register, bits), n) == Xor(Feed(register, bits, n), Drop(bits, n))
    decreases n
  {
    hide Clock, Branch, Xor, Half, LowBit;
    if n == 0 {
    } else {
      BranchIsClock(register, bits);
      ShiftedIn(Clock(register, LowBit(bits)), Half(bits), n - 1);
    }
  }

  lemma DropByte(b: byte)
    ensures Drop(FromByte(b), 8) == 0
  {
    EightHalves(FromByte(b));
  }

  lemma EightHalves(bits: bv32)
    requires bits < 0x100
    ensures Drop(bits, 8) == 0
  {
    assert bits >> 1 >> 1 >> 1 >> 1 >> 1 >> 1 >> 1 >> 1 == 0;
    DropTwice(bits, 6);
    DropTwice(bits >> 1 >> 1, 4);
    DropTwice(bits >> 1 >> 1 >> 1 >> 1, 2);
    DropTwice(bits >> 1 >> 1 >> 1 >> 1 >> 1 >> 1, 0);
  }

  lemma DropTwice(bits: bv32, n: nat)
    ensures Drop(bits, n + 2) == Drop(bits >> 1 >> 1, n)
  {
    assert Drop(bits, n + 2) == Drop(Half(bits), n + 1);
  }

  lemma ByteStep(register: bv32, b: byte)
    ensures Iterate(Xor(register, FromByte(b)), 8) == FeedByte(register, b)
  {
    hide Iterate, Feed, Drop, FromByte;
    ShiftedIn(register, FromByte(b), 8);
    DropByte(b);
  }

  lemma {:induction false} IterateLast(crc: bv32, n: nat)
    ensures Iterate(crc, n + 1) == Branch(Iterate(crc, n))
    decreases n
  {
    hide Branch;
    if n > 0 {
      IterateLast(Branch(crc), n - 1);
    }
  }

  lemma RegisterStart()
    ensures Register([]) == PRESET
  {
  }

  lemma RegisterNext(data: seq<byte>, n: nat)
    requires n < |data|
    ensures Register(data[..n + 1]) == FeedByte(Register(data[..n]), data[n])
  {
    hide FeedByte;
    assert data[..n + 1][..n] == data[..n];
  }

  // ------------------------------------------------- what the checksum tells

  /** The bytes of the result, least significant first, are those of the register. */
  lemma ChecksumLanes(data: seq<byte>)
    ensures forall k: nat :: k < 4 ==> ByteOf(Checksum(data), k) == LaneAt(!Register(data), k)
  {
    hide Register, LaneAt, Assembled, ByteOf;
    ToWordLanes(!Register(data));
  }

  lemma ToWordLanes(x: bv32)
    ensures forall k: nat :: k < 4 ==> ByteOf(ToWord(x), k) == LaneAt(x, k)
  {
    hide LaneAt, Assembled, ByteOf;
    AssembledLanes(LaneAt(x, 0), LaneAt(x, 1), LaneAt(x, 2), LaneAt(x, 3));
  }

  lemma AssembledLanes(b0: byte, b1: byte, b2: byte, b3: byte)
    ensures var w := Assembled(b0, b1, b2, b3);
      ByteOf(w, 0) == b0 && ByteOf(w, 1) == b1 && ByteOf(w, 2) == b2 && ByteOf(w, 3) == b3
  {
    Lanes(b0, b1, b2, b3, Assembled(b0, b1, b2, b3));
  }

  lemma SameLane(x: bv32, y: bv32)
    requires Lane(x) == Lane(y)
    ensures x & 0xFF == y & 0xFF
  {
    hide Low, Nibble;
    assert Low(x) == Low(y) && Low(x >> 4) == Low(y >> 4);
    NibbleLow(x);
    NibbleLow(y);
    NibbleLow(x >> 4);
    NibbleLow(y >> 4);
    SameHalves(x, y);
  }

  lemma SameHalves(x: bv32, y: bv32)
    requires x & 0xF == y & 0xF && (x >> 4) & 0xF == (y >> 4) & 0xF
    ensures x & 0xFF == y & 0xFF
  {
  }

  lemma SameLanesSameRegister(x: bv32, y: bv32)
    requires x & 0xFF == y & 0xFF && (x >> 8) & 0xFF == (y >> 8) & 0xFF
    requires (x >> 16) & 0xFF == (y >> 16) & 0xFF && (x >> 24) & 0xFF == (y >> 24) & 0xFF
    ensures x == y
  {
  }

  lemma ToWordInjective(x: bv32, y: bv32)
    requires ToWord(x) == ToWord(y)
    ensures x == y
  {
    hide LaneAt, ToWord, ByteOf;
    ToWordLanes(x);
    ToWordLanes(y);
    assert forall k: nat :: k < 4 ==> LaneAt(x, k) == ByteOf(ToWord(x), k) == LaneAt(y, k);
    SameLanes(x, y);
  }

  lemma SameLanes(x: bv32, y: bv32)
    requires forall k: nat :: k < 4 ==> LaneAt(x, k) == LaneAt(y, k)
    ensures x == y
  {
    hide LaneAt, Lane;
    SameFirst(x, y);
    SameSecond(x, y);
    SameThird(x, y);
    SameFourth(x, y);
    SameLanesSameRegister(x, y);
  }

  lemma SameFirst(x: bv32, y: bv32)
    requires LaneAt(x, 0) == LaneAt(y, 0)
    ensures x & 0xFF == y & 0xFF
  {
    hide Lane;
    SameLane(x, y);
  }

  lemma SameSecond(x: bv32, y: bv32)
    requires LaneAt(x, 1) == LaneAt(y, 1)
    ensures (x >> 8) & 0xFF == (y >> 8) & 0xFF
  {
    hide Lane;
    SameLane(x >> 8, y >> 8);
  }

  lemma SameThird(x: bv32, y: bv32)
    requires LaneAt(x, 2) == LaneAt(y, 2)
    ensures (x >> 16) & 0xFF == (y >> 16) & 0xFF
  {
    hide Lane;
    SameLane(x >> 16, y >> 16);
  }

  lemma SameFourth(x: bv32, y: bv32)
    requires LaneAt(x, 3) == LaneAt(y, 3)
    ensures (x >> 24) & 0xFF == (y >> 24) & 0xFF
  {
    hide Lane;
    SameLane(x >> 24, y >> 24);
  }

  lemma ClockInjective(a: bv32, b: bv32, bit: bv32)
    requires Clock(a, bit) == Clock(b, bit)
    ensures a == b
  {
  }

  lemma {:induction false} FeedInjective(a: bv32, b: bv32, bits: bv32, n: nat)
    requires Feed(a, bits, n) == Feed(b, bits, n)
    ensures a == b
    decreases n
  {
    hide Clock, LowBit, Half;
    if n > 0 {
      FeedInjective(Clock(a, LowBit(bits)), Clock(b, LowBit(bits)), Half(bits), n - 1);
      ClockInjective(a, b, LowBit(bits));
    }
  }

  lemma BranchInjective(a: bv32, b: bv32)
    requires Branch(a) == Branch(b)
    ensures a == b
  {
  }

  lemma {:induction false} IterateInjective(a: bv32, b: bv32, n: nat)
    requires Iterate(a, n) == Iterate(b, n)
    ensures a == b
    decreases n
  {
    hide Branch;
    if n > 0 {
      IterateInjective(Branch(a), Branch(b), n - 1);
      BranchInjective(a, b);
    }
  }

  lemma ByteInjective(register: bv32, b: byte, c: byte)
    requires FeedByte(register, b) == FeedByte(register, c)
    ensures b == c
  {
    hide Iterate, FeedByte, FromByte, Xor;
    ByteStep(register, b);
    ByteStep(register, c);
    IterateInjective(Xor(register, FromByte(b)), Xor(register, FromByte(c)), 8);
    XorInjective(register, FromByte(b), FromByte(c));
    FromByteInjective(b, c);
  }

  lemma XorInjective(a: bv32, b: bv32, c: bv32)
    requires Xor(a, b) == Xor(a, c)
    ensures b == c
  {
  }

  lemma FromByteInjective(b: byte, c: byte)
    requires FromByte(b) == FromByte(c)
    ensures b == c
  {
    LaneOfByte(b);
    LaneOfByte(c);
  }

  /** Nothing is lost on the way into a register and back. */
  lemma LaneOfByte(b: byte)
    ensures Lane(FromByte(b)) == b
  {
    hide Low, Nibble;
    LowNibble(b / 16);
    LowNibble(b % 16);
    Halves(Nibble(b / 16), Nibble(b % 16));
    LowReads(FromByte(b), Nibble(b % 16));
    LowReads(FromByte(b) >> 4, Nibble(b / 16));
  }

  lemma ByteFits(b: byte)
    ensures FromByte(b) <= 0xFF
  {
    hide Low, Nibble;
    LowNibble(b / 16);
    LowNibble(b % 16);
    HalvesFit(Nibble(b / 16), Nibble(b % 16));
  }

  lemma HalvesFit(p: bv32, q: bv32)
    requires p <= 15 && q <= 15
    ensures (p << 4) | q <= 0xFF
  {
  }

  lemma LaneReads(x: bv32, y: bv32)
    requires x & 0xFF == y & 0xFF
    ensures Lane(x) == Lane(y)
  {
    hide Low;
    HalvesRead(x, y);
    LowReads(x, y);
    LowReads(x >> 4, y >> 4);
  }

  lemma HalvesRead(x: bv32, y: bv32)
    requires x & 0xFF == y & 0xFF
    ensures x & 0xF == y & 0xF && (x >> 4) & 0xF == (y >> 4) & 0xF
  {
  }

  lemma Halves(p: bv32, q: bv32)
    requires p <= 15 && q <= 15
    ensures ((p << 4) | q) & 0xF == q & 0xF && (((p << 4) | q) >> 4) & 0xF == p & 0xF
  {
  }

  /** Registers that differ stay different over the same bytes. */
  lemma {:induction false} RegisterFollows(s: seq<byte>, t: seq<byte>, at: nat)
    requires at <= |s| == |t| && Register(s[..at]) != Register(t[..at]) && s[at..] == t[at..]
    ensures Register(s) != Register(t)
    decreases |s| - at
  {
    hide Register, FeedByte;
    if at < |s| {
      assert s[at] == s[at..][0] == t[at..][0] == t[at];
      assert s[at + 1..] == s[at..][1..] && t[at + 1..] == t[at..][1..];
      RegisterNext(s, at);
      RegisterNext(t, at);
      if FeedByte(Register(s[..at]), s[at]) == FeedByte(Register(t[..at]), t[at]) {
        SameByteInjective(Register(s[..at]), Register(t[..at]), s[at]);
      }
      RegisterFollows(s, t, at + 1);
    } else {
      assert s[..at] == s && t[..at] == t;
    }
  }

  lemma SameByteInjective(a: bv32, c: bv32, b: byte)
    requires FeedByte(a, b) == FeedByte(c, b)
    ensures a == c
  {
    hide Feed, FromByte;
    FeedInjective(a, c, FromByte(b), 8);
  }

  /** Detection: two messages that differ in one byte differ in their checksums. */
  lemma OneByteIsDetected(s: seq<byte>, at: nat, b: byte)
    requires at < |s| && b != s[at]
    ensures Checksum(s[at := b]) != Checksum(s)
  {
    hide Register, FeedByte, ToWord;
    var t := s[at := b];
    assert t[..at] == s[..at] && t[at + 1..] == s[at + 1..];
    RegisterNext(s, at);
    RegisterNext(t, at);
    if FeedByte(Register(s[..at]), s[at]) == FeedByte(Register(s[..at]), b) {
      ByteInjective(Register(s[..at]), s[at], b);
    }
    RegisterFollows(s, t, at + 1);
    if ToWord(!Register(s)) == ToWord(!Register(t)) {
      ToWordInjective(!Register(s), !Register(t));
      NotInjective(Register(s), Register(t));
    }
  }

  lemma NotInjective(a: bv32, b: bv32)
    requires !a == !b
    ensures a == b
  {
  }

  /** The check value of the polynomial: the checksum of "123456789". */
  lemma CheckValue()
    ensures Checksum([0x31, 0x32, 0x33, 0x34, 0x35, 0x36, 0x37, 0x38, 0x39]) == 0xCBF4_3926
  {
    hide Register, FeedByte, ToWord;
    var d: seq<byte> := [0x31, 0x32, 0x33, 0x34, 0x35, 0x36, 0x37, 0x38, 0x39];
    RegisterStart();
    assert d[..0] == [];
    RegisterNext(d, 0);
    RegisterNext(d, 1);
    RegisterNext(d, 2);
    RegisterNext(d, 3);
    RegisterNext(d, 4);
    RegisterNext(d, 5);
    RegisterNext(d, 6);
    RegisterNext(d, 7);
    RegisterNext(d, 8);
    CheckSteps();
    assert d[..9] == d;
    CheckWord();
  }

  lemma Digits()
    ensures FromByte(0x31) == 0x31 && FromByte(0x32) == 0x32 && FromByte(0x33) == 0x33
    ensures FromByte(0x34) == 0x34 && FromByte(0x35) == 0x35 && FromByte(0x36) == 0x36
    ensures FromByte(0x37) == 0x37 && FromByte(0x38) == 0x38 && FromByte(0x39) == 0x39
  {
  }

  lemma CheckFeeds()
    ensures Feed(0xFFFF_FFFF, 0x31, 8) == 0x7C23_1048
    ensures Feed(0x7C23_1048, 0x32, 8) == 0xB0AC_BB32
    ensures Feed(0xB0AC_BB32, 0x33, 8) == 0x77B7_9C2D
    ensures Feed(0x77B7_9C2D, 0x34, 8) == 0x641C_1F5C
    ensures Feed(0x641C_1F5C, 0x35, 8) == 0x340A_C5E3
    ensures Feed(0x340A_C5E3, 0x36, 8) == 0xF68D_2C9E
    ensures Feed(0xF68D_2C9E, 0x37, 8) == 0xAFFC_9660
    ensures Feed(0xAFFC_9660, 0x38, 8) == 0x651F_2550
    ensures Feed(0x651F_2550, 0x39, 8) == 0x340B_C6D9
  {
  }

  lemma CheckSteps()
    ensures FeedByte(0xFFFF_FFFF, 0x31) == 0x7C23_1048
    ensures FeedByte(0x7C23_1048, 0x32) == 0xB0AC_BB32
    ensures FeedByte(0xB0AC_BB32, 0x33) == 0x77B7_9C2D
    ensures FeedByte(0x77B7_9C2D, 0x34) == 0x641C_1F5C
    ensures FeedByte(0x641C_1F5C, 0x35) == 0x340A_C5E3
    ensures FeedByte(0x340A_C5E3, 0x36) == 0xF68D_2C9E
    ensures FeedByte(0xF68D_2C9E, 0x37) == 0xAFFC_9660
    ensures FeedByte(0xAFFC_9660, 0x38) == 0x651F_2550
    ensures FeedByte(0x651F_2550, 0x39) == 0x340B_C6D9
  {
    hide FromByte, Feed;
    Digits();
    CheckFeeds();
  }

  lemma CheckWord()
    ensures ToWord(!0x340B_C6D9) == 0xCBF4_3926
  {
  }

  /** BootCrc32_Calculate. */
  method CalculateBranch(data: seq<byte>) returns (result: word)
    ensures result == Checksum(data)
  {
    hide Branch, FeedByte, Xor, ToWord, Register, FromByte;
    RegisterStart();
    var crc := PRESET;
    var index := 0;
    while index < |data|
      invariant 0 <= index <= |data|
      invariant crc == Register(data[..index])
    {
      crc := Xor(crc, FromByte(data[index]));
      ghost var start := crc;
      var bit := 0;
      while bit < 8
        invariant 0 <= bit <= 8
        invariant crc == Iterate(start, bit)
      {
        IterateLast(start, bit);
        crc := Branch(crc);
        bit := bit + 1;
      }
      ByteStep(Register(data[..index]), data[index]);
      RegisterNext(data, index);
      index := index + 1;
    }
    assert data[..|data|] == data;
    result := ToWord(!crc);
  }

  /** BootJournal_Crc. */
  method CalculateMask(data: seq<byte>) returns (result: word)
    ensures result == Checksum(data)
  {
    hide Branch, Mask, FeedByte, Xor, ToWord, Register, FromByte;
    RegisterStart();
    var crc := PRESET;
    var i := 0;
    while i < |data|
      invariant 0 <= i <= |data|
      invariant crc == Register(data[..i])
    {
      crc := Xor(crc, FromByte(data[i]));
      ghost var start := crc;
      var bit := 0;
      while bit < 8
        invariant 0 <= bit <= 8
        invariant crc == Iterate(start, bit)
      {
        IterateLast(start, bit);
        MaskIsBranch(crc);
        crc := Mask(crc);
        bit := bit + 1;
      }
      ByteStep(Register(data[..i]), data[i]);
      RegisterNext(data, i);
      i := i + 1;
    }
    assert data[..|data|] == data;
    result := ToWord(!crc);
  }
}
