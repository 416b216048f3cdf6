/** The CRC-32 checksum of common/crc32.h: a table lookup per byte that must
    agree with bit-serial division by the reflected polynomial 0xEDB88320
    (section 8 of RFC 1952). */
module Crc32 {

  const POLYNOMIAL: bv32 := 0xEDB88320

  // The 256 entries of the source's table, sixteen to a row.
  const ROW_0: seq<bv32> := [
    0x00000000, 0x77073096, 0xee0e612c, 0x990951ba, 0x076dc419, 0x706af48f, 0xe963a535, 0x9e6495a3,
    0x0edb8832, 0x79dcb8a4, 0xe0d5e91e, 0x97d2d988, 0x09b64c2b, 0x7eb17cbd, 0xe7b82d07, 0x90bf1d91]
  const ROW_1: seq<bv32> := [
    0x1db71064, 0x6ab020f2, 0xf3b97148, 0x84be41de, 0x1adad47d, 0x6ddde4eb, 0xf4d4b551, 0x83d385c7,
    0x136c9856, 0x646ba8c0, 0xfd62f97a, 0x8a65c9ec, 0x14015c4f, 0x63066cd9, 0xfa0f3d63, 0x8d080df5]
  const ROW_2: seq<bv32> := [
    0x3b6e20c8, 0x4c69105e, 0xd56041e4, 0xa2677172, 0x3c03e4d1, 0x4b04d447, 0xd20d85fd, 0xa50ab56b,
    0x35b5a8fa, 0x42b2986c, 0xdbbbc9d6, 0xacbcf940, 0x32d86ce3, 0x45df5c75, 0xdcd60dcf, 0xabd13d59]
  const ROW_3: seq<bv32> := [
    0x26d930ac, 0x51de003a, 0xc8d75180, 0xbfd06116, 0x21b4f4b5, 0x56b3c423, 0xcfba9599, 0xb8bda50f,
    0x2802b89e, 0x5f058808, 0xc60cd9b2, 0xb10be924, 0x2f6f7c87, 0x58684c11, 0xc1611dab, 0xb6662d3d]
  const ROW_4: seq<bv32> := [
    0x76dc4190, 0x01db7106, 0x98d220bc, 0xefd5102a, 0x71b18589, 0x06b6b51f, 0x9fbfe4a5, 0xe8b8d433,
    0x7807c9a2, 0x0f00f934, 0x9609a88e, 0xe10e9818, 0x7f6a0dbb, 0x086d3d2d, 0x91646c97, 0xe6635c01]
  const ROW_5: seq<bv32> := [
    0x6b6b51f4, 0x1c6c6162, 0x856530d8, 0xf262004e, 0x6c0695ed, 0x1b01a57b, 0x8208f4c1, 0xf50fc457,
    0x65b0d9c6, 0x12b7e950, 0x8bbeb8ea, 0xfcb9887c, 0x62dd1ddf, 0x15da2d49, 0x8cd37cf3, 0xfbd44c65]
  const ROW_6: seq<bv32> := [
    0x4db26158, 0x3ab551ce, 0xa3bc0074, 0xd4bb30e2, 0x4adfa541, 0x3dd895d7, 0xa4d1c46d, 0xd3d6f4fb,
    0x4369e96a, 0x346ed9fc, 0xad678846, 0xda60b8d0, 0x44042d73, 0x33031de5, 0xaa0a4c5f, 0xdd0d7cc9]
  const ROW_7: seq<bv32> := [
    0x5005713c, 0x270241aa, 0xbe0b1010, 0xc90c2086, 0x5768b525, 0x206f85b3, 0xb966d409, 0xce61e49f,
    0x5edef90e, 0x29d9c998, 0xb0d09822, 0xc7d7a8b4, 0x59b33d17, 0x2eb40d81, 0xb7bd5c3b, 0xc0ba6cad]
  const ROW_8: seq<bv32> := [
    0xedb88320, 0x9abfb3b6, 0x03b6e20c, 0x74b1d29a, 0xead54739, 0x9dd277af, 0x04db2615, 0x73dc1683,
    0xe3630b12, 0x94643b84, 0x0d6d6a3e, 0x7a6a5aa8, 0xe40ecf0b, 0x9309ff9d, 0x0a00ae27, 0x7d079eb1]
  const ROW_9: seq<bv32> := [
    0xf00f9344, 0x8708a3d2, 0x1e01f268, 0x6906c2fe, 0xf762575d, 0x806567cb, 0x196c3671, 0x6e6b06e7,
    0xfed41b76, 0x89d32be0, 0x10da7a5a, 0x67dd4acc, 0xf9b9df6f, 0x8ebeeff9, 0x17b7be43, 0x60b08ed5]
  const ROW_A: seq<bv32> := [
    0xd6d6a3e8, 0xa1d1937e, 0x38d8c2c4, 0x4fdff252, 0xd1bb67f1, 0xa6bc5767, 0x3fb506dd, 0x48b2364b,
    0xd80d2bda, 0xaf0a1b4c, 0x36034af6, 0x41047a60, 0xdf60efc3, 0xa867df55, 0x316e8eef, 0x4669be79]
  const ROW_B: seq<bv32> := [
    0xcb61b38c, 0xbc66831a, 0x256fd2a0, 0x5268e236, 0xcc0c7795, 0xbb0b4703, 0x220216b9, 0x5505262f,
    0xc5ba3bbe, 0xb2bd0b28, 0x2bb45a92, 0x5cb36a04, 0xc2d7ffa7, 0xb5d0cf31, 0x2cd99e8b, 0x5bdeae1d]
  const ROW_C: seq<bv32> := [
    0x9b64c2b0, 0xec63f226, 0x756aa39c, 0x026d930a, 0x9c0906a9, 0xeb0e363f, 0x72076785, 0x05005713,
    0x95bf4a82, 0xe2b87a14, 0x7bb12bae, 0x0cb61b38, 0x92d28e9b, 0xe5d5be0d, 0x7cdcefb7, 0x0bdbdf21]
  const ROW_D: seq<bv32> := [
    0x86d3d2d4, 0xf1d4e242, 0x68ddb3f8, 0x1fda836e, 0x81be16cd, 0xf6b9265b, 0x6fb077e1, 0x18b74777,
    0x88085ae6, 0xff0f6a70, 0x66063bca, 0x11010b5c, 0x8f659eff, 0xf862ae69, 0x616bffd3, 0x166ccf45]
  const ROW_E: seq<bv32> := [
    0xa00ae278, 0xd70dd2ee, 0x4e048354, 0x3903b3c2, 0xa7672661, 0xd06016f7, 0x4969474d, 0x3e6e77db,
    0xaed16a4a, 0xd9d65adc, 0x40df0b66, 0x37d83bf0, 0xa9bcae53, 0xdebb9ec5, 0x47b2cf7f, 0x30b5ffe9]
  const ROW_F: seq<bv32> := [
    0xbdbdf21c, 0xcabac28a, 0x53b39330, 0x24b4a3a6, 0xbad03605, 0xcdd70693, 0x54de5729, 0x23d967bf,
    0xb3667a2e, 0xc4614ab8, 0x5d681b02, 0x2a6f2b94, 0xb40bbe37, 0xc30c8ea1, 0x5a05df1b, 0x2d02ef8d]

  function TableRow(high: bv8): (row: seq<bv32>)
    requires high < 16
    ensures |row| == 16
  {
    if high == 0 then ROW_0
    else if high == 1 then ROW_1
    else if high == 2 then ROW_2
    else if high == 3 then ROW_3
    else if high == 4 then ROW_4
    else if high == 5 then ROW_5
    else if high == 6 then ROW_6
    else if high == 7 then ROW_7
    else if high == 8 then ROW_8
    else if high == 9 then ROW_9
    else if high == 10 then ROW_A
    else if high == 11 then ROW_B
    else if high == 12 then ROW_C
    else if high == 13 then ROW_D
    else if high == 14 then ROW_E
    else ROW_F
  }

  function TableEntry(index: bv8): bv32 {
    TableRow(index >> 4)[(index & 15) as int]
  }

  // ---------- the bit-serial definition ----------

  function Xor(x: bv32, y: bv32): bv32 {
    x ^ y
  }

  function Odd(x: bv32): bool {
    x & 1 == 1
  }

  function Half(x: bv32): bv32 {
    x >> 1
  }

  function Iterate<T>(f: T -> T, x: T, n: nat): T {
    if n == 0 then x else Iterate(f, f(x), n - 1)
  }

  /** One step of the shift register on the message's lowest bit: shift right, and
      divide when the bit that falls out differs from the message bit. */
  function BitStep(register: (bv32, bv32)): (bv32, bv32) {
    var (crc, bits) := register;
    (if Odd(crc) != Odd(bits) then Xor(Half(crc), POLYNOMIAL) else Half(crc), Half(bits))
  }

  /** The register after the eight bits of `b`, least significant bit first. */
  function FeedByte(crc: bv32, b: bv8): bv32 {
    Iterate(BitStep, (crc, b as bv32), 8).0
  }

  /** The register after a whole message. */
  function Serial(crc: bv32, message: seq<bv8>): bv32 {
    if message == [] then crc
    else FeedByte(Serial(crc, message[..|message| - 1]), message[|message| - 1])
  }

  /** The checksum of a message: register preset to ones, result complemented. */
  function Checksum(message: seq<bv8>): bv32 {
    Complement(Serial(0xffff_ffff, message))
  }

  function Complement(x: bv32): bv32 {
    !x
  }

  // ---------- exclusive or ----------

  lemma XorHalves(x: bv32, y: bv32)
    ensures Half(Xor(x, y)) == Xor(Half(x), Half(y))
    ensures Odd(Xor(x, y)) == (Odd(x) != Odd(y))
  {
    XorShiftRaw(x, y);
    XorLowBitRaw(x, y);
  }

  lemma XorShiftRaw(x: bv32, y: bv32)
    ensures (x ^ y) >> 1 == (x >> 1) ^ (y >> 1)
  {}

  lemma XorLowBitRaw(x: bv32, y: bv32)
    ensures ((x ^ y) & 1 == 1) == ((x & 1 == 1) != (y & 1 == 1))
  {}

  lemma XorMoves(x: bv32, y: bv32, p: bv32)
    ensures Xor(Xor(x, p), Xor(y, p)) == Xor(x, y)
    ensures Xor(x, Xor(y, p)) == Xor(Xor(x, y), p)
    ensures Xor(Xor(x, p), y) == Xor(Xor(x, y), p)
  {
    hide Xor;
    XorBoth(x, y, p);
    XorRight(x, y, p);
    XorLeft(x, y, p);
  }

  lemma XorRight(x: bv32, y: bv32, p: bv32)
    ensures Xor(x, Xor(y, p)) == Xor(Xor(x, y), p)
  {}

  lemma XorSwaps(x: bv32, y: bv32)
    ensures Xor(x, y) == Xor(y, x)
  {}

  lemma XorLeft(x: bv32, y: bv32, p: bv32)
    ensures Xor(Xor(x, p), y) == Xor(Xor(x, y), p)
  {
    hide Xor;
    XorRight(x, p, y);
    XorSwaps(p, y);
    XorRight(x, y, p);
  }

  lemma XorSelf(x: bv32)
    ensures Xor(x, x) == 0
  {}

  lemma XorBoth(x: bv32, y: bv32, p: bv32)
    ensures Xor(Xor(x, p), Xor(y, p)) == Xor(x, y)
  {
    hide Xor;
    XorRight(x, p, Xor(y, p));
    XorSwaps(p, Xor(y, p));
    XorRight(y, p, p);
    XorSelf(p);
    XorZero(y);
  }

  lemma XorZero(x: bv32)
    ensures Xor(x, 0) == x
  {}

  lemma XorCancels(x: bv32, y: bv32, p: bv32)
    requires Xor(x, p) == Xor(y, p) || Xor(p, x) == Xor(p, y)
    ensures x == y
  {}

  // ---------- the register without message bits ----------

  function Shift(crc: bv32): bv32 {
    if crc & 1 == 1 then (crc >> 1) ^ POLYNOMIAL else crc >> 1
  }

  lemma ShiftParts(crc: bv32)
    ensures Shift(crc) == if Odd(crc) then Xor(Half(crc), POLYNOMIAL) else Half(crc)
  {}

  function Shift8(crc: bv32): bv32 {
    Shift(Shift(Shift(Shift(Shift(Shift(Shift(Shift(crc))))))))
  }

  /** A map that commutes with one step commutes with any number of steps. */
  lemma {:induction false} IterateCommutes<A(!new), B>(f: A -> A, g: B -> B, phi: A -> B, a: A, n: nat)
    requires forall x :: g(phi(x)) == phi(f(x))
    ensures Iterate(g, phi(a), n) == phi(Iterate(f, a, n))
  {
    if n > 0 {
      IterateCommutes(f, g, phi, f(a), n - 1);
    }
  }

  lemma {:induction false} IterateInjective<T(!new)>(f: T -> T, x: T, y: T, n: nat)
    requires forall a, b :: f(a) == f(b) ==> a == b
    requires Iterate(f, x, n) == Iterate(f, y, n)
    ensures x == y
  {
    if n > 0 {
      IterateInjective(f, f(x), f(y), n - 1);
    }
  }

  lemma ShiftIterated(x: bv32)
    ensures Iterate(Shift, x, 8) == Shift8(x)
  {
    hide Shift;
    assert Iterate(Shift, Shift(Shift(Shift(Shift(x)))), 4) == Shift8(x);
  }

  lemma ShiftLinear(x: bv32, y: bv32)
    ensures Shift(Xor(x, y)) == Xor(Shift(x), Shift(y))
  {
    hide Xor, Odd, Half, Shift;
    ShiftParts(x);
    ShiftParts(y);
    ShiftParts(Xor(x, y));
    XorHalves(x, y);
    XorMoves(Half(x), Half(y), POLYNOMIAL);
  }

  /** Mixing the message in before a shift is the same as comparing one bit. */
  lemma BitStepMixes(crc: bv32, bits: bv32)
    ensures Shift(Xor(crc, bits)) == Xor(BitStep((crc, bits)).0, BitStep((crc, bits)).1)
  {
    hide Xor, Odd, Half, Shift;
    ShiftParts(Xor(crc, bits));
    XorHalves(crc, bits);
    XorMoves(Half(crc), Half(bits), POLYNOMIAL);
  }

  /** Distinct register contents stay distinct: the polynomial's top bit is set. */
  lemma ShiftInjective(x: bv32, y: bv32)
    requires Shift(x) == Shift(y)
    ensures x == y
  {}

  lemma ByteUsedUp(crc: bv32, b: bv8)
    ensures Iterate(BitStep, (crc, b as bv32), 8).1 == 0
  {
    var message := (p: (bv32, bv32)) => p.1;
    assert Iterate(Half, b as bv32, 8) == 0;
    IterateCommutes(BitStep, Half, message, (crc, b as bv32), 8);
  }

  lemma FeedByteIsShift8(crc: bv32, b: bv8)
    ensures FeedByte(crc, b) == Shift8(Xor(crc, b as bv32))
  {
    hide Xor, Odd, Half, Shift, Shift8, BitStep;
    var mix := (p: (bv32, bv32)) => Xor(p.0, p.1);
    forall p: (bv32, bv32)
      ensures Shift(mix(p)) == mix(BitStep(p))
    {
      BitStepMixes(p.0, p.1);
    }
    IterateCommutes(BitStep, Shift, mix, (crc, b as bv32), 8);
    ByteUsedUp(crc, b);
    XorZero(FeedByte(crc, b));
    ShiftIterated(Xor(crc, b as bv32));
  }

  lemma Shift8Linear(x: bv32, y: bv32)
    ensures Shift8(Xor(x, y)) == Xor(Shift8(x), Shift8(y))
  {
    hide Xor, Shift, Shift8;
    var both := (p: (bv32, bv32)) => (Shift(p.0), Shift(p.1));
    var mix := (p: (bv32, bv32)) => Xor(p.0, p.1);
    var left := (p: (bv32, bv32)) => p.0;
    var right := (p: (bv32, bv32)) => p.1;
    forall p: (bv32, bv32)
      ensures Shift(mix(p)) == mix(both(p))
    {
      ShiftLinear(p.0, p.1);
    }
    IterateCommutes(both, Shift, mix, (x, y), 8);
    IterateCommutes(both, Shift, left, (x, y), 8);
    IterateCommutes(both, Shift, right, (x, y), 8);
    ShiftIterated(x);
    ShiftIterated(y);
    ShiftIterated(Xor(x, y));
  }

  // ---------- every table entry is eight shifts of its index ----------

  lemma RowIsShift8_0(i: bv8)
    requires i >> 4 == 0
    ensures ROW_0[(i & 15) as int] == Shift8(i as bv32)
  {
    assert ROW_0 == [
      Shift8(0), Shift8(1), Shift8(2), Shift8(3), Shift8(4), Shift8(5), Shift8(6), Shift8(7),
      Shift8(8), Shift8(9), Shift8(10), Shift8(11), Shift8(12), Shift8(13), Shift8(14), Shift8(15)];
    assert i == 0 || i == 1 || i == 2 || i == 3 || i == 4 || i == 5 || i == 6 || i == 7
      || i == 8 || i == 9 || i == 10 || i == 11 || i == 12 || i == 13 || i == 14 || i == 15;
  }

  lemma RowIsShift8_1(i: bv8)
    requires i >> 4 == 1
    ensures ROW_1[(i & 15) as int] == Shift8(i as bv32)
  {
    assert ROW_1 == [
      Shift8(16), Shift8(17), Shift8(18), Shift8(19), Shift8(20), Shift8(21), Shift8(22), Shift8(23),
      Shift8(24), Shift8(25), Shift8(26), Shift8(27), Shift8(28), Shift8(29), Shift8(30), Shift8(31)];
    assert i == 16 || i == 17 || i == 18 || i == 19 || i == 20 || i == 21 || i == 22 || i == 23
      || i == 24 || i == 25 || i == 26 || i == 27 || i == 28 || i == 29 || i == 30 || i == 31;
  }

  lemma RowIsShift8_2(i: bv8)
    requires i >> 4 == 2
    ensures ROW_2[(i & 15) as int] == Shift8(i as bv32)
  {
    assert ROW_2 == [
      Shift8(32), Shift8(33), Shift8(34), Shift8(35), Shift8(36), Shift8(37), Shift8(38), Shift8(39),
      Shift8(40), Shift8(41), Shift8(42), Shift8(43), Shift8(44), Shift8(45), Shift8(46), Shift8(47)];
    assert i == 32 || i == 33 || i == 34 || i == 35 || i == 36 || i == 37 || i == 38 || i == 39
      || i == 40 || i == 41 || i == 42 || i == 43 || i == 44 || i == 45 || i == 46 || i == 47;
  }

  lemma RowIsShift8_3(i: bv8)
    requires i >> 4 == 3
    ensures ROW_3[(i & 15) as int] == Shift8(i as bv32)
  {
    assert ROW_3 == [
      Shift8(48), Shift8(49), Shift8(50), Shift8(51), Shift8(52), Shift8(53), Shift8(54), Shift8(55),
      Shift8(56), Shift8(57), Shift8(58), Shift8(59), Shift8(60), Shift8(61), Shift8(62), Shift8(63)];
    assert i == 48 || i == 49 || i == 50 || i == 51 || i == 52 || i == 53 || i == 54 || i == 55
      || i == 56 || i == 57 || i == 58 || i == 59 || i == 60 || i == 61 || i == 62 || i == 63;
  }

  lemma RowIsShift8_4(i: bv8)
    requires i >> 4 == 4
    ensures ROW_4[(i & 15) as int] == Shift8(i as bv32)
  {
    assert ROW_4 == [
      Shift8(64), Shift8(65), Shift8(66), Shift8(67), Shift8(68), Shift8(69), Shift8(70), Shift8(71),
      Shift8(72), Shift8(73), Shift8(74), Shift8(75), Shift8(76), Shift8(77), Shift8(78), Shift8(79)];
    assert i == 64 || i == 65 || i == 66 || i == 67 || i == 68 || i == 69 || i == 70 || i == 71
      || i == 72 || i == 73 || i == 74 || i == 75 || i == 76 || i == 77 || i == 78 || i == 79;
  }

  lemma RowIsShift8_5(i: bv8)
    requires i >> 4 == 5
    ensures ROW_5[(i & 15) as int] == Shift8(i as bv32)
  {
    assert ROW_5 == [
      Shift8(80), Shift8(81), Shift8(82), Shift8(83), Shift8(84), Shift8(85), Shift8(86), Shift8(87),
      Shift8(88), Shift8(89), Shift8(90), Shift8(91), Shift8(92), Shift8(93), Shift8(94), Shift8(95)];
    assert i == 80 || i == 81 || i == 82 || i == 83 || i == 84 || i == 85 || i == 86 || i == 87
      || i == 88 || i == 89 || i == 90 || i == 91 || i == 92 || i == 93 || i == 94 || i == 95;
  }

  lemma RowIsShift8_6(i: bv8)
    requires i >> 4 == 6
    ensures ROW_6[(i & 15) as int] == Shift8(i as bv32)
  {
    assert ROW_6 == [
      Shift8(96), Shift8(97), Shift8(98), Shift8(99), Shift8(100), Shift8(101), Shift8(102), Shift8(103),
      Shift8(104), Shift8(105), Shift8(106), Shift8(107), Shift8(108), Shift8(109), Shift8(110), Shift8(111)];
    assert i == 96 || i == 97 || i == 98 || i == 99 || i == 100 || i == 101 || i == 102 || i == 103
      || i == 104 || i == 105 || i == 106 || i == 107 || i == 108 || i == 109 || i == 110 || i == 111;
  }

  lemma RowIsShift8_7(i: bv8)
    requires i >> 4 == 7
    ensures ROW_7[(i & 15) as int] == Shift8(i as bv32)
  {
    assert ROW_7 == [
      Shift8(112), Shift8(113), Shift8(114), Shift8(115), Shift8(116), Shift8(117), Shift8(118), Shift8(119),
      Shift8(120), Shift8(121), Shift8(122), Shift8(123), Shift8(124), Shift8(125), Shift8(126), Shift8(127)];
    assert i == 112 || i == 113 || i == 114 || i == 115 || i == 116 || i == 117 || i == 118 || i == 119
      || i == 120 || i == 121 || i == 122 || i == 123 || i == 124 || i == 125 || i == 126 || i == 127;
  }

  lemma RowIsShift8_8(i: bv8)
    requires i >> 4 == 8
    ensures ROW_8[(i & 15) as int] == Shift8(i as bv32)
  {
    assert ROW_8 == [
      Shift8(128), Shift8(129), Shift8(130), Shift8(131), Shift8(132), Shift8(133), Shift8(134), Shift8(135),
      Shift8(136), Shift8(137), Shift8(138), Shift8(139), Shift8(140), Shift8(141), Shift8(142), Shift8(143)];
    assert i == 128 || i == 129 || i == 130 || i == 131 || i == 132 || i == 133 || i == 134 || i == 135
      || i == 136 || i == 137 || i == 138 || i == 139 || i == 140 || i == 141 || i == 142 || i == 143;
  }

  lemma RowIsShift8_9(i: bv8)
    requires i >> 4 == 9
    ensures ROW_9[(i & 15) as int] == Shift8(i as bv32)
  {
    assert ROW_9 == [
      Shift8(144), Shift8(145), Shift8(146), Shift8(147), Shift8(148), Shift8(149), Shift8(150), Shift8(151),
      Shift8(152), Shift8(153), Shift8(154), Shift8(155), Shift8(156), Shift8(157), Shift8(158), Shift8(159)];
    assert i == 144 || i == 145 || i == 146 || i == 147 || i == 148 || i == 149 || i == 150 || i == 151
      || i == 152 || i == 153 || i == 154 || i == 155 || i == 156 || i == 157 || i == 158 || i == 159;
  }

  lemma RowIsShift8_A(i: bv8)
    requires i >> 4 == 10
    ensures ROW_A[(i & 15) as int] == Shift8(i as bv32)
  {
    assert ROW_A == [
      Shift8(160), Shift8(161), Shift8(162), Shift8(163), Shift8(164), Shift8(165), Shift8(166), Shift8(167),
      Shift8(168), Shift8(169), Shift8(170), Shift8(171), Shift8(172), Shift8(173), Shift8(174), Shift8(175)];
    assert i == 160 || i == 161 || i == 162 || i == 163 || i == 164 || i == 165 || i == 166 || i == 167
      || i == 168 || i == 169 || i == 170 || i == 171 || i == 172 || i == 173 || i == 174 || i == 175;
  }

  lemma RowIsShift8_B(i: bv8)
    requires i >> 4 == 11
    ensures ROW_B[(i & 15) as int] == Shift8(i as bv32)
  {
    assert ROW_B == [
      Shift8(176), Shift8(177), Shift8(178), Shift8(179), Shift8(180), Shift8(181), Shift8(182), Shift8(183),
      Shift8(184), Shift8(185), Shift8(186), Shift8(187), Shift8(188), Shift8(189), Shift8(190), Shift8(191)];
    assert i == 176 || i == 177 || i == 178 || i == 179 || i == 180 || i == 181 || i == 182 || i == 183
      || i == 184 || i == 185 || i == 186 || i == 187 || i == 188 || i == 189 || i == 190 || i == 191;
  }

  lemma RowIsShift8_C(i: bv8)
    requires i >> 4 == 12
    ensures ROW_C[(i & 15) as int] == Shift8(i as bv32)
  {
    assert ROW_C == [
      Shift8(192), Shift8(193), Shift8(194), Shift8(195), Shift8(196), Shift8(197), Shift8(198), Shift8(199),
      Shift8(200), Shift8(201), Shift8(202), Shift8(203), Shift8(204), Shift8(205), Shift8(206), Shift8(207)];
    assert i == 192 || i == 193 || i == 194 || i == 195 || i == 196 || i == 197 || i == 198 || i == 199
      || i == 200 || i == 201 || i == 202 || i == 203 || i == 204 || i == 205 || i == 206 || i == 207;
  }

  lemma RowIsShift8_D(i: bv8)
    requires i >> 4 == 13
    ensures ROW_D[(i & 15) as int] == Shift8(i as bv32)
  {
    assert ROW_D == [
      Shift8(208), Shift8(209), Shift8(210), Shift8(211), Shift8(212), Shift8(213), Shift8(214), Shift8(215),
      Shift8(216), Shift8(217), Shift8(218), Shift8(219), Shift8(220), Shift8(221), Shift8(222), Shift8(223)];
    assert i == 208 || i == 209 || i == 210 || i == 211 || i == 212 || i == 213 || i == 214 || i == 215
      || i == 216 || i == 217 || i == 218 || i == 219 || i == 220 || i == 221 || i == 222 || i == 223;
  }

  lemma RowIsShift8_E(i: bv8)
    requires i >> 4 == 14
    ensures ROW_E[(i & 15) as int] == Shift8(i as bv32)
  {
    assert ROW_E == [
      Shift8(224), Shift8(225), Shift8(226), Shift8(227), Shift8(228), Shift8(229), Shift8(230), Shift8(231),
      Shift8(232), Shift8(233), Shift8(234), Shift8(235), Shift8(236), Shift8(237), Shift8(238), Shift8(239)];
    assert i == 224 || i == 225 || i == 226 || i == 227 || i == 228 || i == 229 || i == 230 || i == 231
      || i == 232 || i == 233 || i == 234 || i == 235 || i == 236 || i == 237 || i == 238 || i == 239;
  }

  lemma RowIsShift8_F(i: bv8)
    requires i >> 4 == 15
    ensures ROW_F[(i & 15) as int] == Shift8(i as bv32)
  {
    assert ROW_F == [
      Shift8(240), Shift8(241), Shift8(242), Shift8(243), Shift8(244), Shift8(245), Shift8(246), Shift8(247),
      Shift8(248), Shift8(249), Shift8(250), Shift8(251), Shift8(252), Shift8(253), Shift8(254), Shift8(255)];
    assert i == 240 || i == 241 || i == 242 || i == 243 || i == 244 || i == 245 || i == 246 || i == 247
      || i == 248 || i == 249 || i == 250 || i == 251 || i == 252 || i == 253 || i == 254 || i == 255;
  }

  lemma EntryIsShift8(i: bv8)
    ensures TableEntry(i) == Shift8(i as bv32)
  {
    match i >> 4
    case 0 => RowIsShift8_0(i);
    case 1 => RowIsShift8_1(i);
    case 2 => RowIsShift8_2(i);
    case 3 => RowIsShift8_3(i);
    case 4 => RowIsShift8_4(i);
    case 5 => RowIsShift8_5(i);
    case 6 => RowIsShift8_6(i);
    case 7 => RowIsShift8_7(i);
    case 8 => RowIsShift8_8(i);
    case 9 => RowIsShift8_9(i);
    case 10 => RowIsShift8_A(i);
    case 11 => RowIsShift8_B(i);
    case 12 => RowIsShift8_C(i);
    case 13 => RowIsShift8_D(i);
    case 14 => RowIsShift8_E(i);
    case _ => RowIsShift8_F(i);
  }

  // ---------- the table-driven step ----------

  /** The source's loop body: shift a byte out and XOR the table entry in. */
  function TableStep(crc: bv32, b: bv8): bv32 {
    Xor(crc >> 8, TableEntry(LowByte(Xor(crc, b as bv32))))
  }

  function HighBytes(x: bv32): bv32 {
    x & 0xffff_ff00
  }

  function LowByte(x: bv32): bv8 {
    (x & 0xff) as bv8
  }

  lemma FourZeros(x: bv32)
    requires x & 0xf == 0
    ensures Shift(Shift(Shift(Shift(x)))) == x >> 4
  {}

  lemma HighBytesShift(x: bv32)
    ensures Shift8(HighBytes(x)) == x >> 8
  {
    hide Shift, HighBytes;
    LowBitsClear(x);
    FourZeros(HighBytes(x));
    FourZeros(HighBytes(x) >> 4);
  }

  lemma LowBitsClear(x: bv32)
    ensures HighBytes(x) & 0xf == 0
    ensures (HighBytes(x) >> 4) & 0xf == 0
    ensures (HighBytes(x) >> 4) >> 4 == x >> 8
  {}

  lemma SplitByte(x: bv32)
    ensures Xor(HighBytes(x), LowByte(x) as bv32) == x
  {}

  lemma HighBitsKept(crc: bv32, b: bv8)
    ensures Xor(crc, b as bv32) >> 8 == crc >> 8
  {}

  /** One table lookup does the work of eight bit-serial steps. */
  lemma TableStepIsFeedByte(crc: bv32, b: bv8)
    ensures TableStep(crc, b) == FeedByte(crc, b)
  {
    hide Xor, Shift8, TableEntry, FeedByte, HighBytes, LowByte;
    var x := Xor(crc, b as bv32);
    HighBitsKept(crc, b);
    EntryIsShift8(LowByte(x));
    HighBytesShift(x);
    Shift8Linear(HighBytes(x), LowByte(x) as bv32);
    SplitByte(x);
    FeedByteIsShift8(crc, b);
  }

  // ---------- messages ----------

  lemma {:induction false} SerialSplits(crc: bv32, a: seq<bv8>, b: seq<bv8>)
    ensures Serial(crc, a + b) == Serial(Serial(crc, a), b)
  {
    hide FeedByte;
    if b == [] {
      assert a + b == a;
    } else {
      SerialSplits(crc, a, b[..|b| - 1]);
      assert (a + b)[..|a + b| - 1] == a + b[..|b| - 1];
    }
  }

  lemma Shift8Injective(x: bv32, y: bv32)
    requires Shift8(x) == Shift8(y)
    ensures x == y
  {
    hide Shift, Shift8;
    ShiftIterated(x);
    ShiftIterated(y);
    forall u, v | Shift(u) == Shift(v)
      ensures u == v
    {
      ShiftInjective(u, v);
    }
    IterateInjective(Shift, x, y, 8);
  }

  lemma FeedByteMixes(x: bv32, y: bv32, b: bv8, c: bv8)
    requires FeedByte(x, b) == FeedByte(y, c)
    ensures Xor(x, b as bv32) == Xor(y, c as bv32)
  {
    hide Xor, Shift8, FeedByte;
    FeedByteIsShift8(x, b);
    FeedByteIsShift8(y, c);
    Shift8Injective(Xor(x, b as bv32), Xor(y, c as bv32));
  }

  lemma FeedByteKeepsRegisters(x: bv32, y: bv32, b: bv8)
    requires FeedByte(x, b) == FeedByte(y, b)
    ensures x == y
  {
    hide Xor, FeedByte;
    FeedByteMixes(x, y, b, b);
    XorCancels(x, y, b as bv32);
  }

  lemma FeedByteKeepsBytes(x: bv32, b: bv8, c: bv8)
    requires FeedByte(x, b) == FeedByte(x, c)
    ensures b == c
  {
    hide Xor, FeedByte;
    FeedByteMixes(x, x, b, c);
    XorCancels(b as bv32, c as bv32, x);
    WidenInjective(b, c);
  }

  lemma WidenInjective(b: bv8, c: bv8)
    requires b as bv32 == c as bv32
    ensures b == c
  {}

  lemma {:induction false} SerialInjective(x: bv32, y: bv32, m: seq<bv8>)
    requires Serial(x, m) == Serial(y, m)
    ensures x == y
    decreases |m|
  {
    hide FeedByte;
    if m != [] {
      var init, last := m[..|m| - 1], m[|m| - 1];
      FeedByteKeepsRegisters(Serial(x, init), Serial(y, init), last);
      SerialInjective(x, y, init);
    }
  }

  lemma ChecksumInjective(m: seq<bv8>, n: seq<bv8>)
    requires Checksum(m) == Checksum(n)
    ensures Serial(0xffff_ffff, m) == Serial(0xffff_ffff, n)
  {
    hide Serial, Complement;
    ComplementInjective(Serial(0xffff_ffff, m), Serial(0xffff_ffff, n));
  }

  lemma ComplementInjective(x: bv32, y: bv32)
    requires Complement(x) == Complement(y)
    ensures x == y
  {}

  /** The checksum catches every change confined to a single byte. */
  lemma OneByteChangeDetected(before: seq<bv8>, b: bv8, c: bv8, after: seq<bv8>)
    requires b != c
    ensures Checksum(before + [b] + after) != Checksum(before + [c] + after)
  {
    hide FeedByte, Serial, Checksum;
    var ones: bv32 := 0xffff_ffff;
    if Checksum(before + [b] + after) == Checksum(before + [c] + after) {
      ChecksumInjective(before + [b] + after, before + [c] + after);
      SerialSplits(ones, before + [b], after);
      SerialSplits(ones, before + [c], after);
      SerialInjective(Serial(ones, before + [b]), Serial(ones, before + [c]), after);
      SerialLast(ones, before, b);
      SerialLast(ones, before, c);
      FeedByteKeepsBytes(Serial(ones, before), b, c);
    }
  }

  lemma SerialLast(crc: bv32, m: seq<bv8>, b: bv8)
    ensures Serial(crc, m + [b]) == FeedByte(Serial(crc, m), b)
  {
    hide FeedByte;
    assert (m + [b])[..|m|] == m;
  }

  // ---------- the function object ----------

  /** `strlen`: the index of the first NUL. */
  method StringLength(memory: seq<bv8>) returns (len: nat)
    requires 0 in memory
    ensures len < |memory| && memory[len] == 0 && 0 !in memory[..len]
  {
    len := 0;
    while memory[len] != 0
      invariant len < |memory|
      invariant 0 !in memory[..len]
      decreases |memory| - len
    {
      len := len + 1;
    }
  }

  const COUNTER_LIMIT: int := 0x1_0000_0000

  /** The call operator on a NUL-terminated string. The length goes through a
      32-bit counter, so a string of 2^32 bytes or more is cut to its length
      modulo 2^32. */
  method Hash(memory: seq<bv8>, ghost length: nat) returns (checksum: bv32)
    requires length < |memory| && memory[length] == 0 && 0 !in memory[..length]
    ensures checksum == Checksum(memory[..length % COUNTER_LIMIT])
    ensures length < COUNTER_LIMIT ==> checksum == Checksum(memory[..length])
  {
    hide TableEntry, TableStep, FeedByte, Serial;
    var len := StringLength(memory);
    assert len == length;
    var crc: bv32 := 0xffff_ffff;
    var cursor := 0;
    var remaining := len % COUNTER_LIMIT;
    assert crc == Serial(0xffff_ffff, memory[..cursor]) by { SerialEmpty(crc); }
    while remaining > 0
      invariant 0 <= remaining && cursor + remaining == len % COUNTER_LIMIT <= len
      invariant crc == Serial(0xffff_ffff, memory[..cursor])
    {
      TableStepIsFeedByte(crc, memory[cursor]);
      SerialLast(0xffff_ffff, memory[..cursor], memory[cursor]);
      assert memory[..cursor + 1] == memory[..cursor] + [memory[cursor]];
      crc := TableStep(crc, memory[cursor]);
      cursor := cursor + 1;
      remaining := remaining - 1;
    }
    return Complement(crc);
  }

  lemma SerialEmpty(crc: bv32)
    ensures Serial(crc, []) == crc
  {}
}
