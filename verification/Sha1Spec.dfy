/** SHA-1 as FIPS 180-4 defines it: the compression function with an 80-word
    message schedule (section 6.1.2) and the padding rule (section 5.1.1). Both
    implementations in the repository are proved against these functions. */
module Sha1Spec {
  import opened Numerals
  import opened Sequences

  type Byte = bv8
  type Word = bv32


  // ---------- word operations ----------

  function Add(x: Word, y: Word): Word {
    x + y
  }

  function Xor(x: Word, y: Word): Word {
    x ^ y
  }

  function Or(x: Word, y: Word): Word {
    x | y
  }

  function Up1(x: Word): Word {
    x << 1
  }

  function Down31(x: Word): Word {
    x >> 31
  }

  function Rotl1(x: Word): Word {
    Or(Up1(x), Down31(x))
  }

  function Up5(x: Word): Word {
    x << 5
  }

  function Down27(x: Word): Word {
    x >> 27
  }

  function Rotl5(x: Word): Word {
    Or(Up5(x), Down27(x))
  }

  function Up30(x: Word): Word {
    x << 30
  }

  function Down2(x: Word): Word {
    x >> 2
  }

  function Rotl30(x: Word): Word {
    Or(Up30(x), Down2(x))
  }

  function Ch(x: Word, y: Word, z: Word): Word {
    (x & y) ^ (!x & z)
  }

  function Parity(x: Word, y: Word, z: Word): Word {
    x ^ y ^ z
  }

  function Maj(x: Word, y: Word, z: Word): Word {
    (x & y) ^ (x & z) ^ (y & z)
  }

  function F(t: nat, x: Word, y: Word, z: Word): Word {
    if t < 20 then Ch(x, y, z)
    else if t < 40 then Parity(x, y, z)
    else if t < 60 then Maj(x, y, z)
    else Parity(x, y, z)
  }

  function K(t: nat): Word {
    if t < 20 then 0x5a827999
    else if t < 40 then 0x6ed9eba1
    else if t < 60 then 0x8f1bbcdc
    else 0xca62c1d6
  }

  // ---------- compression ----------

  datatype State = State(a: Word, b: Word, c: Word, d: Word, e: Word)

  const INITIAL: State := State(0x67452301, 0xefcdab89, 0x98badcfe, 0x10325476, 0xc3d2e1f0)

  /** Word `t` of the message schedule. */
  function Schedule(block: seq<Word>, t: nat): Word
    requires |block| == 16
  {
    if t < 16 then block[t]
    else Rotl1(Xor(Xor(Xor(Schedule(block, t - 3), Schedule(block, t - 8)), Schedule(block, t - 14)),
                   Schedule(block, t - 16)))
  }

  function Round(s: State, t: nat, w: Word): State {
    State(Add(Add(Add(Add(Rotl5(s.a), F(t, s.b, s.c, s.d)), s.e), K(t)), w), s.a, Rotl30(s.b), s.c, s.d)
  }

  /** The working variables after `t` rounds. */
  function Rounds(s: State, block: seq<Word>, t: nat): State
    requires |block| == 16
  {
    if t == 0 then s else Round(Rounds(s, block, t - 1), t - 1, Schedule(block, t - 1))
  }

  function Compress(h: State, block: seq<Word>): State
    requires |block| == 16
  {
    var s := Rounds(h, block, 80);
    State(Add(h.a, s.a), Add(h.b, s.b), Add(h.c, s.c), Add(h.d, s.d), Add(h.e, s.e))
  }

  // ---------- bytes and words ----------

  /** The big-endian word made of four bytes. */
  function ToWord(b0: Byte, b1: Byte, b2: Byte, b3: Byte): Word {
    ((b0 as bv32) << 24) | ((b1 as bv32) << 16) | ((b2 as bv32) << 8) | (b3 as bv32)
  }

  function WordByte(w: Word, i: nat): Byte
    requires i < 4
  {
    if i == 0 then ((w >> 24) & 0xff) as bv8
    else if i == 1 then ((w >> 16) & 0xff) as bv8
    else if i == 2 then ((w >> 8) & 0xff) as bv8
    else (w & 0xff) as bv8
  }

  function WordBytes(w: Word): (bytes: seq<Byte>)
    ensures |bytes| == 4
  {
    [WordByte(w, 0), WordByte(w, 1), WordByte(w, 2), WordByte(w, 3)]
  }

  lemma WordRoundTrip(w: Word)
    ensures ToWord(WordByte(w, 0), WordByte(w, 1), WordByte(w, 2), WordByte(w, 3)) == w
  {}

  function ToWords(bytes: seq<Byte>): (block: seq<Word>)
    requires |bytes| == 64
    ensures |block| == 16
  {
    seq(16, i requires 0 <= i < 16 => ToWord(bytes[4 * i], bytes[4 * i + 1], bytes[4 * i + 2], bytes[4 * i + 3]))
  }

  function StateBytes(s: State): (bytes: seq<Byte>)
    ensures |bytes| == 20
  {
    WordBytes(s.a) + WordBytes(s.b) + WordBytes(s.c) + WordBytes(s.d) + WordBytes(s.e)
  }

  // ---------- messages ----------

  /** The hash value after all the 64-byte blocks of `bytes`. */
  function HashBlocks(bytes: seq<Byte>): State
    requires |bytes| % 64 == 0
  {
    if bytes == [] then INITIAL
    else
      var n := |bytes| - 64;
      Compress(HashBlocks(bytes[..n]), ToWords(bytes[n..]))
  }

  /** The big-endian bytes of a 64-bit length given as two 32-bit halves. */
  function CountBytes(high: nat, low: nat): (bytes: seq<Byte>)
    requires high < TWO32 && low < TWO32
    ensures |bytes| == 8
  {
    WordBytes(high as bv32) + WordBytes(low as bv32)
  }

  function HighHalf(bits: nat): (high: nat)
    ensures high < TWO32
  {
    bits / TWO32 % TWO32
  }

  function LowHalf(bits: nat): (low: nat)
    ensures low < TWO32
  {
    bits % TWO32
  }

  /** How many zero bytes bring the message, its 0x80 byte and the eight length
      bytes to a multiple of 64: the smallest such count. */
  function ZeroCount(length: nat): (zeros: nat)
    ensures zeros < 64 && (length + 1 + zeros + 8) % 64 == 0
  {
    (119 - length % 64) % 64
  }

  /** The message, a single one bit, and zeros up to a byte count. */
  function Terminated(message: seq<Byte>, zeros: nat): (r: seq<Byte>)
    ensures |r| == |message| + 1 + zeros && message <= r
  {
    message + [0x80] + Repeated<Byte>(0, zeros)
  }

  lemma TerminatedStep(message: seq<Byte>, zeros: nat)
    ensures Terminated(message, zeros) + [0] == Terminated(message, zeros + 1)
  {
    assert Repeated<Byte>(0, zeros) + [0] == Repeated<Byte>(0, zeros + 1);
  }

  lemma TerminatedZero(message: seq<Byte>)
    ensures Terminated(message, 0) == message + [0x80]
  {}

  /** The message followed by 0x80, zeros and a 64-bit big-endian length field. */
  function PadWith(message: seq<Byte>, bits: nat): (padded: seq<Byte>)
    ensures |padded| % 64 == 0 && message <= padded
  {
    Terminated(message, ZeroCount(|message|)) + CountBytes(HighHalf(bits), LowHalf(bits))
  }

  /** The digest of a message: its bit length goes into the length field. */
  function Sha1(message: seq<Byte>): State {
    HashBlocks(PadWith(message, 8 * |message|))
  }

  lemma HashBlocksStep(bytes: seq<Byte>, block: seq<Byte>)
    requires |bytes| % 64 == 0 && |block| == 64
    ensures (|bytes| + 64) % 64 == 0
    ensures HashBlocks(bytes + block) == Compress(HashBlocks(bytes), ToWords(block))
  {
    hide Compress, ToWords;
    assert (bytes + block)[..|bytes|] == bytes;
    assert (bytes + block)[|bytes|..] == block;
  }

  /** The zero count is the least one that fills the last block. */
  lemma ZeroCountLeast(length: nat, zeros: nat)
    requires (length + 1 + zeros + 8) % 64 == 0
    ensures ZeroCount(length) <= zeros
  {}
}
