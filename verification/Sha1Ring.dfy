/** The SHA-1 of chella/sha1.cpp: fully unrolled rounds over a sixteen-word ring
    that overwrites the block, in words that may be wider than 32 bits, up to 64, and
    whose high parts collect garbage. */
module Sha1Ring {
  import Ascii = Bytes
  import opened Numerals
  import opened Sequences
  import opened Sha1Spec

  type Wide = bv64

  /** How wide the source's words are on a platform: ones wherever a word has a bit. They
      have at least 32 of them. */
  type Width = m: Wide | m & 0xffff_ffff == 0xffff_ffff witness 0xffff_ffff

  // ---------- wide operations and their low halves ----------

  /** The low 32 bits, the only ones that mean anything. */
  function Low(x: Wide): Word {
    (x & 0xffff_ffff) as bv32
  }

  function Cut(x: Wide): Wide {
    x & 0xffff_ffff
  }

  function Widen(x: Word): Wide {
    x as bv64
  }

  /** A result as it fits a word. */
  function Fit(m: Width, x: Wide): Wide {
    x & m
  }

  function Sum(x: Wide, y: Wide): Wide {
    x + y
  }

  function WideAdd(m: Width, x: Wide, y: Wide): Wide {
    Fit(m, Sum(x, y))
  }

  function WideXor(x: Wide, y: Wide): Wide {
    x ^ y
  }

  function WideOr(x: Wide, y: Wide): Wide {
    x | y
  }

  function WideUp1(m: Width, x: Wide): Wide {
    Fit(m, x << 1)
  }

  function WideDown31(x: Wide): Wide {
    (x & 0xffff_ffff) >> 31
  }

  function WideRol1(m: Width, x: Wide): Wide {
    WideOr(WideUp1(m, x), WideDown31(x))
  }

  function WideUp5(m: Width, x: Wide): Wide {
    Fit(m, x << 5)
  }

  function WideDown27(x: Wide): Wide {
    (x & 0xffff_ffff) >> 27
  }

  function WideRol5(m: Width, x: Wide): Wide {
    WideOr(WideUp5(m, x), WideDown27(x))
  }

  function WideUp30(m: Width, x: Wide): Wide {
    Fit(m, x << 30)
  }

  function WideDown2(x: Wide): Wide {
    (x & 0xffff_ffff) >> 2
  }

  function WideRol30(m: Width, x: Wide): Wide {
    WideOr(WideUp30(m, x), WideDown2(x))
  }

  function Choose(w: Wide, x: Wide, y: Wide): Wide {
    (w & (x ^ y)) ^ y
  }

  function Odd3(w: Wide, x: Wide, y: Wide): Wide {
    w ^ x ^ y
  }

  function Majority(w: Wide, x: Wide, y: Wide): Wide {
    ((w | x) & y) | (w & x)
  }

  /** Bits beyond the word, or cut off it, do not matter below. */
  lemma LowFit(m: Width, x: Wide)
    ensures Low(Fit(m, x)) == Low(x)
  {}

  /** Knowing a low part as a widened word is knowing the low half. */
  lemma LowFromCut(x: Wide, low: Word)
    requires Cut(x) == Widen(low)
    ensures Low(x) == low
  {}

  lemma RawSum(x: Wide, y: Wide)
    ensures Cut(x + y) == Widen((x & 0xffff_ffff) as bv32 + (y & 0xffff_ffff) as bv32)
  {}

  lemma CutSum(x: Wide, y: Wide)
    ensures Cut(Sum(x, y)) == Widen(Add((x & 0xffff_ffff) as bv32, (y & 0xffff_ffff) as bv32))
  {
    hide Cut, Widen;
    RawSum(x, y);
  }

  lemma CutSumLow(x: Wide, y: Wide)
    ensures Cut(Sum(x, y)) == Widen(Add(Low(x), Low(y)))
  {
    hide Cut, Widen, Sum, Add;
    CutSum(x, y);
  }

  lemma LowSum(x: Wide, y: Wide)
    ensures Low(Sum(x, y)) == Add(Low(x), Low(y))
  {
    hide Low, Cut, Sum, Widen, Add;
    CutSumLow(x, y);
    LowFromCut(Sum(x, y), Add(Low(x), Low(y)));
  }

  lemma LowAdd(m: Width, x: Wide, y: Wide)
    ensures Low(WideAdd(m, x, y)) == Add(Low(x), Low(y))
  {
    hide Low, Sum, Fit, Add;
    LowFit(m, Sum(x, y));
    LowSum(x, y);
  }

  lemma LowXor(x: Wide, y: Wide)
    ensures Low(WideXor(x, y)) == Xor(Low(x), Low(y))
  {}

  lemma LowOr(x: Wide, y: Wide)
    ensures Low(WideOr(x, y)) == Or(Low(x), Low(y))
  {}

  lemma CutShifts1(x: Wide)
    ensures Cut(x << 1) == Widen((x & 0xffff_ffff) as bv32 << 1)
    ensures Cut((x & 0xffff_ffff) >> 31) == Widen((x & 0xffff_ffff) as bv32 >> 31)
  {}

  lemma LowShifts1(x: Wide)
    ensures Low(x << 1) == Low(x) << 1
    ensures Low((x & 0xffff_ffff) >> 31) == Low(x) >> 31
  {
    hide Cut, Widen;
    CutShifts1(x);
    LowFromCut(x << 1, Low(x) << 1);
    LowFromCut((x & 0xffff_ffff) >> 31, Low(x) >> 31);
  }

  lemma LowUpDown1(m: Width, x: Wide)
    ensures Low(WideUp1(m, x)) == Up1(Low(x))
    ensures Low(WideDown31(x)) == Down31(Low(x))
  {
    hide Low, Fit;
    LowFit(m, x << 1);
    LowShifts1(x);
  }

  lemma LowRol1(m: Width, x: Wide)
    ensures Low(WideRol1(m, x)) == Rotl1(Low(x))
  {
    hide Low, WideOr, Or, WideUp1, Up1, WideDown31, Down31;
    LowUpDown1(m, x);
    LowOr(WideUp1(m, x), WideDown31(x));
  }

  lemma CutShifts5(x: Wide)
    ensures Cut(x << 5) == Widen((x & 0xffff_ffff) as bv32 << 5)
    ensures Cut((x & 0xffff_ffff) >> 27) == Widen((x & 0xffff_ffff) as bv32 >> 27)
  {}

  lemma LowShifts5(x: Wide)
    ensures Low(x << 5) == Low(x) << 5
    ensures Low((x & 0xffff_ffff) >> 27) == Low(x) >> 27
  {
    hide Cut, Widen;
    CutShifts5(x);
    LowFromCut(x << 5, Low(x) << 5);
    LowFromCut((x & 0xffff_ffff) >> 27, Low(x) >> 27);
  }

  lemma LowUpDown5(m: Width, x: Wide)
    ensures Low(WideUp5(m, x)) == Up5(Low(x))
    ensures Low(WideDown27(x)) == Down27(Low(x))
  {
    hide Low, Fit;
    LowFit(m, x << 5);
    LowShifts5(x);
  }

  lemma LowRol5(m: Width, x: Wide)
    ensures Low(WideRol5(m, x)) == Rotl5(Low(x))
  {
    hide Low, WideOr, Or, WideUp5, Up5, WideDown27, Down27;
    LowUpDown5(m, x);
    LowOr(WideUp5(m, x), WideDown27(x));
  }

  lemma CutShifts30(x: Wide)
    ensures Cut(x << 30) == Widen((x & 0xffff_ffff) as bv32 << 30)
    ensures Cut((x & 0xffff_ffff) >> 2) == Widen((x & 0xffff_ffff) as bv32 >> 2)
  {}

  lemma LowShifts30(x: Wide)
    ensures Low(x << 30) == Low(x) << 30
    ensures Low((x & 0xffff_ffff) >> 2) == Low(x) >> 2
  {
    hide Cut, Widen;
    CutShifts30(x);
    LowFromCut(x << 30, Low(x) << 30);
    LowFromCut((x & 0xffff_ffff) >> 2, Low(x) >> 2);
  }

  lemma LowUpDown30(m: Width, x: Wide)
    ensures Low(WideUp30(m, x)) == Up30(Low(x))
    ensures Low(WideDown2(x)) == Down2(Low(x))
  {
    hide Low, Fit;
    LowFit(m, x << 30);
    LowShifts30(x);
  }

  lemma LowRol30(m: Width, x: Wide)
    ensures Low(WideRol30(m, x)) == Rotl30(Low(x))
  {
    hide Low, WideOr, Or, WideUp30, Up30, WideDown2, Down2;
    LowUpDown30(m, x);
    LowOr(WideUp30(m, x), WideDown2(x));
  }

  lemma LowChoose(w: Wide, x: Wide, y: Wide)
    ensures Low(Choose(w, x, y)) == Ch(Low(w), Low(x), Low(y))
  {}

  lemma LowOdd3(w: Wide, x: Wide, y: Wide)
    ensures Low(Odd3(w, x, y)) == Parity(Low(w), Low(x), Low(y))
  {}

  lemma LowMajority(w: Wide, x: Wide, y: Wide)
    ensures Low(Majority(w, x, y)) == Maj(Low(w), Low(x), Low(y))
  {}

  // ---------- the transform ----------

  /** The round's choice of bit function: R0 and R1, R2, R3, R4. */
  function Mix(i: nat, w: Wide, x: Wide, y: Wide): Wide {
    if i < 20 then Choose(w, x, y)
    else if i < 40 then Odd3(w, x, y)
    else if i < 60 then Majority(w, x, y)
    else Odd3(w, x, y)
  }

  function RoundConstant(i: nat): Wide {
    if i < 20 then 0x5a827999
    else if i < 40 then 0x6ed9eba1
    else if i < 60 then 0x8f1bbcdc
    else 0xca62c1d6
  }

  lemma LowMix(i: nat, w: Wide, x: Wide, y: Wide)
    ensures Low(Mix(i, w, x, y)) == F(i, Low(w), Low(x), Low(y))
  {
    hide Low, Choose, Odd3, Majority, Ch, Parity, Maj;
    LowChoose(w, x, y);
    LowOdd3(w, x, y);
    LowMajority(w, x, y);
  }

  lemma LowConstant(i: nat)
    ensures Low(RoundConstant(i)) == K(i)
  {}

  /** The schedule index held in ring slot `j` before round `i`: the last index
      below `i` that falls on the slot, or the block word itself at first. */
  function SlotIndex(i: nat, j: nat): (t: nat)
    requires j < 16
  {
    if i < 16 then j else i - 1 - (i - 1 - j) % 16
  }

  /** The slots read for word `i` hold words i-3, i-8, i-14 and i-16. */
  lemma SlotsRead(i: nat)
    requires 16 <= i
    ensures SlotIndex(i, (i + 13) % 16) == i - 3
    ensures SlotIndex(i, (i + 8) % 16) == i - 8
    ensures SlotIndex(i, (i + 2) % 16) == i - 14
    ensures SlotIndex(i, i % 16) == i - 16
  {
    SlotBack(i, 3);
    SlotBack(i, 8);
    SlotBack(i, 14);
    SlotBack(i, 16);
  }

  /** Reading `back` steps ago is reading the slot sixteen minus `back` ahead. */
  lemma SlotBack(i: nat, back: nat)
    requires 16 <= i && 1 <= back <= 16
    ensures SlotIndex(i, (i + 16 - back) % 16) == i - back
  {
    var t := i - back;
    assert (i + 16 - back) % 16 == t % 16;
    assert i - 1 - t % 16 == (back - 1) + 16 * (t / 16);
  }

  lemma SlotWritten(i: nat, j: nat)
    requires 16 <= i && j < 16
    ensures SlotIndex(i + 1, j) == if j == i % 16 then i else SlotIndex(i, j)
  {}

  /** The ring before round `i`: every slot holds its schedule word. */
  ghost predicate RingHolds(ring: seq<Wide>, words: seq<Word>, i: nat) {
    && |ring| == 16 && |words| == 16
    && forall j {:trigger ring[j]} | 0 <= j < 16 :: Low(ring[j]) == Schedule(words, SlotIndex(i, j))
  }

  lemma RingWritten(ring: seq<Wide>, words: seq<Word>, i: nat, w: Wide)
    requires 16 <= i && RingHolds(ring, words, i)
    requires Low(w) == Schedule(words, i)
    ensures RingHolds(ring[i % 16 := w], words, i + 1)
  {
    hide Low, Schedule, SlotIndex;
    var ring' := ring[i % 16 := w];
    forall j {:trigger ring'[j]} | 0 <= j < 16
      ensures Low(ring'[j]) == Schedule(words, SlotIndex(i + 1, j))
    {
      SlotWritten(i, j);
    }
  }

  /** The recurrence on wide words, and the schedule word it stands for. */
  function NextWide(m: Width, w3: Wide, w8: Wide, w14: Wide, w16: Wide): Wide {
    WideRol1(m, WideXor(WideXor(WideXor(w3, w8), w14), w16))
  }

  lemma LowNextWide(m: Width, w3: Wide, w8: Wide, w14: Wide, w16: Wide)
    ensures Low(NextWide(m, w3, w8, w14, w16)) == Rotl1(Xor(Xor(Xor(Low(w3), Low(w8)), Low(w14)), Low(w16)))
  {
    hide Low, WideXor, Xor, WideRol1, Rotl1;
    var x1 := WideXor(w3, w8);
    var x2 := WideXor(x1, w14);
    LowXor(w3, w8);
    LowXor(x1, w14);
    LowXor(x2, w16);
    LowRol1(m, WideXor(x2, w16));
  }

  lemma RingNext(m: Width, ring: seq<Wide>, words: seq<Word>, i: nat)
    requires 16 <= i && RingHolds(ring, words, i)
    ensures
      var w := NextWide(m, ring[(i + 13) % 16], ring[(i + 8) % 16], ring[(i + 2) % 16], ring[i % 16]);
      Low(w) == Schedule(words, i) && RingHolds(ring[i % 16 := w], words, i + 1)
  {
    hide Low, Xor, Rotl1, NextWide, SlotIndex;
    SlotsRead(i);
    LowNextWide(m, ring[(i + 13) % 16], ring[(i + 8) % 16], ring[(i + 2) % 16], ring[i % 16]);
    RingWritten(ring, words, i,
                NextWide(m, ring[(i + 13) % 16], ring[(i + 8) % 16], ring[(i + 2) % 16], ring[i % 16]));
  }

  ghost function LowState(a: Wide, b: Wide, c: Wide, d: Wide, e: Wide): State {
    State(Low(a), Low(b), Low(c), Low(d), Low(e))
  }

  /** One round's new `z`: the sum in the macros R0 to R4. */
  function RoundSum(m: Width, v: Wide, w: Wide, x: Wide, y: Wide, z: Wide, i: nat, word: Wide): Wide {
    WideAdd(m, z, WideAdd(m, WideAdd(m, WideAdd(m, Mix(i, w, x, y), word), RoundConstant(i)), WideRol5(m, v)))
  }

  lemma AddRearranged(z: Word, f: Word, w: Word, k: Word, r: Word)
    ensures Add(z, Add(Add(Add(f, w), k), r)) == Add(Add(Add(Add(r, f), z), k), w)
  {
    hide Add;
    calc {
      Add(z, Add(Add(Add(f, w), k), r));
      { AddCommutes(Add(Add(f, w), k), r); AddSwaps(f, w, k); }
      Add(z, Add(r, Add(Add(f, k), w)));
      { AddAssociates(r, Add(f, k), w); AddAssociates(r, f, k); }
      Add(z, Add(Add(Add(r, f), k), w));
      { AddAssociates(z, Add(Add(r, f), k), w); AddAssociates(z, Add(r, f), k); AddCommutes(z, Add(r, f)); }
      Add(Add(Add(Add(r, f), z), k), w);
    }
  }

  lemma AddCommutes(x: Word, y: Word)
    ensures Add(x, y) == Add(y, x)
  {}

  lemma AddAssociates(x: Word, y: Word, z: Word)
    ensures Add(x, Add(y, z)) == Add(Add(x, y), z)
  {
    hide Add;
    AddThree(x, y, z);
    AddTwo(x, y);
    AddTwo(y, z);
  }

  lemma AddTwo(x: Word, y: Word)
    ensures Add(x, y) == x + y
  {}

  lemma AddThree(x: Word, y: Word, z: Word)
    ensures Add(x + y, z) == x + y + z
    ensures Add(x, y + z) == x + y + z
  {}

  lemma AddSwaps(x: Word, y: Word, z: Word)
    ensures Add(Add(x, y), z) == Add(Add(x, z), y)
  {
    hide Add;
    AddAssociates(x, y, z);
    AddAssociates(x, z, y);
    AddCommutes(y, z);
  }

  lemma LowRound(m: Width, v: Wide, w: Wide, x: Wide, y: Wide, z: Wide, i: nat, word: Wide)
    ensures LowState(RoundSum(m, v, w, x, y, z, i, word), v, WideRol30(m, w), x, y)
         == Round(LowState(v, w, x, y, z), i, Low(word))
  {
    hide Low, WideAdd, Add, Mix, F, RoundConstant, K, WideRol5, Rotl5, WideRol30, Rotl30;
    var f := Mix(i, w, x, y);
    var s1 := WideAdd(m, f, word);
    var s2 := WideAdd(m, s1, RoundConstant(i));
    var s3 := WideAdd(m, s2, WideRol5(m, v));
    LowMix(i, w, x, y);
    LowConstant(i);
    LowRol5(m, v);
    LowRol30(m, w);
    LowAdd(m, f, word);
    LowAdd(m, s1, RoundConstant(i));
    LowAdd(m, s2, WideRol5(m, v));
    LowAdd(m, z, s3);
    AddRearranged(Low(z), Low(f), Low(word), K(i), Rotl5(Low(v)));
  }

  /** One of the eighty unrolled lines. The first sixteen read the block (R0), the
      others overwrite a slot of it (SHA1_BLK). */
  method RoundLine(m: Width, v: Wide, w: Wide, x: Wide, y: Wide, z: Wide, block: array<Wide>, i: nat,
                   ghost start: State, ghost words: seq<Word>)
    returns (z': Wide, w': Wide)
    requires block.Length == 16 && i < 80
    requires RingHolds(block[..], words, i)
    requires LowState(v, w, x, y, z) == Rounds(start, words, i)
    modifies block
    ensures RingHolds(block[..], words, i + 1)
    ensures LowState(z', v, w', x, y) == Rounds(start, words, i + 1)
  {
    hide LowState, Low, Round, RoundSum, NextWide, WideRol30, SlotIndex, RingHolds;
    if i < 16 {
      RingRead(block[..], words, i);
    } else {
      RingNext(m, block[..], words, i);
      ghost var ring := block[..];
      var next := NextWide(m, block[(i + 13) % 16], block[(i + 8) % 16], block[(i + 2) % 16], block[i % 16]);
      block[i % 16] := next;
      assert block[..] == ring[i % 16 := next];
    }
    z' := RoundSum(m, v, w, x, y, z, i, block[i % 16]);
    w' := WideRol30(m, w);
    LowRound(m, v, w, x, y, z, i, block[i % 16]);
  }

  lemma RingRead(ring: seq<Wide>, words: seq<Word>, i: nat)
    requires i < 16 && RingHolds(ring, words, i)
    ensures |ring| == 16 && Low(ring[i % 16]) == Schedule(words, i)
    ensures RingHolds(ring, words, i + 1)
  {
    hide Low, Schedule;
  }

  /** Five consecutive lines, after which the registers have their names back. */
  method FiveLines(m: Width, a0: Wide, b0: Wide, c0: Wide, d0: Wide, e0: Wide, block: array<Wide>, i: nat,
                   ghost start: State, ghost words: seq<Word>)
    returns (a: Wide, b: Wide, c: Wide, d: Wide, e: Wide)
    requires block.Length == 16 && i + 5 <= 80
    requires RingHolds(block[..], words, i)
    requires LowState(a0, b0, c0, d0, e0) == Rounds(start, words, i)
    modifies block
    ensures RingHolds(block[..], words, i + 5)
    ensures LowState(a, b, c, d, e) == Rounds(start, words, i + 5)
  {
    hide LowState, RingHolds, Rounds;
    a, b, c, d, e := a0, b0, c0, d0, e0;
    e, b := RoundLine(m, a, b, c, d, e, block, i, start, words);
    d, a := RoundLine(m, e, a, b, c, d, block, i + 1, start, words);
    c, e := RoundLine(m, d, e, a, b, c, block, i + 2, start, words);
    b, d := RoundLine(m, c, d, e, a, b, block, i + 3, start, words);
    a, c := RoundLine(m, b, c, d, e, a, block, i + 4, start, words);
  }

  lemma FreshRing(ring: seq<Wide>, words: seq<Word>)
    requires |ring| == 16 && |words| == 16
    requires forall j | 0 <= j < 16 :: Low(ring[j]) == words[j]
    ensures RingHolds(ring, words, 0)
  {
    hide Low;
  }

  function LowDigest(digest: array<Wide>): State
    requires digest.Length == 5
    reads digest
  {
    State(Low(digest[0]), Low(digest[1]), Low(digest[2]), Low(digest[3]), Low(digest[4]))
  }

  /** SHA1::transform: sixteen groups of five lines, then the sums. Whatever the
      high halves hold, the low halves follow the 80-word definition. */
  method Transform(m: Width, digest: array<Wide>, block: array<Wide>, ghost words: seq<Word>)
    requires digest.Length == 5 && block.Length == 16 && digest != block
    requires |words| == 16 && forall j | 0 <= j < 16 :: Low(block[j]) == words[j]
    modifies digest, block
    ensures LowDigest(digest) == Compress(old(LowDigest(digest)), words)
  {
    hide Low, RingHolds, Rounds, WideAdd, Add;
    FreshRing(block[..], words);
    ghost var start := LowDigest(digest);
    RoundsZero(start, words);
    var a, b, c, d, e := digest[0], digest[1], digest[2], digest[3], digest[4];
    for group := 0 to 16
      invariant RingHolds(block[..], words, 5 * group)
      invariant LowState(a, b, c, d, e) == Rounds(start, words, 5 * group)
      invariant LowDigest(digest) == start
    {
      a, b, c, d, e := FiveLines(m, a, b, c, d, e, block, 5 * group, start, words);
    }
    LowAdd(m, digest[0], a);
    LowAdd(m, digest[1], b);
    LowAdd(m, digest[2], c);
    LowAdd(m, digest[3], d);
    LowAdd(m, digest[4], e);
    digest[0] := WideAdd(m, digest[0], a);
    digest[1] := WideAdd(m, digest[1], b);
    digest[2] := WideAdd(m, digest[2], c);
    digest[3] := WideAdd(m, digest[3], d);
    digest[4] := WideAdd(m, digest[4], e);
  }

  lemma RoundsZero(start: State, words: seq<Word>)
    requires |words| == 16
    ensures Rounds(start, words, 0) == start
  {}

  // ---------- buffers and blocks ----------

  /** Storing a 32-bit int in a wide word copies its sign bit upwards. */
  function SignExtend(x: bv32): Wide {
    if x & 0x8000_0000 != 0 then 0xffff_ffff_0000_0000 | (x as bv64) else x as bv64
  }

  /** One word of SHA1::buffer_to_block. */
  function BlockWord(m: Width, b0: Byte, b1: Byte, b2: Byte, b3: Byte): Wide {
    Fit(m, SignExtend((b3 as bv32) | ((b2 as bv32) << 8) | ((b1 as bv32) << 16) | ((b0 as bv32) << 24)))
  }

  lemma LowSignExtend(x: bv32)
    ensures Low(SignExtend(x)) == x
  {
    hide Low;
    LowWiden(x);
  }

  lemma LowWiden(x: bv32)
    ensures Low(x as bv64) == x
    ensures Low(0xffff_ffff_0000_0000 | (x as bv64)) == x
  {}

  lemma LowBlockWord(m: Width, b0: Byte, b1: Byte, b2: Byte, b3: Byte)
    ensures Low(BlockWord(m, b0, b1, b2, b3)) == ToWord(b0, b1, b2, b3)
  {
    hide Low, SignExtend, Fit;
    var word := (b3 as bv32) | ((b2 as bv32) << 8) | ((b1 as bv32) << 16) | ((b0 as bv32) << 24);
    LowFit(m, SignExtend(word));
    LowSignExtend(word);
  }

  method BufferToBlock(m: Width, buffer: seq<Byte>, block: array<Wide>)
    requires |buffer| == 64 && block.Length == 16
    modifies block
    ensures forall j | 0 <= j < 16 :: Low(block[j]) == ToWords(buffer)[j]
  {
    hide Low, BlockWord, ToWord;
    for i := 0 to 16
      invariant forall j | 0 <= j < i :: Low(block[j]) == ToWords(buffer)[j]
    {
      LowBlockWord(m, buffer[4 * i], buffer[4 * i + 1], buffer[4 * i + 2], buffer[4 * i + 3]);
      block[i] := BlockWord(m, buffer[4 * i], buffer[4 * i + 1], buffer[4 * i + 2], buffer[4 * i + 3]);
    }
  }

  /** A 64-bit quantity from its 32-bit halves. */
  function Join(high: Word, low: Word): Wide {
    ((high as bv64) << 32) | (low as bv64)
  }

  lemma LowJoin(high: Word, low: Word)
    ensures Low(Join(high, low)) == low
    ensures Low(Join(high, low) >> 32) == high
  {}

  // ---------- the last block ----------

  /** Whole blocks are hashed, the rest waits in the buffer. */
  ghost predicate Tail(message: seq<Byte>, state: State, buffer: seq<Byte>, transforms: nat) {
    && |buffer| <= 64
    && |message| == 64 * transforms + |buffer|
    && buffer == message[64 * transforms..]
    && state == HashBlocks(message[..64 * transforms])
  }

  lemma TailGrows(message: seq<Byte>, state: State, buffer: seq<Byte>, transforms: nat, more: seq<Byte>)
    requires Tail(message, state, buffer, transforms) && |buffer| + |more| <= 64
    ensures Tail(message + more, state, buffer + more, transforms)
  {
    hide HashBlocks;
    assert (message + more)[..64 * transforms] == message[..64 * transforms];
    assert (message + more)[64 * transforms..] == message[64 * transforms..] + more;
  }

  lemma TailHashed(message: seq<Byte>, state: State, buffer: seq<Byte>, transforms: nat)
    requires Tail(message, state, buffer, transforms) && |buffer| == 64
    ensures Tail(message, Compress(state, ToWords(buffer)), [], transforms + 1)
  {
    hide HashBlocks, Compress, ToWords;
    HashBlocksStep(message[..64 * transforms], buffer);
    assert message == message[..64 * transforms] + buffer;
    assert message[..64 * (transforms + 1)] == message;
  }

  function LengthBytes(bits: nat): (bytes: seq<Byte>)
    ensures |bytes| == 8
  {
    CountBytes(HighHalf(bits), LowHalf(bits))
  }

  lemma ZeroCountBehind(blocks: nat, waiting: nat)
    requires waiting < 64
    ensures ZeroCount(64 * blocks + waiting) == if waiting <= 55 then 55 - waiting else 119 - waiting
  {
    assert (64 * blocks + waiting) % 64 == waiting;
  }

  /** With room for the length field, padding completes the block at hand. */
  lemma PadInPlace(message: seq<Byte>, state: State, buffer: seq<Byte>, transforms: nat, bits: nat)
    requires Tail(message, state, buffer, transforms) && |buffer| <= 55
    ensures HashBlocks(PadWith(message, bits))
         == Compress(state, ToWords(Terminated(buffer, 55 - |buffer|) + LengthBytes(bits)))
  {
    hide HashBlocks, Compress, ToWords, CountBytes, HighHalf, LowHalf, ZeroCount;
    ZeroCountBehind(transforms, |buffer|);
    var whole := message[..64 * transforms];
    var last := Terminated(buffer, 55 - |buffer|) + LengthBytes(bits);
    assert message == whole + buffer;
    assert PadWith(message, bits) == whole + last;
    HashBlocksStep(whole, last);
  }

  /** Without room, padding spills into a further block. */
  lemma PadSpills(message: seq<Byte>, state: State, buffer: seq<Byte>, transforms: nat, bits: nat)
    requires Tail(message, state, buffer, transforms) && 55 < |buffer| < 64
    ensures HashBlocks(PadWith(message, bits))
         == Compress(Compress(state, ToWords(Terminated(buffer, 63 - |buffer|))),
                     ToWords(Repeated<Byte>(0, 56) + LengthBytes(bits)))
  {
    hide HashBlocks, Compress, ToWords, CountBytes, HighHalf, LowHalf, ZeroCount;
    ZeroCountBehind(transforms, |buffer|);
    var whole := message[..64 * transforms];
    var first, second := Terminated(buffer, 63 - |buffer|), Repeated<Byte>(0, 56) + LengthBytes(bits);
    assert message == whole + buffer;
    assert Repeated<Byte>(0, 63 - |buffer| + 56) == Repeated<Byte>(0, 63 - |buffer|) + Repeated<Byte>(0, 56);
    assert PadWith(message, bits) == (whole + first) + second;
    HashBlocksStep(whole, first);
    HashBlocksStep(whole + first, second);
  }

  lemma WordAt(bytes: seq<Byte>, j: nat, w: Word)
    requires |bytes| == 64 && j < 16 && bytes[4 * j..4 * j + 4] == WordBytes(w)
    ensures ToWords(bytes)[j] == w
  {
    hide ToWord, WordByte;
    WordRoundTrip(w);
    var four := bytes[4 * j..4 * j + 4];
    assert four[0] == bytes[4 * j] && four[1] == bytes[4 * j + 1];
    assert four[2] == bytes[4 * j + 2] && four[3] == bytes[4 * j + 3];
  }

  /** The last two words of a block ending in a length field are its halves. */
  lemma LengthWords(bytes: seq<Byte>, bits: nat)
    requires |bytes| == 64 && bytes[56..] == LengthBytes(bits)
    ensures ToWords(bytes)[14] == HighHalf(bits) as bv32
    ensures ToWords(bytes)[15] == LowHalf(bits) as bv32
  {
    hide ToWords, WordBytes, HighHalf, LowHalf;
    var high, low := HighHalf(bits) as bv32, LowHalf(bits) as bv32;
    assert bytes[56..60] == bytes[56..][..4] == WordBytes(high);
    assert bytes[60..64] == bytes[56..][4..] == WordBytes(low);
    WordAt(bytes, 14, high);
    WordAt(bytes, 15, low);
  }

  lemma ZeroWord()
    ensures ToWord(0, 0, 0, 0) == 0
  {}

  lemma ZeroWords(bytes: seq<Byte>)
    requires |bytes| == 64 && bytes[..56] == Repeated<Byte>(0, 56)
    ensures forall j | 0 <= j < 14 :: ToWords(bytes)[j] == 0
  {
    hide ToWord;
    ZeroWord();
    forall j | 0 <= j < 14
      ensures ToWords(bytes)[j] == 0
    {
      forall k | 0 <= k < 56
        ensures bytes[k] == 0
      {
        assert bytes[..56][k] == bytes[k];
      }
    }
  }

  lemma SharedWords(x: seq<Byte>, y: seq<Byte>)
    requires |x| == |y| == 64 && x[..56] == y[..56]
    ensures forall j | 0 <= j < 14 :: ToWords(x)[j] == ToWords(y)[j]
  {
    hide ToWord;
    forall k | 0 <= k < 56
      ensures x[k] == y[k]
    {
      assert x[..56][k] == x[k] && y[..56][k] == y[k];
    }
  }

  lemma LowZero()
    ensures Low(0) == 0
  {}

  lemma InitialLow()
    ensures State(Low(0x67452301), Low(0xefcdab89), Low(0x98badcfe), Low(0x10325476), Low(0xc3d2e1f0)) == INITIAL
  {}

  // ---------- the object ----------

  /** A read of at most `max` bytes from the stream; the stream stays good only
      when it delivers all of them. */
  method Read(data: seq<Byte>, position: nat, max: nat) returns (bytes: seq<Byte>, position': nat, good: bool)
    requires position <= |data|
    ensures position <= position' <= |data|
    ensures bytes == data[position..position']
    ensures good ==> |bytes| == max
    ensures !good ==> |bytes| < max && position' == |data|
  {
    position' := if |data| - position < max then |data| else position + max;
    bytes := data[position..position'];
    good := |bytes| == max;
  }

  class Sha1Object {
    const width: Width
    const digest: array<Wide>
    var buffer: seq<Byte>
    var transforms: nat

    /** Everything hashed so far. */
    ghost var message: seq<Byte>

    ghost predicate Consistent()
      reads this, digest
    {
      digest.Length == 5 && Tail(message, LowDigest(digest), buffer, transforms)
    }

    ghost predicate Valid()
      reads this, digest
    {
      Consistent() && |buffer| < 64
    }

    constructor (width: Width)
      ensures Valid() && fresh(digest) && message == [] && this.width == width
    {
      this.width := width;
      digest := new Wide[5];
      buffer, transforms, message := [], 0, [];
      new;
      Reset();
    }

    /** SHA1::reset. */
    method Reset()
      requires digest.Length == 5
      modifies this, digest
      ensures Valid() && message == []
    {
      hide Low;
      InitialLow();
      digest[0] := 0x67452301;
      digest[1] := 0xefcdab89;
      digest[2] := 0x98badcfe;
      digest[3] := 0x10325476;
      digest[4] := 0xc3d2e1f0;
      transforms := 0;
      buffer := [];
      message := [];
    }

    /** The body of the update loop: hash a full buffer. */
    method HashBuffer()
      requires Consistent() && |buffer| == 64
      modifies this, digest
      ensures Consistent() && message == old(message) && buffer == []
    {
      hide Compress, ToWords, LowDigest, Low, Tail;
      var block := new Wide[16];
      BufferToBlock(width, buffer, block);
      TailHashed(message, LowDigest(digest), buffer, transforms);
      Transform(width, digest, block, ToWords(buffer));
      transforms := transforms + 1;
      buffer := [];
    }

    /** Read from the stream onto the buffer. */
    method ReadOn(data: seq<Byte>, position: nat, max: nat) returns (position': nat, good: bool)
      requires Consistent() && position <= |data| && |buffer| + max == 64
      modifies this
      ensures Consistent() && transforms == old(transforms)
      ensures position <= position' <= |data| && message == old(message) + data[position..position']
      ensures if good then |buffer| == 64 && position' == position + max else |buffer| < 64 && position' == |data|
    {
      hide Tail, LowDigest;
      var rest;
      rest, position', good := Read(data, position, max);
      TailGrows(message, LowDigest(digest), buffer, transforms, rest);
      message := message + rest;
      buffer := buffer + rest;
    }

    /** SHA1::update over a stream holding `data`: the loop ends with the first
        read that comes up short. */
    method Update(data: seq<Byte>)
      requires Valid()
      modifies this, digest
      ensures Valid() && message == old(message) + data
    {
      hide Tail, LowDigest;
      var position, good := ReadOn(data, 0, 64 - |buffer|);
      while good
        invariant Consistent() && position <= |data|
        invariant message == old(message) + data[..position]
        invariant if good then |buffer| == 64 else |buffer| < 64 && position == |data|
        decreases |data| - position, good
      {
        HashBuffer();
        ghost var from := position;
        position, good := ReadOn(data, position, 64);
        assert data[..from] + data[from..position] == data[..position];
      }
      assert data[..position] == data;
    }

    /** SHA1::final up to the length field: when the padded buffer has no room for
        it, hash the buffer and go on with zero words. */
    method AllButLength(block: array<Wide>, origSize: nat, ghost unpadded: seq<Byte>, ghost bits: nat)
      returns (ghost last: seq<Byte>)
      requires digest.Length == 5 && block.Length == 16 && digest != block
      requires origSize == |unpadded| + 1 <= 64 && Tail(message, LowDigest(digest), unpadded, transforms)
      requires buffer == Terminated(unpadded, 63 - |unpadded|)
      modifies digest, block
      ensures |last| == 64 && last[56..] == LengthBytes(bits)
      ensures forall j | 0 <= j < 14 :: Low(block[j]) == ToWords(last)[j]
      ensures Compress(LowDigest(digest), ToWords(last)) == HashBlocks(PadWith(message, bits))
    {
      hide Tail, LowDigest, Low, Compress, ToWords, HashBlocks, PadWith, LengthBytes;
      BufferToBlock(width, buffer, block);
      ghost var before := LowDigest(digest);
      if origSize > 56 {
        PadSpills(message, before, unpadded, transforms, bits);
        Transform(width, digest, block, ToWords(buffer));
        LowZero();
        for i := 0 to 14
          invariant forall j | 0 <= j < i :: Low(block[j]) == 0
          invariant LowDigest(digest) == Compress(before, ToWords(buffer))
        {
          block[i] := 0;
        }
        last := Repeated<Byte>(0, 56) + LengthBytes(bits);
        assert last[..56] == Repeated<Byte>(0, 56);
        ZeroWords(last);
      } else {
        PadInPlace(message, before, unpadded, transforms, bits);
        last := Terminated(unpadded, 55 - |unpadded|) + LengthBytes(bits);
        FirstPart(unpadded, buffer, last);
        SharedWords(last, buffer);
      }
    }

    /** The 0x80 byte, and zeros up to a whole block. */
    method PadBuffer() returns (origSize: nat)
      requires |buffer| < 64
      modifies `buffer
      ensures origSize == |old(buffer)| + 1 && buffer == Terminated(old(buffer), 63 - |old(buffer)|)
    {
      ghost var unpadded := buffer;
      TerminatedZero(unpadded);
      buffer := buffer + [0x80];
      origSize := |buffer|;
      while |buffer| < 64
        invariant origSize <= |buffer| <= 64
        invariant buffer == Terminated(unpadded, |buffer| - origSize)
      {
        TerminatedStep(unpadded, |buffer| - origSize);
        buffer := buffer + [0];
      }
    }

    /** The length in bits, into the last two words of the block. */
    method PutLength(block: array<Wide>, bits: nat)
      requires block.Length == 16
      modifies block
      ensures Low(block[14]) == HighHalf(bits) as bv32 && Low(block[15]) == LowHalf(bits) as bv32
      ensures forall j | 0 <= j < 14 :: block[j] == old(block[j])
    {
      hide Low, Join, Fit;
      var high, low := HighHalf(bits) as bv32, LowHalf(bits) as bv32;
      LowJoin(high, low);
      LowFit(width, Join(high, low));
      LowFit(width, Join(high, low) >> 32);
      block[15] := Fit(width, Join(high, low));
      block[14] := Fit(width, Join(high, low) >> 32);
    }

    /** The one or two blocks that the padded buffer makes. */
    method HashLast(origSize: nat, bits: nat, ghost unpadded: seq<Byte>)
      requires digest.Length == 5 && origSize == |unpadded| + 1 <= 64
      requires Tail(message, LowDigest(digest), unpadded, transforms)
      requires buffer == Terminated(unpadded, 63 - |unpadded|)
      modifies digest
      ensures LowDigest(digest) == HashBlocks(PadWith(message, bits))
    {
      hide Tail, LowDigest, Low, Compress, ToWords, HashBlocks, PadWith, LengthBytes;
      var block := new Wide[16];
      ghost var last := AllButLength(block, origSize, unpadded, bits);
      LengthWords(last, bits);
      PutLength(block, bits);
      Transform(width, digest, block, ToWords(last));
    }

    /** The loop that prints the digest: each word's low half in eight digits. */
    method PrintDigest() returns (text: seq<Ascii.Byte>)
      requires digest.Length == 5
      ensures HexOf(text, LowDigest(digest))
    {
      hide Low, LowDigest, PaddedHex, Prints;
      ghost var words := StateWords(LowDigest(digest));
      text := [];
      NothingPrinted();
      for i := 0 to 5
        invariant Prints(text, words[..i])
      {
        DigestWord(digest, i);
        PrintsOneMore(text, words[..i], Low(digest[i]));
        assert words[..i] + [words[i]] == words[..i + 1];
        text := text + PaddedHex(Low(digest[i]) as nat);
      }
      assert words[..5] == words;
    }

    /** SHA1::final: pad, hash the last one or two blocks, print the low halves of the
        digest words, and start over. */
    method Final() returns (text: seq<Ascii.Byte>)
      requires Valid()
      modifies this, digest
      ensures HexOf(text, Sha1(old(message)))
      ensures Valid() && message == []
    {
      hide Tail, LowDigest, HashBlocks, PadWith, HexOf;
      var totalBits := (transforms * 64 + |buffer|) * 8;
      TotalBits(message, LowDigest(digest), buffer, transforms);
      ghost var unpadded := buffer;
      var origSize := PadBuffer();
      HashLast(origSize, totalBits, unpadded);
      text := PrintDigest();
      Reset();
    }
  }

  // ---------- the digest as text ----------

  function StateWords(s: State): seq<Word> {
    [s.a, s.b, s.c, s.d, s.e]
  }

  /** Eight lower-case hexadecimal digits for each word, and nothing else. */
  predicate Prints(text: seq<Ascii.Byte>, words: seq<Word>) {
    && |text| == 8 * |words| && LowerHex(text)
    && forall i {:trigger words[i]} :: 0 <= i < |words| ==> HexNumber(text[8 * i..8 * i + 8]) == words[i] as int
  }

  /** The text of a digest. */
  predicate HexOf(text: seq<Ascii.Byte>, s: State) {
    Prints(text, StateWords(s))
  }

  lemma NothingPrinted()
    ensures Prints([], [])
  {}

  lemma DigestWord(digest: array<Wide>, i: nat)
    requires digest.Length == 5 && i < 5
    ensures StateWords(LowDigest(digest))[i] == Low(digest[i])
  {
    hide Low;
  }

  lemma PrintsOneMore(text: seq<Ascii.Byte>, words: seq<Word>, word: Word)
    requires Prints(text, words)
    ensures Prints(text + PaddedHex(word as nat), words + [word])
  {
    hide HexNumber, PaddedHex;
    PaddedHexReads(word as nat);
    var digits, more := PaddedHex(word as nat), words + [word];
    var longer := text + digits;
    forall i | 0 <= i < |more| ensures HexNumber(longer[8 * i..8 * i + 8]) == more[i] as int {
      if i < |words| {
        assert longer[8 * i..8 * i + 8] == text[8 * i..8 * i + 8];
      } else {
        assert longer[8 * i..8 * i + 8] == digits;
      }
    }
  }

  lemma TotalBits(message: seq<Byte>, state: State, buffer: seq<Byte>, transforms: nat)
    requires Tail(message, state, buffer, transforms)
    ensures (transforms * 64 + |buffer|) * 8 == 8 * |message|
  {}

  lemma FirstPart(unpadded: seq<Byte>, buffer: seq<Byte>, last: seq<Byte>)
    requires |unpadded| <= 55 && |last| == 64
    requires buffer == Terminated(unpadded, 63 - |unpadded|)
    requires last[..56] == Terminated(unpadded, 55 - |unpadded|)
    ensures |buffer| == 64 && last[..56] == buffer[..56]
  {}
}
