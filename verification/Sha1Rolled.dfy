/** The streaming SHA-1 of mumux/sha.c: an 80-word schedule, a 64-byte buffer and
    a 64-bit message length kept as two 32-bit halves. */
module Sha1Rolled {
  import opened Numerals
  import opened Sequences
  import opened Sha1Spec

  /** The first sixteen schedule words: the block read in big-endian order. */
  method LoadWords(block: array<Byte>, w: array<Word>)
    requires block.Length == 64 && w.Length == 80
    modifies w
    ensures w[..16] == ToWords(block[..])
  {
    hide ToWord;
    for i := 0 to 16
      invariant forall j :: 0 <= j < i ==>
                  w[j] == ToWord(block[4 * j], block[4 * j + 1], block[4 * j + 2], block[4 * j + 3])
    {
      w[i] := ToWord(block[4 * i], block[4 * i + 1], block[4 * i + 2], block[4 * i + 3]);
    }
  }

  /** The other sixty-four schedule words. */
  method ExtendWords(w: array<Word>)
    requires w.Length == 80
    modifies w
    ensures forall j :: 0 <= j < 80 ==> w[j] == Schedule(old(w[..16]), j)
  {
    hide Xor, Rotl1;
    ghost var words := w[..16];
    for i := 16 to 80
      invariant forall j :: 0 <= j < i ==> w[j] == Schedule(words, j)
    {
      w[i] := Rotl1(Xor(Xor(Xor(w[i - 3], w[i - 8]), w[i - 14]), w[i - 16]));
    }
  }

  /** The four 20-round loops of wby_sha1_hash_block. */
  method RunRounds(s: State, w: array<Word>, ghost words: seq<Word>) returns (r: State)
    requires |words| == 16 && w.Length == 80
    requires forall j :: 0 <= j < 80 ==> w[j] == Schedule(words, j)
    ensures r == Rounds(s, words, 80)
  {
    hide Add, Rotl5, Rotl30, F, K, Schedule;
    var a, b, c, d, e := s.a, s.b, s.c, s.d, s.e;
    for i := 0 to 80
      invariant State(a, b, c, d, e) == Rounds(s, words, i)
    {
      var t := Add(Add(Add(Add(Rotl5(a), F(i, b, c, d)), e), K(i)), w[i]);
      e := d;
      d := c;
      c := Rotl30(b);
      b := a;
      a := t;
    }
    r := State(a, b, c, d, e);
  }

  /** wby_sha1_hash_block: fold one 64-byte block into the state. */
  method HashBlock(state: array<Word>, block: array<Byte>)
    requires state.Length == 5 && block.Length == 64
    modifies state
    ensures ReadState(state) == Compress(old(ReadState(state)), ToWords(block[..]))
  {
    hide Add, ToWords, Schedule, Rounds;
    var w := new Word[80];
    LoadWords(block, w);
    ExtendWords(w);
    var s := RunRounds(ReadState(state), w, ToWords(block[..]));
    state[0] := Add(state[0], s.a);
    state[1] := Add(state[1], s.b);
    state[2] := Add(state[2], s.c);
    state[3] := Add(state[3], s.d);
    state[4] := Add(state[4], s.e);
  }

  function ReadState(state: array<Word>): State
    requires state.Length == 5
    reads state
  {
    State(state[0], state[1], state[2], state[3], state[4])
  }

  /** What an update adds to the length counter: eight times its size, cut to 32
      bits before the addition. */
  function Counted(bits: nat, size: nat): (r: nat)
    ensures r < TWO64
  {
    (bits + 8 * size % TWO32) % TWO64
  }

  /** The counter is exact for an update when, and only when, its size stays below
      2^29 bytes (sizes are 61-bit quantities at most). */
  lemma CountedExactIff(bits: nat, size: nat)
    requires size < 0x2000_0000_0000_0000
    ensures Counted(bits, size) == (bits + 8 * size) % TWO64 <==> size < 0x2000_0000
  {
    var low := 8 * size % TWO32;
    if size < 0x2000_0000 {
      assert low == 8 * size;
    } else {
      assert 0 < 8 * size - low < TWO64;
      ShiftedDiffers(bits + low, 8 * size - low);
    }
  }

  lemma ShiftedDiffers(x: nat, d: nat)
    requires 0 < d < TWO64
    ensures x % TWO64 != (x + d) % TWO64
  {}

  /** Adding into the low half and carrying keeps the 64-bit sum. */
  lemma CarryIntoHigh(high: nat, low: nat, size: nat)
    requires high < TWO32 && low < TWO32
    ensures
      var low' := (low + 8 * size % TWO32) % TWO32;
      var high' := if low' < low then (high + 1) % TWO32 else high;
      high' * TWO32 + low' == Counted(high * TWO32 + low, size)
  {}

  /** The stream state after absorbing `message`: whole blocks are hashed, the
      rest waits in the buffer. */
  ghost predicate Absorbed(message: seq<Byte>, state: State, buffer: seq<Byte>, used: nat) {
    && |buffer| == 64
    && used == |message| % 64
    && buffer[..used] == message[|message| - used..]
    && state == HashBlocks(message[..|message| - used])
  }

  lemma AbsorbPiece(message: seq<Byte>, state: State, buffer: seq<Byte>, used: nat, piece: seq<Byte>,
                    buffer': seq<Byte>)
    requires Absorbed(message, state, buffer, used)
    requires |buffer'| == 64 && used + |piece| <= 64
    requires buffer'[..used] == buffer[..used] && buffer'[used..used + |piece|] == piece
    ensures used + |piece| < 64 ==> Absorbed(message + piece, state, buffer', used + |piece|)
    ensures used + |piece| == 64 ==> |message + piece| % 64 == 0
    ensures used + |piece| == 64 ==> HashBlocks(message + piece) == Compress(state, ToWords(buffer'))
  {
    hide Compress, ToWords, HashBlocks, Absorbed;
    if used + |piece| < 64 {
      AbsorbPart(message, state, buffer, used, piece, buffer');
    } else {
      AbsorbWhole(message, state, buffer, used, piece, buffer');
    }
  }

  lemma AbsorbPart(message: seq<Byte>, state: State, buffer: seq<Byte>, used: nat, piece: seq<Byte>,
                   buffer': seq<Byte>)
    requires Absorbed(message, state, buffer, used)
    requires |buffer'| == 64 && used + |piece| < 64
    requires buffer'[..used] == buffer[..used] && buffer'[used..used + |piece|] == piece
    ensures Absorbed(message + piece, state, buffer', used + |piece|)
  {
    hide HashBlocks, ToWords, Compress;
    var n, longer := |message| - used, message + piece;
    StaysInBlock(|message|, |piece|);
    assert |longer| - (used + |piece|) == n;
    assert longer[..n] == message[..n];
    assert longer[n..] == message[n..] + piece;
    assert buffer'[..used + |piece|] == buffer'[..used] + piece;
  }

  lemma StaysInBlock(n: nat, more: nat)
    requires n % 64 + more < 64
    ensures (n + more) % 64 == n % 64 + more
  {}

  lemma AbsorbWhole(message: seq<Byte>, state: State, buffer: seq<Byte>, used: nat, piece: seq<Byte>,
                    buffer': seq<Byte>)
    requires Absorbed(message, state, buffer, used)
    requires |buffer'| == 64 && used + |piece| == 64
    requires buffer'[..used] == buffer[..used] && buffer'[used..64] == piece
    ensures |message + piece| % 64 == 0
    ensures HashBlocks(message + piece) == Compress(state, ToWords(buffer'))
  {
    hide Compress, ToWords, HashBlocks;
    var n := |message| - used;
    assert buffer' == buffer'[..used] + buffer'[used..64];
    assert message == message[..n] + message[n..];
    assert message + piece == message[..n] + buffer';
    HashBlocksStep(message[..n], buffer');
  }

  lemma LengthHalves(high: nat, low: nat)
    requires high < TWO32 && low < TWO32
    ensures HighHalf(high * TWO32 + low) == high
    ensures LowHalf(high * TWO32 + low) == low
  {}

  lemma HalvesWrap(bits: nat)
    ensures HighHalf(bits % TWO64) == HighHalf(bits)
    ensures LowHalf(bits % TWO64) == LowHalf(bits)
  {
    var q, r := bits / TWO64, bits % TWO64;
    assert bits / TWO32 == r / TWO32 + TWO32 * q;
    assert bits == r + TWO32 * (TWO32 * q);
  }

  /** The length field holds the bit count modulo 2^64. */
  lemma LengthFieldWraps(message: seq<Byte>, bits: nat)
    ensures PadWith(message, bits % TWO64) == PadWith(message, bits)
  {
    hide CountBytes, HighHalf, LowHalf, Terminated;
    HalvesWrap(bits);
  }

  function WordAt(s: State, i: nat): Word
    requires i < 5
  {
    if i == 0 then s.a else if i == 1 then s.b else if i == 2 then s.c else if i == 3 then s.d else s.e
  }

  lemma StateBytesAt(s: State, i: nat)
    requires i < 20
    ensures StateBytes(s)[i] == WordByte(WordAt(s, i / 4), i % 4)
  {
    hide WordBytes, WordByte;
    WordBytesAt(WordAt(s, i / 4), i % 4);
  }

  lemma WordBytesAt(w: Word, i: nat)
    requires i < 4
    ensures WordBytes(w)[i] == WordByte(w, i)
  {
    hide WordByte;
  }

  /** As long as the buffer has no 56 bytes, zeros are missing. */
  lemma NotYetFilled(length: nat, zeros: nat)
    requires zeros <= ZeroCount(length) && (length + 1 + zeros) % 64 != 56
    ensures zeros < ZeroCount(length)
  {}

  lemma Filled(length: nat, zeros: nat)
    requires zeros <= ZeroCount(length) && (length + 1 + zeros) % 64 == 56
    ensures zeros == ZeroCount(length)
  {
    hide ZeroCount;
    ZeroCountLeast(length, zeros);
  }

  class Sha1Stream {
    const state: array<Word>
    const buffer: array<Byte>
    var bufUsed: nat
    var sizeHigh: nat
    var sizeLow: nat

    /** Everything hashed so far. */
    ghost var message: seq<Byte>

    ghost predicate Valid()
      reads this, state, buffer
    {
      && state.Length == 5 && buffer.Length == 64
      && sizeHigh < TWO32 && sizeLow < TWO32
      && Absorbed(message, ReadState(state), buffer[..], bufUsed)
    }

    function Bits(): nat
      reads this
    {
      sizeHigh * TWO32 + sizeLow
    }

    constructor ()
      ensures Valid() && fresh(state) && fresh(buffer)
      ensures message == [] && Bits() == 0
    {
      state := new Word[5];
      buffer := new Byte[64];
      bufUsed, sizeHigh, sizeLow := 0, 0, 0;
      message := [];
      new;
      state[0] := 0x67452301;
      state[1] := 0xefcdab89;
      state[2] := 0x98badcfe;
      state[3] := 0x10325476;
      state[4] := 0xc3d2e1f0;
    }

    /** wby_sha1_update. */
    method Update(data: seq<Byte>)
      requires Valid()
      modifies this, state, buffer
      ensures Valid()
      ensures message == old(message) + data
      ensures Bits() == Counted(old(Bits()), |data|)
    {
      hide Counted, Absorbed;
      CarryIntoHigh(sizeHigh, sizeLow, |data|);
      Absorb(data);
      var sizeLowOrig := sizeLow;
      sizeLow := (sizeLow + 8 * |data| % TWO32) % TWO32;
      if sizeLow < sizeLowOrig {
        sizeHigh := (sizeHigh + 1) % TWO32;
      }
    }

    /** memcpy into the free part of the buffer. */
    method CopyIn(piece: seq<Byte>)
      requires buffer.Length == 64 && bufUsed + |piece| <= 64
      modifies buffer
      ensures buffer[..bufUsed] == old(buffer[..bufUsed])
      ensures buffer[bufUsed..bufUsed + |piece|] == piece
    {
      forall k | 0 <= k < |piece| {
        buffer[bufUsed + k] := piece[k];
      }
    }

    /** One turn of the copy loop: fill the buffer, hash it when it is full. */
    method Take(piece: seq<Byte>)
      requires Valid() && bufUsed + |piece| <= 64
      modifies this`bufUsed, this`message, state, buffer
      ensures Valid()
      ensures message == old(message) + piece
    {
      hide Compress, ToWords, HashBlocks;
      ghost var before := buffer[..];
      CopyIn(piece);
      AbsorbPiece(message, ReadState(state), before, bufUsed, piece, buffer[..]);
      message := message + piece;
      bufUsed := bufUsed + |piece|;
      if bufUsed == 64 {
        HashBlock(state, buffer);
        bufUsed := 0;
        assert message[..|message|] == message;
      }
    }

    /** The copy loop of wby_sha1_update. */
    method Absorb(data: seq<Byte>)
      requires Valid()
      modifies this`bufUsed, this`message, state, buffer
      ensures Valid()
      ensures message == old(message) + data
    {
      hide Absorbed;
      var done := 0;
      while done < |data|
        invariant 0 <= done <= |data|
        invariant Valid()
        invariant message == old(message) + data[..done]
      {
        UsedIsRemainder();
        var space := 64 - bufUsed;
        var count := if |data| - done < space then |data| - done else space;
        assert data[..done + count] == data[..done] + data[done..done + count];
        Take(data[done..done + count]);
        done := done + count;
      }
      assert data[..done] == data;
    }

    /** The last loop of wby_sha1_final: the state words, most significant byte first. */
    method ReadDigest() returns (digest: seq<Byte>)
      requires state.Length == 5
      ensures digest == StateBytes(ReadState(state))
    {
      hide WordByte, StateBytes;
      digest := [];
      for i := 0 to 20
        invariant digest == StateBytes(ReadState(state))[..i]
      {
        StateBytesAt(ReadState(state), i);
        digest := digest + [WordByte(state[i / 4], i % 4)];
      }
    }

    /** The zero loop of wby_sha1_final: it stops, with 56 bytes in the buffer. */
    method PadZeros(ghost original: seq<Byte>)
      requires Valid() && message == Terminated(original, 0)
      modifies this, state, buffer
      ensures Valid() && bufUsed == 56
      ensures message == Terminated(original, ZeroCount(|original|))
    {
      hide Absorbed, Terminated, Counted, ZeroCount;
      ghost var zeros := 0;
      UsedIsRemainder();
      while bufUsed != 56
        invariant Valid() && bufUsed == |message| % 64
        invariant zeros <= ZeroCount(|original|) && message == Terminated(original, zeros)
        decreases ZeroCount(|original|) - zeros
      {
        NotYetFilled(|original|, zeros);
        TerminatedStep(original, zeros);
        Update([0]);
        UsedIsRemainder();
        zeros := zeros + 1;
      }
      Filled(|original|, zeros);
    }

    lemma UsedIsRemainder()
      requires Valid()
      ensures bufUsed == |message| % 64
    {}

    lemma NothingLeftOver()
      requires Valid() && |message| % 64 == 0
      ensures bufUsed == 0 && ReadState(state) == HashBlocks(message)
    {
      assert message[..|message|] == message;
    }

    /** wby_sha1_final: pad, append the length counter, read the digest out. */
    method Final() returns (digest: seq<Byte>)
      requires Valid()
      modifies this, state, buffer
      ensures digest == StateBytes(HashBlocks(PadWith(old(message), old(Bits()))))
      ensures old(Bits()) == 8 * |old(message)| % TWO64 ==> digest == StateBytes(Sha1(old(message)))
    {
      hide Absorbed, HashBlocks, CountBytes, StateBytes, HighHalf, LowHalf, Terminated, Counted, ReadState;
      LengthHalves(sizeHigh, sizeLow);
      LengthFieldWraps(message, 8 * |message|);
      var countData := CountBytes(sizeHigh, sizeLow);
      TerminatedZero(message);
      Update([0x80]);
      PadZeros(old(message));
      Update(countData);
      assert message == PadWith(old(message), old(Bits()));
      NothingLeftOver();
      digest := ReadDigest();
    }
  }

  // ---------- a whole run: init, any updates, final ----------

  lemma CountedKeepsExact(length: nat, size: nat)
    requires size < 0x2000_0000
    ensures Counted(8 * length % TWO64, size) == 8 * (length + size) % TWO64
  {
    assert 8 * size % TWO32 == 8 * size;
    RemainderAdds(8 * length, 8 * size);
  }

  lemma RemainderAdds(a: nat, b: nat)
    ensures (a % TWO64 + b) % TWO64 == (a + b) % TWO64
  {
    var k := a / TWO64;
    assert a == TWO64 * k + a % TWO64;
    assert a + b == TWO64 * k + (a % TWO64 + b);
  }

  /** However a message is cut into updates of under 2^29 bytes, the digest is the
      digest of the whole message. */
  method HashPieces(pieces: seq<seq<Byte>>) returns (digest: seq<Byte>)
    requires forall p <- pieces :: |p| < 0x2000_0000
    ensures digest == StateBytes(Sha1(Flatten(pieces)))
  {
    hide Counted, StateBytes, Sha1, PadWith, HashBlocks, Absorbed;
    var s := new Sha1Stream();
    for i := 0 to |pieces|
      invariant s.Valid() && fresh(s) && fresh(s.state) && fresh(s.buffer)
      invariant s.message == Flatten(pieces[..i])
      invariant s.Bits() == 8 * |s.message| % TWO64
    {
      CountedKeepsExact(|s.message|, |pieces[i]|);
      assert pieces[..i + 1] == pieces[..i] + [pieces[i]];
      FlattenAppended(pieces[..i], pieces[i]);
      s.Update(pieces[i]);
    }
    assert pieces[..|pieces|] == pieces;
    digest := s.Final();
  }
}
