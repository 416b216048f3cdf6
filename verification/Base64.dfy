/** The base64 encoder of mumux/base64.c, against a decoder for section 4 of
    RFC 4648. */
module Base64 {
  import opened Bytes
  import opened Options

  const QUADS_BEFORE_LINEBREAK: nat := 19

  // ---------- alphabet ----------

  /** The encoding table: letters, digits, '+', '/', and '=' at index 64. */
  function Symbol(i: int): char
    requires 0 <= i <= 64
  {
    if i < 26 then ('A' as int + i) as char
    else if i < 52 then ('a' as int + (i - 26)) as char
    else if i < 62 then ('0' as int + (i - 52)) as char
    else if i == 62 then '+'
    else if i == 63 then '/'
    else '='
  }

  function Value(c: char): int {
    if 'A' <= c <= 'Z' then c as int - 'A' as int
    else if 'a' <= c <= 'z' then c as int - 'a' as int + 26
    else if '0' <= c <= '9' then c as int - '0' as int + 52
    else if c == '+' then 62
    else if c == '/' then 63
    else -1
  }

  lemma SymbolValue(i: int)
    requires 0 <= i < 64
    ensures Value(Symbol(i)) == i && Symbol(i) != '=' && Symbol(i) != '\r' && Symbol(i) != '\n'
  {}

  // ---------- the decoder of RFC 4648 ----------

  /** The bytes of one group of four characters: three, or fewer before padding. */
  function DecodeQuad(q: seq<char>): Option<seq<Byte>>
    requires |q| == 4
  {
    var v0, v1, v2, v3 := Value(q[0]), Value(q[1]), Value(q[2]), Value(q[3]);
    if v0 < 0 || v1 < 0 then None
    else
      var b0 := v0 * 4 + v1 / 16;
      if q[2] == '=' && q[3] == '=' then
        if v1 % 16 == 0 then Some([b0]) else None
      else if v2 < 0 then None
      else
        var b1 := v1 % 16 * 16 + v2 / 4;
        if q[3] == '=' then
          if v2 % 4 == 0 then Some([b0, b1]) else None
        else if v3 < 0 then None
        else Some([b0, b1, v2 % 4 * 64 + v3])
  }

  /** A whole text: only its last group may be padded. */
  function Decode(text: seq<char>): Option<seq<Byte>> {
    if text == [] then Some([])
    else if |text| < 4 then None
    else
      var head, rest := DecodeQuad(text[..4]), Decode(text[4..]);
      if head.None? || rest.None? || (|head.value| < 3 && |text| > 4) then None
      else Some(head.value + rest.value)
  }

  function StripBreaks(text: seq<char>): seq<char> {
    if text == [] then []
    else if text[0] == '\r' || text[0] == '\n' then StripBreaks(text[1..])
    else [text[0]] + StripBreaks(text[1..])
  }

  // ---------- what the encoder writes ----------

  /** Up to three bytes from position `i`, missing ones read as zero. */
  function ByteAt(input: seq<Byte>, i: nat): Byte {
    if i < |input| then input[i] else 0
  }

  /** The four characters for the group starting at `i`. */
  function Quad(input: seq<Byte>, i: nat): (q: seq<char>)
    requires i < |input|
    ensures |q| == 4
  {
    var b0, b1, b2 := input[i], ByteAt(input, i + 1), ByteAt(input, i + 2);
    [Symbol(b0 / 4),
     Symbol(b0 % 4 * 16 + b1 / 16),
     Symbol(if i + 1 < |input| then b1 % 16 * 4 + b2 / 64 else 64),
     Symbol(if i + 2 < |input| then b2 % 64 else 64)]
  }

  /** The groups before number `n`, with a line break after the nineteenth only. */
  function Text(input: seq<Byte>, n: nat): (text: seq<char>)
    requires 3 * n < |input| + 3
  {
    if n == 0 then []
    else Text(input, n - 1) + Quad(input, 3 * (n - 1)) + LineBreak(n)
  }

  function LineBreak(n: nat): seq<char> {
    if n == QUADS_BEFORE_LINEBREAK then ['\r', '\n'] else []
  }

  function Triplets(size: nat): nat {
    (size + 2) / 3
  }

  /** wby_base64_bufsize. */
  function BufferSize(size: nat): nat {
    4 * Triplets(size) + 2 * (Triplets(size) / QUADS_BEFORE_LINEBREAK) + 1
  }

  lemma {:induction false} TextLength(input: seq<Byte>, n: nat)
    requires 3 * n < |input| + 3
    ensures |Text(input, n)| == 4 * n + (if n < QUADS_BEFORE_LINEBREAK then 0 else 2)
  {
    if n > 0 {
      TextLength(input, n - 1);
    }
  }

  /** Text and terminator fit the announced size. The announced size reckons with
      a break after every nineteen groups, the encoder breaks once: they agree
      exactly below 38 groups. */
  lemma FitsBuffer(input: seq<Byte>)
    ensures |Text(input, Triplets(|input|))| + 1 <= BufferSize(|input|)
    ensures |Text(input, Triplets(|input|))| + 1 == BufferSize(|input|) <==> Triplets(|input|) < 38
  {
    hide Text, Triplets;
    var n := Triplets(|input|);
    assert 3 * n < |input| + 3 by { EnoughTriplets(|input|); }
    TextLength(input, n);
    BreaksIn(n);
  }

  lemma EnoughTriplets(size: nat)
    ensures 3 * Triplets(size) < size + 3
  {}

  lemma BreaksIn(n: nat)
    ensures n < QUADS_BEFORE_LINEBREAK ==> n / QUADS_BEFORE_LINEBREAK == 0
    ensures n >= QUADS_BEFORE_LINEBREAK ==> n / QUADS_BEFORE_LINEBREAK >= 1
    ensures n / QUADS_BEFORE_LINEBREAK >= 2 <==> n >= 38
  {}

  /** wby_base64_encode. */
  method Encode(output: array<char>, outputSize: nat, input: seq<Byte>) returns (code: int, ghost written: nat)
    requires outputSize <= output.Length
    modifies output
    ensures code == if outputSize < BufferSize(|input|) then 1 else 0
    ensures written <= outputSize
    ensures code == 1 ==> written == 0
    ensures code == 0 ==> output[..written] == Text(input, Triplets(|input|)) + ['\0']
    ensures forall k :: written <= k < output.Length ==> output[k] == old(output[k])
  {
    if outputSize < BufferSize(|input|) {
      return 1, 0;
    }
    hide Quad, Text, BufferSize, Triplets;
    Room(input, 0);
    var i: nat, lineOut: nat, o: nat := 0, 0, 0;
    while i < |input|
      invariant i == 3 * lineOut < |input| + 3
      invariant o < outputSize && output[..o] == Text(input, lineOut)
      invariant forall k :: o <= k < output.Length ==> output[k] == old(output[k])
    {
      o := EncodeGroup(output, o, input, i, lineOut);
      i := i + 3;
      lineOut := lineOut + 1;
    }
    AllGroups(|input|, lineOut);
    o := Put(output, o, ['\0']);
    return 0, o;
  }

  lemma AllGroups(size: nat, n: nat)
    requires size <= 3 * n < size + 3
    ensures n == Triplets(size)
  {}

  /** The stores of one loop turn: four characters, and the break when it is due. */
  method EncodeGroup(output: array<char>, o: nat, input: seq<Byte>, i: nat, lineOut: nat) returns (o': nat)
    requires i == 3 * lineOut < |input| && BufferSize(|input|) <= output.Length
    requires o <= output.Length && output[..o] == Text(input, lineOut)
    modifies output
    ensures o' < BufferSize(|input|) && output[..o'] == Text(input, lineOut + 1)
    ensures forall k :: o' <= k < output.Length ==> output[k] == old(output[k])
  {
    hide Quad, Text, BufferSize;
    Room(input, lineOut);
    var q := EncodeQuad(input, i);
    o' := Put(output, o, q);
    if lineOut + 1 == QUADS_BEFORE_LINEBREAK {
      o' := Put(output, o', ['\r', '\n']);
    }
  }

  /** Stores through the advancing output pointer. */
  method Put(output: array<char>, o: nat, text: seq<char>) returns (o': nat)
    requires o + |text| <= output.Length
    modifies output
    ensures o' == o + |text|
    ensures output[..o'] == old(output[..o]) + text
    ensures forall k :: o' <= k < output.Length ==> output[k] == old(output[k])
  {
    forall k | 0 <= k < |text| {
      output[o + k] := text[k];
    }
    o' := o + |text|;
  }

  /** Each further group extends the text and leaves room for the terminator. */
  lemma Room(input: seq<Byte>, n: nat)
    requires 3 * n < |input| + 3
    ensures |Text(input, n)| + 1 <= BufferSize(|input|)
    ensures Text(input, 0) == []
    ensures 3 * n < |input| ==>
              && Text(input, n + 1) == Text(input, n) + Quad(input, 3 * n) + LineBreak(n + 1)
              && |Text(input, n + 1)| + 1 <= BufferSize(|input|)
  {
    hide Quad;
    TextLength(input, n);
    Breaks(n, Triplets(|input|));
    if 3 * n < |input| {
      TextLength(input, n + 1);
      Breaks(n + 1, Triplets(|input|));
    }
  }

  lemma Breaks(n: nat, triplets: nat)
    requires n <= triplets
    ensures 4 * n + (if n < QUADS_BEFORE_LINEBREAK then 0 else 2)
         <= 4 * triplets + 2 * (triplets / QUADS_BEFORE_LINEBREAK)
  {}

  /** The loop body up to the four stores: pack three bytes into a word, cut it
      into sextets by shifting left, and put index 64 where input ran out. */
  method EncodeQuad(input: seq<Byte>, start: nat) returns (q: seq<char>)
    requires start < |input|
    ensures q == Quad(input, start)
  {
    hide Symbol, TopBits, ShiftLeft6;
    var i := start;
    var b0: int := input[i];
    i := i + 1;
    var b1: int := if i < |input| then input[i] else 0;
    i := i + 1;
    var b2: int := if i < |input| then input[i] else 0;
    i := i + 1;
    var word: int := b0 * 65536 + b1 * 256 + b2;
    PackedSextets(b0, b1, b2);
    Sextets(b0, b1, b2);
    SextetsComeOut(b0 / 4, b0 % 4 * 16 + b1 / 16, b1 % 16 * 4 + b2 / 64, b2 % 64);
    var idx0 := TopBits(word);
    word := ShiftLeft6(word);
    var idx1 := TopBits(word);
    word := ShiftLeft6(word);
    var idx2 := TopBits(word);
    word := ShiftLeft6(word);
    var idx3 := TopBits(word);
    if i - 1 > |input| {
      idx2 := 64;
    }
    if i > |input| {
      idx3 := 64;
    }
    q := [Symbol(idx0), Symbol(idx1), Symbol(idx2), Symbol(idx3)];
  }

  /** `(word & 0xfc0000) >> 18`. */
  function TopBits(word: int): int {
    word / 262144 % 64
  }

  /** `word << 6` in 32 bits. */
  function ShiftLeft6(word: int): int {
    word * 64 % 4294967296
  }

  lemma TopSextet(word: int, high: int, s: int, rest: int)
    requires word == high * 16777216 + s * 262144 + rest
    requires 0 <= s < 64 && 0 <= rest < 262144
    ensures TopBits(word) == s
  {
    assert word / 262144 == high * 64 + s;
  }

  lemma CutOff(q: int, r: int)
    requires 0 <= r < 4294967296
    ensures (q * 4294967296 + r) % 4294967296 == r
  {}

  lemma NextSextet(word: int, high: int, s: int, rest: int)
    requires word == high * 16777216 + s * 262144 + rest
    requires 0 <= s < 64 && 0 <= rest < 262144 && 0 <= high
    ensures ShiftLeft6(word) == (high * 64 + s) % 256 * 16777216 + rest * 64
  {
    var h := high * 64 + s;
    assert h == h / 256 * 256 + h % 256;
    assert word * 64 == h / 256 * 4294967296 + (h % 256 * 16777216 + rest * 64);
    CutOff(h / 256, h % 256 * 16777216 + rest * 64);
  }

  /** Four sextets packed into a word come out one by one. */
  lemma SextetsComeOut(s0: int, s1: int, s2: int, s3: int)
    requires 0 <= s0 < 64 && 0 <= s1 < 64 && 0 <= s2 < 64 && 0 <= s3 < 64
    ensures
      var word := s0 * 262144 + s1 * 4096 + s2 * 64 + s3;
      && TopBits(word) == s0
      && TopBits(ShiftLeft6(word)) == s1
      && TopBits(ShiftLeft6(ShiftLeft6(word))) == s2
      && TopBits(ShiftLeft6(ShiftLeft6(ShiftLeft6(word)))) == s3
  {
    hide TopBits, ShiftLeft6;
    var word := s0 * 262144 + s1 * 4096 + s2 * 64 + s3;
    var word1 := ShiftLeft6(word);
    var word2 := ShiftLeft6(word1);
    TopSextet(word, 0, s0, s1 * 4096 + s2 * 64 + s3);
    NextSextet(word, 0, s0, s1 * 4096 + s2 * 64 + s3);
    var high := (0 * 64 + s0) % 256;
    TopSextet(word1, high, s1, s2 * 4096 + s3 * 64);
    NextSextet(word1, high, s1, s2 * 4096 + s3 * 64);
    high := (high * 64 + s1) % 256;
    TopSextet(word2, high, s2, s3 * 4096);
    NextSextet(word2, high, s2, s3 * 4096);
    high := (high * 64 + s2) % 256;
    TopSextet(ShiftLeft6(word2), high, s3, 0);
  }

  lemma PackedSextets(b0: Byte, b1: Byte, b2: Byte)
    ensures b0 * 65536 + b1 * 256 + b2
         == b0 / 4 * 262144 + (b0 % 4 * 16 + b1 / 16) * 4096 + (b1 % 16 * 4 + b2 / 64) * 64 + b2 % 64
  {}

  // ---------- round trip ----------

  /** The characters without the line break. */
  function Quads(input: seq<Byte>, n: nat): (text: seq<char>)
    requires 3 * n < |input| + 3
    ensures |text| == 4 * n
  {
    if n == 0 then [] else Quads(input, n - 1) + Quad(input, 3 * (n - 1))
  }

  lemma {:induction false} StripSplits(a: seq<char>, b: seq<char>)
    ensures StripBreaks(a + b) == StripBreaks(a) + StripBreaks(b)
  {
    if a == [] {
      assert a + b == b;
    } else {
      StripSplits(a[1..], b);
      assert (a + b)[1..] == a[1..] + b;
      assert [a[0]] + (StripBreaks(a[1..]) + StripBreaks(b)) == [a[0]] + StripBreaks(a[1..]) + StripBreaks(b);
    }
  }

  lemma {:induction false} PlainUnchanged(text: seq<char>)
    requires forall c <- text :: c != '\r' && c != '\n'
    ensures StripBreaks(text) == text
  {
    if text != [] {
      forall c | c in text[1..]
        ensures c != '\r' && c != '\n'
      {
        assert c in text;
      }
      PlainUnchanged(text[1..]);
      assert text[0] in text;
      assert [text[0]] + text[1..] == text;
    }
  }

  lemma QuadPlain(input: seq<Byte>, i: nat)
    requires i < |input|
    ensures forall c <- Quad(input, i) :: c != '\r' && c != '\n'
  {}

  lemma BreakStripped()
    ensures StripBreaks(['\r', '\n']) == []
  {
    assert ['\r', '\n'][1..] == ['\n'];
  }

  lemma {:induction false} StripText(input: seq<Byte>, n: nat)
    requires 3 * n < |input| + 3
    ensures StripBreaks(Text(input, n)) == Quads(input, n)
  {
    hide Quad;
    if n > 0 {
      StripText(input, n - 1);
      var q := Quad(input, 3 * (n - 1));
      var lineBreak := LineBreak(n);
      QuadPlain(input, 3 * (n - 1));
      PlainUnchanged(q);
      BreakStripped();
      StripSplits(Text(input, n - 1) + q, lineBreak);
      StripSplits(Text(input, n - 1), q);
    }
  }

  /** One group decodes to the bytes it was made from. */
  lemma DecodeOneQuad(input: seq<Byte>, i: nat)
    requires i < |input|
    ensures DecodeQuad(Quad(input, i)) == Some(if i + 3 <= |input| then input[i..i + 3] else input[i..])
  {
    hide Symbol, Value;
    var b0, b1, b2 := input[i], ByteAt(input, i + 1), ByteAt(input, i + 2);
    SymbolValue(b0 / 4);
    SymbolValue(b0 % 4 * 16 + b1 / 16);
    SymbolValue(b1 % 16 * 4 + b2 / 64);
    SymbolValue(b2 % 64);
    PadSymbol();
    Sextets(b0, b1, b2);
    if i + 3 <= |input| {
      assert input[i..i + 3] == [b0, b1, b2];
    } else if i + 2 == |input| {
      assert input[i..] == [b0, b1];
    } else {
      assert input[i..] == [b0];
    }
  }

  lemma Sextets(b0: Byte, b1: Byte, b2: Byte)
    ensures var s1 := b0 % 4 * 16 + b1 / 16; s1 < 64 && s1 / 16 == b0 % 4 && s1 % 16 == b1 / 16
    ensures var s2 := b1 % 16 * 4 + b2 / 64; s2 < 64 && s2 / 4 == b1 % 16 && s2 % 4 == b2 / 64
  {}

  lemma PadSymbol()
    ensures Symbol(64) == '='
  {}

  /** The groups from position `i` on. */
  function QuadsFrom(input: seq<Byte>, i: nat): seq<char>
    decreases |input| - i
  {
    if i >= |input| then [] else Quad(input, i) + QuadsFrom(input, i + 3)
  }

  lemma {:induction false} QuadsMeet(input: seq<Byte>, n: nat)
    requires 3 * n < |input| + 3
    ensures Quads(input, n) + QuadsFrom(input, 3 * n) == QuadsFrom(input, 0)
  {
    hide Quad;
    if n > 0 {
      QuadsMeet(input, n - 1);
      assert QuadsFrom(input, 3 * (n - 1)) == Quad(input, 3 * (n - 1)) + QuadsFrom(input, 3 * n);
    }
  }

  lemma {:induction false} DecodeQuadsFrom(input: seq<Byte>, i: nat)
    requires i < |input| + 3
    ensures Decode(QuadsFrom(input, i)) == Some(if i <= |input| then input[i..] else [])
    decreases |input| - i
  {
    hide Quad, DecodeQuad;
    if i == |input| {
      assert input[i..] == [];
    }
    if i < |input| {
      var text, rest := QuadsFrom(input, i), QuadsFrom(input, i + 3);
      DecodeOneQuad(input, i);
      DecodeQuadsFrom(input, i + 3);
      assert text[..4] == Quad(input, i) && text[4..] == rest;
      if i + 3 <= |input| {
        assert input[i..] == input[i..i + 3] + input[i + 3..];
      } else {
        assert rest == [] && text == Quad(input, i);
        assert DecodeQuad(text).value + [] == input[i..];
      }
    }
  }

  /** Stripping the line break and decoding gives the input back, whatever its
      length modulo three. */
  lemma RoundTrip(input: seq<Byte>)
    ensures Decode(StripBreaks(Text(input, Triplets(|input|)))) == Some(input)
  {
    hide Decode, StripBreaks;
    var n := Triplets(|input|);
    StripText(input, n);
    QuadsMeet(input, n);
    DecodeQuadsFrom(input, 0);
    assert Quads(input, n) + [] == Quads(input, n);
    assert input[0..] == input;
  }
}
