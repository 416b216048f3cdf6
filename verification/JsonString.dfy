/** The strings of common/json.h: escaping them for a dump, recognising them in the
    scanner, and reading them back. Characters are bytes. */
module JsonString {
  import opened Bytes
  import opened Numerals

  const QUOTE: Byte := 34
  const BACKSLASH: Byte := 92

  // ---------- escaping ----------

  /** The letter after the backslash, for the characters that have one. */
  function ShortEscape(c: Byte): (letter: Byte)
    ensures letter != 0 ==> c in {34, 92, 8, 12, 10, 13, 9}
  {
    match c
    case 34 => 34
    case 92 => 92
    case 8 => 98
    case 12 => 102
    case 10 => 110
    case 13 => 114
    case 9 => 116
    case _ => 0
  }

  function EscapedByte(c: Byte): (e: seq<Byte>)
    ensures 1 <= |e| <= 6
  {
    if ShortEscape(c) != 0 then [BACKSLASH, ShortEscape(c)]
    else if c <= 0x1f then [BACKSLASH, 117, 48, 48, HexDigit(c / 16), HexDigit(c % 16)]
    else [c]
  }

  /** A string with every character escaped that has to be. */
  function Escaped(s: seq<Byte>): seq<Byte> {
    if s == [] then [] else EscapedByte(s[0]) + Escaped(s[1..])
  }

  lemma {:induction false} EscapedSplits(a: seq<Byte>, b: seq<Byte>)
    ensures Escaped(a + b) == Escaped(a) + Escaped(b)
  {
    hide EscapedByte;
    if a == [] {
      assert a + b == b;
    } else {
      EscapedSplits(a[1..], b);
      assert (a + b)[1..] == a[1..] + b;
    }
  }

  function Growth(c: Byte): nat {
    if ShortEscape(c) != 0 then 1 else if c <= 0x1f then 5 else 0
  }

  /** extra_space: by how much escaping lengthens the string. */
  method ExtraSpace(s: seq<Byte>) returns (space: nat)
    ensures |Escaped(s)| == |s| + space
    ensures space == 0 <==> Escaped(s) == s
  {
    hide EscapedByte;
    space := 0;
    var i: nat := 0;
    while i < |s|
      invariant i <= |s| && |Escaped(s[..i])| == i + space
      invariant space == 0 ==> Escaped(s[..i]) == s[..i]
    {
      OneEscaped(s[..i], s[i]);
      assert s[..i + 1] == s[..i] + [s[i]];
      if ShortEscape(s[i]) != 0 {
        space := space + 1;
      } else if s[i] <= 0x1f {
        space := space + 5;
      }
      i := i + 1;
    }
    assert s[..|s|] == s;
  }

  lemma OneEscaped(before: seq<Byte>, c: Byte)
    ensures Escaped(before + [c]) == Escaped(before) + EscapedByte(c)
    ensures |EscapedByte(c)| == 1 + Growth(c)
    ensures Growth(c) == 0 ==> EscapedByte(c) == [c]
  {
    EscapedSplits(before, [c]);
    assert Escaped([c]) == EscapedByte(c) + Escaped([]);
  }

  /** escape_string. The buffer starts out as backslashes, so a backslash is never written. */
  method EscapeString(s: seq<Byte>) returns (result: seq<Byte>)
    ensures result == Escaped(s)
  {
    hide EscapedByte;
    var space := ExtraSpace(s);
    if space == 0 {
      return s;
    }
    var buffer := new Byte[|s| + space](_ => BACKSLASH);
    var pos: nat, i: nat := 0, 0;
    while i < |s|
      invariant i <= |s| && pos == |Escaped(s[..i])| <= buffer.Length
      invariant buffer[..pos] == Escaped(s[..i])
      invariant forall k :: pos <= k < buffer.Length ==> buffer[k] == BACKSLASH
      invariant buffer.Length == |Escaped(s)|
    {
      var c := s[i];
      OneEscaped(s[..i], c);
      assert s[..i + 1] == s[..i] + [c] && s == s[..i + 1] + s[i + 1..];
      EscapedSplits(s[..i + 1], s[i + 1..]);
      pos := WriteEscape(buffer, pos, c);
      i := i + 1;
    }
    assert s[..|s|] == s;
    result := buffer[..];
  }

  /** One character into the buffer. */
  method WriteEscape(buffer: array<Byte>, at: nat, c: Byte) returns (pos: nat)
    requires at + |EscapedByte(c)| <= buffer.Length
    requires forall k :: at <= k < buffer.Length ==> buffer[k] == BACKSLASH
    modifies buffer
    ensures pos == at + |EscapedByte(c)|
    ensures buffer[..pos] == old(buffer[..at]) + EscapedByte(c)
    ensures forall k :: pos <= k < buffer.Length ==> buffer[k] == BACKSLASH
  {
    if c == BACKSLASH {
      pos := at + 2;
    } else if ShortEscape(c) != 0 {
      buffer[at + 1] := ShortEscape(c);
      pos := at + 2;
    } else if c <= 0x1f {
      buffer[at + 1], buffer[at + 2], buffer[at + 3] := 117, 48, 48;
      buffer[at + 4], buffer[at + 5] := HexDigit(c / 16), HexDigit(c % 16);
      pos := at + 6;
    } else {
      buffer[at] := c;
      pos := at + 1;
    }
  }

  // ---------- code points ----------

  datatype Text = Text(bytes: seq<Byte>) | Thrown

  /** to_unicode's value for a code point and a second one, none for a wrong pair. */
  function CodePoint(codepoint1: nat, codepoint2: nat): int {
    if 0xD800 <= codepoint1 <= 0xDBFF then
      if 0xDC00 <= codepoint2 <= 0xDFFF then codepoint1 * 1024 + codepoint2 - 0x35FDC00 else -1
    else codepoint1
  }

  /** A code point in UTF-8. */
  function Utf8(c: nat): Text {
    if c < 0x80 then Text([c])
    else if c <= 0x7ff then Text([0xC0 + c / 64 % 32, 0x80 + c % 64])
    else if c <= 0xffff then Text([0xE0 + c / 4096 % 16, 0x80 + c / 64 % 64, 0x80 + c % 64])
    else if c <= 0x10ffff then
      Text([0xF0 + c / 262144 % 8, 0x80 + c / 4096 % 64, 0x80 + c / 64 % 64, 0x80 + c % 64])
    else Thrown
  }

  function ToUnicode(codepoint1: nat, codepoint2: nat): Text {
    var c := CodePoint(codepoint1, codepoint2);
    if c < 0 then Thrown else Utf8(c)
  }

  /** A later byte of a UTF-8 sequence. */
  predicate Continues(b: Byte) {
    0x80 <= b <= 0xBF
  }

  /** The number that a UTF-8 sequence of the length belonging to it stands for, by the table
      in section 3 of RFC 3629; -1 for any other bytes. Surrogates are not excluded. */
  function Utf8Value(b: seq<Byte>): int {
    if |b| == 1 && b[0] < 0x80 then b[0]
    else if |b| == 2 && 0xC0 <= b[0] < 0xE0 && Continues(b[1]) then
      AtLeast(0x80, (b[0] as int - 0xC0) * 64 + (b[1] as int - 0x80))
    else if |b| == 3 && 0xE0 <= b[0] < 0xF0 && Continues(b[1]) && Continues(b[2]) then
      AtLeast(0x800, (b[0] as int - 0xE0) * 4096 + (b[1] as int - 0x80) * 64 + (b[2] as int - 0x80))
    else if |b| == 4 && 0xF0 <= b[0] < 0xF8 && Continues(b[1]) && Continues(b[2]) && Continues(b[3]) then
      AtLeast(0x10000, (b[0] as int - 0xF0) * 262144 + (b[1] as int - 0x80) * 4096 + (b[2] as int - 0x80) * 64
                       + (b[3] as int - 0x80))
    else -1
  }

  /** A shorter sequence has to be used below the least value of a length. */
  function AtLeast(least: int, value: int): int {
    if value < least then -1 else value
  }

  /** The bytes are the UTF-8 sequence of one character: section 3 of RFC 3629 leaves out
      surrogates and everything beyond 0x10FFFF. */
  predicate WellFormed(b: seq<Byte>) {
    0 <= Utf8Value(b) <= 0x10FFFF && !(0xD800 <= Utf8Value(b) <= 0xDFFF)
  }

  /** The code point of a surrogate pair, by section 2.1 of RFC 2781. */
  function PairValue(high: nat, low: nat): int {
    0x10000 + (high - 0xD800) * 0x400 + (low - 0xDC00)
  }

  /** to_unicode throws for a high surrogate without a low one and beyond 0x10FFFF, and
      otherwise gives the sequence of the code point or of the pair's. A low surrogate alone
      does not throw: its sequence is the only one that is not well-formed UTF-8. */
  lemma ToUnicodeIsUtf8(codepoint1: nat, codepoint2: nat)
    ensures var paired, high := 0xDC00 <= codepoint2 <= 0xDFFF, 0xD800 <= codepoint1 <= 0xDBFF;
            match ToUnicode(codepoint1, codepoint2)
            case Thrown => codepoint1 > 0x10FFFF || (high && !paired)
            case Text(b) =>
              && (high ==> paired && Utf8Value(b) == PairValue(codepoint1, codepoint2))
              && (!high ==> codepoint1 <= 0x10FFFF && Utf8Value(b) == codepoint1)
              && (WellFormed(b) <==> !(0xDC00 <= codepoint1 <= 0xDFFF))
  {
    hide Utf8, Utf8Value;
    var c := CodePoint(codepoint1, codepoint2);
    if c >= 0 { Utf8Reads(c); }
  }

  lemma LoneLowSurrogate()
    ensures ToUnicode(0xDC00, 0) == Text([0xED, 0xB0, 0x80]) && !WellFormed([0xED, 0xB0, 0x80])
  {}

  lemma Utf8Reads(c: nat)
    ensures Utf8(c) == Thrown <==> c > 0x10FFFF
    ensures Utf8(c).Text? ==> Utf8Value(Utf8(c).bytes) == c
  {
    if c < 0x80 {
    } else if c <= 0x7ff {
      TwoBytes(c);
    } else if c <= 0xffff {
      ThreeBytes(c);
    } else if c <= 0x10ffff {
      FourBytes(c);
    }
  }

  lemma TwoBytes(c: nat)
    requires 0x80 <= c <= 0x7ff
    ensures Utf8Value(Utf8(c).bytes) == c
  {
    SixBits(c);
    assert c / 64 < 32 && c / 64 % 32 == c / 64;
  }

  lemma ThreeBytes(c: nat)
    requires 0x800 <= c <= 0xffff
    ensures Utf8Value(Utf8(c).bytes) == c
  {
    SixBits(c);
    assert c / 4096 < 16 && c / 4096 % 16 == c / 4096;
  }

  lemma FourBytes(c: nat)
    requires 0x10000 <= c <= 0x10ffff
    ensures Utf8Value(Utf8(c).bytes) == c
  {
    SixBits(c);
    assert c / 262144 < 8 && c / 262144 % 8 == c / 262144;
  }

  lemma SixBits(c: nat)
    ensures c == c / 64 * 64 + c % 64
    ensures c == c / 4096 * 4096 + c / 64 % 64 * 64 + c % 64
    ensures c == c / 262144 * 262144 + c / 4096 % 64 * 4096 + c / 64 % 64 * 64 + c % 64
  {
    var a := c / 64;
    var b := a / 64;
    assert c / 4096 == b && c / 262144 == b / 64;
  }

  // ---------- reading back ----------

  predicate IsHex(c: Byte) {
    HexValue(c) >= 0
  }

  /** What a character adds to a number in hexadecimal; nothing if it is no digit. */
  function HexPart(c: Byte): (v: nat)
    ensures v < 16
  {
    if IsHex(c) then HexValue(c) else 0
  }

  /** strtoul of four hexadecimal digits. */
  function Hex4(t: seq<Byte>): nat
    requires |t| >= 4
  {
    HexPart(t[0]) * 4096 + HexPart(t[1]) * 256 + HexPart(t[2]) * 16 + HexPart(t[3])
  }

  /** The character an escape letter stands for, zero for none. */
  function ShortMeaning(letter: Byte): Byte {
    match letter
    case 116 => 9
    case 98 => 8
    case 102 => 12
    case 110 => 10
    case 114 => 13
    case 92 => 92
    case 47 => 47
    case 34 => 34
    case _ => 0
  }

  /** Where a string token ends: how many characters from after its opening quote up to
      and with the closing one, none if there is no string. A character from 0x10 to 0x1F
      may stand in a string as it is. */
  function StringEnd(t: seq<Byte>): (end: int)
    ensures end == -1 || 1 <= end <= |t|
  {
    if t == [] || t[0] <= 0x0f then -1
    else if t[0] == QUOTE then 1
    else if t[0] != BACKSLASH then Past(1, StringEnd(t[1..]))
    else if |t| < 2 then -1
    else if ShortMeaning(t[1]) != 0 then Past(2, StringEnd(t[2..]))
    else if t[1] == 117 && |t| >= 6 && IsHex(t[2]) && IsHex(t[3]) && IsHex(t[4]) && IsHex(t[5]) then
      Past(6, StringEnd(t[6..]))
    else -1
  }

  function Past(n: nat, end: int): int {
    if end == -1 then -1 else n + end
  }

  function Prefixed(a: seq<Byte>, b: Text): Text {
    if b.Text? then Text(a + b.bytes) else Thrown
  }

  /** get_string on the characters between the quotes. */
  function Unescaped(t: seq<Byte>): Text {
    if t == [] then Text([])
    else if t[0] != BACKSLASH then Prefixed([t[0]], Unescaped(t[1..]))
    else if |t| < 2 then Text([])
    else if t[1] == 117 then
      if |t| < 6 then Text([])
      else if 0xD800 <= Hex4(t[2..6]) <= 0xDBFF then
        if |t| < 12 || t[6] != BACKSLASH || t[7] != 117 then Thrown
        else
          var u := ToUnicode(Hex4(t[2..6]), Hex4(t[8..12]));
          if u.Thrown? then Thrown else Prefixed(u.bytes, Unescaped(t[12..]))
      else
        var u := ToUnicode(Hex4(t[2..6]), 0);
        if u.Thrown? then Thrown else Prefixed(u.bytes, Unescaped(t[6..]))
    else if ShortMeaning(t[1]) != 0 then Prefixed([ShortMeaning(t[1])], Unescaped(t[2..]))
    else Unescaped(t[2..])
  }

  /** An escaped character is one step of the scanner and one of get_string. */
  lemma EscapedByteReads(c: Byte, rest: seq<Byte>)
    ensures StringEnd(EscapedByte(c) + rest) == Past(|EscapedByte(c)|, StringEnd(rest))
    ensures Unescaped(EscapedByte(c) + rest) == Prefixed([c], Unescaped(rest))
  {
    if ShortEscape(c) != 0 {
      ShortReads(c, rest);
    } else if c <= 0x1f {
      ControlReads(c, rest);
    } else {
      assert ([c] + rest)[1..] == rest;
    }
  }

  lemma ShortReads(c: Byte, rest: seq<Byte>)
    requires ShortEscape(c) != 0
    ensures StringEnd(EscapedByte(c) + rest) == Past(2, StringEnd(rest))
    ensures Unescaped(EscapedByte(c) + rest) == Prefixed([c], Unescaped(rest))
  {
    assert (EscapedByte(c) + rest)[2..] == rest;
    assert ShortMeaning(ShortEscape(c)) == c && ShortEscape(c) != 117;
  }

  lemma ControlReads(c: Byte, rest: seq<Byte>)
    requires ShortEscape(c) == 0 && c <= 0x1f
    ensures var t := EscapedByte(c) + rest;
            t[6..] == rest && Hex4(t[2..6]) == c && ToUnicode(c, 0) == Text([c])
            && StringEnd(t) == Past(6, StringEnd(rest)) && Unescaped(t) == Prefixed([c], Unescaped(rest))
  {
    hide StringEnd, Unescaped;
    var t := EscapedByte(c) + rest;
    HexDigitValue(c / 16);
    HexDigitValue(c % 16);
    assert t[2..6] == [48, 48, HexDigit(c / 16), HexDigit(c % 16)] && t[6..] == rest;
    EscapeU(t);
  }

  lemma EscapeU(t: seq<Byte>)
    requires |t| >= 6 && t[0] == BACKSLASH && t[1] == 117 && Hex4(t[2..6]) < 0x80
    requires IsHex(t[2]) && IsHex(t[3]) && IsHex(t[4]) && IsHex(t[5])
    ensures StringEnd(t) == Past(6, StringEnd(t[6..]))
    ensures Unescaped(t) == Prefixed([Hex4(t[2..6])], Unescaped(t[6..]))
  {
    hide Hex4;
  }

  /** Whatever the string, its escaped form is scanned as one token, and get_string gives
      the string back. */
  lemma {:induction false} StringRoundTrip(s: seq<Byte>, rest: seq<Byte>)
    ensures StringEnd(Escaped(s) + [QUOTE] + rest) == |Escaped(s)| + 1
    ensures Unescaped(Escaped(s)) == Text(s)
  {
    hide EscapedByte;
    if s == [] {
      assert Escaped(s) + [QUOTE] + rest == [QUOTE] + rest;
    } else {
      StringRoundTrip(s[1..], rest);
      var e, others := EscapedByte(s[0]), Escaped(s[1..]);
      assert Escaped(s) + [QUOTE] + rest == e + (others + [QUOTE] + rest);
      EscapedByteReads(s[0], others + [QUOTE] + rest);
      EscapedByteReads(s[0], others);
      assert [s[0]] + s[1..] == s;
    }
  }

  /** Where a string ends does not depend on what follows it. */
  lemma {:induction false} StringEndsThere(t: seq<Byte>)
    requires StringEnd(t) != -1
    ensures Tail(t[..StringEnd(t)])
    decreases |t|
  {
    var end := StringEnd(t);
    if t[0] != QUOTE {
      var n := if t[0] != BACKSLASH then 1 else if t[1] == 117 then 6 else 2;
      StringEndsThere(t[n..]);
      assert t[..end][n..] == t[n..][..end - n];
    }
  }

  /** The rest of a token without its closing quote. */
  function Inner(t: seq<Byte>): seq<Byte>
    requires t != []
  {
    t[..|t| - 1]
  }

  /** The rest of a string token: it ends with the closing quote. */
  predicate Tail(t: seq<Byte>) {
    t != [] && StringEnd(t) == |t|
  }

  lemma PlainStep(t: seq<Byte>)
    requires Tail(t) && |t| > 1 && t[0] != BACKSLASH
    ensures Tail(t[1..]) && Unescaped(Inner(t)) == Prefixed([t[0]], Unescaped(Inner(t[1..])))
  {
    assert Inner(t)[1..] == Inner(t[1..]);
  }

  lemma ShortStep(t: seq<Byte>)
    requires Tail(t) && t[0] == BACKSLASH && |t| >= 2 && t[1] != 117
    ensures |t| > 2 && Tail(t[2..]) && Unescaped(Inner(t)) == Prefixed([ShortMeaning(t[1])], Unescaped(Inner(t[2..])))
  {
    assert StringEnd(t) == Past(2, StringEnd(t[2..]));
    assert Inner(t)[2..] == Inner(t[2..]);
  }

  /** A Unicode escape, alone or the second one of a pair. */
  lemma UnicodeStep(t: seq<Byte>)
    requires Tail(t) && t[0] == BACKSLASH && |t| >= 2 && t[1] == 117
    ensures |t| > 6 && Tail(t[6..]) && Inner(t)[2..6] == t[2..6] && Inner(t)[6..] == Inner(t[6..])
  {
    assert StringEnd(t) == Past(6, StringEnd(t[6..]));
  }

  lemma UnicodeMeans(t: seq<Byte>)
    requires Tail(t) && t[0] == BACKSLASH && |t| > 6 && t[1] == 117 && Tail(t[6..])
    requires Inner(t)[2..6] == t[2..6] && Inner(t)[6..] == Inner(t[6..])
    ensures !(0xD800 <= Hex4(t[2..6]) <= 0xDBFF) ==>
              Unescaped(Inner(t)) == match ToUnicode(Hex4(t[2..6]), 0)
                                     case Thrown => Thrown
                                     case Text(b) => Prefixed(b, Unescaped(Inner(t[6..])))
  {
    hide StringEnd, Hex4, ToUnicode;
  }

  /** A high surrogate needs an escape right behind it. */
  lemma PairMeans(t: seq<Byte>)
    requires Tail(t) && t[0] == BACKSLASH && |t| > 6 && t[1] == 117 && Tail(t[6..])
    requires 0xD800 <= Hex4(t[2..6]) <= 0xDBFF
    ensures t[6] != BACKSLASH || t[7] != 117 ==> Unescaped(Inner(t)) == Thrown
    ensures t[6] == BACKSLASH ==> |t| > 7
    ensures t[6] == BACKSLASH && t[7] == 117 ==>
              && |t| > 12 && Tail(t[12..])
              && Unescaped(Inner(t)) == match ToUnicode(Hex4(t[2..6]), Hex4(t[8..12]))
                                        case Thrown => Thrown
                                        case Text(b) => Prefixed(b, Unescaped(Inner(t[12..])))
  {
    hide Hex4, ToUnicode;
    assert Inner(t)[2..6] == t[2..6];
    if t[6] == BACKSLASH && t[7] == 117 {
      UnicodeStep(t[6..]);
      assert t[6..][6..] == t[12..];
      assert Inner(t)[8..12] == t[8..12] && Inner(t)[12..] == Inner(t[12..]);
    }
  }

  /** The escape that starts a rest of a token: the text it stands for, and its length. */
  method ReadEscape(t: seq<Byte>) returns (unicode: Text, length: nat)
    requires Tail(t) && t[0] == BACKSLASH
    ensures unicode.Thrown? ==> Unescaped(Inner(t)) == Thrown
    ensures unicode.Text? ==>
              && 0 < length < |t| && Tail(t[length..])
              && Unescaped(Inner(t)) == Prefixed(unicode.bytes, Unescaped(Inner(t[length..])))
  {
    hide StringEnd, Unescaped, Hex4, ToUnicode, Inner;
    AfterBackslash(t);
    if t[1] != 117 {
      ShortStep(t);
      return Text([ShortMeaning(t[1])]), 2;
    }
    UnicodeStep(t);
    var codepoint := Hex4(t[2..6]);
    if 0xD800 <= codepoint <= 0xDBFF {
      PairMeans(t);
      if t[6] != BACKSLASH || t[7] != 117 {
        return Thrown, 0;
      }
      unicode := ToUnicode(codepoint, Hex4(t[8..12]));
      length := 12;
    } else {
      UnicodeMeans(t);
      unicode := ToUnicode(codepoint, 0);
      length := 6;
    }
  }

  lemma AfterBackslash(t: seq<Byte>)
    requires Tail(t) && t[0] == BACKSLASH
    ensures |t| >= 2
  {}

  /** get_string on a whole token: m_start is the opening quote and m_cursor is past the
      closing one. */
  method GetString(token: seq<Byte>) returns (result: Text)
    requires |token| >= 2 && token[0] == QUOTE && Tail(token[1..])
    ensures result == Unescaped(token[1..|token| - 1])
  {
    hide StringEnd, Unescaped, Tail;
    var text, i: nat := [], 1;
    assert Inner(token[1..]) == token[1..|token| - 1];
    while i < |token| - 1
      invariant 1 <= i <= |token| - 1 && Tail(token[i..])
      invariant Unescaped(token[1..|token| - 1]) == Prefixed(text, Unescaped(Inner(token[i..])))
    {
      if token[i] != BACKSLASH {
        PlainStep(token[i..]);
        assert token[i..][1..] == token[i + 1..];
        text := text + [token[i]];
        i := i + 1;
      } else {
        var unicode, length := ReadEscape(token[i..]);
        if unicode.Thrown? {
          return Thrown;
        }
        assert token[i..][length..] == token[i + length..];
        text := text + unicode.bytes;
        i := i + length;
      }
    }
    assert Inner(token[i..]) == [] && Unescaped([]) == Text([]) by { EndsEmpty(); }
    result := Text(text);
  }

  lemma EndsEmpty()
    ensures Unescaped([]) == Text([])
  {}
}
