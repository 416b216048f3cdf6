/** Numbers in JSON texts, common/json.h: which characters are one, and for what number
    it stands. */
module JsonNumber {
  import opened Bytes
  import opened Numerals
  import JsonString

  // ---------- the grammar ----------

  /** operator<< of an integer. */
  function Decimal(n: int): seq<Byte> {
    Signed(n < 0, Digits(if n < 0 then -n else n))
  }

  function Signed(negative: bool, digits: seq<Byte>): seq<Byte> {
    if negative then [45] + digits else digits
  }

  function DigitRun(s: seq<Byte>): (n: nat)
    ensures n <= |s|
  {
    if s == [] || !Digit(s[0]) then 0 else 1 + DigitRun(s[1..])
  }

  /** The digits before a point: one zero, or any that start with another digit. */
  function WholeLength(s: seq<Byte>): (n: nat)
    ensures n <= |s|
  {
    if s != [] && s[0] == 48 then 1 else DigitRun(s)
  }

  function FractionLength(s: seq<Byte>): (n: nat)
    ensures n <= |s|
  {
    if |s| >= 2 && s[0] == 46 && Digit(s[1]) then 1 + DigitRun(s[1..]) else 0
  }

  function ExponentLength(s: seq<Byte>): (n: nat)
    ensures n <= |s|
  {
    if |s| >= 2 && (s[0] == 69 || s[0] == 101) then
      if Digit(s[1]) then 1 + DigitRun(s[1..])
      else if |s| >= 3 && (s[1] == 43 || s[1] == 45) && Digit(s[2]) then 2 + DigitRun(s[2..])
      else 0
    else 0
  }

  function SignLength(s: seq<Byte>): (n: nat)
    ensures n <= |s|
  {
    if s != [] && s[0] == 45 then 1 else 0
  }

  /** Where the digits before the point end, and those behind it. */
  function WholeEnd(s: seq<Byte>): (n: nat)
    ensures SignLength(s) <= n <= |s|
  {
    SignLength(s) + WholeLength(s[SignLength(s)..])
  }

  function FractionEnd(s: seq<Byte>): (n: nat)
    ensures WholeEnd(s) <= n <= |s|
  {
    WholeEnd(s) + FractionLength(s[WholeEnd(s)..])
  }

  /** The length of the number token at the start of a text, zero for none. */
  function NumberLength(s: seq<Byte>): (n: nat)
    ensures n <= |s|
  {
    if WholeEnd(s) == SignLength(s) then 0 else FractionEnd(s) + ExponentLength(s[FractionEnd(s)..])
  }

  /** Whether strtod, which reads on from the start of the token, stops at its end. It
      goes further over more digits after a zero, a hexadecimal number and a lone point. */
  predicate StrtodAgrees(s: seq<Byte>) {
    var sign, whole := SignLength(s), WholeEnd(s);
    var after := s[whole..];
    if NumberLength(s) != whole || after == [] then true
    else if after[0] == 46 then false
    else if s[sign..whole] != [48] then true
    else if Digit(after[0]) then false
    else if after[0] == 88 || after[0] == 120 then
      !(|after| >= 2 && (JsonString.IsHex(after[1])
                         || (after[1] == 46 && |after| >= 3 && JsonString.IsHex(after[2]))))
    else true
  }

  /** The text is one number and nothing else. */
  predicate NumberText(text: seq<Byte>) {
    text != [] && NumberLength(text) == |text|
  }

  /** What may follow a value in a dump. */
  predicate Delimited(rest: seq<Byte>) {
    rest == [] || rest[0] in {10, 32, 44, 93, 125}
  }

  // ---------- a number and a delimiter ----------

  lemma NothingFollows(rest: seq<Byte>)
    requires Delimited(rest)
    ensures FractionLength(rest) == 0 && ExponentLength(rest) == 0
    ensures rest != [] ==> rest[0] != 46 && rest[0] != 88 && rest[0] != 120 && !Digit(rest[0])
  {}

  lemma {:induction false} DigitRunDelimited(d: seq<Byte>, rest: seq<Byte>)
    requires Delimited(rest)
    ensures DigitRun(d + rest) == DigitRun(d)
  {
    if d == [] {
      assert d + rest == rest;
    } else {
      DigitRunDelimited(d[1..], rest);
      assert (d + rest)[1..] == d[1..] + rest;
    }
  }

  lemma WholeDelimited(s: seq<Byte>, rest: seq<Byte>)
    requires Delimited(rest) && s != []
    ensures WholeLength(s + rest) == WholeLength(s)
  {
    DigitRunDelimited(s, rest);
  }

  lemma FractionDelimited(s: seq<Byte>, rest: seq<Byte>)
    requires Delimited(rest) && |s| != 1
    ensures FractionLength(s + rest) == FractionLength(s)
  {
    if s == [] {
      NothingFollows(rest);
      assert s + rest == rest;
    } else {
      DigitRunDelimited(s[1..], rest);
      assert (s + rest)[1..] == s[1..] + rest;
    }
  }

  lemma ExponentDelimited(s: seq<Byte>, rest: seq<Byte>)
    requires Delimited(rest) && ExponentLength(s) == |s|
    ensures ExponentLength(s + rest) == ExponentLength(s)
  {
    if s == [] {
      NothingFollows(rest);
      assert s + rest == rest;
    } else if Digit(s[1]) {
      DigitRunDelimited(s[1..], rest);
      assert (s + rest)[1..] == s[1..] + rest;
    } else {
      DigitRunDelimited(s[2..], rest);
      assert (s + rest)[2..] == s[2..] + rest;
    }
  }

  /** A number before a delimiter is scanned as what it is on its own. */
  lemma NumberScans(text: seq<Byte>, rest: seq<Byte>)
    requires NumberText(text) && Delimited(rest)
    ensures NumberLength(text + rest) == |text| && StrtodAgrees(text + rest)
  {
    hide WholeLength, FractionLength, ExponentLength;
    var s, sign := text + rest, SignLength(text);
    assert s[sign..] == text[sign..] + rest;
    WholeDelimited(text[sign..], rest);
    var whole := WholeEnd(text);
    assert s[whole..] == text[whole..] + rest;
    OneIsNoFraction(text[whole..]);
    FractionDelimited(text[whole..], rest);
    var fraction := FractionEnd(text);
    assert s[fraction..] == text[fraction..] + rest;
    ExponentDelimited(text[fraction..], rest);
    NothingFollows(rest);
    if whole == |text| { assert s[whole..] == rest; }
  }

  lemma OneIsNoFraction(s: seq<Byte>)
    ensures |s| == 1 ==> FractionLength(s) == 0 && ExponentLength(s) == 0
  {}

  lemma {:induction false} DigitRunOver(d: seq<Byte>, rest: seq<Byte>)
    requires forall i :: 0 <= i < |d| ==> Digit(d[i])
    requires rest == [] || !Digit(rest[0])
    ensures DigitRun(d + rest) == |d|
  {
    if d == [] {
      assert d + rest == rest;
    } else {
      DigitRunOver(d[1..], rest);
      assert (d + rest)[1..] == d[1..] + rest;
    }
  }

  /** Digits without a needless zero in front, behind a sign. */
  lemma SignedEnds(negative: bool, n: nat, rest: seq<Byte>)
    requires rest == [] || !Digit(rest[0])
    ensures var s, sign := Signed(negative, Digits(n)) + rest, if negative then 1 else 0;
            && SignLength(s) == sign && WholeEnd(s) == sign + |Digits(n)|
            && s[sign..WholeEnd(s)] == Digits(n) && s[WholeEnd(s)..] == rest
  {
    hide Digits;
    var d, s := Digits(n), Signed(negative, Digits(n)) + rest;
    assert Digit(d[0]);
    assert s[SignLength(s)..] == d + rest;
    DigitRunOver(d, rest);
  }

  lemma DecimalIsNumber(n: int)
    ensures NumberText(Decimal(n))
  {
    hide Digits, WholeEnd, SignLength;
    SignedEnds(n < 0, if n < 0 then -n else n, []);
    assert Decimal(n) + [] == Decimal(n);
    NothingFollows([]);
  }

  // ---------- the number a text stands for ----------

  function DigitsValue(d: seq<Byte>): nat {
    if d == [] then 0
    else
      var last: int := d[|d| - 1];
      DigitsValue(d[..|d| - 1]) * 10 + if 48 <= last <= 57 then last - 48 else 0
  }

  /** The digits on both sides of the point. */
  function Mantissa(text: seq<Byte>): nat {
    var whole, end := WholeEnd(text), FractionEnd(text);
    DigitsValue(text[SignLength(text)..whole] + if whole < end then text[whole + 1..end] else [])
  }

  /** The power of ten that goes with them. */
  function Exponent(text: seq<Byte>): int {
    var whole, end := WholeEnd(text), FractionEnd(text);
    ExponentValue(text[end..]) - if whole < end then end - whole - 1 else 0
  }

  function ExponentValue(e: seq<Byte>): int {
    if |e| < 2 then 0
    else if e[1] == 45 then -(DigitsValue(e[2..]) as int)
    else if e[1] == 43 then DigitsValue(e[2..])
    else DigitsValue(e[1..])
  }

  lemma {:induction false} DigitsRead(n: nat)
    ensures DigitsValue(Digits(n)) == n
  {
    if n < 10 {
      assert Digits(n)[..0] == [];
    } else {
      DigitsRead(n / 10);
      assert Digits(n)[..|Digits(n)| - 1] == Digits(n / 10);
    }
  }

  lemma OneMoreDigit(d: seq<Byte>, last: Byte)
    requires Digit(last)
    ensures DigitsValue(d + [last]) == DigitsValue(d) * 10 + (last as int - 48)
  {
    assert (d + [last])[..|d|] == d;
  }
}
