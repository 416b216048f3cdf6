/** Decimal and hexadecimal numbers in ASCII, and the sizes of machine words. */
module Numerals {
  import opened Bytes
  import opened Sequences

  const TWO31: nat := 0x8000_0000
  const TWO32: nat := 0x1_0000_0000
  const TWO64: nat := 0x1_0000_0000_0000_0000

  predicate Digit(c: Byte) {
    48 <= c <= 57
  }

  /** What operator<< prints for an unsigned number. */
  function Digits(n: nat): (d: seq<Byte>)
    ensures d != []
    ensures forall i :: 0 <= i < |d| ==> Digit(d[i])
    ensures d[0] == 48 ==> n == 0 && d == [48]
  {
    if n < 10 then [48 + n] else Digits(n / 10) + [48 + n % 10]
  }

  /** A lower-case hexadecimal digit. */
  function HexDigit(d: nat): (digit: Byte)
    requires d < 16
    ensures 48 <= digit <= 57 || 97 <= digit <= 102
  {
    if d < 10 then 48 + d else 97 + d - 10
  }

  /** The value of a hexadecimal digit, in either case; -1 for anything else. */
  function HexValue(b: Byte): (v: int)
    ensures -1 <= v < 16
  {
    if 48 <= b <= 57 then b - 48
    else if 97 <= b <= 102 then b - 97 + 10
    else if 65 <= b <= 70 then b - 65 + 10
    else -1
  }

  lemma HexDigitValue(d: nat)
    requires d < 16
    ensures HexValue(HexDigit(d)) == d
  {}

  /** What "%x", or operator<< after std::hex, prints for an unsigned number. */
  function Hex(n: nat): (digits: seq<Byte>)
    ensures digits != []
  {
    if n < 16 then [HexDigit(n)] else Hex(n / 16) + [HexDigit(n % 16)]
  }

  /** The same with setfill('0') and setw(8). */
  function PaddedHex(n: nat): seq<Byte> {
    if |Hex(n)| < 8 then Repeated<Byte>(48, 8 - |Hex(n)|) + Hex(n) else Hex(n)
  }

  /** The number that digits stand for, the most significant one first. */
  function HexNumber(digits: seq<Byte>): int {
    if digits == [] then 0 else HexNumber(digits[..|digits| - 1]) * 16 + HexValue(digits[|digits| - 1])
  }

  predicate LowerHex(digits: seq<Byte>) {
    forall i :: 0 <= i < |digits| ==> 48 <= digits[i] <= 57 || 97 <= digits[i] <= 102
  }

  lemma {:induction false} HexReads(n: nat)
    ensures HexNumber(Hex(n)) == n && LowerHex(Hex(n))
  {
    if n < 16 {
      HexDigitValue(n);
      assert Hex(n)[..0] == [];
    } else {
      HexReads(n / 16);
      HexDigitValue(n % 16);
      assert Hex(n)[..|Hex(n)| - 1] == Hex(n / 16);
    }
  }

  lemma {:induction false} ZerosReadNothing(zeros: nat, digits: seq<Byte>)
    ensures HexNumber(Repeated<Byte>(48, zeros) + digits) == HexNumber(digits)
    decreases zeros + |digits|
  {
    var all := Repeated<Byte>(48, zeros) + digits;
    if digits != [] {
      ZerosReadNothing(zeros, digits[..|digits| - 1]);
      assert all[..|all| - 1] == Repeated<Byte>(48, zeros) + digits[..|digits| - 1];
    } else if zeros > 0 {
      ZerosReadNothing(zeros - 1, []);
      assert all[..|all| - 1] == Repeated<Byte>(48, zeros - 1) + [];
    }
  }

  function Power16(k: nat): (p: nat)
    ensures p >= 1
  {
    if k == 0 then 1 else 16 * Power16(k - 1)
  }

  lemma {:induction false} HexLength(n: nat, k: nat)
    requires k >= 1 && n < Power16(k)
    ensures |Hex(n)| <= k
  {
    if n >= 16 {
      assert Power16(1) == 16;
      HexLength(n / 16, k - 1);
    }
  }

  /** Digits read back as the number printed, and are eight if it is below 2^32. */
  lemma PaddedHexReads(n: nat)
    requires n < TWO32
    ensures |PaddedHex(n)| == 8 && LowerHex(PaddedHex(n)) && HexNumber(PaddedHex(n)) == n
  {
    hide Hex, HexNumber;
    HexReads(n);
    assert Power16(8) == TWO32 by {
      assert Power16(4) == 0x1_0000;
    }
    HexLength(n, 8);
    if |Hex(n)| < 8 {
      ZerosReadNothing(8 - |Hex(n)|, Hex(n));
    }
  }
}
