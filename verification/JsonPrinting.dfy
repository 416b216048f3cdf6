/** Printing a double with the fifteen digits of common/json.h, and what comes back when the
    text is read: which numbers a double keeps, and which doubles their text keeps. */
module JsonPrinting {
  import opened Bytes
  import opened JsonDouble
  import opened JsonNumber
  import opened Numerals
  import opened Options
  import opened Sequences

  // ---------- the digits ----------

  const TEN14: int := 100_000_000_000_000
  const TEN15: int := 1000_000_000_000_000

  /** The fraction p / q times 10^e. */
  datatype Quantity = Quantity(p: nat, q: nat, e: int)

  function Lowered(p: nat, q: nat, e: int): (s: Quantity)
    requires p > 0 && q > 0
    ensures s.p == p && s.q > 0 && p < TEN15 * s.q
    decreases p - q
  {
    if p < TEN15 * q then Quantity(p, q, e) else Lowered(p, 10 * q, e + 1)
  }

  function Raised(p: nat, q: nat, e: int): (s: Quantity)
    requires p > 0 && q > 0 && p < TEN15 * q
    ensures s.q == q && TEN14 * q <= s.p < TEN15 * q
    decreases TEN14 * q - p
  {
    if p >= TEN14 * q then Quantity(p, q, e) else Raised(10 * p, q, e - 1)
  }

  /** The power of ten for which fifteen digits are before the point. */
  function Normal(p: nat, q: nat): (s: Quantity)
    requires p > 0 && q > 0
    ensures s.q > 0 && TEN14 * s.q <= s.p < TEN15 * s.q
  {
    var s := Lowered(p, q, 0);
    Raised(s.p, s.q, s.e)
  }

  /** An integer times a power of ten. */
  datatype Scientific = Scientific(digits: nat, e: int)

  /** The fifteen digits of p / q, or a one with fifteen zeros. */
  function Fifteen(p: nat, q: nat): (s: Scientific)
    requires p > 0 && q > 0
    ensures s.digits > 0
  {
    var n := Normal(p, q);
    RoundingBounds(n.p, n.q);
    Scientific(Rounding(n.p, n.q), n.e)
  }

  lemma RoundingBounds(p: nat, q: nat)
    requires q > 0 && TEN14 * q <= p < TEN15 * q
    ensures TEN14 <= Rounding(p, q) <= TEN15
  {
    var k, r := p / q, p % q;
    assert p == k * q + r;
    if k < TEN14 { MoreMultiples(TEN14, k, q); }
    if k >= TEN15 { AtLeast(k, TEN15, q); }
  }

  lemma AtLeast(k: int, bound: int, q: nat)
    requires k >= bound
    ensures k * q >= bound * q
  {}

  // ---------- the text ----------

  function Stripped(digits: nat, e: int): (s: Scientific)
    requires digits > 0
    ensures s.digits > 0
  {
    if digits % 10 == 0 then Stripped(digits / 10, e + 1) else Scientific(digits, e)
  }

  /** operator<< of a double in the default notation: an exponent below -4 or from the
      precision on goes behind an e, with at least two digits. */
  function Layout(digits: nat, e: int): seq<Byte>
    requires digits > 0
  {
    var s, n := Digits(digits), |Digits(digits)|;
    var x := e + n - 1;
    if x < -4 || x >= 15 then Parts(s[..1], s[1..], ExponentPart(x))
    else if e >= 0 then Parts(s + Repeated<Byte>(48, e), [], [])
    else if x >= 0 then Parts(s[..x + 1], s[x + 1..], [])
    else Parts([48], Repeated<Byte>(48, -x - 1) + s, [])
  }

  function Parts(whole: seq<Byte>, fraction: seq<Byte>, exponent: seq<Byte>): seq<Byte> {
    whole + (if fraction == [] then [] else [46] + fraction) + exponent
  }

  function ExponentPart(x: int): seq<Byte> {
    var d := Digits(if x < 0 then -x else x);
    [101, if x < 0 then 45 else 43] + (if |d| < 2 then [48] + d else d)
  }

  /** What dump prints. */
  function PrintDouble(d: Double): seq<Byte> {
    match d
    case Finite(negative, units) =>
      (match WholePart(units)
       case Some(n) => WithPoint(negative, n)
       case None =>
         var s := Fifteen(units, One());
         var t := Stripped(s.digits, s.e);
         Signed(negative, Layout(t.digits, t.e)))
    case Infinite(negative) => Signed(negative, [105, 110, 102])
    case NotANumber(negative) => Signed(negative, [110, 97, 110])
  }

  // ---------- reading the text ----------

  predicate AllDigits(d: seq<Byte>) {
    forall i :: 0 <= i < |d| ==> Digit(d[i])
  }

  /** Nothing but an exponent. */
  predicate ExponentText(x: seq<Byte>) {
    x == [] || (x[0] == 101 && ExponentLength(x) == |x|)
  }

  lemma PartsRead(w: seq<Byte>, f: seq<Byte>, x: seq<Byte>)
    requires AllDigits(w) && w != [] && (w[0] == 48 ==> |w| == 1) && AllDigits(f) && ExponentText(x)
    ensures var text := Parts(w, f, x);
            && NumberText(text) && text[0] == w[0] && SignLength(text) == 0
            && Mantissa(text) == DigitsValue(w + f) && Exponent(text) == ExponentValue(x) - |f|
  {
    hide DigitsValue, ExponentValue, SignLength, WholeEnd, FractionEnd, NumberText, Parts, AllDigits, ExponentText;
    PartsEnd(w, f, x);
    PartsAt(w, f, x);
    assert w + [] == w;
  }

  lemma PartsEnd(w: seq<Byte>, f: seq<Byte>, x: seq<Byte>)
    requires AllDigits(w) && w != [] && (w[0] == 48 ==> |w| == 1) && AllDigits(f) && ExponentText(x)
    ensures var text := Parts(w, f, x);
            && SignLength(text) == 0 && WholeEnd(text) == |w|
            && FractionEnd(text) == |w| + (if f == [] then 0 else 1 + |f|)
            && NumberText(text)
  {
    hide ExponentLength, WholeEnd, SignLength, FractionLength, Parts, AllDigits;
    WholeReads(w, f, x);
    FractionReads(f, x);
    PartsAt(w, f, x);
    NoExponent();
  }

  lemma PartsAt(w: seq<Byte>, f: seq<Byte>, x: seq<Byte>)
    requires w != []
    ensures var text, end := Parts(w, f, x), |w| + if f == [] then 0 else 1 + |f|;
            && end <= |text| && text[0] == w[0] && text[0..|w|] == w && text[end..] == x && |text| == end + |x|
            && (f != [] ==> text[|w| + 1..end] == f)
  {}

  lemma WholeReads(w: seq<Byte>, f: seq<Byte>, x: seq<Byte>)
    requires AllDigits(w) && w != [] && (w[0] == 48 ==> |w| == 1) && ExponentText(x)
    ensures var text := Parts(w, f, x);
            && SignLength(text) == 0 && WholeEnd(text) == |w|
            && text[|w|..] == (if f == [] then [] else [46] + f) + x
  {
    hide DigitRun, ExponentLength;
    var text, behind := Parts(w, f, x), (if f == [] then [] else [46] + f) + x;
    assert text == w + behind && text[0..] == text && Digit(w[0]);
    DigitRunOver(w, behind);
  }

  lemma FractionReads(f: seq<Byte>, x: seq<Byte>)
    requires AllDigits(f) && ExponentText(x)
    ensures FractionLength((if f == [] then [] else [46] + f) + x) == if f == [] then 0 else 1 + |f|
  {
    hide DigitRun, ExponentLength;
    if f == [] {
      assert [] + x == x;
    } else {
      var behind := [46] + f + x;
      assert behind[1..] == f + x && behind[1] == f[0] && Digit(f[0]);
      DigitRunOver(f, x);
    }
  }

  lemma ExponentRead(x: int)
    ensures ExponentText(ExponentPart(x)) && ExponentValue(ExponentPart(x)) == x
  {
    hide Digits, DigitRun, DigitsValue;
    var n: nat := if x < 0 then -x else x;
    var d := Digits(n);
    var two := if |d| < 2 then [48] + d else d;
    DigitRunOver(two, []);
    assert two + [] == two && ExponentPart(x)[2..] == two && Digit(two[0]);
    DigitsRead(n);
    ZerosInFront(1, d);
    assert Repeated<Byte>(48, 1) == [48];
  }

  lemma {:induction false} ZerosInFront(k: nat, d: seq<Byte>)
    ensures DigitsValue(Repeated<Byte>(48, k) + d) == DigitsValue(d)
    decreases k + |d|
  {
    var all := Repeated<Byte>(48, k) + d;
    if d != [] {
      ZerosInFront(k, d[..|d| - 1]);
      assert all[..|all| - 1] == Repeated<Byte>(48, k) + d[..|d| - 1];
    } else if k > 0 {
      ZerosInFront(k - 1, []);
      assert all[..|all| - 1] == Repeated<Byte>(48, k - 1) + [];
    }
  }

  lemma {:induction false} ZerosBehind(d: seq<Byte>, k: nat)
    ensures DigitsValue(d + Repeated<Byte>(48, k)) == Times(DigitsValue(d), Power(10, k))
  {
    hide DigitsValue;
    if k == 0 {
      assert d + Repeated<Byte>(48, 0) == d;
      TenPowers(DigitsValue(d));
    } else {
      ZerosBehind(d, k - 1);
      assert d + Repeated<Byte>(48, k) == (d + Repeated<Byte>(48, k - 1)) + [48];
      OneMoreDigit(d + Repeated<Byte>(48, k - 1), 48);
      TenTimes(DigitsValue(d), Power(10, k - 1));
    }
  }

  lemma TenTimes(n: nat, p: nat)
    ensures Times(n, Times(10, p)) == Times(n, p) * 10
  {}

  // ---------- values ----------

  function P10(e: int): (r: real)
    ensures r > 0.0
    decreases if e < 0 then -e else e
  {
    if e == 0 then 1.0 else if e > 0 then 10.0 * P10(e - 1) else P10(e + 1) / 10.0
  }

  lemma P10Next(e: int)
    ensures P10(e + 1) == 10.0 * P10(e)
  {}

  function RealTimes(a: real, b: real): real {
    a * b
  }

  function Value(digits: nat, e: int): real {
    RealTimes(digits as real, P10(e))
  }

  lemma ValueNext(digits: nat, e: int)
    ensures Value(10 * digits, e) == Value(digits, e + 1)
  {
    P10Next(e);
  }

  lemma {:induction false} ValueShifts(digits: nat, e: int, k: nat)
    ensures Value(Times(digits, Power(10, k)), e) == Value(digits, e + k)
    decreases k
  {
    hide Value, Times;
    if k == 0 {
      TenPowers(digits);
    } else {
      ValueShifts(digits, e + 1, k - 1);
      TenTimes(digits, Power(10, k - 1));
      ValueNext(Times(digits, Power(10, k - 1)), e);
    }
  }

  lemma {:induction false} StrippedValue(digits: nat, e: int)
    requires digits > 0
    ensures var t := Stripped(digits, e); Value(t.digits, t.e) == Value(digits, e)
  {
    if digits % 10 == 0 {
      StrippedValue(digits / 10, e + 1);
      TenPowers(digits / 10);
      ValueShifts(digits / 10, e, 1);
    }
  }

  /** The text has the value it was laid out for. */
  lemma LayoutReads(digits: nat, e: int)
    requires digits > 0
    ensures var text := Layout(digits, e);
            && NumberText(text) && Digit(text[0])
            && Value(Mantissa(text), Exponent(text)) == Value(digits, e)
  {
    hide Digits, DigitsValue, Parts, ExponentPart, NumberText, Mantissa, Exponent, Value, ExponentText;
    var s, n := Digits(digits), |Digits(digits)|;
    var x := e + n - 1;
    DigitsRead(digits);
    NoExponent();
    if x < -4 || x >= 15 {
      assert s[..1] + s[1..] == s;
      ExponentRead(x);
      PartsRead(s[..1], s[1..], ExponentPart(x));
    } else if e >= 0 {
      var zeros := Repeated<Byte>(48, e);
      PartsRead(s + zeros, [], []);
      assert s + zeros + [] == s + zeros;
      ZerosBehind(s, e);
      ValueShifts(digits, 0, e);
    } else if x >= 0 {
      assert s[..x + 1] + s[x + 1..] == s;
      PartsRead(s[..x + 1], s[x + 1..], []);
    } else {
      var zeros := Repeated<Byte>(48, -x - 1);
      PartsRead([48], zeros + s, []);
      assert [48] + (zeros + s) == Repeated<Byte>(48, -x) + s;
      ZerosInFront(-x, s);
    }
  }

  lemma NoExponent()
    ensures ExponentText([]) && ExponentValue([]) == 0 && ExponentLength([]) == 0
  {}

  /** A sign in front changes nothing else. */
  lemma SignedReads(negative: bool, t: seq<Byte>)
    requires NumberText(t) && Digit(t[0])
    ensures var text := Signed(negative, t);
            && NumberText(text) && (SignLength(text) == 1 <==> negative)
            && Mantissa(text) == Mantissa(t) && Exponent(text) == Exponent(t)
  {
    hide WholeLength, FractionLength, ExponentLength, DigitsValue, ExponentValue;
    if negative {
      var text := [45] + t;
      assert text[1..] == t == t[0..];
      var whole := WholeEnd(t);
      assert WholeEnd(text) == 1 + whole && text[1 + whole..] == t[whole..];
      var end := FractionEnd(t);
      assert FractionEnd(text) == 1 + end && text[1 + end..] == t[end..];
      assert text[1..1 + whole] == t[0..whole];
      if whole < end { assert text[1 + whole + 1..1 + end] == t[whole + 1..end]; }
    }
  }

  // ---------- fifteen digits survive ----------

  function Ratio(p: nat, q: nat): real
    requires q > 0
  {
    p as real / q as real
  }

  lemma RatioTen(p: nat, q: nat)
    requires q > 0
    ensures Ratio(10 * p, q) == 10.0 * Ratio(p, q) && Ratio(p, 10 * q) == Ratio(p, q) / 10.0
  {}

  lemma MovesTen(a: real, e: int)
    ensures RealTimes(a / 10.0, P10(e + 1)) == RealTimes(a, P10(e)) == RealTimes(10.0 * a, P10(e - 1))
  {
    P10Next(e);
    P10Next(e - 1);
  }

  lemma {:induction false} LoweredValue(p: nat, q: nat, e: int)
    requires p > 0 && q > 0
    ensures var s := Lowered(p, q, e); RealTimes(Ratio(s.p, s.q), P10(s.e)) == RealTimes(Ratio(p, q), P10(e))
    decreases p - q
  {
    hide Ratio, RealTimes, P10;
    if p >= TEN15 * q {
      LoweredValue(p, 10 * q, e + 1);
      RatioTen(p, q);
      MovesTen(Ratio(p, q), e);
    }
  }

  lemma {:induction false} RaisedValue(p: nat, q: nat, e: int)
    requires p > 0 && q > 0 && p < TEN15 * q
    ensures var s := Raised(p, q, e); RealTimes(Ratio(s.p, s.q), P10(s.e)) == RealTimes(Ratio(p, q), P10(e))
    decreases TEN14 * q - p
  {
    hide Ratio, RealTimes, P10;
    if p < TEN14 * q {
      RaisedValue(10 * p, q, e - 1);
      RatioTen(p, q);
      MovesTen(Ratio(p, q), e);
    }
  }

  /** The printed digits are the nearest ones at their power of ten. */
  ghost predicate Rounds(digits: nat, e: int, x: real) {
    && TEN14 as real * P10(e) <= x < TEN15 as real * P10(e)
    && -P10(e) <= 2.0 * (Value(digits, e) - x) <= P10(e)
  }

  lemma FifteenRounds(p: nat, q: nat)
    requires p > 0 && q > 0
    ensures var s := Fifteen(p, q); Rounds(s.digits, s.e, Ratio(p, q))
  {
    hide Ratio, RealTimes, P10, Lowered, Raised, Rounding;
    var low, n := Lowered(p, q, 0), Normal(p, q);
    LoweredValue(p, q, 0);
    RaisedValue(low.p, low.q, low.e);
    UnitPlace(Ratio(p, q));
    RoundedRatio(n.p, n.q);
    Placed(Rounding(n.p, n.q), Ratio(n.p, n.q), n.e);
  }

  lemma UnitPlace(x: real)
    ensures RealTimes(x, P10(0)) == x
  {}

  lemma RoundedRatio(p: nat, q: nat)
    requires q > 0 && TEN14 * q <= p < TEN15 * q
    ensures TEN14 as real <= Ratio(p, q) < TEN15 as real
    ensures -1.0 <= 2.0 * (Rounding(p, q) as real - Ratio(p, q)) <= 1.0
  {
    hide Rounding, Ratio;
    RoundingError(p, q);
    RatioBounds(p, q, TEN14);
    RatioBounds(p, q, TEN15);
    RatioGap(Rounding(p, q), p, q);
  }

  lemma RatioBounds(p: nat, q: nat, bound: int)
    requires q > 0
    ensures bound * q <= p <==> bound as real <= Ratio(p, q)
  {
    hide Ratio, RealTimes;
    RatioTimes(p, q);
    IntProduct(bound, q);
    Cancels(Ratio(p, q), bound as real, q as real);
  }

  lemma IntProduct(a: int, b: nat)
    ensures (a * b) as real == RealTimes(a as real, b as real)
  {}

  lemma RatioTimes(p: nat, q: nat)
    requires q > 0
    ensures RealTimes(Ratio(p, q), q as real) == p as real
  {}

  lemma RatioGap(k: nat, p: nat, q: nat)
    requires q > 0 && 2 * Gap(Times(k, q), p) <= q
    ensures -1.0 <= 2.0 * (k as real - Ratio(p, q)) <= 1.0
  {
    hide Ratio, RealTimes, Times;
    RatioTimes(p, q);
    RealProduct(k, q);
    WithinHalf(k as real, Ratio(p, q), q as real);
  }

  /** A distance of half a unit, and its multiple. */
  lemma WithinHalf(a: real, b: real, q: real)
    requires q > 0.0
    ensures -1.0 <= 2.0 * (a - b) <= 1.0 <==> -q <= 2.0 * (RealTimes(a, q) - RealTimes(b, q)) <= q
  {
    hide RealTimes;
    var g := 2.0 * (a - b);
    Spread(a, b, q);
    Cancels(1.0, g, q);
    Cancels(g, -1.0, q);
  }

  lemma Spread(a: real, b: real, q: real)
    ensures RealTimes(2.0 * (a - b), q) == 2.0 * (RealTimes(a, q) - RealTimes(b, q))
    ensures RealTimes(1.0, q) == q && RealTimes(-1.0, q) == -q
  {}

  lemma Cancels(a: real, b: real, q: real)
    requires q > 0.0
    ensures RealTimes(a, q) >= RealTimes(b, q) <==> a >= b
  {}

  lemma Multiple(c: int, q: real)
    ensures RealTimes(c as real, q) == c as real * q
  {}

  lemma Placed(digits: nat, y: real, e: int)
    requires TEN14 as real <= y < TEN15 as real && -1.0 <= 2.0 * (digits as real - y) <= 1.0
    ensures Rounds(digits, e, RealTimes(y, P10(e)))
  {
    hide P10, RealTimes;
    var t := P10(e);
    Cancels(y, TEN14 as real, t);
    Cancels(y, TEN15 as real, t);
    Multiple(TEN14, t);
    Multiple(TEN15, t);
    WithinHalf(digits as real, y, t);
  }

  /** x is as near to w as a double of 53 bits is. */
  ghost predicate Near(x: real, w: real) {
    -w <= TWO52 as real * (x - w) <= w
  }

  lemma ValueBounds(digits: nat, e: int, bound: int)
    ensures digits >= bound ==> Value(digits, e) >= bound as real * P10(e)
    ensures digits <= bound ==> Value(digits, e) <= bound as real * P10(e)
  {
    hide P10, RealTimes;
    Multiple(bound, P10(e));
    Cancels(digits as real, bound as real, P10(e));
    Cancels(bound as real, digits as real, P10(e));
  }

  /** Multiples of a power of ten that are closer than it are the same. */
  lemma SameMultiple(a: nat, b: nat, e: int)
    requires -P10(e) < Value(a, e) - Value(b, e) < P10(e)
    ensures a == b
  {
    hide P10, Value;
    ValueStep(a, b, e);
    ValueStep(b, a, e);
  }

  lemma ValueStep(a: nat, b: nat, e: int)
    ensures a > b ==> Value(a, e) >= Value(b, e) + P10(e)
  {
    hide P10, RealTimes;
    if a > b {
      ValueBounds(a, e, b + 1);
      Multiple(b, P10(e));
      OneMore(b, P10(e));
    }
  }

  lemma OneMore(b: int, q: real)
    ensures (b + 1) as real * q == b as real * q + q
  {}

  lemma {:induction false} P10Grows(i: int, j: int)
    requires j < i
    ensures P10(i) >= 10.0 * P10(j)
    ensures j + 1 < i ==> P10(i) >= 100.0 * P10(j)
    decreases i - j
  {
    hide P10;
    P10Next(i - 1);
    if j + 1 < i { P10Grows(i - 1, j); }
  }

  lemma NearBounds(x: real, w: real)
    requires Near(x, w)
    ensures -w <= 4503599627370496.0 * (x - w) <= w
  {}

  /** The numbers in this lemma and the next two are those of Rounds and ValueBounds. */
  lemma SamePlace(x: real, w: real, printed: real, t: real)
    requires t > 0.0 && w <= 999_999_999_999_999.0 * t && -w <= 4503599627370496.0 * (x - w) <= w
    requires -t <= 2.0 * (printed - x) <= t
    ensures -t < printed - w < t
  {}

  /** The double fell below the power of ten that its decimal is. */
  lemma PlaceBelow(x: real, w: real, printed: real, t: real, u: real)
    requires t > 0.0 && u >= 10.0 * t && -w <= 4503599627370496.0 * (x - w) <= w
    requires 100_000_000_000_000.0 * u <= w <= 999_999_999_999_999.0 * u
    requires x < 1000_000_000_000_000.0 * t && -t <= 2.0 * (printed - x) <= t
    ensures w < 100_000_000_000_001.0 * u && u < 100.0 * t
    ensures u == 10.0 * t && w == 100_000_000_000_000.0 * u ==> -t < printed - 1000_000_000_000_000.0 * t < t
  {}

  lemma PlaceAbove(x: real, w: real, t: real, u: real)
    requires u > 0.0 && t >= 10.0 * u && w <= 999_999_999_999_999.0 * u
    requires 4503599627370496.0 * (x - w) <= w
    ensures x < 100_000_000_000_000.0 * t
  {}

  lemma RoundsBounds(digits: nat, e: int, x: real)
    requires Rounds(digits, e, x)
    ensures 100_000_000_000_000.0 * P10(e) <= x < 1000_000_000_000_000.0 * P10(e)
    ensures -P10(e) <= 2.0 * (Value(digits, e) - x) <= P10(e)
  {
    hide P10, Value;
  }

  /** Fifteen digits as a value between powers of ten. */
  lemma DigitsBounds(d: nat, e: int)
    ensures TEN14 <= d < TEN15 ==> 100_000_000_000_000.0 * P10(e) <= Value(d, e) <= 999_999_999_999_999.0 * P10(e)
    ensures d > TEN14 ==> Value(d, e) >= 100_000_000_000_001.0 * P10(e)
    ensures d == TEN14 ==> Value(d, e) == 100_000_000_000_000.0 * P10(e)
    ensures d == TEN15 ==> Value(d, e) == 1000_000_000_000_000.0 * P10(e)
  {
    hide P10, Value;
    ValueBounds(d, e, TEN14);
    ValueBounds(d, e, TEN14 + 1);
    ValueBounds(d, e, TEN15 - 1);
    ValueBounds(d, e, TEN15);
  }

  lemma PrintsBelow(d: nat, i: int, printed: nat, j: int, x: real)
    requires TEN14 <= d < TEN15 && Near(x, Value(d, i)) && Rounds(printed, j, x) && j < i
    ensures d == TEN14 && i == j + 1 && printed == TEN15
  {
    hide P10, Value, Near, Rounds;
    DigitsBounds(d, i);
    NearBounds(x, Value(d, i));
    RoundsBounds(printed, j, x);
    P10Grows(i, j);
    PlaceBelow(x, Value(d, i), Value(printed, j), P10(j), P10(i));
    P10Next(j);
    DigitsBounds(TEN15, j);
    SameMultiple(printed, TEN15, j);
  }

  /** Fifteen digits that a double is near to are the fifteen digits it is printed with. */
  lemma PrintsBack(d: nat, i: int, printed: nat, j: int, x: real)
    requires TEN14 <= d < TEN15 && Near(x, Value(d, i)) && Rounds(printed, j, x)
    ensures Value(printed, j) == Value(d, i)
  {
    hide P10, Value, Near, Rounds;
    if j < i {
      PrintsBelow(d, i, printed, j, x);
      P10Next(j);
      DigitsBounds(TEN14, i);
      DigitsBounds(TEN15, j);
    } else {
      DigitsBounds(d, i);
      NearBounds(x, Value(d, i));
      RoundsBounds(printed, j, x);
      if j == i {
        SamePlace(x, Value(d, i), Value(printed, j), P10(j));
        SameMultiple(printed, d, i);
      } else {
        P10Grows(j, i);
        PlaceAbove(x, Value(d, i), P10(j), P10(i));
        assert false;
      }
    }
  }

  lemma {:induction false} NormalDigits(m: nat, e: int) returns (d: nat, i: int)
    requires 0 < m < TEN15
    ensures TEN14 <= d < TEN15 && Value(d, i) == Value(m, e)
    decreases TEN15 - m
  {
    hide Value;
    if m >= TEN14 {
      d, i := m, e;
    } else {
      ValueNext(m, e - 1);
      d, i := NormalDigits(10 * m, e - 1);
    }
  }

  // ---------- reading and values ----------

  lemma P10Inverse(k: nat)
    ensures Power(10, k) as real * P10(-(k as int)) == 1.0
  {
    hide P10, Power;
    ValueShifts(1, -(k as int), k);
    OneTimes(Power(10, k));
    TenPowers(1);
    assert P10(0) == 1.0 by { UnitPlace(1.0); }
  }

  /** A number with a power of ten as a fraction. */
  lemma ValueIsRatio(m: nat, e: int)
    ensures e >= 0 ==> Value(m, e) == Ratio(Times(m, Power(10, e)), 1)
    ensures e < 0 ==> Value(m, e) == Ratio(m, Power(10, -e))
  {
    hide P10, Power;
    if e >= 0 {
      ValueShifts(m, 0, e);
      UnitPlace(Times(m, Power(10, e)) as real);
    } else {
      P10Inverse(-e);
      Inverse(m as real, Power(10, -e) as real, P10(e));
    }
  }

  lemma Inverse(m: real, q: real, r: real)
    requires q > 0.0 && q * r == 1.0
    ensures m * r == m / q
  {
    assert m * (q * r) == m * q * r;
  }

  /** The error bound of reading, as a distance of values. */
  lemma RatioError(units: nat, one: nat, p: nat, q: nat)
    requires one > 0 && q > 0
    requires TWO52 * Gap(Times(units, q), Times(p, one)) <= Times(p, one)
    ensures Near(Ratio(units, one), Ratio(p, q))
  {
    hide Times, Gap, Ratio, Near, RealTimes;
    var x, w, a, b := Ratio(units, one), Ratio(p, q), one as real, q as real;
    GapReal(Times(units, q), Times(p, one));
    RealProduct(units, q);
    RealProduct(p, one);
    RatioTimes(units, one);
    RatioTimes(p, q);
    CrossTerms(x, w, a, b);
    NearScaled(x, w, RealTimes(a, b));
  }

  lemma GapReal(a: nat, b: nat)
    requires TWO52 * Gap(a, b) <= b
    ensures -(b as real) <= TWO52 as real * (a as real - b as real) <= b as real
  {}

  lemma RealProduct(a: nat, b: nat)
    ensures Times(a, b) as real == RealTimes(a as real, b as real)
  {}

  lemma CrossTerms(x: real, w: real, a: real, b: real)
    requires a > 0.0 && b > 0.0
    ensures RealTimes(a, b) > 0.0
    ensures RealTimes(w, RealTimes(a, b)) == RealTimes(RealTimes(w, b), a)
    ensures RealTimes(x - w, RealTimes(a, b)) == RealTimes(RealTimes(x, a), b) - RealTimes(RealTimes(w, b), a)
  {
    assert x * (a * b) == x * a * b && w * (a * b) == w * b * a;
  }

  lemma NearScaled(x: real, w: real, z: real)
    requires z > 0.0
    requires -RealTimes(w, z) <= TWO52 as real * RealTimes(x - w, z) <= RealTimes(w, z)
    ensures Near(x, w)
  {
    hide RealTimes;
    var g := TWO52 as real * (x - w);
    ScaledProduct(x - w, z);
    Negated(w, z);
    Cancels(w, g, z);
    Cancels(g, -w, z);
  }

  lemma ScaledProduct(g: real, z: real)
    ensures RealTimes(TWO52 as real * g, z) == TWO52 as real * RealTimes(g, z)
  {}

  lemma Negated(w: real, z: real)
    ensures RealTimes(-w, z) == -RealTimes(w, z)
  {}

  /** A double of 53 bits is near to the number it is read from. */
  lemma ReadNear(m: nat, e: int)
    requires NearestUnits(m, e) >= TWO52
    ensures Near(Ratio(NearestUnits(m, e), One()), Value(m, e))
  {
    hide NearestRatio, Times, Power, Ratio, Gap, Near, Value, One;
    ValueIsRatio(m, e);
    var p, q := if e >= 0 then Times(m, Power(10, e)) else m, if e >= 0 then 1 else Power(10, -e);
    NearestError(Times(p, One()), q);
    RatioError(NearestUnits(m, e), One(), p, q);
  }

  /** The digits of a double that was read from at most fifteen are those. */
  lemma FifteenDigitsKept(m: nat, e: int)
    requires 0 < m < TEN15 && NearestUnits(m, e) >= TWO52
    ensures var s := Fifteen(NearestUnits(m, e), One()); Value(s.digits, s.e) == Value(m, e)
  {
    hide NearestUnits, Value, Fifteen, Near, Rounds, Ratio, One;
    var units := NearestUnits(m, e);
    var s := Fifteen(units, One());
    var d, i := NormalDigits(m, e);
    ReadNear(m, e);
    FifteenRounds(units, One());
    PrintsBack(d, i, s.digits, s.e, Ratio(units, One()));
  }

  // ---------- printing is nearest ----------

  function Far(a: real, b: real): real {
    if a < b then b - a else a - b
  }

  /** No multiple of the power of ten is nearer than the printed one. */
  lemma NoMultipleNearer(printed: nat, e: int, other: nat, x: real)
    requires Rounds(printed, e, x)
    ensures Far(Value(printed, e), x) <= Far(Value(other, e), x)
  {
    hide P10, Value;
    ValueStep(printed, other, e);
    ValueStep(other, printed, e);
    RoundsBounds(printed, e, x);
  }

  /** Neither is any decimal of up to fifteen digits: with a larger power of ten it is such a
      multiple, with a smaller one it lies below one. */
  lemma NoDecimalNearer(printed: nat, j: int, m: nat, e: int, x: real)
    requires Rounds(printed, j, x) && m < TEN15
    ensures Far(Value(printed, j), x) <= Far(Value(m, e), x)
  {
    hide P10, Value, Rounds, Far;
    if e >= j {
      ValueShifts(m, j, e - j);
      NoMultipleNearer(printed, j, Times(m, Power(10, e - j)), x);
    } else {
      NoMultipleNearer(printed, j, TEN14, x);
      RoundsBounds(printed, j, x);
      DigitsBounds(TEN14, j);
      ValueBounds(m, e, TEN15);
      P10Grows(j, e);
      BelowIsFarther(Value(m, e), Value(TEN14, j), x);
    }
  }

  lemma BelowIsFarther(a: real, b: real, x: real)
    requires a <= b <= x
    ensures Far(b, x) <= Far(a, x)
  {}

  // ---------- which doubles come back ----------

  /** The fraction of a number, expanded so that its denominator is 10^k. */
  lemma Expanded(m: nat, e: int, k: nat)
    requires e + k >= 0
    ensures NearestUnits(m, e) == NearestRatio(Times(Times(m, Power(10, e + k)), One()), Power(10, k))
  {
    hide NearestRatio, Times, Power, One;
    var p, q, c := if e >= 0 then Times(m, Power(10, e)) else m, if e >= 0 then 1 else Power(10, -e),
                   Power(10, if e >= 0 then k else e + k);
    NearestScales(Times(p, One()), q, c);
    Reorders(p, One(), c);
    if e >= 0 {
      PowerSum(10, e, k);
      TimesCommutes(m, Power(10, e), c);
      OneTimes(c);
    } else {
      PowerSum(10, -e, e + k);
    }
  }

  lemma Reorders(a: nat, b: nat, c: nat)
    ensures Times(Times(a, b), c) == Times(Times(a, c), b)
  {}

  /** What a number is read as depends on its value only. */
  lemma SameValueSameUnits(m: nat, e: int, n: nat, f: int)
    requires Value(m, e) == Value(n, f)
    ensures NearestUnits(m, e) == NearestUnits(n, f)
  {
    hide NearestUnits, Value, Times, Power, One, NearestRatio;
    var k: nat := (if e < 0 then -e else 0) + if f < 0 then -f else 0;
    Expanded(m, e, k);
    Expanded(n, f, k);
    ValueShifts(m, -(k as int), e + k);
    ValueShifts(n, -(k as int), f + k);
    SameDigits(Times(m, Power(10, e + k)), Times(n, Power(10, f + k)), -(k as int));
  }

  lemma SameDigits(a: nat, b: nat, e: int)
    requires Value(a, e) == Value(b, e)
    ensures a == b
  {
    hide Value;
    SameMultiple(a, b, e);
  }

  lemma FarScales(a: real, b: real, z: real)
    requires z > 0.0
    ensures RealTimes(Far(a, b), z) == Far(RealTimes(a, z), RealTimes(b, z))
  {
    hide RealTimes;
    Cancels(a, b, z);
    Cancels(b, a, z);
    Subtracts(a, b, z);
    Subtracts(b, a, z);
  }

  lemma Subtracts(a: real, b: real, z: real)
    ensures RealTimes(a - b, z) == RealTimes(a, z) - RealTimes(b, z)
  {}

  lemma GapFar(a: nat, b: nat)
    ensures Gap(a, b) as real == Far(b as real, a as real)
  {}

  /** A digit string at 10^-k, times 10^k times the units of one. */
  lemma ValueUnits(a: nat, k: nat, one: nat)
    ensures RealTimes(Value(a, -(k as int)), RealTimes(one as real, Power(10, k) as real)) == Times(a, one) as real
  {
    hide P10, Power;
    P10Inverse(k);
    Cancelled(a as real, P10(-(k as int)), one as real, Power(10, k) as real);
  }

  lemma Cancelled(a: real, r: real, b: real, q: real)
    requires q * r == 1.0
    ensures RealTimes(RealTimes(a, r), RealTimes(b, q)) == a * b
  {
    assert a * r * (b * q) == a * b * (q * r);
  }

  lemma RatioUnits(units: nat, one: nat, q: nat)
    requires one > 0
    ensures RealTimes(Ratio(units, one), RealTimes(one as real, q as real)) == Times(units, q) as real
  {
    var x := Ratio(units, one);
    assert x * one as real == units as real;
    assert x * (one as real * q as real) == x * one as real * q as real;
  }

  /** Which of two numbers is nearer to a double, in units. */
  lemma NearerInUnits(a: nat, b: nat, k: nat, units: nat)
    requires Far(Value(b, -(k as int)), Ratio(units, One())) <= Far(Value(a, -(k as int)), Ratio(units, One()))
    ensures var q := Power(10, k);
            Gap(Times(units, q), Times(b, One())) <= Gap(Times(units, q), Times(a, One()))
  {
    hide P10, Power, Value, Ratio, RealTimes, Far, Gap, Times, One;
    var q, x := Power(10, k), Ratio(units, One());
    var z := RealTimes(One() as real, q as real);
    PositiveProduct(One() as real, q as real);
    ValueUnits(a, k, One());
    ValueUnits(b, k, One());
    RatioUnits(units, One(), q);
    FarScales(Value(a, -(k as int)), x, z);
    FarScales(Value(b, -(k as int)), x, z);
    Cancels(Far(Value(a, -(k as int)), x), Far(Value(b, -(k as int)), x), z);
    GapFar(Times(units, q), Times(a, One()));
    GapFar(Times(units, q), Times(b, One()));
  }

  lemma PositiveProduct(a: real, b: real)
    requires a > 0.0 && b > 0.0
    ensures RealTimes(a, b) > 0.0
  {}

  /** What is no farther from a subnormal double than a number read as it is read as it too. */
  lemma NearerReadsAlike(m: nat, e: int, n: nat, f: int)
    requires NearestUnits(m, e) < TWO52
    requires var x := Ratio(NearestUnits(m, e), One()); Far(Value(n, f), x) <= Far(Value(m, e), x)
    ensures NearestUnits(n, f) == NearestUnits(m, e)
  {
    hide NearestUnits, Value, Times, Power, One, NearestRatio, Ratio, Far, Gap;
    var k: nat := (if e < 0 then -e else 0) + if f < 0 then -f else 0;
    var units, q := NearestUnits(m, e), Power(10, k);
    var a, b := Times(m, Power(10, e + k)), Times(n, Power(10, f + k));
    Expanded(m, e, k);
    Expanded(n, f, k);
    ValueShifts(m, -(k as int), e + k);
    ValueShifts(n, -(k as int), f + k);
    NearerInUnits(a, b, k, units);
    SubnormalIff(Times(a, One()), q, units);
    SubnormalIff(Times(b, One()), q, units);
  }

  /** The double of some decimal of up to fifteen digits. */
  ghost predicate FromFifteen(units: nat) {
    exists m: nat, e: int :: 0 < m < TEN15 && NearestUnits(m, e) == units
  }

  lemma SomeFifteen(m: nat, e: int)
    requires 0 < m < TEN15
    ensures FromFifteen(NearestUnits(m, e))
  {
    hide NearestUnits;
  }

  /** What is read from the text of a double that is not whole. */
  lemma FractionReads15(negative: bool, units: nat)
    requires units > 0 && WholePart(units) == None
    ensures var s, text := Fifteen(units, One()), PrintDouble(Finite(negative, units));
            && NumberText(text)
            && Value(Mantissa(text), Exponent(text)) == Value(s.digits, s.e)
            && ReadDouble(text) == Bounded(negative, NearestUnits(s.digits, s.e))
  {
    hide Fifteen, WholePart, Stripped, Layout, Signed, Mantissa, Exponent, SignLength, NumberText, Value, NearestUnits,
      Bounded, One;
    var s := Fifteen(units, One());
    var t := Stripped(s.digits, s.e);
    StrippedValue(s.digits, s.e);
    LayoutReads(t.digits, t.e);
    var body := Layout(t.digits, t.e);
    SignedReads(negative, body);
    SameValueSameUnits(Mantissa(body), Exponent(body), s.digits, s.e);
  }

  /** The text of a double is read as that double if any decimal of up to fifteen digits is:
      with 53 bits the digits are the decimal's own, with fewer the text is no farther. */
  lemma PrintedReadsAlike(m: nat, e: int)
    requires 0 < m < TEN15 && NearestUnits(m, e) > 0
    ensures var s := Fifteen(NearestUnits(m, e), One()); NearestUnits(s.digits, s.e) == NearestUnits(m, e)
  {
    hide NearestUnits, Fifteen, Value, Ratio, One, Far, Rounds;
    var units := NearestUnits(m, e);
    var s := Fifteen(units, One());
    if units >= TWO52 {
      FifteenDigitsKept(m, e);
      SameValueSameUnits(m, e, s.digits, s.e);
    } else {
      FifteenRounds(units, One());
      NoDecimalNearer(s.digits, s.e, m, e, Ratio(units, One()));
      NearerReadsAlike(m, e, s.digits, s.e);
    }
  }

  /** A double that is not whole comes back from its text as itself if and only if it is the
      double of some decimal of up to fifteen digits. */
  lemma FractionBackIff(negative: bool, units: nat)
    requires units > 0 && WholePart(units) == None && Representable(Finite(negative, units))
    ensures var d := Finite(negative, units); ReadDouble(PrintDouble(d)) == d <==> FromFifteen(units)
  {
    hide PrintDouble, ReadDouble, Fifteen, NearestUnits, Value, WholePart, One, Power;
    FractionReads15(negative, units);
    var s := Fifteen(units, One());
    FifteenBounds(units, One());
    if s.digits < TEN15 {
      SomeFifteen(s.digits, s.e);
    } else {
      ValueShifts(1, s.e, 15);
      TenToFifteen();
      SameValueSameUnits(s.digits, s.e, 1, s.e + 15);
      SomeFifteen(1, s.e + 15);
    }
    if FromFifteen(units) {
      var m: nat, e: int :| 0 < m < TEN15 && NearestUnits(m, e) == units;
      PrintedReadsAlike(m, e);
    }
  }

  lemma FifteenBounds(p: nat, q: nat)
    requires p > 0 && q > 0
    ensures TEN14 <= Fifteen(p, q).digits <= TEN15
  {
    var n := Normal(p, q);
    RoundingBounds(n.p, n.q);
  }

  lemma TenToFifteen()
    ensures Times(1, Power(10, 15)) == TEN15
  {
    OneTimes(Power(10, 15));
    PowerSum(10, 5, 10);
    PowerSum(10, 5, 5);
    assert Power(10, 5) == 100000 by {
      assert Power(10, 2) == 100 by { TenPowers(1); }
      PowerSum(10, 2, 2);
      PowerSum(10, 4, 1);
      TenPowers(1);
    }
  }

  lemma WholeUnits(units: nat)
    requires WholePart(units).Some?
    ensures Times(WholePart(units).value, One()) == units
  {
    hide One;
    var u := One();
    assert units == units / u * u + units % u;
  }

  /** The text is a number of this sign and of the value of these digits. */
  predicate Denotes(text: seq<Byte>, negative: bool, digits: nat, e: int) {
    && NumberText(text) && (SignLength(text) == 1 <==> negative)
    && Value(Mantissa(text), Exponent(text)) == Value(digits, e)
  }

  /** Two texts are the same number. */
  predicate SameNumber(printed: seq<Byte>, text: seq<Byte>) {
    Denotes(printed, SignLength(text) == 1, Mantissa(text), Exponent(text))
  }

  /** What is dumped of a number that was parsed: an integer where a cast to one loses
      nothing, and else the double. */
  function Reprinted(text: seq<Byte>): seq<Byte> {
    PrintNumber(ReadDouble(text))
  }

  function PrintNumber(d: Double): seq<Byte> {
    match IntegerOf(d)
    case Some(n) => Decimal(n)
    case None => PrintDouble(d)
  }

  /** The whole number that digits and a power of ten make, if they do. */
  function WholeValue(digits: nat, e: int): Option<nat> {
    if e >= 0 then Some(Times(digits, Power(10, e)))
    else if digits % Power(10, -e) == 0 then Some(digits / Power(10, -e))
    else None
  }

  lemma WholeValueIs(digits: nat, e: int, n: nat)
    ensures Value(digits, e) == Value(n, 0) <==> WholeValue(digits, e) == Some(n)
  {
    hide Value, Times, Power;
    if e >= 0 {
      ValueShifts(digits, 0, e);
      if Value(digits, e) == Value(n, 0) { SameDigits(Times(digits, Power(10, e)), n, 0); }
    } else {
      var q := Power(10, -e);
      ValueShifts(n, e, -e);
      if Value(digits, e) == Value(n, 0) {
        SameDigits(digits, Times(n, q), e);
        Divides(n, q);
      } else if WholeValue(digits, e) == Some(n) {
        Divided(digits, q);
      }
    }
  }

  /** A whole double is printed as the number it is. */
  lemma WholePrints(d: Double, n: nat)
    requires d.Finite? && WholePart(d.units) == Some(n)
    ensures Denotes(PrintNumber(d), d.negative, n, 0)
  {
    hide WithPoint, Decimal, Value, WholePart, Mantissa, Exponent, SignLength, NumberText;
    match IntegerOf(d)
    case Some(i) =>
      DecimalIsNumber(i);
      DecimalReads(i);
    case None =>
      WithPointReads(d.negative, n);
      ValueNext(n, -1);
  }

  lemma FractionPrints(d: Double)
    requires d.Finite? && WholePart(d.units) == None
    ensures PrintNumber(d) == PrintDouble(d)
  {
    hide PrintDouble, WholePart;
  }

  /** A whole number, however many digits it has, is printed as the double nearest to it,
      which is another number unless a double holds it. */
  lemma WholeComesBackIff(text: seq<Byte>, n: nat)
    requires NumberText(text) && ReadDouble(text).Finite?
    requires WholeValue(Mantissa(text), Exponent(text)) == Some(n)
    ensures var d := ReadDouble(text);
            && WholePart(d.units) == Some(Nearest(n))
            && (SameNumber(Reprinted(text), text) <==> Exact(n))
  {
    hide PrintNumber, Value, WholePart, WholeValue, One, Times, Nearest, Ulp, NearestUnits;
    hide Mantissa, Exponent, SignLength, NumberText;
    WholeValueIs(Mantissa(text), Exponent(text), n);
    SameValueSameUnits(Mantissa(text), Exponent(text), n, 0);
    WholeIsRead(n);
    WholePartOf(Nearest(n));
    WholePrints(ReadDouble(text), Nearest(n));
    assert ReadDouble(text).negative == (SignLength(text) == 1);
    if Value(Nearest(n), 0) == Value(n, 0) { SameDigits(Nearest(n), n, 0); }
    NearestExact(n);
  }

  /** A decimal of up to fifteen digits over a power of ten that is read as a whole number is
      that number. */
  lemma ReadAsWhole(m: nat, e: int, n: nat)
    requires 0 < m < TEN15 && e < 0
    requires NearestUnits(m, e) >= TWO52 && WholePart(NearestUnits(m, e)) == Some(n)
    ensures Value(m, e) == Value(n, 0)
  {
    hide Fifteen, NearestUnits, Value, WholePart, One, Times, Nearest, P10, Ratio, Near;
    var units := NearestUnits(m, e);
    WholeUnits(units);
    WholeIsBelow(m, e, n);
    WholeIsRead(n);
    SmallIsNearest(n);
    FifteenDigitsKept(m, e);
    FifteenDigitsKept(n, 0);
  }

  lemma WholeIsBelow(m: nat, e: int, n: nat)
    requires 0 < m < TEN15 && e < 0
    requires NearestUnits(m, e) >= TWO52 && NearestUnits(m, e) == Times(n, One())
    ensures 0 < n < TEN15
  {
    hide NearestUnits, Value, One, P10, Near;
    ReadNear(m, e);
    NearBounds(Ratio(Times(n, One()), One()), Value(m, e));
    ValueBounds(m, e, TEN15);
    P10Grows(0, e);
    UnitPlace(1.0);
    assert Ratio(Times(n, One()), One()) == n as real;
  }

  /** No digits of the same value are fewer than those without the zeros behind them. */
  lemma StrippedLeast(m: nat, e: int, n: nat, f: int)
    requires m > 0 && Value(n, f) == Value(m, e)
    ensures Stripped(m, e).digits <= n
  {
    hide Value, Stripped, Times;
    var s := Stripped(m, e);
    StrippedValue(m, e);
    StrippedEnds(m, e);
    if f > s.e {
      var p := Power(10, f - s.e - 1);
      ValueShifts(n, s.e, f - s.e);
      SameDigits(s.digits, Times(n, Times(10, p)), s.e);
      TenTimes(n, p);
    } else {
      ValueShifts(s.digits, f, s.e - f);
      SameDigits(n, Times(s.digits, Power(10, s.e - f)), f);
      TimesGrows(s.digits, Power(10, s.e - f));
    }
  }

  lemma {:induction false} StrippedEnds(m: nat, e: int)
    requires m > 0
    ensures Stripped(m, e).digits % 10 != 0
  {
    if m % 10 == 0 { StrippedEnds(m / 10, e + 1); }
  }

  /** A number that is not whole and has at most fifteen digits is not read as a whole double,
      and keeps its digits. */
  lemma FewDigitsKept(m: nat, e: int)
    requires m > 0 && Stripped(m, e).digits < TEN15 && WholeValue(m, e) == None
    requires NearestUnits(m, e) >= TWO52
    ensures WholePart(NearestUnits(m, e)) == None
    ensures var p := Fifteen(NearestUnits(m, e), One()); Value(p.digits, p.e) == Value(m, e)
  {
    hide NearestUnits, Fifteen, Value, WholePart, One, Stripped, Times, Power;
    var s, units := Stripped(m, e), NearestUnits(m, e);
    StrippedValue(m, e);
    SameValueSameUnits(m, e, s.digits, s.e);
    if s.e >= 0 {
      WholeValueIs(s.digits, s.e, Times(s.digits, Power(10, s.e)));
      WholeValueIs(m, e, Times(s.digits, Power(10, s.e)));
    } else {
      if WholePart(units).Some? {
        ReadAsWhole(s.digits, s.e, WholePart(units).value);
        WholeValueIs(m, e, WholePart(units).value);
      }
      FifteenDigitsKept(s.digits, s.e);
    }
  }

  lemma PrintedAreFew(m: nat, e: int, units: nat)
    requires m > 0 && units > 0
    requires var p := Fifteen(units, One()); Value(p.digits, p.e) == Value(m, e)
    ensures Stripped(m, e).digits < TEN15
  {
    hide Fifteen, Value, One, Stripped, Times, Power;
    var p := Fifteen(units, One());
    FifteenBounds(units, One());
    if p.digits < TEN15 {
      StrippedLeast(m, e, p.digits, p.e);
    } else {
      ValueShifts(1, p.e, 15);
      TenToFifteen();
      StrippedLeast(m, e, 1, p.e + 15);
    }
  }

  lemma ZeroIsRead(e: int)
    ensures NearestUnits(0, e) == 0
  {
    hide Power, One;
    WholeIsRead(0);
    SmallIsNearest(0);
    ValueZero(e);
    SameValueSameUnits(0, e, 0, 0);
  }

  lemma ValueZero(e: int)
    ensures Value(0, e) == Value(0, 0)
  {}

  /** A number read as a normal double is printed as the same number if and only if it is a
      whole one that a double holds, or not whole and of at most fifteen digits, the zeros
      behind them left out. */
  lemma NumberComesBackIff(text: seq<Byte>)
    requires NumberText(text)
    requires ReadDouble(text).Finite? && ReadDouble(text).units >= TWO52
    ensures Mantissa(text) > 0
    ensures SameNumber(Reprinted(text), text) <==>
            match WholeValue(Mantissa(text), Exponent(text))
            case Some(n) => Exact(n)
            case None => Stripped(Mantissa(text), Exponent(text)).digits < TEN15
  {
    hide PrintNumber, Fifteen, NearestUnits, Value, WholeValue, WholePart, One, Stripped, Exact;
    hide Mantissa, Exponent, SignLength, NumberText;
    var d, m, e := ReadDouble(text), Mantissa(text), Exponent(text);
    ZeroIsRead(e);
    match WholeValue(m, e)
    case Some(n) => WholeComesBackIff(text, n);
    case None =>
      if Stripped(m, e).digits < TEN15 { FewDigitsKept(m, e); }
      match WholePart(d.units)
      case Some(n) =>
        WholePrints(d, n);
        WholeValueIs(m, e, n);
      case None =>
        FractionPrints(d);
        FractionReads15(d.negative, d.units);
        var p := Fifteen(d.units, One());
        if Value(p.digits, p.e) == Value(m, e) { PrintedAreFew(m, e, d.units); }
  }

  /** A decimal of up to fifteen digits that is read as a normal double is printed as the
      same number, unless it is a whole number that no double holds, which has more than
      fifteen digits when it is written without an exponent. */
  lemma DecimalComesBack(text: seq<Byte>)
    requires NumberText(text) && 0 < Mantissa(text) < TEN15
    requires var d := ReadDouble(text); d.Finite? && d.units >= TWO52
    ensures SameNumber(Reprinted(text), text)
       <==> Exponent(text) <= 0 || Exact(Times(Mantissa(text), Power(10, Exponent(text))))
  {
    hide PrintNumber, ReadDouble, Value, Stripped, Exact, Mantissa, Exponent, SignLength, NumberText, Power;
    NumberComesBackIff(text);
    StrippedLeast(Mantissa(text), Exponent(text), Mantissa(text), Exponent(text));
    match WholeValue(Mantissa(text), Exponent(text))
    case None =>
    case Some(n) => if Exponent(text) <= 0 { SmallWhole(Mantissa(text), Exponent(text), n); }
  }

  lemma SmallWhole(m: nat, e: int, n: nat)
    requires m < TEN15 && e <= 0 && WholeValue(m, e) == Some(n)
    ensures Exact(n)
  {
    hide Power, Exact;
    if e == 0 {
      TenPowers(m);
    } else {
      assert n <= m by { Divided(m, Power(10, -e)); TimesGrows(n, Power(10, -e)); }
    }
    SmallIntegersExact(n);
  }

  /** 1e23 has one digit and is read as a normal double, which is printed in full and not as
      10^23. */
  lemma OneDigitChanged()
    ensures var text := [49, 101, 50, 51];
            && NumberText(text) && Mantissa(text) == 1 && Exponent(text) == 23
            && ReadDouble(text).Finite? && ReadDouble(text).units >= TWO52
            && !SameNumber(Reprinted(text), text)
  {
    hide PrintNumber, Value, WholePart, One, Power, Times, Nearest, Ulp, Mantissa, Exponent, SignLength, NumberText;
    var text := [49, 101, 50, 51];
    TextOf1e23();
    TenTo23();
    OneTimes(Power(10, 23));
    NearestOf(Times(TEN23, One()));
    ShiftedOne(TEN23);
    RangeOf1e23();
    WholeComesBackIff(text, TEN23);
    UlpOf1e23();
  }

  const TEN23: nat := 100_000_000_000_000_000_000_000

  lemma TextOf1e23()
    ensures var text := [49, 101, 50, 51];
            && NumberText(text) && SignLength(text) == 0 && Mantissa(text) == 1 && Exponent(text) == 23
  {
    hide DigitsValue, SignLength, NumberText, Mantissa, Exponent;
    var w, x: seq<Byte> := [49], [101, 50, 51];
    assert Parts(w, [], x) == [49, 101, 50, 51];
    assert x[1..] == [50, 51] && [50, 51][1..] == [51] && [51][1..] == [];
    PartsRead(w, [], x);
    OneMoreDigit([], 49);
    OneMoreDigit([], 50);
    OneMoreDigit([50], 51);
    assert w + [] == w && [] + w == w && [] + [50] == [50] && [50] + [51] == [50, 51];
    assert DigitsValue([]) == 0 by { NoDigits(); }
  }

  lemma NoDigits()
    ensures DigitsValue([]) == 0
  {}

  lemma TenTo23()
    ensures Power(10, 23) == TEN23
  {
    TenToFifteen();
    OneTimes(Power(10, 15));
    assert Power(10, 8) == 100_000_000 by {
      assert Power(10, 2) == 100 by { TenPowers(1); }
      PowerSum(10, 2, 2);
      PowerSum(10, 4, 4);
    }
    PowerSum(10, 15, 8);
  }

  lemma UlpOf1e23()
    ensures !Exact(TEN23)
  {
    hide Ulp;
    Halvings(TEN23);
    Halvings(TEN23 / 256);
    Halvings(TEN23 / 65536);
    SmallUlp(TEN23 / 16_777_216);
  }

  /** Eight halvings make 256 of the distance between doubles. */
  lemma Halvings(n: nat)
    requires n / 128 >= TWO53
    ensures Ulp(n) == 256 * Ulp(n / 256)
  {
    FourHalvings(n);
    FourHalvings(n / 16);
  }

  lemma FourHalvings(n: nat)
    requires n / 8 >= TWO53
    ensures Ulp(n) == 16 * Ulp(n / 16)
  {
    assert n / 2 / 2 == n / 4 && n / 4 / 2 == n / 8 && n / 8 / 2 == n / 16;
    assert Ulp(n) == 2 * Ulp(n / 2);
    assert Ulp(n / 2) == 2 * Ulp(n / 4);
    assert Ulp(n / 4) == 2 * Ulp(n / 8);
  }

  lemma RangeOf1e23()
    ensures TWO52 <= Times(Nearest(TEN23), One()) < Power(2, ABOVE)
  {
    hide Times, Power, Nearest;
    NearestBelow(TEN23);
    PowersOfTwo();
    PowerSum(2, 66, 66);
    PowerSum(2, 132, 892);
    WideProduct(Power(2, 66));
    TimesGrows(Power(2, 132), Power(2, 892));
    PowerSum(2, 1024, LOWEST);
    TimesLess(Nearest(TEN23), Power(2, 1024), One());
    NearestOf(TEN23);
    LargeStaysLarge(TEN23, 1);
    TimesGrows(Nearest(TEN23), One());
  }

  lemma WideProduct(a: nat)
    requires a > 4 * TWO63
    ensures Times(a, a) > 2 * TEN23
  {}

  /** What is within half a unit of a subnormal double is read as it. */
  lemma CloseReads(n: nat, f: int, units: nat)
    requires units < TWO52
    requires 2.0 * RealTimes(Far(Value(n, f), Ratio(units, One())), One() as real) < 1.0
    ensures NearestUnits(n, f) == units
  {
    hide P10, NearestUnits, Value, Times, Power, One, NearestRatio, Ratio, Far, Gap, RealTimes;
    var k: nat := if f < 0 then -f else 0;
    var q, b := Power(10, k), Times(n, Power(10, f + k));
    var x, z := Ratio(units, One()), RealTimes(One() as real, q as real);
    Expanded(n, f, k);
    ValueShifts(n, -(k as int), f + k);
    PositiveProduct(One() as real, q as real);
    ValueUnits(b, k, One());
    RatioUnits(units, One(), q);
    FarScales(Value(n, f), x, z);
    GapFar(Times(units, q), Times(b, One()));
    HalfOf(Far(Value(n, f), x), One() as real, q as real);
    SubnormalIff(Times(b, One()), q, units);
  }

  lemma HalfOf(g: real, a: real, q: real)
    requires q > 0.0 && 2.0 * RealTimes(g, a) < 1.0
    ensures 2.0 * RealTimes(g, RealTimes(a, q)) < q
  {
    assert g * (a * q) == g * a * q;
    Cancels(2.0 * (g * a), 1.0, q);
    assert 2.0 * (g * a) * q == 2.0 * (g * a * q);
  }

  /** Fifteen digits do not survive a subnormal double that has fewer itself: two decimals of
      fifteen are read as the same double, and at most one of them is what it is printed as. */
  lemma SubnormalLosesDecimal(units: nat) returns (m: nat, e: int)
    requires 0 < 3 * units < TEN14
    ensures 0 < m < TEN15 && NearestUnits(m, e) == units
    ensures var s := Fifteen(units, One()); Value(s.digits, s.e) != Value(m, e)
  {
    hide P10, NearestUnits, Value, Fifteen, Ratio, One, RealTimes, Far, Rounds;
    var s, x := Fifteen(units, One()), Ratio(units, One());
    FifteenRounds(units, One());
    FifteenBounds(units, One());
    RoundsBounds(s.digits, s.e, x);
    m, e := s.digits - 1, s.e;
    ValueStep(s.digits, m, e);
    OneLess(m, e);
    NextFar(Value(s.digits, e), Value(m, e), x, P10(e));
    RatioTimes(units, One());
    SmallStep(Far(Value(m, e), x), x, P10(e), One() as real);
    CloseReads(m, e, units);
  }

  lemma OneLess(m: nat, e: int)
    ensures Value(m + 1, e) == Value(m, e) + P10(e)
  {
    hide P10;
    assert (m + 1) as real * P10(e) == m as real * P10(e) + P10(e);
  }

  lemma NextFar(printed: real, other: real, x: real, t: real)
    requires other == printed - t && -t <= 2.0 * (printed - x) <= t
    ensures 2.0 * Far(other, x) <= 3.0 * t
  {}

  lemma SmallStep(far: real, x: real, t: real, one: real)
    requires one > 0.0 && 2.0 * far <= 3.0 * t && 100_000_000_000_000.0 * t <= x
    requires 3.0 * RealTimes(x, one) < 100_000_000_000_000.0
    ensures 2.0 * RealTimes(far, one) < 1.0
  {
    Cancels(3.0 * x, 200_000_000_000_000.0 * far, one);
    assert 3.0 * x * one == 3.0 * (x * one);
    assert 200_000_000_000_000.0 * far * one == 200_000_000_000_000.0 * (far * one);
  }

  /** A whole double comes back as itself, or as the integer that it is if it has 64 bits
      and is not minus zero. */
  lemma WholeBack(negative: bool, units: nat)
    requires WholePart(units).Some? && Representable(Finite(negative, units))
    ensures NumberText(PrintDouble(Finite(negative, units)))
    ensures ReadDouble(PrintDouble(Finite(negative, units))) == Finite(negative, units)
  {
    hide WithPoint, NearestUnits, Mantissa, Exponent, SignLength, NumberText, One, Ulp, Power, Nearest;
    var n := WholePart(units).value;
    WholeUnits(units);
    WithPointReads(negative, n);
    WholeIsRead(n);
    ShiftedOne(n);
    NearestExact(units);
  }

  lemma PrintedIsNumber(d: Double)
    requires d.Finite?
    ensures NumberText(PrintDouble(d))
  {
    hide WithPoint, Fifteen, NumberText, ReadDouble;
    match WholePart(d.units)
    case Some(n) => WithPointReads(d.negative, n);
    case None => FractionReads15(d.negative, d.units);
  }

  /** A double survives the text and the parser: a whole one if it is out of the range of
      64 bits or minus zero, any other if it is the double of some decimal of up to fifteen
      digits. */
  ghost predicate ComesBack(d: Double) {
    && d.Finite?
    && match WholePart(d.units)
       case Some(n) => WholeOf(d.negative, n) == None
       case None => FromFifteen(d.units)
  }

  lemma DoubleBackIff(d: Double)
    requires d.Finite? && Representable(d)
    ensures var r := ReadDouble(PrintDouble(d)); (IntegerOf(r) == None && r == d) <==> ComesBack(d)
  {
    hide PrintDouble, ReadDouble, WholePart, WholeOf, Representable, FromFifteen;
    match WholePart(d.units)
    case Some(n) => WholeBack(d.negative, d.units);
    case None => FractionBackIff(d.negative, d.units);
  }
}
