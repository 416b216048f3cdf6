/** Doubles as common/json.h reads, casts and prints them: strtod rounds to the nearest one,
    the parser takes a whole one of 64 bits for an integer, dump prints a whole one with a
    zero behind the point and any other with fifteen digits. */
module JsonDouble {
  import opened Bytes
  import opened JsonNumber
  import opened Numerals
  import opened Options
  import opened Sequences

  // ---------- products, powers and quotients ----------

  function Times(a: nat, b: nat): (c: nat)
    ensures a > 0 && b > 0 ==> c > 0
  {
    a * b
  }

  function Power(base: nat, n: nat): (p: nat)
    ensures base > 0 ==> p > 0
  {
    if n == 0 then 1 else Times(base, Power(base, n - 1))
  }

  /** The quotient rounded, ties to even. */
  function Rounding(p: nat, d: nat): nat
    requires d > 0
  {
    var k, r := p / d, p % d;
    if 2 * r < d || (2 * r == d && k % 2 == 0) then k else k + 1
  }

  lemma MoreMultiples(a: int, k: int, d: nat)
    requires a > k
    ensures a * d >= k * d + d
  {
    var e := a - k - 1;
    assert (k + 1 + e) * d == k * d + d + e * d;
    assert e * d >= 0;
  }

  lemma QuotientIs(p: nat, d: nat, k: nat, r: nat)
    requires d > 0 && p == k * d + r && r < d
    ensures p / d == k && p % d == r
  {
    var a := p / d;
    assert p == a * d + p % d;
    if a > k {
      MoreMultiples(a, k, d);
    } else if a < k {
      MoreMultiples(k, a, d);
    }
  }

  lemma Divides(n: nat, power: nat)
    requires power > 0
    ensures Times(n, power) % power == 0 && Times(n, power) / power == n
  {
    QuotientIs(n * power, power, n, 0);
  }

  lemma Multiplied(n: nat, q: nat, u: nat, k: nat, r: nat)
    requires q > 0 && n == k * u + r && r < u
    ensures n * q == k * (q * u) + r * q && 0 <= r * q < q * u
  {
    assert (k * u + r) * q == k * u * q + r * q;
    assert k * u * q == k * (q * u);
    MoreMultiples(u, r, q);
  }

  lemma Compares(a: nat, b: nat, q: nat)
    requires q > 0
    ensures a * q < q * b <==> a < b
    ensures a * q == q * b <==> a == b
  {}

  /** A fraction expanded has the same quotient and rounds alike. */
  lemma RoundingScales(n: nat, q: nat, u: nat)
    requires q > 0 && u > 0
    ensures Times(q, u) > 0 && Rounding(Times(n, q), Times(q, u)) == Rounding(n, u)
    ensures Times(n, q) / Times(q, u) == n / u
  {
    var k, r := n / u, n % u;
    Multiplied(n, q, u, k, r);
    QuotientIs(n * q, q * u, k, r * q);
    Compares(2 * r, u, q);
    assert 2 * (r * q) == 2 * r * q;
  }

  lemma MultipleRounds(n: nat, u: nat)
    requires u > 0
    ensures Times(Rounding(n, u), u) == n <==> n % u == 0
  {
    var q, r := n / u, n % u;
    assert n == q * u + r && (q + 1) * u == q * u + u;
  }

  lemma TimesCommutes(a: nat, b: nat, c: nat)
    ensures Times(a, b) == Times(b, a)
    ensures Times(Times(a, b), c) == Times(a, Times(b, c))
  {}

  lemma OneTimes(n: nat)
    ensures Times(n, 1) == n == Times(1, n)
  {}

  // ---------- the nearest double ----------

  const TWO52: int := 0x10_0000_0000_0000
  const TWO53: int := 0x20_0000_0000_0000
  const TWO63: int := 0x8000_0000_0000_0000

  /** The distance between doubles from n up to the next power of two, all in the unit of
      the smallest ones. */
  function Ulp(n: nat): (u: nat)
    ensures u >= 1
  {
    if n < TWO53 then 1 else 2 * Ulp(n / 2)
  }

  /** The double nearest to p / q, ties to an even significand, however large. */
  function NearestRatio(p: nat, q: nat): nat
    requires q > 0
  {
    var u := Ulp(p / q);
    Times(Rounding(p, Times(q, u)), u)
  }

  function Nearest(n: nat): nat {
    NearestRatio(n, 1)
  }

  lemma NearestIs(n: nat)
    ensures Nearest(n) == Times(Rounding(n, Ulp(n)), Ulp(n))
  {
    hide Ulp, Rounding, Times;
    OneTimes(Ulp(n));
    assert n / 1 == n;
  }

  lemma NearestExact(n: nat)
    ensures Nearest(n) == n <==> n % Ulp(n) == 0
  {
    hide Ulp, Rounding, Times, Nearest;
    NearestIs(n);
    MultipleRounds(n, Ulp(n));
  }

  lemma SmallIsNearest(n: nat)
    requires n < TWO53
    ensures Nearest(n) == n
  {
    NearestExact(n);
  }

  /** The nearest double depends on the value of the fraction only. */
  lemma NearestScales(p: nat, q: nat, c: nat)
    requires q > 0 && c > 0
    ensures Times(q, c) > 0 && NearestRatio(Times(p, c), Times(q, c)) == NearestRatio(p, q)
  {
    hide Ulp, Rounding, Times;
    TimesCommutes(q, c, 0);
    RoundingScales(p, c, q);
    var u := Ulp(p / q);
    RoundingScales(p, c, Times(q, u));
    TimesCommutes(c, q, u);
  }

  lemma NearestDoubles(n: nat)
    ensures Nearest(2 * n) == 2 * Nearest(n)
  {
    hide Rounding, Nearest;
    if 2 * n < TWO53 {
      SmallIsNearest(2 * n);
      SmallIsNearest(n);
    } else {
      var u := Ulp(n);
      assert Ulp(2 * n) == 2 * u by { assert 2 * n / 2 == n; }
      NearestIs(2 * n);
      NearestIs(n);
      RoundingScales(n, 2, u);
    }
  }

  lemma {:induction false} NearestShifts(n: nat, k: nat)
    ensures Nearest(Times(n, Power(2, k))) == Times(Nearest(n), Power(2, k))
  {
    hide Nearest;
    if k == 0 {
      OneTimes(n);
      OneTimes(Nearest(n));
    } else {
      NearestShifts(n, k - 1);
      NearestDoubles(Times(n, Power(2, k - 1)));
      TwiceTimes(n, Power(2, k - 1));
      TwiceTimes(Nearest(n), Power(2, k - 1));
    }
  }

  lemma TwiceTimes(n: nat, p: nat)
    ensures Times(n, Times(2, p)) == 2 * Times(n, p)
  {}

  // ---------- doubles and texts ----------

  /** The smallest doubles are multiples of 2^-1074; a finite one is below 2^1024. */
  const LOWEST: nat := 1074
  const ABOVE: nat := 2098

  /** A finite double by its sign and the number of 2^-1074 it is. */
  datatype Double = Finite(negative: bool, units: nat) | Infinite(negative: bool) | NotANumber(negative: bool)

  function One(): (units: nat)
    ensures units > 0
  {
    Power(2, LOWEST)
  }

  /** A double has 53 bits. */
  predicate Representable(d: Double) {
    d.Finite? ==> d.units % Ulp(d.units) == 0 && d.units < Power(2, ABOVE)
  }

  /** The double nearest to m times 10^e, in units. */
  function NearestUnits(m: nat, e: int): nat {
    if e >= 0 then NearestRatio(Times(Times(m, Power(10, e)), One()), 1)
    else NearestRatio(Times(m, One()), Power(10, -e))
  }

  /** What strtod returns for it. */
  function Bounded(negative: bool, units: nat): Double {
    if units < Power(2, ABOVE) then Finite(negative, units) else Infinite(negative)
  }

  /** strtod on a number. */
  function ReadDouble(text: seq<Byte>): Double {
    Bounded(SignLength(text) == 1, NearestUnits(Mantissa(text), Exponent(text)))
  }

  /** The whole number that units make, if they do. */
  function WholePart(units: nat): (n: Option<nat>)
    ensures units == 0 ==> n == Some(0)
  {
    if units == 0 then Some(0) else if units % One() == 0 then Some(units / One()) else None
  }

  lemma WholePartOf(n: nat)
    ensures WholePart(Times(n, One())) == Some(n)
  {
    hide One;
    Divides(n, One());
    if Times(n, One()) == 0 && n > 0 { assert false; }
  }

  /** The integer the parser takes a double for: the cast loses nothing, and it is not minus
      zero. */
  function IntegerOf(d: Double): Option<int> {
    if !d.Finite? then None
    else
      match WholePart(d.units)
      case None => None
      case Some(n) => WholeOf(d.negative, n)
  }

  function WholeOf(negative: bool, n: nat): Option<int> {
    if negative then if 0 < n <= TWO63 then Some(-(n as int)) else None
    else if n < TWO63 then Some(n)
    else None
  }

  // ---------- integers and whole doubles read back ----------

  lemma ConvertedWhole(n: nat, q: nat)
    requires q > 0
    ensures NearestRatio(Times(Times(n, q), One()), q) == Nearest(Times(n, One())) == Times(Nearest(n), One())
  {
    hide Times, NearestRatio, Nearest, One;
    TimesCommutes(n, q, One());
    TimesCommutes(q, One(), 0);
    TimesCommutes(n, One(), q);
    NearestScales(Times(n, One()), 1, q);
    OneTimes(q);
    assert NearestRatio(Times(n, One()), 1) == Nearest(Times(n, One())) by { NearestOf(Times(n, One())); }
    ShiftedOne(n);
  }

  lemma NearestOf(n: nat)
    ensures Nearest(n) == NearestRatio(n, 1)
  {}

  lemma ShiftedOne(n: nat)
    ensures Nearest(Times(n, One())) == Times(Nearest(n), One())
  {
    hide Nearest, Times, Power;
    NearestShifts(n, LOWEST);
  }

  lemma {:induction false} PowerSum(b: nat, m: nat, n: nat)
    ensures Power(b, m + n) == Times(Power(b, m), Power(b, n))
  {
    if m == 0 {
      OneTimes(Power(b, n));
    } else {
      PowerSum(b, m - 1, n);
      TimesCommutes(b, Power(b, m - 1), Power(b, n));
    }
  }

  lemma NearestBelow(n: nat)
    ensures Nearest(n) <= 2 * n
  {
    hide Nearest;
    if n < TWO53 {
      SmallIsNearest(n);
    } else {
      NearestIs(n);
      RoundsUp(n, Ulp(n));
      UlpSmall(n);
    }
  }

  /** Doubles are so close that 53 bits tell them apart. */
  lemma {:induction false} UlpSmall(n: nat)
    requires n >= TWO52
    ensures Ulp(n) * TWO52 <= n
  {
    if n >= TWO53 { UlpSmall(n / 2); }
  }

  lemma RoundsUp(n: nat, u: nat)
    requires u > 0
    ensures Times(Rounding(n, u), u) <= n + u
  {
    var q, r := n / u, n % u;
    assert n == q * u + r && (q + 1) * u == q * u + u;
  }

  lemma WideRange()
    ensures Power(2, 1024) > 4 * TWO63
  {
    hide Times, Power;
    PowersOfTwo();
    PowerSum(2, 66, 958);
    TimesGrows(Power(2, 66), Power(2, 958));
  }

  lemma TimesGrows(a: nat, b: nat)
    requires b > 0
    ensures Times(a, b) >= a
  {}

  lemma PowersOfTwo()
    ensures Power(2, 66) > 4 * TWO63
  {
    assert Power(2, 2) == 4 by { assert Power(2, 1) == 2; }
    PowerSum(2, 2, 2);
    PowerSum(2, 4, 4);
    PowerSum(2, 8, 8);
    PowerSum(2, 16, 16);
    PowerSum(2, 32, 32);
    PowerSum(2, 64, 2);
  }

  /** 64-bit integers and what doubles hold of them are in range. */
  lemma InRange(n: nat)
    requires n <= TWO63
    ensures Times(Nearest(n), One()) < Power(2, ABOVE)
  {
    hide Times, Power, Nearest;
    NearestBelow(n);
    WideRange();
    PowerSum(2, 1024, LOWEST);
    TimesLess(Nearest(n), Power(2, 1024), Power(2, LOWEST));
  }

  lemma TimesLess(a: nat, b: nat, c: nat)
    requires a < b && c > 0
    ensures Times(a, c) < Times(b, c)
  {}

  /** A whole double as dump prints it, with one digit behind the point. */
  function WithPoint(negative: bool, n: nat): seq<Byte> {
    Signed(negative, Digits(n)) + [46, 48]
  }

  lemma DecimalReads(n: int)
    ensures var text := Decimal(n);
            && (SignLength(text) == 1 <==> n < 0) && Mantissa(text) == (if n < 0 then -n else n) && Exponent(text) == 0
  {
    hide Digits, DigitsValue, WholeEnd, SignLength;
    var m: nat := if n < 0 then -n else n;
    SignedEnds(n < 0, m, []);
    assert Decimal(n) + [] == Decimal(n);
    NothingFollows([]);
    assert Digits(m) + [] == Digits(m);
    DigitsRead(m);
  }

  lemma WithPointReads(negative: bool, n: nat)
    ensures var text := WithPoint(negative, n);
            && NumberText(text) && (SignLength(text) == 1 <==> negative)
            && Mantissa(text) == 10 * n && Exponent(text) == -1
  {
    hide Digits, DigitsValue, WholeEnd, SignLength;
    var text := WithPoint(negative, n);
    SignedEnds(negative, n, [46, 48]);
    PointZero();
    assert FractionEnd(text) == |text|;
    assert text[|text|..] == [] && text[WholeEnd(text) + 1..|text|] == [48];
    OneMoreDigit(Digits(n), 48);
    DigitsRead(n);
  }

  lemma PointZero()
    ensures FractionLength([46, 48]) == 2 && ExponentLength([]) == 0
  {
    assert [46, 48][1..] == [48] && [48][1..] == [];
  }

  lemma TenPowers(m: nat)
    ensures Power(10, 0) == 1 && Power(10, 1) == 10 && Times(m, 10) == 10 * m && Times(m, 1) == m
  {
    assert Power(10, 1) == Times(10, Power(10, 0));
  }

  /** A whole number is read as the double nearest to it, with or without a point. */
  lemma WholeIsRead(n: nat)
    ensures NearestUnits(n, 0) == NearestUnits(10 * n, -1) == Times(Nearest(n), One())
  {
    hide Times, Power, NearestRatio, Nearest, One;
    TenPowers(n);
    ConvertedWhole(n, 1);
    ConvertedWhole(n, 10);
  }

  lemma WholeCasts(negative: bool, n: nat)
    requires n <= TWO63
    ensures IntegerOf(Bounded(negative, Times(Nearest(n), One()))) == WholeOf(negative, Nearest(n))
  {
    hide Times, Nearest, One, Power, WholeOf, WholePart;
    InRange(n);
    WholePartOf(Nearest(n));
  }

  /** A 64-bit integer as the parser reads it back, printed as an integer or as a double:
      itself exactly when a double holds it. */
  lemma IntegerBack(n: int)
    requires -TWO63 <= n < TWO63
    ensures IntegerOf(ReadDouble(Decimal(n))) == Some(n) <==> Exact(n)
  {
    hide Decimal, IntegerOf, NearestUnits, Nearest, Ulp, Mantissa, Exponent, SignLength, One, Times, Bounded;
    var m: nat := if n < 0 then -n else n;
    DecimalReads(n);
    WholeIsRead(m);
    WholeCasts(n < 0, m);
    NearestExact(m);
  }

  /** A double holds the integer. */
  predicate Exact(n: int) {
    var a := if n < 0 then -n else n;
    a % Ulp(a) == 0
  }

  /** That is so up to 2^53, and not for the next one. */
  lemma SmallIntegersExact(n: int)
    requires -TWO53 <= n <= TWO53
    ensures Exact(n)
  {
    if n == TWO53 || n == -TWO53 { UlpAbove(); }
  }

  lemma UlpAbove()
    ensures Ulp(TWO53) == 2 && Ulp(TWO53 + 1) == 2
  {
    assert TWO53 / 2 < TWO53 && (TWO53 + 1) / 2 < TWO53;
  }

  lemma NextIntegerLost()
    ensures !Exact(TWO53 + 1) && IntegerOf(ReadDouble(Decimal(TWO53 + 1))) == Some(TWO53)
  {
    hide Decimal, IntegerOf, NearestUnits, Mantissa, Exponent, SignLength, One, Bounded;
    UlpAbove();
    DecimalReads(TWO53 + 1);
    WholeIsRead(TWO53 + 1);
    WholeCasts(false, TWO53 + 1);
    NearestIs(TWO53 + 1);
  }

  // ---------- how far the nearest double is ----------

  function Gap(a: int, b: int): nat {
    if a < b then b - a else a - b
  }

  lemma RoundingError(n: nat, d: nat)
    requires d > 0
    ensures 2 * Gap(Times(Rounding(n, d), d), n) <= d
  {
    var k, r := n / d, n % d;
    assert n == k * d + r && (k + 1) * d == k * d + d;
  }

  /** A double of 53 bits is within 2^-52 of what it is read from. */
  lemma NearestError(p: nat, q: nat)
    requires q > 0 && NearestRatio(p, q) >= TWO52
    ensures TWO52 * Gap(Times(NearestRatio(p, q), q), p) <= p
  {
    hide Times, Rounding, Ulp, Gap;
    var n := p / q;
    var u := Ulp(n);
    var d := Times(q, u);
    var k := Rounding(p, d);
    RoundingError(p, d);
    TimesCommutes(k, u, q);
    TimesCommutes(u, q, 0);
    if n >= TWO53 {
      UlpSmall(n);
      WideGap(p, q, u, n);
    } else {
      SmallUlp(n);
      OneTimes(q);
      OneTimes(k);
      NarrowGap(k, p, q);
    }
  }

  lemma SmallUlp(n: nat)
    requires n < TWO53
    ensures Ulp(n) == 1
  {}

  lemma WideGap(p: nat, q: nat, u: nat, n: nat)
    requires q > 0 && n == p / q && u * TWO52 <= n
    ensures TWO52 * Times(q, u) <= p
  {
    assert n * q <= p;
    AtLeastTimes(n, u * TWO52, q);
    assert u * TWO52 * q == TWO52 * (q * u);
  }

  lemma AtLeastTimes(a: nat, b: nat, q: nat)
    requires a >= b
    ensures a * q >= b * q
  {}

  lemma NarrowGap(k: nat, p: nat, q: nat)
    requires k >= TWO52 && 2 * Gap(Times(k, q), p) <= q
    ensures TWO52 * Gap(Times(k, q), p) <= p
  {
    AtLeastTimes(k, TWO52, q);
  }

  // ---------- which numbers a subnormal double is nearest to ----------

  lemma RoundingIs(p: nat, q: nat, k: nat)
    requires q > 0
    ensures Rounding(p, q) == k <==> 2 * Gap(Times(k, q), p) < q || (2 * Gap(Times(k, q), p) == q && k % 2 == 0)
  {
    hide Times;
    var a := p / q;
    Divided(p, q);
    TimesNext(a, q);
    if k < a {
      TimesNext(k, q);
      TimesUp(k + 1, a, q);
    } else if k > a + 1 {
      TimesNext(a + 1, q);
      TimesUp(a + 2, k, q);
    } else {
      Parity(a);
    }
  }

  lemma Divided(p: nat, q: nat)
    requires q > 0
    ensures p == Times(p / q, q) + p % q
  {}

  lemma TimesNext(a: nat, q: nat)
    ensures Times(a + 1, q) == Times(a, q) + q
  {}

  lemma TimesUp(a: nat, b: nat, q: nat)
    requires a <= b
    ensures Times(a, q) <= Times(b, q)
  {
    AtLeastTimes(b, a, q);
  }

  lemma Parity(a: nat)
    ensures (a + 1) % 2 == 0 <==> a % 2 != 0
  {}

  lemma LargeStaysLarge(p: nat, q: nat)
    requires q > 0 && p / q >= TWO53
    ensures NearestRatio(p, q) >= TWO52
  {
    hide Times, Rounding, Ulp;
    var n := p / q;
    var u := Ulp(n);
    var d := Times(q, u);
    var k := Rounding(p, d);
    RoundingError(p, d);
    TimesCommutes(k, u, q);
    TimesCommutes(u, q, 0);
    UlpSmall(n);
    WideGap(p, q, u, n);
    LargeQuotient(NearestRatio(p, q), p, q);
  }

  lemma LargeQuotient(k: nat, p: nat, q: nat)
    requires q > 0 && p / q >= TWO53 && TWO52 * (2 * Gap(Times(k, q), p)) <= p
    ensures k >= TWO52
  {
    AtLeastTimes(p / q, TWO53, q);
    assert p / q * q <= p;
    if k < TWO52 { AtLeastTimes(TWO52, k, q); }
  }

  /** Subnormal doubles are one unit apart: a number is read as the nearest, ties to even. */
  lemma SubnormalIff(p: nat, q: nat, k: nat)
    requires q > 0 && k < TWO52
    ensures NearestRatio(p, q) == k
       <==> 2 * Gap(Times(k, q), p) < q || (2 * Gap(Times(k, q), p) == q && k % 2 == 0)
  {
    hide Times, Rounding, Ulp, Gap, NearestRatio;
    if p / q >= TWO53 {
      LargeStaysLarge(p, q);
      WideApart(k, p, q);
    } else {
      SmallRatio(p, q);
      RoundingIs(p, q, k);
    }
  }

  lemma WideApart(k: nat, p: nat, q: nat)
    requires q > 0 && k < TWO52 && p / q >= TWO53
    ensures Gap(Times(k, q), p) > q
  {
    AtLeastTimes(p / q, TWO53, q);
    assert p / q * q <= p;
    AtLeastTimes(TWO52, k, q);
  }

  lemma SmallRatio(p: nat, q: nat)
    requires q > 0 && p / q < TWO53
    ensures NearestRatio(p, q) == Rounding(p, q)
  {
    hide Times, Rounding;
    SmallUlp(p / q);
    OneTimes(q);
    OneTimes(Rounding(p, q));
  }
}
