/** The glob matcher of compat/fnmatch.c for the flags 0 and FNM_PATHNAME, against
    the language a pattern denotes (section 2.13 of the POSIX.1-2017 Shell Command
    Language). */
module Fnmatch {

  /** A plain `char`, signed. */
  type Char = c: int | -128 <= c < 128

  /** A C string without its terminator. */
  type Text = t: seq<Char> | 0 !in t

  const EOS: Char := 0
  const STAR: Char := 42
  const DASH: Char := 45
  const SLASH: Char := 47
  const QUESTION: Char := 63
  const BANG: Char := 33
  const OPEN: Char := 91
  const BACKSLASH: Char := 92
  const CLOSE: Char := 93
  const CARET: Char := 94

  const FNM_NOMATCH: int := 1

  /** Reading through a pointer into the string: its terminator may be read, what
      lies beyond may not. */
  function At(t: Text, i: nat): Char
    requires i <= |t|
  {
    if i < |t| then t[i] else EOS
  }

  // ---------- bracket expressions ----------

  /** An element of a bracket list; a single character is a range of one. */
  datatype Element = Range(low: Char, high: Char)

  datatype Bracket =
    | Broken
    | Slash
    | Closed(elements: seq<Element>, end: nat)

  function Prepend(e: Element, b: Bracket): Bracket {
    match b
    case Broken => Broken
    case Slash => Slash
    case Closed(elements, end) => Closed([e] + elements, end)
  }

  datatype Step = BadStep | SlashStep | ElementStep(element: Element, next: nat)

  /** One element: a character, or two around a dash. A backslash quotes. */
  function FirstElement(pattern: Text, i: nat, pathname: bool): (s: Step)
    requires i <= |pattern|
    ensures s.ElementStep? ==> i < s.next <= |pattern|
  {
    var quoted := At(pattern, i) == BACKSLASH;
    var low := if quoted then At(pattern, i + 1) else At(pattern, i);
    if low == EOS then BadStep
    else if low == SLASH && pathname then SlashStep
    else
      var j := if quoted then i + 2 else i + 1;
      if At(pattern, j) == DASH && At(pattern, j + 1) != EOS && At(pattern, j + 1) != CLOSE then
        var quotedHigh := At(pattern, j + 1) == BACKSLASH;
        var high := if quotedHigh then At(pattern, j + 2) else At(pattern, j + 1);
        if high == EOS then BadStep
        else ElementStep(Range(low, high), if quotedHigh then j + 3 else j + 2)
      else ElementStep(Range(low, low), j)
  }

  /** The list from index `i`, whose first character stands for itself even when it
      is ']'. A list that meets the end of the pattern is no bracket expression;
      under `pathname` an element may not start with a slash. */
  function Elements(pattern: Text, i: nat, pathname: bool): (b: Bracket)
    requires i <= |pattern|
    ensures b.Closed? ==> i < b.end <= |pattern|
    decreases |pattern| - i
  {
    match FirstElement(pattern, i, pathname)
    case BadStep => Broken
    case SlashStep => Slash
    case ElementStep(e, next) =>
      if At(pattern, next) == CLOSE then Closed([e], next + 1)
      else Prepend(e, Elements(pattern, next, pathname))
  }

  ghost predicate Covers(elements: seq<Element>, c: Char) {
    exists e <- elements :: e.low <= c <= e.high
  }

  function Negated(pattern: Text, i: nat): bool
    requires i <= |pattern|
  {
    At(pattern, i) == BANG || At(pattern, i) == CARET
  }

  function ListStart(pattern: Text, i: nat): (j: nat)
    requires i <= |pattern|
    ensures i <= j <= |pattern|
  {
    if Negated(pattern, i) then i + 1 else i
  }

  /** rangematch: walk the list once, remembering whether an element covered the
      character. */
  datatype RangeResult = RangeError | RangeNoMatch | RangeMatch(next: nat)

  method Rangematch(pattern: Text, start: nat, test: Char, pathname: bool) returns (r: RangeResult)
    requires start <= |pattern|
    ensures match Elements(pattern, ListStart(pattern, start), pathname)
            case Broken => r == RangeError
            case Slash => r == RangeNoMatch
            case Closed(elements, end) =>
              r == if Covers(elements, test) != Negated(pattern, start) then RangeMatch(end) else RangeNoMatch
  {
    hide FirstElement, Covers;
    var negate := Negated(pattern, start);
    var p := if negate then start + 1 else start;
    ghost var list := Elements(pattern, p, pathname);
    ghost var seen: seq<Element> := [];
    var ok := false;
    CoversNothing(test);
    PrependNothing(list);
    while true
      invariant p <= |pattern|
      invariant ok == Covers(seen, test)
      invariant list == PrependAll(seen, Elements(pattern, p, pathname))
      decreases |pattern| - p
    {
      var step := ReadElement(pattern, p, pathname);
      if step == BadStep {
        return RangeError;
      }
      if step == SlashStep {
        return RangeNoMatch;
      }
      var e := step.element;
      if e.low <= test && test <= e.high {
        ok := true;
      }
      CoversMore(seen, e, test);
      PrependOne(seen, e, pattern, p, pathname);
      seen := seen + [e];
      p := step.next;
      if At(pattern, p) == CLOSE {
        return if ok == negate then RangeNoMatch else RangeMatch(p + 1);
      }
    }
  }

  /** The part of the loop body that moves the pattern pointer. */
  method ReadElement(pattern: Text, start: nat, pathname: bool) returns (s: Step)
    requires start <= |pattern|
    ensures s == FirstElement(pattern, start, pathname)
  {
    var p := start;
    var c := At(pattern, p);
    if c == BACKSLASH {
      p := p + 1;
      c := At(pattern, p);
    }
    if c == EOS {
      return BadStep;
    }
    p := p + 1;
    if c == SLASH && pathname {
      return SlashStep;
    }
    if At(pattern, p) == DASH && At(pattern, p + 1) != EOS && At(pattern, p + 1) != CLOSE {
      var c2 := At(pattern, p + 1);
      p := p + 2;
      if c2 == BACKSLASH {
        c2 := At(pattern, p);
        if c2 == EOS {
          return BadStep;
        }
        p := p + 1;
      }
      return ElementStep(Range(c, c2), p);
    }
    return ElementStep(Range(c, c), p);
  }

  ghost function PrependAll(seen: seq<Element>, b: Bracket): Bracket {
    match b
    case Broken => Broken
    case Slash => Slash
    case Closed(elements, end) => Closed(seen + elements, end)
  }

  lemma CoversMore(seen: seq<Element>, e: Element, c: Char)
    ensures Covers(seen + [e], c) == (Covers(seen, c) || e.low <= c <= e.high)
  {
    if Covers(seen, c) {
      var x :| x in seen && x.low <= c <= x.high;
      assert x in seen + [e];
    }
    assert e in seen + [e];
  }

  lemma CoversNothing(c: Char)
    ensures !Covers([], c)
  {}

  lemma PrependNothing(b: Bracket)
    ensures PrependAll([], b) == b
  {
    match b
    case Broken =>
    case Slash =>
    case Closed(elements, end) => assert [] + elements == elements;
  }

  lemma PrependOne(seen: seq<Element>, e: Element, pattern: Text, i: nat, pathname: bool)
    requires i <= |pattern|
    requires FirstElement(pattern, i, pathname).ElementStep? && FirstElement(pattern, i, pathname).element == e
    ensures
      var next := FirstElement(pattern, i, pathname).next;
      PrependAll(seen, Elements(pattern, i, pathname))
      == if At(pattern, next) == CLOSE then Closed(seen + [e], next + 1)
         else PrependAll(seen + [e], Elements(pattern, next, pathname))
  {
    hide FirstElement;
    match Elements(pattern, FirstElement(pattern, i, pathname).next, pathname)
    case Broken =>
    case Slash =>
    case Closed(elements, end) => assert seen + ([e] + elements) == seen + [e] + elements;
  }

  // ---------- the language of a pattern ----------

  datatype Item =
    | AnyChar
    | Star
    | OneOf(negated: bool, elements: seq<Element>)
    | Literal(c: Char)
    | Never

  /** The pattern from index `i`, item by item. A '[' that opens no bracket
      expression is an ordinary character. */
  function Items(pattern: Text, i: nat, pathname: bool): seq<Item>
    requires i <= |pattern|
    decreases |pattern| - i
  {
    var c := At(pattern, i);
    if c == EOS then []
    else if c == QUESTION then [AnyChar] + Items(pattern, i + 1, pathname)
    else if c == STAR then [Star] + Items(pattern, i + 1, pathname)
    else if c == OPEN then
      match Elements(pattern, ListStart(pattern, i + 1), pathname)
      case Broken => [Literal(OPEN)] + Items(pattern, i + 1, pathname)
      case Slash => [Never]
      case Closed(elements, end) => [OneOf(Negated(pattern, i + 1), elements)] + Items(pattern, end, pathname)
    else if c == BACKSLASH && At(pattern, i + 1) != EOS then
      [Literal(At(pattern, i + 1))] + Items(pattern, i + 2, pathname)
    else [Literal(c)] + Items(pattern, i + 1, pathname)
  }

  ghost predicate Fits(item: Item, c: Char, pathname: bool) {
    match item
    case AnyChar => !(pathname && c == SLASH)
    case OneOf(negated, elements) => !(pathname && c == SLASH) && Covers(elements, c) != negated
    case Literal(l) => c == l
    case Star => false
    case Never => false
  }

  /** Membership, by splitting the string at every '*'. */
  ghost predicate Matches(items: seq<Item>, s: Text, pathname: bool) {
    if items == [] then s == []
    else if items[0] == Star then
      exists k :: 0 <= k <= |s| && StarTakes(s[..k], pathname) && Matches(items[1..], s[k..], pathname)
    else s != [] && Fits(items[0], s[0], pathname) && Matches(items[1..], s[1..], pathname)
  }

  ghost predicate StarTakes(s: seq<Char>, pathname: bool) {
    pathname ==> SLASH !in s
  }

  function Rest(s: Text, k: nat): (r: Text)
    requires k <= |s|
    ensures r == s[k..]
  {
    assert forall c <- s[k..] :: c in s;
    s[k..]
  }

  // ---------- what the matcher's shortcuts rest on ----------

  ghost predicate StarMatch(items: seq<Item>, s: Text, pathname: bool, k: nat) {
    k <= |s| && StarTakes(s[..k], pathname) && Matches(items, s[k..], pathname)
  }

  lemma StarSplit(items: seq<Item>, s: Text, pathname: bool)
    ensures Matches([Star] + items, s, pathname) <==> exists k: nat :: StarMatch(items, s, pathname, k)
  {
    assert ([Star] + items)[1..] == items;
    if Matches([Star] + items, s, pathname) {
      var k: nat :| 0 <= k <= |s| && StarTakes(s[..k], pathname) && Matches(([Star] + items)[1..], s[k..], pathname);
      assert StarMatch(items, s, pathname, k);
    }
    if k: nat :| StarMatch(items, s, pathname, k) {
      assert Matches(([Star] + items)[1..], s[k..], pathname);
    }
  }

  /** Two stars in a row say no more than one. */
  lemma StarsCollapse(items: seq<Item>, s: Text, pathname: bool)
    ensures Matches([Star] + ([Star] + items), s, pathname) == Matches([Star] + items, s, pathname)
  {
    StarSplit([Star] + items, s, pathname);
    StarSplit(items, s, pathname);
    if k: nat :| StarMatch([Star] + items, s, pathname, k) {
      StarSplit(items, Rest(s, k), pathname);
      var j: nat :| StarMatch(items, Rest(s, k), pathname, j);
      assert s[..k + j] == s[..k] + s[k..][..j];
      assert s[k + j..] == s[k..][j..];
      assert StarMatch(items, s, pathname, k + j);
    }
    if k: nat :| StarMatch(items, s, pathname, k) {
      StarSplit(items, Rest(s, k), pathname);
      assert s[k..][0..] == s[k..];
      assert StarMatch(items, Rest(s, k), pathname, 0);
      assert Matches([Star] + items, Rest(s, k), pathname);
      StarBefore(items, s, pathname, k);
    }
  }

  lemma StarBefore(items: seq<Item>, s: Text, pathname: bool, k: nat)
    requires k <= |s| && StarTakes(s[..k], pathname) && Matches([Star] + items, Rest(s, k), pathname)
    ensures StarMatch([Star] + items, s, pathname, k)
  {}

  /** A star at the end takes everything, slashes excepted. */
  lemma StarAtEnd(s: Text, pathname: bool)
    ensures Matches([Star], s, pathname) == StarTakes(s, pathname)
  {
    assert [Star] + [] == [Star];
    StarSplit([], s, pathname);
    assert s[..|s|] == s;
    if StarTakes(s, pathname) {
      assert StarMatch([], s, pathname, |s|);
    }
  }

  /** A star before a slash can only stop at the first slash. */
  lemma StarBeforeSlash(items: seq<Item>, s: Text, k: nat)
    requires k <= |s| && SLASH !in s[..k] && (k < |s| ==> s[k] == SLASH)
    ensures Matches([Star] + ([Literal(SLASH)] + items), s, true)
         == (k < |s| && Matches([Literal(SLASH)] + items, Rest(s, k), true))
  {
    var rest := [Literal(SLASH)] + items;
    StarSplit(rest, s, true);
    if j: nat :| StarMatch(rest, s, true, j) {
      assert s[j..] != [] && s[j..][0] == SLASH;
      assert j < |s| && s[j] == SLASH;
      assert forall i | 0 <= i < k :: s[..k][i] == s[i];
      assert forall i | 0 <= i < j :: s[..j][i] == s[i];
    }
    if k < |s| && Matches(rest, Rest(s, k), true) {
      assert StarMatch(rest, s, true, k);
    }
  }

  /** Items other than a star need a character. */
  lemma NothingLeft(items: seq<Item>, pathname: bool)
    requires items != [] && items[0] != Star
    ensures !Matches(items, [], pathname)
  {}

  /** The string's position of the first slash, or its length. */
  method FindSlash(s: Text, start: nat) returns (k: nat)
    requires start <= |s|
    ensures start <= k <= |s| && SLASH !in s[start..k] && (k < |s| ==> s[k] == SLASH)
  {
    k := start;
    while At(s, k) != EOS && At(s, k) != SLASH
      invariant start <= k <= |s|
      invariant SLASH !in s[start..k]
      decreases |s| - k
    {
      assert s[start..k + 1] == s[start..k] + [s[k]];
      k := k + 1;
    }
  }

  // ---------- fnmatch ----------

  /** What is left to decide when the pattern pointer is at `p` and the string
      pointer at `s`. */
  ghost predicate Remaining(pattern: Text, p: nat, text: Text, s: nat, pathname: bool)
    requires p <= |pattern| && s <= |text|
  {
    Matches(Items(pattern, p, pathname), Rest(text, s), pathname)
  }

  /** fnmatch, from pointers into the pattern and the string. Zero means the string
      is in the pattern's language. */
  method Match(pattern: Text, p0: nat, text: Text, s0: nat, pathname: bool) returns (r: int)
    requires p0 <= |pattern| && s0 <= |text|
    ensures r == 0 || r == FNM_NOMATCH
    ensures r == 0 <==> Remaining(pattern, p0, text, s0, pathname)
    decreases |pattern| - p0, 0
  {
    hide Remaining;
    var p: nat, s: nat := p0, s0;
    while true
      invariant p0 <= p <= |pattern| && s <= |text|
      invariant Remaining(pattern, p0, text, s0, pathname) == Remaining(pattern, p, text, s, pathname)
      decreases |pattern| - p
    {
      var c := At(pattern, p);
      if c == EOS {
        AtEnd(pattern, p, text, s, pathname);
        return if At(text, s) == EOS then 0 else FNM_NOMATCH;
      } else if c == STAR {
        p := SkipStars(pattern, p, text, s, pathname);
        c := At(pattern, p);
        if c == EOS {
          StarLast(pattern, p, text, s, pathname);
          var k := FindSlash(text, s);
          return if pathname && k < |text| then FNM_NOMATCH else 0;
        } else if c == SLASH && pathname {
          var k := FindSlash(text, s);
          StarThenSlash(pattern, p, text, s, k);
          if k == |text| {
            return FNM_NOMATCH;
          }
          s := k;
        } else {
          r := TryAll(pattern, p, text, s, pathname);
          return;
        }
      } else {
        var next := MatchOne(pattern, p, At(text, s), text, s, pathname);
        if next == 0 {
          return FNM_NOMATCH;
        }
        p, s := next, s + 1;
      }
    }
  }

  lemma AtEnd(pattern: Text, p: nat, text: Text, s: nat, pathname: bool)
    requires p <= |pattern| && s <= |text| && At(pattern, p) == EOS
    ensures Remaining(pattern, p, text, s, pathname) == (At(text, s) == EOS)
  {}

  /** A pattern whose first item is a star at index `p` - 1. */
  ghost predicate StarRemaining(pattern: Text, p: nat, text: Text, s: nat, pathname: bool)
    requires p <= |pattern| && s <= |text|
  {
    Matches([Star] + Items(pattern, p, pathname), Rest(text, s), pathname)
  }

  /** Collapse a run of stars. */
  method SkipStars(pattern: Text, start: nat, ghost text: Text, ghost s: nat, ghost pathname: bool) returns (p: nat)
    requires start <= |pattern| && s <= |text| && At(pattern, start) == STAR
    ensures start < p <= |pattern| && At(pattern, p) != STAR
    ensures Remaining(pattern, start, text, s, pathname) == StarRemaining(pattern, p, text, s, pathname)
  {
    hide Matches;
    p := start + 1;
    while At(pattern, p) == STAR
      invariant start < p <= |pattern|
      invariant Remaining(pattern, start, text, s, pathname) == StarRemaining(pattern, p, text, s, pathname)
      decreases |pattern| - p
    {
      StarsCollapse(Items(pattern, p + 1, pathname), Rest(text, s), pathname);
      p := p + 1;
    }
  }

  lemma StarLast(pattern: Text, p: nat, text: Text, s: nat, pathname: bool)
    requires p <= |pattern| && s <= |text| && At(pattern, p) == EOS
    ensures StarRemaining(pattern, p, text, s, pathname) == StarTakes(text[s..], pathname)
  {
    hide Matches;
    assert [Star] + [] == [Star];
    StarAtEnd(Rest(text, s), pathname);
  }

  lemma StarThenSlash(pattern: Text, p: nat, text: Text, s: nat, k: nat)
    requires p <= |pattern| && s <= k <= |text| && At(pattern, p) == SLASH
    requires SLASH !in text[s..k] && (k < |text| ==> text[k] == SLASH)
    ensures StarRemaining(pattern, p, text, s, true) == (k < |text| && Remaining(pattern, p, text, k, true))
  {
    hide Matches;
    var tail := Rest(text, s);
    assert tail[..k - s] == text[s..k];
    assert tail[k - s..] == text[k..];
    StarBeforeSlash(Items(pattern, p + 1, true), tail, k - s);
  }

  /** The general case after a star: recurse at every position of the string up to
      the first slash that may not be passed. */
  method TryAll(pattern: Text, p: nat, text: Text, start: nat, pathname: bool) returns (r: int)
    requires p <= |pattern| && start <= |text|
    requires At(pattern, p) != EOS && At(pattern, p) != STAR
    ensures r == 0 || r == FNM_NOMATCH
    ensures r == 0 <==> StarRemaining(pattern, p, text, start, pathname)
    decreases |pattern| - p, 1
  {
    var s: nat := start;
    while At(text, s) != EOS
      invariant start <= s <= |text|
      invariant StarTakes(text[start..s], pathname)
      invariant forall j | start <= j < s :: !Remaining(pattern, p, text, j, pathname)
      decreases |text| - s
    {
      hide Remaining, StarRemaining;
      r := Match(pattern, p, text, s, pathname);
      if r == 0 {
        StarFound(pattern, p, text, start, s, pathname);
        return;
      }
      if At(text, s) == SLASH && pathname {
        StarStopped(pattern, p, text, start, s, pathname);
        return FNM_NOMATCH;
      }
      assert text[start..s + 1] == text[start..s] + [text[s]];
      s := s + 1;
    }
    StarExhausted(pattern, p, text, start, pathname);
    return FNM_NOMATCH;
  }

  lemma StarFound(pattern: Text, p: nat, text: Text, start: nat, s: nat, pathname: bool)
    requires p <= |pattern| && start <= s <= |text|
    requires StarTakes(text[start..s], pathname) && Remaining(pattern, p, text, s, pathname)
    ensures StarRemaining(pattern, p, text, start, pathname)
  {
    hide Items;
    var tail := Rest(text, start);
    assert tail[..s - start] == text[start..s];
    assert tail[s - start..] == text[s..];
    StarSplit(Items(pattern, p, pathname), tail, pathname);
    assert StarMatch(Items(pattern, p, pathname), tail, pathname, s - start);
  }

  lemma StarStopped(pattern: Text, p: nat, text: Text, start: nat, s: nat, pathname: bool)
    requires p <= |pattern| && start <= s < |text|
    requires pathname && text[s] == SLASH
    requires forall j | start <= j <= s :: !Remaining(pattern, p, text, j, pathname)
    ensures !StarRemaining(pattern, p, text, start, pathname)
  {
    hide Items, Matches;
    var items, tail := Items(pattern, p, pathname), Rest(text, start);
    StarSplit(items, tail, pathname);
    forall k: nat | k <= |tail|
      ensures !StarMatch(items, tail, pathname, k)
    {
      assert tail[k..] == text[start + k..];
      if start + k <= s {
        assert !Remaining(pattern, p, text, start + k, pathname);
      } else {
        assert tail[..k][s - start] == SLASH;
      }
    }
  }

  lemma StarExhausted(pattern: Text, p: nat, text: Text, start: nat, pathname: bool)
    requires p <= |pattern| && start <= |text|
    requires At(pattern, p) != EOS && At(pattern, p) != STAR
    requires forall j | start <= j < |text| :: !Remaining(pattern, p, text, j, pathname)
    ensures !StarRemaining(pattern, p, text, start, pathname)
  {
    hide Matches;
    var items, tail := Items(pattern, p, pathname), Rest(text, start);
    NothingLeft(items, pathname);
    hide Items;
    StarSplit(items, tail, pathname);
    forall k: nat | k <= |tail|
      ensures !StarMatch(items, tail, pathname, k)
    {
      assert tail[k..] == text[start + k..];
      if start + k < |text| {
        assert !Remaining(pattern, p, text, start + k, pathname);
      } else {
        assert tail[k..] == [];
      }
    }
  }

  /** An item other than a star decides on one character. */
  lemma OneStep(item: Item, items: seq<Item>, text: Text, s: nat, pathname: bool)
    requires s <= |text| && item != Star
    ensures Matches([item] + items, Rest(text, s), pathname)
         == (s < |text| && Fits(item, text[s], pathname) && Matches(items, Rest(text, s + 1), pathname))
  {
    assert ([item] + items)[1..] == items;
    if s < |text| {
      assert text[s..][1..] == text[s + 1..];
    }
  }

  /** The cases of the switch that consume one character of the string. Returns the
      pattern index to go on from, or zero for a mismatch. */
  method MatchOne(pattern: Text, p: nat, test: Char, ghost text: Text, ghost s: nat, pathname: bool)
    returns (next: nat)
    requires p <= |pattern| && s <= |text| && test == At(text, s)
    requires At(pattern, p) != EOS && At(pattern, p) != STAR
    ensures next == 0 ==> !Remaining(pattern, p, text, s, pathname)
    ensures next > 0 ==> p < next <= |pattern| && s < |text|
    ensures next > 0 ==> Remaining(pattern, p, text, s, pathname) == Remaining(pattern, next, text, s + 1, pathname)
  {
    hide Matches, Covers, Elements;
    var c := At(pattern, p);
    next := p + 1;
    if c == QUESTION {
      OneStep(AnyChar, Items(pattern, next, pathname), text, s, pathname);
      if test == EOS || (test == SLASH && pathname) {
        return 0;
      }
      return;
    }
    if c == OPEN {
      ghost var list := Elements(pattern, ListStart(pattern, next), pathname);
      if list.Slash? {
        OneStep(Never, [], text, s, pathname);
        assert [Never] + [] == [Never];
      } else if list.Closed? {
        OneStep(OneOf(Negated(pattern, next), list.elements), Items(pattern, list.end, pathname), text, s, pathname);
      } else {
        OneStep(Literal(OPEN), Items(pattern, next, pathname), text, s, pathname);
      }
      if test == EOS || (test == SLASH && pathname) {
        return 0;
      }
      var r := Rangematch(pattern, next, test, pathname);
      match r
      case RangeNoMatch => return 0;
      case RangeMatch(after) => return after;
      case RangeError =>
    } else if c == BACKSLASH {
      c := At(pattern, next);
      if c == EOS {
        c := BACKSLASH;
        OneStep(Literal(c), Items(pattern, next, pathname), text, s, pathname);
      } else {
        next := next + 1;
        OneStep(Literal(c), Items(pattern, next, pathname), text, s, pathname);
      }
    } else {
      OneStep(Literal(c), Items(pattern, next, pathname), text, s, pathname);
    }
    if c != test {
      return 0;
    }
  }

  /** The call itself: zero exactly for the strings of the pattern's language. */
  method Fnmatch(pattern: Text, text: Text, pathname: bool) returns (r: int)
    ensures r == 0 || r == FNM_NOMATCH
    ensures r == 0 <==> Matches(Items(pattern, 0, pathname), text, pathname)
  {
    hide Matches, Items;
    r := Match(pattern, 0, text, 0, pathname);
    assert text[0..] == text;
  }

  // ---------- slashes inside brackets ----------

  /** Some element of the list starts with a slash. */
  predicate SlashStarts(pattern: Text, i: nat)
    requires i <= |pattern|
    decreases |pattern| - i
  {
    match FirstElement(pattern, i, true)
    case BadStep => false
    case SlashStep => true
    case ElementStep(e, next) => At(pattern, next) != CLOSE && SlashStarts(pattern, next)
  }

  /** FNM_PATHNAME changes a list only by giving up at an element that starts with a
      slash, and it gives up before it knows whether the list is closed: an
      unterminated '[' stays an ordinary character exactly when no element read on
      the way to the end of the pattern starts with a slash. */
  lemma {:induction false} PathnameLists(pattern: Text, i: nat)
    requires i <= |pattern|
    ensures Elements(pattern, i, true) == if SlashStarts(pattern, i) then Slash else Elements(pattern, i, false)
    ensures Elements(pattern, i, false) == Broken ==>
              (Elements(pattern, i, true) == Broken <==> !SlashStarts(pattern, i))
    decreases |pattern| - i
  {
    var step := FirstElement(pattern, i, true);
    if step.ElementStep? && At(pattern, step.next) != CLOSE {
      PathnameLists(pattern, step.next);
    }
    if step.SlashStep? {
    } else {
      assert step == FirstElement(pattern, i, false);
    }
  }

  /** "[/" matches itself without flags, but not under FNM_PATHNAME. */
  lemma UnterminatedSlashRejected()
    ensures Matches(Items([OPEN, SLASH], 0, false), [OPEN, SLASH], false)
    ensures !Matches(Items([OPEN, SLASH], 0, true), [OPEN, SLASH], true)
  {
    var t: Text := [OPEN, SLASH];
    assert Elements(t, 1, false) == Broken;
    assert Items(t, 1, false) == [Literal(SLASH)] + Items(t, 2, false);
    assert Items(t, 0, false) == [Literal(OPEN), Literal(SLASH)];
    assert t[1..] == [SLASH] && [Literal(OPEN), Literal(SLASH)][1..] == [Literal(SLASH)];
    assert [SLASH][1..] == [] && [Literal(SLASH)][1..] == [];
    assert Matches([Literal(SLASH)], [SLASH], false);
    assert Elements(t, 1, true) == Slash;
    assert Items(t, 0, true) == [Never];
  }
}
