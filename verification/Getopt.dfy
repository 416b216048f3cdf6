/** GNU getopt, compat/getopt.c: short options are handed out one call at a time. In the
    permuting order the argument vector is rearranged in place until all non-options stand
    at the end; the two other orders stop at a non-option or hand it out. */
module Getopt {
  import opened Options

  // ---------- exchange ----------

  /** The vector with the adjacent segments [first, last) and [last, end) swapped. */
  function Exchanged(argv: seq<string>, first: nat, last: nat, end: nat): seq<string>
    requires first <= last <= end <= |argv|
  {
    argv[..first] + argv[last..end] + argv[first..last] + argv[end..]
  }

  /** Where the element at `k` comes from when two runs of length `len` trade places. */
  function Source(a: nat, b: nat, len: nat, k: nat): nat
    requires a + len <= b
  {
    if a <= k < a + len then k - a + b else if b <= k < b + len then k - b + a else k
  }

  /** The inner loops of exchange: swap two runs of equal length. */
  method SwapRuns(argv: array<string>, a: nat, b: nat, len: nat)
    requires a + len <= b && b + len <= argv.Length
    modifies argv
    ensures argv[..] == Swapped(old(argv[..]), a, b, len)
  {
    for i := 0 to len
      invariant forall k: nat :: k < argv.Length ==> argv[k] == old(argv[Source(a, b, i, k)])
    {
      argv[a + i], argv[b + i] := argv[b + i], argv[a + i];
    }
    SourceSlices(old(argv[..]), argv[..], a, b, len);
  }

  function Swapped(argv: seq<string>, a: nat, b: nat, len: nat): seq<string>
    requires a + len <= b && b + len <= |argv|
  {
    argv[..a] + argv[b..b + len] + argv[a + len..b] + argv[a..a + len] + argv[b + len..]
  }

  lemma SourceSlices(before: seq<string>, after: seq<string>, a: nat, b: nat, len: nat)
    requires a + len <= b && b + len <= |before| == |after|
    requires forall k: nat :: k < |after| ==> after[k] == before[Source(a, b, len, k)]
    ensures after == Swapped(before, a, b, len)
  {}

  /** In exchange's loop: the window [bottom, top) still has to have its two parts
      swapped; what lies around it is in place. */
  ghost predicate Exchanging(now: seq<string>, goal: seq<string>, bottom: nat, middle: nat, top: nat) {
    && bottom <= middle <= top <= |now|
    && Exchanged(now, bottom, middle, top) == goal
  }

  lemma ShortBottom(now: seq<string>, goal: seq<string>, bottom: nat, middle: nat, top: nat, next: seq<string>)
    requires Exchanging(now, goal, bottom, middle, top)
    requires var len := middle - bottom; top - middle > len
    requires
      var len := middle - bottom;
      next == Swapped(now, bottom, top - len, len)
    ensures Exchanging(next, goal, bottom, middle, top - (middle - bottom))
  {
    var len := middle - bottom;
    assert next[..bottom] == now[..bottom];
    assert next[bottom..middle] == now[top - len..top];
    assert next[middle..top - len] == now[middle..top - len];
    assert next[top - len..] == now[bottom..middle] + now[top..];
    assert now[middle..top] == now[middle..top - len] + now[top - len..top];
  }

  lemma ShortTop(now: seq<string>, goal: seq<string>, bottom: nat, middle: nat, top: nat, next: seq<string>)
    requires Exchanging(now, goal, bottom, middle, top)
    requires top - middle <= middle - bottom
    requires
      var len := top - middle;
      next == Swapped(now, bottom, middle, len)
    ensures Exchanging(next, goal, bottom + (top - middle), middle, top)
  {
    var len := top - middle;
    assert next[..bottom] == now[..bottom];
    assert next[bottom..bottom + len] == now[middle..top];
    assert next[..bottom + len] == next[..bottom] + next[bottom..bottom + len];
    assert next[bottom + len..middle] == now[bottom + len..middle];
    assert next[middle..top] == now[bottom..bottom + len];
    assert next[top..] == now[top..];
    assert now[bottom..middle] == now[bottom..bottom + len] + now[bottom + len..middle];
  }

  /** exchange, on the segments [first, last) and [last, end). */
  method Exchange(argv: array<string>, first: nat, last: nat, end: nat)
    requires first <= last <= end <= argv.Length
    modifies argv
    ensures argv[..] == Exchanged(old(argv[..]), first, last, end)
  {
    hide Exchanged, Swapped;
    ghost var goal := Exchanged(argv[..], first, last, end);
    var bottom: nat, middle: nat, top: nat := first, last, end;
    while top > middle && middle > bottom
      invariant Exchanging(argv[..], goal, bottom, middle, top)
      decreases top - bottom
    {
      ghost var now := argv[..];
      if top - middle > middle - bottom {
        var len := middle - bottom;
        SwapRuns(argv, bottom, top - len, len);
        ShortBottom(now, goal, bottom, middle, top, argv[..]);
        top := top - len;
      } else {
        var len := top - middle;
        SwapRuns(argv, bottom, middle, len);
        ShortTop(now, goal, bottom, middle, top, argv[..]);
        bottom := bottom + len;
      }
    }
    NothingToExchange(argv[..], bottom, middle, top);
  }

  lemma NothingToExchange(argv: seq<string>, first: nat, last: nat, end: nat)
    requires first <= last <= end <= |argv| && (first == last || last == end)
    ensures Exchanged(argv, first, last, end) == argv
  {}

  // ---------- what a command line means ----------

  datatype Kind = Unknown | Flag | Required | Optional

  /** The character at `i`, or the terminator. */
  function CharAt(s: string, i: nat): char {
    if i < |s| then s[i] else '\0'
  }

  /** my_index: the first occurrence of `c`, or the length. */
  function IndexOf(s: string, c: char): (i: nat)
    ensures i <= |s| && (i < |s| ==> s[i] == c) && c !in s[..i]
  {
    if s == "" then 0 else if s[0] == c then 0
    else
      assert s[..1 + IndexOf(s[1..], c)] == [s[0]] + s[1..][..IndexOf(s[1..], c)];
      1 + IndexOf(s[1..], c)
  }

  /** What the option string says about an option character. */
  function KindOf(optstring: string, c: char): Kind {
    var i := IndexOf(optstring, c);
    if i == |optstring| || c == ':' then Unknown else KindAt(optstring, i)
  }

  /** What the colons behind the character at `i` say. */
  function KindAt(optstring: string, i: nat): Kind {
    if CharAt(optstring, i + 1) != ':' then Flag
    else if CharAt(optstring, i + 2) == ':' then Optional
    else Required
  }

  predicate IsNonOption(arg: string) {
    CharAt(arg, 0) != '-' || CharAt(arg, 1) == '\0'
  }

  /** One result of getopt: the character returned and optarg. */
  datatype Event = Event(code: char, arg: Option<string>)

  /** The meaning of an argument list: the elements that are options or their
      arguments, the operands, and the results to be handed out. */
  datatype Scan = Scan(options: seq<string>, operands: seq<string>, events: seq<Event>)

  /** How non-options are dealt with. */
  datatype Order = PermuteOrder | RequireOrder | ReturnInOrder

  /** The order and the option strings: the first call skips the character that selects
      the order, later calls find it in place. */
  datatype Reading = Reading(order: Order, now: string, later: string)

  function Later(r: Reading): Reading {
    r.(now := r.later)
  }

  predicate SelectsOrder(c: char) {
    c == '-' || c == '+'
  }

  /** What _getopt_initialize makes of the option string and the environment. */
  function FirstReading(optstring: string, posixlyCorrect: bool): Reading {
    Reading(OrderOf(optstring, posixlyCorrect), Stripped(optstring), optstring)
  }

  function OrderOf(optstring: string, posixlyCorrect: bool): Order {
    if CharAt(optstring, 0) == '-' then ReturnInOrder
    else if CharAt(optstring, 0) == '+' || posixlyCorrect then RequireOrder
    else PermuteOrder
  }

  function Stripped(optstring: string): string {
    if SelectsOrder(CharAt(optstring, 0)) then optstring[1..] else optstring
  }

  /** The code a non-option is handed out under. */
  const NON_OPTION: char := '\U{0001}'

  function ScanArgs(args: seq<string>, r: Reading): Scan
    decreases 2 * |args|, 0
  {
    if args == [] then Scan([], [], [])
    else if args[0] == "--" then Scan(["--"], args[1..], [])
    else if !IsNonOption(args[0]) then ScanElement(args[0][1..], args, r)
    else
      match r.order
      case PermuteOrder =>
        var rest := ScanArgs(args[1..], r);
        Scan(rest.options, [args[0]] + rest.operands, rest.events)
      case RequireOrder => Scan([], args, [])
      case ReturnInOrder => Emit(Event(NON_OPTION, Some(args[0])), AfterElement(args, 1, Later(r)))
  }

  /** The option element args[0], of which the characters `chars` are left. */
  function ScanElement(chars: string, args: seq<string>, r: Reading): Scan
    requires args != []
    decreases 2 * |args| - 1, |chars|
  {
    if chars == "" then AfterElement(args, 1, r)
    else
      var c, rest := chars[0], chars[1..];
      match KindOf(r.now, c)
      case Unknown => Emit(Event('?', None), ScanElement(rest, args, Later(r)))
      case Flag => Emit(Event(c, None), ScanElement(rest, args, Later(r)))
      case Optional => Emit(Event(c, if rest == "" then None else Some(rest)), AfterElement(args, 1, Later(r)))
      case Required =>
        if rest != "" then Emit(Event(c, Some(rest)), AfterElement(args, 1, Later(r)))
        else if |args| == 1 then Emit(Event(MissingCode(r.now), None), AfterElement(args, 1, Later(r)))
        else Emit(Event(c, Some(args[1])), AfterElement(args, 2, Later(r)))
  }

  /** `n` elements are done: the option, and an argument of its own if it took one. */
  function AfterElement(args: seq<string>, n: nat, r: Reading): Scan
    requires 1 <= n <= |args|
    decreases 2 * |args| - 2, 1
  {
    var rest := ScanArgs(args[n..], r);
    Scan(args[..n] + rest.options, rest.operands, rest.events)
  }

  function Emit(e: Event, s: Scan): Scan {
    s.(events := [e] + s.events)
  }

  function MissingCode(optstring: string): char {
    if CharAt(optstring, 0) == ':' then ':' else '?'
  }

  // ---------- the scan is a stable partition ----------

  /** `whole` is `a` and `b` merged, each in its own order. */
  ghost predicate Interleaves(a: seq<string>, b: seq<string>, whole: seq<string>) {
    if whole == [] then a == [] && b == []
    else
      || (a != [] && a[0] == whole[0] && Interleaves(a[1..], b, whole[1..]))
      || (b != [] && b[0] == whole[0] && Interleaves(a, b[1..], whole[1..]))
  }

  function Bag(s: seq<string>): multiset<string> {
    multiset(s)
  }

  lemma BagInserted(a: seq<string>, x: string, b: seq<string>)
    ensures Bag(a + ([x] + b)) == multiset{x} + Bag(a + b)
  {
    assert multiset(a + ([x] + b)) == multiset(a) + (multiset{x} + multiset(b));
    assert multiset(a + b) == multiset(a) + multiset(b);
  }

  lemma {:induction false} InterleavesSameBag(a: seq<string>, b: seq<string>, whole: seq<string>)
    requires Interleaves(a, b, whole)
    ensures Bag(a + b) == Bag(whole)
    decreases |whole|
  {
    hide Bag;
    if whole == [] {
      assert a + b == whole;
    } else {
      var x, rest := whole[0], whole[1..];
      BagInserted([], x, rest);
      assert whole == [] + ([x] + rest) && [] + rest == rest;
      if a != [] && a[0] == x && Interleaves(a[1..], b, rest) {
        InterleavesSameBag(a[1..], b, rest);
        BagInserted([], x, a[1..] + b);
        assert a + b == [] + ([x] + (a[1..] + b)) && [] + (a[1..] + b) == a[1..] + b;
      } else {
        InterleavesSameBag(a, b[1..], rest);
        BagInserted(a, x, b[1..]);
        assert b == [x] + b[1..];
      }
    }
  }

  lemma InterleavesPermutes(a: seq<string>, b: seq<string>, whole: seq<string>)
    requires Interleaves(a, b, whole)
    ensures multiset(a + b) == multiset(whole)
  {
    hide Interleaves;
    InterleavesSameBag(a, b, whole);
  }

  lemma {:induction false} OnlyOperands(args: seq<string>)
    ensures Interleaves([], args, args)
  {
    if args != [] {
      OnlyOperands(args[1..]);
    }
  }

  lemma PutFirst(x: string, a: seq<string>, b: seq<string>, whole: seq<string>)
    requires Interleaves(a, b, whole)
    ensures Interleaves([x] + a, b, [x] + whole) && Interleaves(a, [x] + b, [x] + whole)
  {
    assert ([x] + a)[1..] == a && ([x] + b)[1..] == b && ([x] + whole)[1..] == whole;
  }

  /** Every argument is an option (or an option's argument) or an operand, and both
      kinds keep their order. */
  lemma {:induction false} ScanInterleaves(args: seq<string>, r: Reading)
    ensures var s := ScanArgs(args, r); Interleaves(s.options, s.operands, args)
    decreases 2 * |args|, 0
  {
    if args != [] {
      if args[0] == "--" {
        OnlyOperands(args[1..]);
        PutFirst("--", [], args[1..], args[1..]);
        assert [args[0]] + args[1..] == args && ["--"] + [] == ["--"];
      } else if !IsNonOption(args[0]) {
        ElementInterleaves(args[0][1..], args, r);
      } else {
        match r.order
        case PermuteOrder =>
          var rest := ScanArgs(args[1..], r);
          ScanInterleaves(args[1..], r);
          PutFirst(args[0], rest.options, rest.operands, args[1..]);
          assert [args[0]] + args[1..] == args;
        case RequireOrder =>
          OnlyOperands(args);
        case ReturnInOrder =>
          AfterInterleaves(args, 1, Later(r));
      }
    }
  }

  lemma {:induction false} ElementInterleaves(chars: string, args: seq<string>, r: Reading)
    requires args != []
    ensures var s := ScanElement(chars, args, r); Interleaves(s.options, s.operands, args)
    decreases 2 * |args| - 1, |chars|
  {
    if chars == "" {
      AfterInterleaves(args, 1, r);
    } else {
      match KindOf(r.now, chars[0])
      case Unknown => ElementInterleaves(chars[1..], args, Later(r));
      case Flag => ElementInterleaves(chars[1..], args, Later(r));
      case Optional => AfterInterleaves(args, 1, Later(r));
      case Required =>
        AfterInterleaves(args, if chars[1..] == "" && |args| > 1 then 2 else 1, Later(r));
    }
  }

  lemma {:induction false} AfterInterleaves(args: seq<string>, n: nat, r: Reading)
    requires 1 <= n <= |args| && n <= 2
    ensures var s := AfterElement(args, n, r); Interleaves(s.options, s.operands, args)
    decreases 2 * |args| - 2, 1
  {
    var rest := ScanArgs(args[n..], r);
    ScanInterleaves(args[n..], r);
    if n == 2 {
      PutFirst(args[1], rest.options, rest.operands, args[2..]);
      assert [args[1]] + args[2..] == args[1..];
      PutFirst(args[0], [args[1]] + rest.options, rest.operands, args[1..]);
      assert [args[0]] + ([args[1]] + rest.options) == args[..2] + rest.options;
    } else {
      PutFirst(args[0], rest.options, rest.operands, args[1..]);
    }
    assert [args[0]] + args[1..] == args;
  }

  // ---------- the orders that move nothing ----------

  /** Options first, then operands, as they stood; what ended the options is a "--", or
      with RequireOrder the operand itself. */
  ghost predicate InPlace(s: Scan, args: seq<string>, order: Order) {
    && s.options + s.operands == args
    && (s.operands != [] ==>
          || (s.options != [] && s.options[|s.options| - 1] == "--")
          || (order == RequireOrder && IsNonOption(s.operands[0])))
  }

  /** Unless it permutes, the scan leaves the arguments where they are. With ReturnInOrder,
      only "--" leaves operands. */
  lemma {:induction false} InOrderMovesNothing(args: seq<string>, r: Reading)
    requires r.order != PermuteOrder
    ensures InPlace(ScanArgs(args, r), args, r.order)
    decreases 2 * |args|, 0
  {
    if args != [] {
      if args[0] == "--" {
        assert ["--"] + args[1..] == args;
      } else if !IsNonOption(args[0]) {
        ElementMovesNothing(args[0][1..], args, r);
      } else if r.order == RequireOrder {
        assert [] + args == args;
      } else {
        AfterMovesNothing(args, 1, Later(r));
      }
    }
  }

  lemma {:induction false} ElementMovesNothing(chars: string, args: seq<string>, r: Reading)
    requires r.order != PermuteOrder && args != []
    ensures InPlace(ScanElement(chars, args, r), args, r.order)
    decreases 2 * |args| - 1, |chars|
  {
    if chars == "" {
      AfterMovesNothing(args, 1, r);
    } else {
      match KindOf(r.now, chars[0])
      case Unknown => ElementMovesNothing(chars[1..], args, Later(r));
      case Flag => ElementMovesNothing(chars[1..], args, Later(r));
      case Optional => AfterMovesNothing(args, 1, Later(r));
      case Required =>
        AfterMovesNothing(args, if chars[1..] == "" && |args| > 1 then 2 else 1, Later(r));
    }
  }

  lemma {:induction false} AfterMovesNothing(args: seq<string>, n: nat, r: Reading)
    requires r.order != PermuteOrder && 1 <= n <= |args|
    ensures InPlace(AfterElement(args, n, r), args, r.order)
    decreases 2 * |args| - 2, 1
  {
    InOrderMovesNothing(args[n..], r);
    var rest := ScanArgs(args[n..], r);
    assert args[..n] + rest.options + rest.operands == args[..n] + args[n..];
  }

  // ---------- the first call reads another option string ----------

  /** The character that selects the order is skipped in the first call only. Later calls
      take it for an option: the first call agrees exactly if it stands again further
      behind, with as many colons. Every other character means the same in all calls. */
  lemma SelectorIsOptionLater(optstring: string, c: char)
    requires SelectsOrder(CharAt(optstring, 0))
    ensures c == optstring[0] ==> KindOf(optstring, c) == KindAt(optstring, 0)
    ensures var rest := Stripped(optstring);
            KindOf(optstring, c) == KindOf(rest, c)
            <==> c != optstring[0] || (c in rest && KindAt(rest, IndexOf(rest, c)) == KindAt(optstring, 0))
  {
    assert optstring == [optstring[0]] + optstring[1..];
    SelectorFound(optstring[1..], c);
  }

  lemma SelectorFound(s: string, c: char)
    ensures IndexOf(s, c) < |s| <==> c in s
  {
    var i := IndexOf(s, c);
    if i == |s| { assert s[..i] == s; }
  }

  /** The colon that asks for ':' when an argument is missing counts in every call if and
      only if no such character stands before it. */
  lemma MissingCodeKeptIff(optstring: string)
    ensures MissingCode(Stripped(optstring)) == MissingCode(optstring)
       <==> !(SelectsOrder(CharAt(optstring, 0)) && CharAt(optstring, 1) == ':')
  {}

  // ---------- the state between calls ----------

  /** The command line as the scanner's state describes it: options moved to the
      front, non-options skipped, options scanned since, and the unread rest. */
  function View(argv: seq<string>, first: nat, last: nat, optind: nat, nextchar: string, r: Reading): Scan
    requires 1 <= first <= last <= optind <= |argv|
    requires nextchar != "" ==> optind < |argv|
  {
    var left := if nextchar == "" then ScanArgs(argv[optind..], r)
                else ScanElement(nextchar, argv[optind..], r);
    Scan(argv[1..first] + argv[last..optind] + left.options, argv[first..last] + left.operands, left.events)
  }

  lemma ViewExchanged(argv: seq<string>, first: nat, last: nat, optind: nat, r: Reading)
    requires 1 <= first <= last <= optind <= |argv|
    ensures |Exchanged(argv, first, last, optind)| == |argv|
    ensures View(Exchanged(argv, first, last, optind), first + (optind - last), optind, optind, "", r)
         == View(argv, first, last, optind, "", r)
  {
    hide ScanArgs;
    var after := Exchanged(argv, first, last, optind);
    var first' := first + (optind - last);
    assert after[1..first'] == argv[1..first] + argv[last..optind];
    assert after[first'..optind] == argv[first..last];
    assert after[optind..] == argv[optind..];
    assert after[optind..optind] == [];
    assert after[1..first'] + [] == after[1..first'];
  }

  lemma ViewNoOperands(argv: seq<string>, first: nat, optind: nat, r: Reading)
    requires 1 <= first <= optind <= |argv|
    ensures View(argv, optind, optind, optind, "", r) == View(argv, first, first, optind, "", r)
  {
    hide ScanArgs;
    assert argv[1..optind] + argv[optind..optind] == argv[1..first] + argv[first..optind];
  }

  lemma ViewSkip(argv: seq<string>, first: nat, optind: nat, r: Reading)
    requires 1 <= first <= optind < |argv| && IsNonOption(argv[optind]) && r.order == PermuteOrder
    ensures View(argv, first, optind + 1, optind + 1, "", r) == View(argv, first, optind, optind, "", r)
  {
    var rest := ScanArgs(argv[optind + 1..], r);
    assert argv[optind..][1..] == argv[optind + 1..];
    assert argv[first..optind + 1] + rest.operands == argv[first..optind] + ([argv[optind]] + rest.operands);
  }

  lemma ViewDashDash(argv: seq<string>, first: nat, last: nat, optind: nat, r: Reading)
    requires 1 <= first <= last <= optind < |argv| && argv[optind] == "--"
    ensures var v := View(argv, first, last, optind, "", r);
            && v.events == []
            && v.options == argv[1..first] + argv[last..optind] + ["--"]
            && v.operands == argv[first..last] + argv[optind + 1..]
  {
    assert argv[optind..][1..] == argv[optind + 1..];
  }

  lemma ViewAtEnd(argv: seq<string>, first: nat, last: nat, r: Reading)
    requires 1 <= first <= last <= |argv|
    ensures var v := View(argv, first, last, |argv|, "", r);
            && v.events == [] && v.options == argv[1..first] + argv[last..] && v.operands == argv[first..last]
  {
    assert argv[last..|argv|] == argv[last..];
    assert argv[1..first] + argv[last..|argv|] + [] == argv[1..first] + argv[last..];
  }

  /** A non-option that was not skipped ends the scan, or is handed out. */
  lemma ViewNonOption(argv: seq<string>, first: nat, optind: nat, r: Reading)
    requires 1 <= first <= optind < |argv| && IsNonOption(argv[optind])
    ensures r.order == RequireOrder ==>
              View(argv, first, first, optind, "", r) == Scan(argv[1..optind], argv[optind..], [])
    ensures r.order == ReturnInOrder ==>
              View(argv, first, first, optind, "", r)
              == Emit(Event(NON_OPTION, Some(argv[optind])), View(argv, first, first, optind + 1, "", Later(r)))
  {
    hide AfterElement;
    assert argv[optind..] != [] && argv[optind..][0] == argv[optind] && argv[optind] != "--";
    if r.order == RequireOrder {
      assert argv[1..first] + argv[first..optind] + [] == argv[1..optind];
      assert argv[first..first] + argv[optind..] == argv[optind..];
    } else if r.order == ReturnInOrder {
      ViewAfterElement(argv, first, first, optind, 1, Later(r));
    }
  }

  lemma ViewEnterElement(argv: seq<string>, first: nat, last: nat, optind: nat, r: Reading)
    requires 1 <= first <= last <= optind < |argv|
    requires !IsNonOption(argv[optind]) && argv[optind] != "--"
    ensures argv[optind] != "" && argv[optind][1..] != ""
    ensures View(argv, first, last, optind, argv[optind][1..], r) == View(argv, first, last, optind, "", r)
  {}

  /** Taking whole elements off the unread part adds them to the options scanned. */
  lemma ViewAfterElement(argv: seq<string>, first: nat, last: nat, optind: nat, n: nat, r: Reading)
    requires 1 <= first <= last <= optind && 1 <= n && optind + n <= |argv|
    ensures var left := AfterElement(argv[optind..], n, r);
            View(argv, first, last, optind + n, "", r)
            == Scan(argv[1..first] + argv[last..optind] + left.options, argv[first..last] + left.operands, left.events)
  {
    hide ScanArgs;
    var left := ScanArgs(argv[optind + n..], r);
    assert argv[optind..][n..] == argv[optind + n..];
    assert argv[last..optind + n] == argv[last..optind] + argv[optind..][..n];
    assert argv[1..first] + argv[last..optind + n] + left.options
        == argv[1..first] + argv[last..optind] + (argv[optind..][..n] + left.options);
  }

  /** An unknown option or a flag leaves the rest of its element to be read. */
  lemma ViewPlain(argv: seq<string>, first: nat, last: nat, optind: nat, chars: string, r: Reading)
    requires 1 <= first <= last <= optind < |argv| && chars != ""
    requires KindOf(r.now, chars[0]).Unknown? || KindOf(r.now, chars[0]).Flag?
    ensures
      var code := if KindOf(r.now, chars[0]).Unknown? then '?' else chars[0];
      View(argv, first, last, optind, chars, r)
      == Emit(Event(code, None),
              View(argv, first, last, if chars[1..] == "" then optind + 1 else optind, chars[1..], Later(r)))
  {
    hide KindOf, ScanArgs, AfterElement;
    if chars[1..] == "" {
      ViewAfterElement(argv, first, last, optind, 1, Later(r));
      assert ScanElement(chars[1..], argv[optind..], Later(r)) == AfterElement(argv[optind..], 1, Later(r));
    }
  }

  /** An option that may take an argument ends its element, and the next one too
      when it takes that. */
  lemma ViewWithArgument(argv: seq<string>, first: nat, last: nat, optind: nat, chars: string, r: Reading)
    requires 1 <= first <= last <= optind < |argv| && chars != ""
    requires KindOf(r.now, chars[0]).Required? || KindOf(r.now, chars[0]).Optional?
    ensures
      var missing := chars[1..] == "" && KindOf(r.now, chars[0]).Required?;
      var event :=
        if chars[1..] != "" then Event(chars[0], Some(chars[1..]))
        else if !missing then Event(chars[0], None)
        else if optind + 1 == |argv| then Event(MissingCode(r.now), None)
        else Event(chars[0], Some(argv[optind + 1]));
      View(argv, first, last, optind, chars, r)
      == Emit(event,
              View(argv, first, last, if missing && optind + 1 < |argv| then optind + 2 else optind + 1, "", Later(r)))
  {
    hide KindOf, ScanArgs, AfterElement;
    ViewAfterElement(argv, first, last, optind, 1, Later(r));
    if optind + 1 < |argv| {
      ViewAfterElement(argv, first, last, optind, 2, Later(r));
    }
  }

  // ---------- the scanner ----------

  /** What a scanner without a table of long options demands of its option string: no
      "W;", whose argument would be looked up there. */
  predicate ShortOptions(optstring: string) {
    forall i | 0 <= i < |optstring| - 1 :: !(optstring[i] == 'W' && optstring[i + 1] == ';')
  }

  /** Where a call stands once it has moved on: the scan is over, at a non-option to be
      handed out, or in an option element. */
  datatype Step = Ended | AtOperand | InElement

  class Scanner {
    const argv: array<string>
    const optstring: string
    /** The environment variable POSIXLY_CORRECT. */
    const posixlyCorrect: bool
    var ordering: Order
    var optind: nat
    var firstNonopt: nat
    var lastNonopt: nat
    var nextchar: string
    var optarg: Option<string>
    var initialized: bool

    constructor (argv: array<string>, optstring: string, posixlyCorrect: bool)
      requires argv.Length >= 1 && ShortOptions(optstring)
      ensures Valid() && this.argv == argv && this.optstring == optstring
      ensures Meaning() == View(argv[..], 1, 1, 1, "", FirstReading(optstring, posixlyCorrect))
    {
      this.argv := argv;
      this.optstring := optstring;
      this.posixlyCorrect := posixlyCorrect;
      optind, firstNonopt, lastNonopt := 1, 0, 0;
      ordering, nextchar, optarg, initialized := RequireOrder, "", None, false;
    }

    ghost predicate Valid()
      reads this
    {
      && ShortOptions(optstring)
      && if initialized then
           && 1 <= firstNonopt <= lastNonopt <= optind <= argv.Length && (nextchar != "" ==> optind < argv.Length)
           && ordering == OrderOf(optstring, posixlyCorrect)
           && (ordering != PermuteOrder ==> firstNonopt == lastNonopt)
         else optind <= 1 <= argv.Length && nextchar == ""
    }

    /** What a call on the option string `now` and all later calls will hand out. */
    ghost function Current(now: string): Scan
      requires Valid() && initialized
      reads this, argv
    {
      View(argv[..], firstNonopt, lastNonopt, optind, nextchar, Reading(ordering, now, optstring))
    }

    /** What the calls to come will hand out. */
    ghost function Meaning(): Scan
      requires Valid()
      reads this, argv
    {
      if initialized then Current(optstring)
      else View(argv[..], 1, 1, 1, "", FirstReading(optstring, posixlyCorrect))
    }

    /** _getopt_initialize, on the first call; the option string this call is to use. */
    method Initialize() returns (now: string)
      requires Valid()
      modifies this
      ensures Valid() && initialized && optarg == None && Current(now) == old(Meaning())
    {
      optarg := None;
      now := optstring;
      if optind == 0 || !initialized {
        if optind == 0 {
          optind := 1;
        }
        firstNonopt, lastNonopt, nextchar := optind, optind, "";
        if CharAt(optstring, 0) == '-' {
          ordering := ReturnInOrder;
          now := optstring[1..];
        } else if CharAt(optstring, 0) == '+' {
          ordering := RequireOrder;
          now := optstring[1..];
        } else {
          ordering := if posixlyCorrect then RequireOrder else PermuteOrder;
        }
        initialized := true;
      }
    }

    /** The permuting step, without the two clamps for callers that moved optind
        back, which never act otherwise: move options scanned since the last non-options in front
        of these, and skip further non-options. */
    method Permute(ghost now: string)
      requires Valid() && initialized && nextchar == "" && ordering == PermuteOrder
      modifies this, argv
      ensures Valid() && initialized && nextchar == "" && Current(now) == old(Current(now))
      ensures lastNonopt == optind && argv[0] == old(argv[0]) && optarg == old(optarg)
      ensures optind < argv.Length ==> !IsNonOption(argv[optind])
    {
      hide View, IsNonOption, Exchanged;
      ghost var r := Reading(ordering, now, optstring);
      if firstNonopt != lastNonopt && lastNonopt != optind {
        ViewExchanged(argv[..], firstNonopt, lastNonopt, optind, r);
        ExchangedFirst(argv[..], firstNonopt, lastNonopt, optind);
        Exchange(argv, firstNonopt, lastNonopt, optind);
        firstNonopt := firstNonopt + (optind - lastNonopt);
        lastNonopt := optind;
      } else if lastNonopt != optind {
        ViewNoOperands(argv[..], firstNonopt, optind, r);
        firstNonopt := optind;
      }
      ghost var before := argv[..];
      assert View(before, firstNonopt, optind, optind, "", r) == old(Current(now));
      while optind < argv.Length && IsNonOption(argv[optind])
        invariant 1 <= firstNonopt <= optind <= argv.Length && ordering == PermuteOrder
        invariant argv[..] == before && initialized && nextchar == "" && optarg == old(optarg)
        invariant View(before, firstNonopt, optind, optind, "", r) == old(Current(now))
      {
        ViewSkip(before, firstNonopt, optind, r);
        optind := optind + 1;
      }
      lastNonopt := optind;
    }

    lemma ExchangedFirst(argv: seq<string>, first: nat, last: nat, end: nat)
      requires 1 <= first <= last <= end <= |argv|
      ensures |Exchanged(argv, first, last, end)| == |argv|
      ensures Exchanged(argv, first, last, end)[0] == argv[0]
    {}

    /** "--" goes in front of the skipped non-options. */
    lemma DashDashFirst(argv: seq<string>, first: nat, last: nat)
      requires 1 <= first < last < |argv|
      ensures var next := Exchanged(argv, first, last, last + 1);
              && |next| == |argv| && next[0] == argv[0]
              && next[1..first + 1] == argv[1..first] + [argv[last]]
              && next[first + 1..] == argv[first..last] + argv[last + 1..]
    {
      var next := Exchanged(argv, first, last, last + 1);
      assert argv[last..last + 1] == [argv[last]];
      assert next[..first + 1] == argv[..first] + [argv[last]];
      assert next[1..first + 1] == next[..first + 1][1..];
    }

    /** "--" ends the options: it moves in front of skipped non-options itself, and
        everything after it is skipped. */
    method EndOptions(ghost now: string)
      requires Valid() && initialized && nextchar == "" && (firstNonopt == lastNonopt || lastNonopt == optind)
      requires optind < argv.Length && argv[optind] == "--"
      modifies this, argv
      ensures optind == lastNonopt == argv.Length && 1 <= firstNonopt <= argv.Length
      ensures optarg == old(optarg) && argv[0] == old(argv[0])
      ensures argv[1..firstNonopt] == old(Current(now)).options
      ensures argv[firstNonopt..] == old(Current(now)).operands
      ensures old(Current(now)).events == []
    {
      hide View, Exchanged;
      ViewDashDash(argv[..], firstNonopt, lastNonopt, optind, Reading(ordering, now, optstring));
      ghost var before := argv[..];
      optind := optind + 1;
      if firstNonopt != lastNonopt && lastNonopt != optind {
        DashDashFirst(before, firstNonopt, lastNonopt);
        assert before[1..firstNonopt] + before[lastNonopt..optind - 1] == before[1..firstNonopt];
        Exchange(argv, firstNonopt, lastNonopt, optind);
        firstNonopt := firstNonopt + (optind - lastNonopt);
      } else if firstNonopt == lastNonopt {
        assert before[1..firstNonopt] + before[lastNonopt..optind - 1] + ["--"] == before[1..optind];
        firstNonopt := optind;
      }
      lastNonopt := argv.Length;
      optind := argv.Length;
    }

    /** The part of a call that moves on to the next element. */
    method Advance(ghost now: string) returns (step: Step)
      requires Valid() && initialized && nextchar == ""
      modifies this, argv
      ensures argv[0] == old(argv[0]) && optarg == old(optarg)
      ensures step == Ended ==> Finished(old(Current(now)))
      ensures step != Ended ==>
                && Valid() && initialized && Current(now) == old(Current(now)) && optind < argv.Length
                && (step == InElement <==> nextchar != "")
                && (step == AtOperand ==> ordering == ReturnInOrder && IsNonOption(argv[optind]))
    {
      hide View, IsNonOption;
      ghost var r := Reading(ordering, now, optstring);
      if ordering == PermuteOrder {
        Permute(now);
      }
      if optind != argv.Length && argv[optind] == "--" {
        EndOptions(now);
      } else if optind == argv.Length {
        ViewAtEnd(argv[..], firstNonopt, lastNonopt, r);
        AllOptions(argv[..], firstNonopt, lastNonopt);
      }
      if optind == argv.Length {
        assert argv[1..] == argv[1..firstNonopt] + argv[firstNonopt..];
        if firstNonopt != lastNonopt {
          optind := firstNonopt;
        }
        return Ended;
      }
      if IsNonOption(argv[optind]) {
        ViewNonOption(argv[..], firstNonopt, optind, r);
        if ordering == RequireOrder {
          assert argv[1..] == argv[1..optind] + argv[optind..];
          return Ended;
        }
        return AtOperand;
      }
      ViewEnterElement(argv[..], firstNonopt, lastNonopt, optind, r);
      nextchar := argv[optind][1..];
      return InElement;
    }

    /** After the call that returns -1: nothing is left to hand out, options and
        their arguments come first, operands fill the rest, and optind points at
        the first operand. */
    ghost predicate Finished(meaning: Scan)
      reads this, argv
    {
      && meaning.events == []
      && argv.Length >= 1
      && argv[1..] == meaning.options + meaning.operands
      && optind == 1 + |meaning.options|
    }

    /** The part of a call that decodes one option character. */
    method Decode(now: string) returns (code: char)
      requires Valid() && initialized && nextchar != "" && optarg == None
      modifies this
      ensures Valid() && initialized
      ensures old(Current(now)) == Emit(Event(code, optarg), Current(optstring))
    {
      hide KindOf, View;
      ghost var r := Reading(ordering, now, optstring);
      var c := nextchar[0];
      var kind := LookUp(now, c);
      if kind == Unknown || kind == Flag {
        ViewPlain(argv[..], firstNonopt, lastNonopt, optind, nextchar, r);
      } else {
        ViewWithArgument(argv[..], firstNonopt, lastNonopt, optind, nextchar, r);
      }
      nextchar := nextchar[1..];
      if nextchar == "" {
        optind := optind + 1;
      }
      if kind == Unknown {
        return '?';
      }
      code := c;
      if kind == Optional {
        if nextchar != "" {
          optarg := Some(nextchar);
          optind := optind + 1;
        }
        nextchar := "";
      } else if kind == Required {
        if nextchar != "" {
          optarg := Some(nextchar);
          optind := optind + 1;
        } else if optind == argv.Length {
          code := MissingCode(now);
        } else {
          optarg := Some(argv[optind]);
          optind := optind + 1;
        }
        nextchar := "";
      }
    }

    /** my_index and the tests on the characters behind the one found. */
    method LookUp(now: string, c: char) returns (kind: Kind)
      ensures kind == KindOf(now, c)
    {
      var i := 0;
      while i < |now| && now[i] != c
        invariant 0 <= i <= |now|
        invariant IndexOf(now, c) == i + IndexOf(now[i..], c)
      {
        assert now[i..][1..] == now[i + 1..];
        i := i + 1;
      }
      if i == |now| || c == ':' {
        return Unknown;
      }
      if CharAt(now, i + 1) == ':' {
        return if CharAt(now, i + 2) == ':' then Optional else Required;
      }
      return Flag;
    }

    /** getopt: the next option with its argument, or none at the end. */
    method Next() returns (event: Option<Event>)
      requires Valid()
      modifies this, argv
      ensures argv[0] == old(argv[0])
      ensures event.None? <==> old(Meaning()).events == []
      ensures event.None? ==> Finished(old(Meaning()))
      ensures event.Some? ==> Valid() && old(Meaning()) == Emit(event.value, Meaning())
    {
      hide View, IsNonOption;
      var now := Initialize();
      if nextchar == "" {
        var step := Advance(now);
        if step == Ended {
          return None;
        }
        if step == AtOperand {
          ViewNonOption(argv[..], firstNonopt, optind, Reading(ordering, now, optstring));
          optarg := Some(argv[optind]);
          optind := optind + 1;
          return Some(Event(NON_OPTION, optarg));
        }
      }
      var code := Decode(now);
      return Some(Event(code, optarg));
    }
  }

  lemma AllOptions(argv: seq<string>, first: nat, last: nat)
    requires 1 <= first <= last <= |argv|
    ensures first == last ==> argv[1..first] + argv[last..] == argv[1..] && argv[first..last] == []
    ensures last == |argv| ==> argv[1..first] + argv[last..] == argv[1..first] && argv[first..last] == argv[first..]
  {}

  /** Calling until the end: the results are those the command line means, and the
      vector holds the options and their arguments, then the operands, both in their
      original order. Unless it permutes, nothing has moved. */
  method ScanAll(argv: array<string>, optstring: string, posixlyCorrect: bool)
    returns (events: seq<Event>, optind: nat)
    requires argv.Length >= 1 && ShortOptions(optstring)
    modifies argv
    ensures
      var r := FirstReading(optstring, posixlyCorrect);
      var meaning := ScanArgs(old(argv[1..]), r);
      && events == meaning.events
      && argv[..] == [old(argv[0])] + meaning.options + meaning.operands
      && optind == 1 + |meaning.options|
      && Interleaves(meaning.options, meaning.operands, old(argv[1..]))
      && multiset(argv[..]) == multiset(old(argv[..]))
      && (r.order != PermuteOrder ==> argv[..] == old(argv[..]))
  {
    hide View, ScanArgs, Interleaves, InPlace;
    ghost var before, r := argv[..], FirstReading(optstring, posixlyCorrect);
    ViewAtStart(before, r);
    var s := new Scanner(argv, optstring, posixlyCorrect);
    events := CallUntilEnd(s);
    optind := s.optind;
    Arranged(before, r, argv[..]);
  }

  method CallUntilEnd(s: Scanner) returns (events: seq<Event>)
    requires s.Valid()
    modifies s, s.argv
    ensures events == old(s.Meaning()).events
    ensures s.argv.Length >= 1 && s.argv[0] == old(s.argv[0])
    ensures s.argv[1..] == old(s.Meaning()).options + old(s.Meaning()).operands
    ensures s.optind == 1 + |old(s.Meaning()).options|
  {
    hide Scanner.Meaning;
    ghost var meaning := s.Meaning();
    events := [];
    while true
      invariant s.Valid() && s.argv.Length >= 1 && s.argv[0] == old(s.argv[0])
      invariant s.Meaning().options == meaning.options && s.Meaning().operands == meaning.operands
      invariant events + s.Meaning().events == meaning.events
      decreases |s.Meaning().events|
    {
      var event := s.Next();
      if event.None? {
        break;
      }
      events := events + [event.value];
    }
  }

  lemma Arranged(before: seq<string>, r: Reading, after: seq<string>)
    requires |before| >= 1 && |after| >= 1 && after[0] == before[0]
    requires after[1..] == ScanArgs(before[1..], r).options + ScanArgs(before[1..], r).operands
    ensures Interleaves(ScanArgs(before[1..], r).options, ScanArgs(before[1..], r).operands, before[1..])
    ensures after == [before[0]] + ScanArgs(before[1..], r).options + ScanArgs(before[1..], r).operands
    ensures multiset(after) == multiset(before)
    ensures r.order != PermuteOrder ==> after == before
  {
    hide ScanArgs, Interleaves;
    var meaning := ScanArgs(before[1..], r);
    ScanInterleaves(before[1..], r);
    InterleavesPermutes(meaning.options, meaning.operands, before[1..]);
    if r.order != PermuteOrder {
      InOrderMovesNothing(before[1..], r);
    }
    assert after == [before[0]] + after[1..];
    assert before == [before[0]] + before[1..];
  }

  lemma ViewAtStart(argv: seq<string>, r: Reading)
    requires |argv| >= 1
    ensures View(argv, 1, 1, 1, "", r) == ScanArgs(argv[1..], r)
  {
    var s := ScanArgs(argv[1..], r);
    assert argv[1..1] + argv[1..1] + s.options == s.options;
    assert argv[1..1] + s.operands == s.operands;
  }
}
