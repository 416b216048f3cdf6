/** Values of common/json.h: how they are dumped and scanned, what the parser makes of a
    text, and that parsing undoes dumping. */
module Json {
  import opened Bytes
  import opened JsonDouble
  import opened JsonNumber
  import opened JsonPrinting
  import opened JsonString
  import opened Numerals
  import opened Options
  import opened Sequences

  /** A basic_json value. An object's members are in the order of its map. */
  datatype Json =
    | Null
    | Bool(value: bool)
    | Int(number: int)
    | Float(double: Double)
    | Str(chars: seq<Byte>)
    | Arr(items: seq<Json>)
    | Obj(members: seq<Member>)

  datatype Member = Member(key: seq<Byte>, value: Json)

  // ---------- dumping ----------

  function Spaces(n: nat): (s: seq<Byte>)
    ensures |s| == n && forall i :: 0 <= i < n ==> s[i] == 32
  {
    Repeated(32, n)
  }

  const TRUE: seq<Byte> := [116, 114, 117, 101]
  const FALSE: seq<Byte> := [102, 97, 108, 115, 101]
  const NULL: seq<Byte> := [110, 117, 108, 108]

  function Newline(pretty: bool): seq<Byte> {
    if pretty then [10] else []
  }

  /** dump(o, pretty, step, indent). */
  function Dump(v: Json, pretty: bool, step: nat, indent: nat): seq<Byte>
    decreases v
  {
    var deeper := if pretty then indent + step else indent;
    match v
    case Null => NULL
    case Bool(b) => if b then TRUE else FALSE
    case Int(n) => Decimal(n)
    case Float(d) => PrintDouble(d)
    case Str(s) => [QUOTE] + Escaped(s) + [QUOTE]
    case Arr(items) =>
      if items == [] then [91, 93]
      else [91] + Newline(pretty) + DumpItems(items, pretty, step, deeper) + Newline(pretty) + Spaces(indent) + [93]
    case Obj(members) =>
      if members == [] then [123, 125]
      else [123] + Newline(pretty) + DumpMembers(members, pretty, step, deeper) + Newline(pretty) + Spaces(indent)
           + [125]
  }

  function DumpItems(items: seq<Json>, pretty: bool, step: nat, indent: nat): seq<Byte>
    requires items != []
    decreases items
  {
    var first := Spaces(indent) + Dump(items[0], pretty, step, indent);
    if |items| == 1 then first
    else first + [44] + Newline(pretty) + DumpItems(items[1..], pretty, step, indent)
  }

  function DumpMembers(members: seq<Member>, pretty: bool, step: nat, indent: nat): seq<Byte>
    requires members != []
    decreases members
  {
    var m := members[0];
    var first := Spaces(indent) + [QUOTE] + Escaped(m.key) + [QUOTE, 58] + (if pretty then [32] else [])
               + Dump(m.value, pretty, step, indent);
    if |members| == 1 then first
    else first + [44] + Newline(pretty) + DumpMembers(members[1..], pretty, step, indent)
  }

  // ---------- scanning ----------

  datatype Token =
    | LiteralTrue | LiteralFalse | LiteralNull
    | ValueString(inner: seq<Byte>)
    | ValueNumber(text: seq<Byte>, whole: bool)
    | BeginArray | BeginObject | EndArray | EndObject | NameSeparator | ValueSeparator
    | ParseError | EndOfInput

  datatype Scanned = Scanned(token: Token, rest: seq<Byte>)

  predicate Starts(s: seq<Byte>, word: seq<Byte>) {
    word <= s
  }

  /** scan(): white space and byte order marks are skipped; a NUL ends the input wherever
      it stands. */
  function Scan(s: seq<Byte>): (r: Scanned)
    ensures |r.rest| <= |s|
    ensures !r.token.ParseError? && !r.token.EndOfInput? ==> |r.rest| < |s|
  {
    if s == [] || s[0] == 0 then Scanned(EndOfInput, [])
    else if s[0] == 9 || s[0] == 10 || s[0] == 13 || s[0] == 32 then Scan(s[1..])
    else if Starts(s, [0xEF, 0xBB, 0xBF]) then Scan(s[3..])
    else if s[0] == 91 then Scanned(BeginArray, s[1..])
    else if s[0] == 93 then Scanned(EndArray, s[1..])
    else if s[0] == 123 then Scanned(BeginObject, s[1..])
    else if s[0] == 125 then Scanned(EndObject, s[1..])
    else if s[0] == 44 then Scanned(ValueSeparator, s[1..])
    else if s[0] == 58 then Scanned(NameSeparator, s[1..])
    else if Starts(s, NULL) then Scanned(LiteralNull, s[4..])
    else if Starts(s, TRUE) then Scanned(LiteralTrue, s[4..])
    else if Starts(s, FALSE) then Scanned(LiteralFalse, s[5..])
    else if s[0] == QUOTE && StringEnd(s[1..]) != -1 then
      var end := StringEnd(s[1..]);
      Scanned(ValueString(s[1..end]), s[1 + end..])
    else if NumberLength(s) > 0 then
      Scanned(ValueNumber(s[..NumberLength(s)], StrtodAgrees(s)), s[NumberLength(s)..])
    else Scanned(ParseError, [])
  }

  /** All the tokens of a text, up to its end or the first error. */
  function Lex(s: seq<Byte>): (ts: seq<Token>)
    ensures ts != []
    decreases |s|
  {
    var r := Scan(s);
    if r.token.ParseError? || r.token.EndOfInput? then [r.token] else [r.token] + Lex(r.rest)
  }

  // ---------- parsing ----------

  /** What the parser makes of a number: strtod, and back to an integer if that loses
      nothing. */
  function NumberValue(text: seq<Byte>): Json {
    match IntegerOf(ReadDouble(text))
    case Some(n) => Int(n)
    case None => Float(ReadDouble(text))
  }

  datatype Parsed = Ok(value: Json, rest: seq<Token>) | Fail

  /** std::string's order. */
  predicate Less(a: seq<Byte>, b: seq<Byte>) {
    b != [] && (a == [] || a[0] < b[0] || (a[0] == b[0] && Less(a[1..], b[1..])))
  }

  /** result[key] = value, on a map in the order of its keys. */
  function Insert(members: seq<Member>, key: seq<Byte>, value: Json): seq<Member> {
    if members == [] || Less(key, members[0].key) then [Member(key, value)] + members
    else if members[0].key == key then [Member(key, value)] + members[1..]
    else [members[0]] + Insert(members[1..], key, value)
  }

  /** parse_internal on the tokens from the last one read on. */
  function ParseValue(ts: seq<Token>): (p: Parsed)
    ensures p.Ok? ==> |p.rest| < |ts|
    decreases |ts|, 0
  {
    if ts == [] then Fail
    else
      match ts[0]
      case LiteralNull => Ok(Null, ts[1..])
      case LiteralTrue => Ok(Bool(true), ts[1..])
      case LiteralFalse => Ok(Bool(false), ts[1..])
      case ValueString(inner) => if Unescaped(inner).Text? then Ok(Str(Unescaped(inner).bytes), ts[1..]) else Fail
      case ValueNumber(text, whole) => if whole then Ok(NumberValue(text), ts[1..]) else Fail
      case BeginArray =>
        if |ts| < 2 || ts[1].ValueSeparator? then Fail
        else if ts[1].EndArray? then Ok(Arr([]), ts[2..])
        else ParseItems(ts[1..], [])
      case BeginObject =>
        if |ts| < 2 || ts[1].ValueSeparator? then Fail
        else if ts[1].EndObject? then Ok(Obj([]), ts[2..])
        else ParseMembers(ts[1..], [])
      case _ => Fail
  }

  /** The loop over an array's values, past the separator. */
  function ParseItems(ts: seq<Token>, items: seq<Json>): (p: Parsed)
    ensures p.Ok? ==> |p.rest| < |ts|
    decreases |ts|, 1
  {
    match ParseValue(ts)
    case Fail => Fail
    case Ok(v, rest) =>
      if rest == [] then Fail
      else if rest[0].ValueSeparator? then ParseItems(rest[1..], items + [v])
      else if rest[0].EndArray? then Ok(Arr(items + [v]), rest[1..])
      else Fail
  }

  /** The loop over an object's members, past the separator. */
  function ParseMembers(ts: seq<Token>, members: seq<Member>): (p: Parsed)
    ensures p.Ok? ==> |p.rest| < |ts|
    decreases |ts|, 1
  {
    if |ts| < 2 || !ts[0].ValueString? || Unescaped(ts[0].inner).Thrown? || !ts[1].NameSeparator? then Fail
    else
      match ParseValue(ts[2..])
      case Fail => Fail
      case Ok(v, rest) =>
        var more := Insert(members, Unescaped(ts[0].inner).bytes, v);
        if rest == [] then Fail
        else if rest[0].ValueSeparator? then ParseMembers(rest[1..], more)
        else if rest[0].EndObject? then Ok(Obj(more), rest[1..])
        else Fail
  }

  datatype Result = Success(value: Json) | Failure

  /** The parser's result on a text. */
  function Parse(s: seq<Byte>): Result {
    match ParseValue(Lex(s))
    case Ok(v, rest) => if rest != [] && rest[0].EndOfInput? then Success(v) else Failure
    case Fail => Failure
  }

  // ---------- the tokens of a value ----------

  function Tokens(v: Json): (ts: seq<Token>)
    ensures ts != [] && !ts[0].ValueSeparator? && !ts[0].EndArray? && !ts[0].EndObject?
    decreases v
  {
    match v
    case Null => [LiteralNull]
    case Bool(b) => [if b then LiteralTrue else LiteralFalse]
    case Int(n) => [ValueNumber(Decimal(n), true)]
    case Float(d) => [ValueNumber(PrintDouble(d), true)]
    case Str(s) => [ValueString(Escaped(s))]
    case Arr(items) => [BeginArray] + (if items == [] then [] else ItemTokens(items)) + [EndArray]
    case Obj(members) => [BeginObject] + (if members == [] then [] else MemberTokens(members)) + [EndObject]
  }

  function ItemTokens(items: seq<Json>): (ts: seq<Token>)
    requires items != []
    ensures ts != [] && !ts[0].ValueSeparator? && !ts[0].EndArray?
    decreases items
  {
    if |items| == 1 then Tokens(items[0]) else Tokens(items[0]) + [ValueSeparator] + ItemTokens(items[1..])
  }

  function MemberTokens(members: seq<Member>): (ts: seq<Token>)
    requires members != []
    ensures ts != [] && !ts[0].ValueSeparator? && !ts[0].EndObject?
    decreases members
  {
    var first := [ValueString(Escaped(members[0].key)), NameSeparator] + Tokens(members[0].value);
    if |members| == 1 then first else first + [ValueSeparator] + MemberTokens(members[1..])
  }

  // ---------- the parser inverts the tokens ----------

  predicate Sorted(members: seq<Member>) {
    forall i, j :: 0 <= i < j < |members| ==> Less(members[i].key, members[j].key)
  }

  /** A value as basic_json holds it: object keys in order, and so all different. */
  predicate Regular(v: Json) {
    match v
    case Arr(items) => forall i :: 0 <= i < |items| ==> Regular(items[i])
    case Obj(members) => Sorted(members) && forall i :: 0 <= i < |members| ==> Regular(members[i].value)
    case _ => true
  }

  /** The value after its integers have gone through a double. */
  function ThroughDouble(v: Json): Json {
    match v
    case Int(n) => NumberValue(Decimal(n))
    case Float(d) => NumberValue(PrintDouble(d))
    case Arr(items) => Arr(ItemsThrough(items))
    case Obj(members) => Obj(MembersThrough(members))
    case _ => v
  }

  function ItemsThrough(items: seq<Json>): (r: seq<Json>)
    ensures |r| == |items|
  {
    if items == [] then [] else [ThroughDouble(items[0])] + ItemsThrough(items[1..])
  }

  function MembersThrough(members: seq<Member>): (r: seq<Member>)
    ensures |r| == |members|
    ensures forall i :: 0 <= i < |r| ==> r[i].key == members[i].key
  {
    if members == [] then []
    else [Member(members[0].key, ThroughDouble(members[0].value))] + MembersThrough(members[1..])
  }

  lemma {:induction false} LessExcludes(a: seq<Byte>, b: seq<Byte>)
    requires Less(a, b)
    ensures !Less(b, a) && a != b
  {
    if a != [] && a[0] == b[0] { LessExcludes(a[1..], b[1..]); }
  }

  /** A key behind all others is inserted at the end. */
  lemma {:induction false} InsertLast(members: seq<Member>, key: seq<Byte>, value: Json)
    requires forall i :: 0 <= i < |members| ==> Less(members[i].key, key)
    ensures Insert(members, key, value) == members + [Member(key, value)]
  {
    if members != [] {
      LessExcludes(members[0].key, key);
      InsertLast(members[1..], key, value);
      assert members == [members[0]] + members[1..];
    }
  }

  lemma TakesOne(v: Json, rest: seq<Token>, whole: seq<Token>)
    requires whole == Tokens(v) + rest && !v.Arr? && !v.Obj?
    ensures ParseValue(whole) == Ok(ThroughDouble(v), rest)
  {
    assert whole[1..] == rest;
    if v.Str? { StringRoundTrip(v.chars, []); }
  }

  lemma ArrayOpens(body: seq<Token>)
    requires body != [] && !body[0].ValueSeparator?
    ensures ParseValue([BeginArray] + body)
         == if body[0].EndArray? then Ok(Arr([]), body[1..]) else ParseItems(body, [])
  {
    var ts := [BeginArray] + body;
    assert ts[1..] == body && ts[2..] == body[1..];
  }

  lemma ObjectOpens(body: seq<Token>)
    requires body != [] && !body[0].ValueSeparator?
    ensures ParseValue([BeginObject] + body)
         == if body[0].EndObject? then Ok(Obj([]), body[1..]) else ParseMembers(body, [])
  {
    var ts := [BeginObject] + body;
    assert ts[1..] == body && ts[2..] == body[1..];
  }

  lemma ItemStep(ts: seq<Token>, done: seq<Json>, v: Json, separator: Token, rest: seq<Token>)
    requires ParseValue(ts) == Ok(v, [separator] + rest)
    ensures separator.EndArray? ==> ParseItems(ts, done) == Ok(Arr(done + [v]), rest)
    ensures separator.ValueSeparator? ==> ParseItems(ts, done) == ParseItems(rest, done + [v])
  {
    assert ([separator] + rest)[1..] == rest;
  }

  lemma MemberStep(key: seq<Byte>, value: seq<Token>, done: seq<Member>, v: Json, separator: Token, rest: seq<Token>)
    requires ParseValue(value) == Ok(v, [separator] + rest)
    requires forall i :: 0 <= i < |done| ==> Less(done[i].key, key)
    ensures var ts := [ValueString(Escaped(key)), NameSeparator] + value;
            && (separator.EndObject? ==> ParseMembers(ts, done) == Ok(Obj(done + [Member(key, v)]), rest))
            && (separator.ValueSeparator? ==> ParseMembers(ts, done) == ParseMembers(rest, done + [Member(key, v)]))
  {
    hide ParseValue, Insert, Less;
    var ts := [ValueString(Escaped(key)), NameSeparator] + value;
    assert ts[2..] == value && ([separator] + rest)[1..] == rest;
    StringRoundTrip(key, []);
    InsertLast(done, key, v);
  }

  /** On the tokens of a value the parser gives the value back, and stops behind it. */
  lemma {:induction false} ValueParses(v: Json, rest: seq<Token>)
    requires Regular(v)
    ensures ParseValue(Tokens(v) + rest) == Ok(ThroughDouble(v), rest)
    decreases v
  {
    hide ParseValue, ParseItems, ParseMembers, NumberValue, Decimal, Escaped, ItemTokens, MemberTokens;
    match v
    case Arr(items) =>
      var body := (if items == [] then [] else ItemTokens(items)) + [EndArray] + rest;
      assert Tokens(v) + rest == [BeginArray] + body;
      assert items == [] ==> body[1..] == rest;
      ArrayOpens(body);
      if items != [] {
        ItemsParse(items, [], rest);
        assert [] + ItemsThrough(items) == ItemsThrough(items);
      }
    case Obj(members) =>
      var body := (if members == [] then [] else MemberTokens(members)) + [EndObject] + rest;
      assert Tokens(v) + rest == [BeginObject] + body;
      assert members == [] ==> body[1..] == rest;
      ObjectOpens(body);
      if members != [] {
        assert [] + members == members && [] + MembersThrough(members) == MembersThrough(members);
        MembersParse(members, [], rest);
      }
    case _ => TakesOne(v, rest, Tokens(v) + rest);
  }

  lemma {:induction false} ItemsParse(items: seq<Json>, done: seq<Json>, rest: seq<Token>)
    requires items != [] && forall i :: 0 <= i < |items| ==> Regular(items[i])
    ensures ParseItems(ItemTokens(items) + [EndArray] + rest, done) == Ok(Arr(done + ItemsThrough(items)), rest)
    decreases items
  {
    hide ParseValue, ParseItems, ParseMembers, Tokens, ThroughDouble, Regular;
    var ts := ItemTokens(items) + [EndArray] + rest;
    var v := ThroughDouble(items[0]);
    if |items| == 1 {
      ValueParses(items[0], [EndArray] + rest);
      assert ts == Tokens(items[0]) + ([EndArray] + rest);
      ItemStep(ts, done, v, EndArray, rest);
      assert ItemsThrough(items) == [v];
    } else {
      var others := ItemTokens(items[1..]) + [EndArray] + rest;
      ValueParses(items[0], [ValueSeparator] + others);
      assert ts == Tokens(items[0]) + ([ValueSeparator] + others);
      ItemStep(ts, done, v, ValueSeparator, others);
      ItemsParse(items[1..], done + [v], rest);
      assert done + [v] + ItemsThrough(items[1..]) == done + ItemsThrough(items);
    }
  }

  /** What follows the first member of an object's tokens. */
  function AfterMember(members: seq<Member>, tail: seq<Token>): seq<Token>
    requires members != []
  {
    if |members| == 1 then tail else [ValueSeparator] + (MemberTokens(members[1..]) + tail)
  }

  lemma FirstMember(members: seq<Member>, tail: seq<Token>)
    requires members != []
    ensures MemberTokens(members) + tail
         == [ValueString(Escaped(members[0].key)), NameSeparator]
            + (Tokens(members[0].value) + AfterMember(members, tail))
  {
    hide Tokens, Escaped;
  }

  lemma NoneThrough()
    ensures MembersThrough([]) == []
  {}

  lemma ThroughFirst(done: seq<Member>, members: seq<Member>)
    requires members != []
    ensures done + MembersThrough(members)
         == (done + [Member(members[0].key, ThroughDouble(members[0].value))]) + MembersThrough(members[1..])
  {}

  lemma {:induction false} MembersParse(members: seq<Member>, done: seq<Member>, rest: seq<Token>)
    requires members != [] && Sorted(done + members)
    requires forall i :: 0 <= i < |members| ==> Regular(members[i].value)
    ensures ParseMembers(MemberTokens(members) + [EndObject] + rest, done)
         == Ok(Obj(done + MembersThrough(members)), rest)
    decreases members
  {
    hide ParseValue, ParseItems, ParseMembers, Tokens, ThroughDouble, Regular, Sorted, Escaped, Less, MemberTokens,
         MembersThrough;
    var m, tail := members[0], [EndObject] + rest;
    var v := Member(m.key, ThroughDouble(m.value));
    var after := AfterMember(members, tail);
    BehindAll(done, members);
    FirstMember(members, tail);
    ThroughFirst(done, members);
    ValueParses(m.value, after);
    assert MemberTokens(members) + [EndObject] + rest == MemberTokens(members) + tail;
    if |members| == 1 {
      MemberStep(m.key, Tokens(m.value) + after, done, v.value, EndObject, rest);
      assert members[1..] == [] && (done + [v]) + [] == done + [v];
      NoneThrough();
    } else {
      var others := MemberTokens(members[1..]) + tail;
      assert others == MemberTokens(members[1..]) + [EndObject] + rest;
      MemberStep(m.key, Tokens(m.value) + after, done, v.value, ValueSeparator, others);
      StillSorted(done, members, v);
      MembersParse(members[1..], done + [v], rest);
    }
  }

  lemma BehindAll(done: seq<Member>, members: seq<Member>)
    requires members != [] && Sorted(done + members)
    ensures forall i :: 0 <= i < |done| ==> Less(done[i].key, members[0].key)
  {
    var all := done + members;
    assert all[|done|] == members[0];
    assert forall i :: 0 <= i < |done| ==> all[i] == done[i];
  }

  lemma StillSorted(done: seq<Member>, members: seq<Member>, v: Member)
    requires members != [] && Sorted(done + members) && v.key == members[0].key
    ensures Sorted(done + [v] + members[1..])
  {
    var all, now := done + members, done + [v] + members[1..];
    assert forall i :: 0 <= i < |now| ==> now[i].key == all[i].key;
  }

  // ---------- scanning a dump gives the tokens ----------

  lemma LexBlank(c: Byte, rest: seq<Byte>)
    requires c == 10 || c == 32
    ensures Lex([c] + rest) == Lex(rest)
  {
    assert ([c] + rest)[1..] == rest;
  }

  lemma {:induction false} LexSpaces(n: nat, rest: seq<Byte>)
    ensures Lex(Spaces(n) + rest) == Lex(rest)
  {
    if n == 0 {
      assert Spaces(n) + rest == rest;
    } else {
      LexSpaces(n - 1, rest);
      assert Spaces(n) + rest == [32] + (Spaces(n - 1) + rest);
      LexBlank(32, Spaces(n - 1) + rest);
    }
  }

  lemma LexNewline(pretty: bool, rest: seq<Byte>)
    ensures Lex(Newline(pretty) + rest) == Lex(rest)
  {
    if pretty { LexBlank(10, rest); } else { assert Newline(pretty) + rest == rest; }
  }

  /** The token of a structural character. */
  function Mark(c: Byte): Token {
    match c
    case 91 => BeginArray
    case 93 => EndArray
    case 123 => BeginObject
    case 125 => EndObject
    case 44 => ValueSeparator
    case 58 => NameSeparator
    case _ => ParseError
  }

  lemma LexMark(c: Byte, rest: seq<Byte>)
    requires Mark(c) != ParseError
    ensures Lex([c] + rest) == [Mark(c)] + Lex(rest)
  {
    assert ([c] + rest)[1..] == rest;
  }

  lemma LexNull(rest: seq<Byte>)
    ensures Lex(NULL + rest) == [LiteralNull] + Lex(rest)
  {
    assert (NULL + rest)[4..] == rest;
  }

  lemma LexTrue(rest: seq<Byte>)
    ensures Lex(TRUE + rest) == [LiteralTrue] + Lex(rest)
  {
    var s := TRUE + rest;
    assert s[0] != NULL[0];
    assert s[4..] == rest && !(NULL <= s);
  }

  lemma LexFalse(rest: seq<Byte>)
    ensures Lex(FALSE + rest) == [LiteralFalse] + Lex(rest)
  {
    var s := FALSE + rest;
    assert s[0] != NULL[0] && s[0] != TRUE[0];
    assert s[5..] == rest && !(NULL <= s) && !(TRUE <= s);
  }

  lemma LexWord(v: Json, rest: seq<Byte>)
    requires v.Null? || v.Bool?
    ensures Lex(Dump(v, false, 0, 0) + rest) == Tokens(v) + Lex(rest)
  {
    hide Lex;
    LexNull(rest);
    LexTrue(rest);
    LexFalse(rest);
  }

  lemma ScanString(s: seq<Byte>, end: nat)
    requires s != [] && s[0] == QUOTE && StringEnd(s[1..]) == end
    ensures Scan(s) == Scanned(ValueString(s[1..end]), s[1 + end..])
  {
    hide StringEnd, NumberLength, StrtodAgrees;
  }

  lemma LexString(t: seq<Byte>, rest: seq<Byte>)
    ensures Lex([QUOTE] + Escaped(t) + [QUOTE] + rest) == [ValueString(Escaped(t))] + Lex(rest)
  {
    hide Escaped, StringEnd, Scan;
    var s := [QUOTE] + Escaped(t) + [QUOTE] + rest;
    assert s[1..] == Escaped(t) + [QUOTE] + rest;
    StringRoundTrip(t, rest);
    var end := |Escaped(t)| + 1;
    ScanString(s, end);
    assert s[1..end] == Escaped(t) && s[1 + end..] == rest;
  }

  lemma LexNumber(text: seq<Byte>, rest: seq<Byte>)
    requires NumberText(text) && Delimited(rest)
    ensures Lex(text + rest) == [ValueNumber(text, true)] + Lex(rest)
  {
    hide NumberLength, StrtodAgrees, StringEnd;
    var s := text + rest;
    NumberScans(text, rest);
    NumberStarts(text);
    assert s[0] == text[0];
    assert s[..|text|] == text && s[|text|..] == rest;
  }

  lemma NumberStarts(text: seq<Byte>)
    requires NumberText(text)
    ensures text[0] == 45 || Digit(text[0])
  {}

  /** No infinities, and no double that is not a number. */
  predicate AllFinite(v: Json) {
    match v
    case Float(d) => d.Finite?
    case Arr(items) => forall i :: 0 <= i < |items| ==> AllFinite(items[i])
    case Obj(members) => forall i :: 0 <= i < |members| ==> AllFinite(members[i].value)
    case _ => true
  }

  lemma LexScalar(v: Json, pretty: bool, step: nat, indent: nat, rest: seq<Byte>)
    requires AllFinite(v) && Delimited(rest) && !v.Arr? && !v.Obj?
    ensures Lex(Dump(v, pretty, step, indent) + rest) == Tokens(v) + Lex(rest)
  {
    hide Lex, NumberText, PrintDouble;
    match v
    case Int(n) =>
      DecimalIsNumber(n);
      LexNumber(Decimal(n), rest);
    case Float(d) =>
      PrintedIsNumber(d);
      LexNumber(PrintDouble(d), rest);
    case Str(t) => LexString(t, rest);
    case _ => LexWord(v, rest);
  }

  /** The closing bracket, on its own line in a pretty dump. */
  lemma LexClosing(c: Byte, pretty: bool, indent: nat, rest: seq<Byte>)
    requires Mark(c) != ParseError
    ensures Lex(Newline(pretty) + Spaces(indent) + [c] + rest) == [Mark(c)] + Lex(rest)
  {
    hide Lex, Newline, Spaces;
    assert Newline(pretty) + Spaces(indent) + [c] + rest == Newline(pretty) + (Spaces(indent) + ([c] + rest));
    LexNewline(pretty, Spaces(indent) + ([c] + rest));
    LexSpaces(indent, [c] + rest);
    LexMark(c, rest);
  }

  lemma ClosingDelimits(c: Byte, pretty: bool, indent: nat, rest: seq<Byte>)
    requires c == 93 || c == 125
    ensures Delimited(Newline(pretty) + Spaces(indent) + [c] + rest)
  {}

  lemma LexBracketed(left: Byte, right: Byte, pretty: bool, indent: nat, body: seq<Byte>, ts: seq<Token>,
                     rest: seq<Byte>)
    requires Mark(left) != ParseError && Mark(right) != ParseError
    requires var close := Newline(pretty) + Spaces(indent) + [right] + rest; Lex(body + close) == ts + Lex(close)
    ensures Lex([left] + Newline(pretty) + body + Newline(pretty) + Spaces(indent) + [right] + rest)
         == [Mark(left)] + ts + [Mark(right)] + Lex(rest)
  {
    hide Lex, Newline, Spaces, Mark;
    var close := Newline(pretty) + Spaces(indent) + [right] + rest;
    LexClosing(right, pretty, indent, rest);
    LexNewline(pretty, body + close);
    LexMark(left, Newline(pretty) + (body + close));
    assert [left] + Newline(pretty) + body + Newline(pretty) + Spaces(indent) + [right] + rest
        == [left] + (Newline(pretty) + (body + close));
  }

  lemma LexEmpty(left: Byte, right: Byte, rest: seq<Byte>)
    requires Mark(left) != ParseError && Mark(right) != ParseError
    ensures Lex([left, right] + rest) == [Mark(left), Mark(right)] + Lex(rest)
  {
    hide Lex, Mark;
    assert [left, right] + rest == [left] + ([right] + rest);
    LexMark(left, [right] + rest);
    LexMark(right, rest);
  }

  /** Scanning a dump, compact or indented, gives the tokens of its value. */
  lemma {:induction false} DumpScans(v: Json, pretty: bool, step: nat, indent: nat, rest: seq<Byte>)
    requires AllFinite(v) && Delimited(rest)
    ensures Lex(Dump(v, pretty, step, indent) + rest) == Tokens(v) + Lex(rest)
    decreases v
  {
    hide Lex, Newline, Spaces, Delimited, DumpItems, DumpMembers, ItemTokens, MemberTokens, Decimal, Escaped;
    var deeper := if pretty then indent + step else indent;
    match v
    case Arr(items) =>
      if items == [] {
        LexEmpty(91, 93, rest);
      } else {
        ClosingDelimits(93, pretty, indent, rest);
        ItemsScan(items, pretty, step, deeper, Newline(pretty) + Spaces(indent) + [93] + rest);
        LexBracketed(91, 93, pretty, indent, DumpItems(items, pretty, step, deeper), ItemTokens(items), rest);
      }
    case Obj(members) =>
      if members == [] {
        LexEmpty(123, 125, rest);
      } else {
        ClosingDelimits(125, pretty, indent, rest);
        MembersScan(members, pretty, step, deeper, Newline(pretty) + Spaces(indent) + [125] + rest);
        LexBracketed(123, 125, pretty, indent, DumpMembers(members, pretty, step, deeper), MemberTokens(members), rest);
      }
    case _ => LexScalar(v, pretty, step, indent, rest);
  }

  lemma CommaDelimits(rest: seq<Byte>)
    ensures Delimited([44] + rest)
  {}

  lemma OneItem(v: Json, pretty: bool, step: nat, indent: nat, rest: seq<Byte>)
    ensures DumpItems([v], pretty, step, indent) + rest == Spaces(indent) + (Dump(v, pretty, step, indent) + rest)
    ensures ItemTokens([v]) == Tokens(v)
  {
    hide Spaces, Dump, Tokens;
  }

  lemma FirstItem(items: seq<Json>, pretty: bool, step: nat, indent: nat, rest: seq<Byte>)
    requires |items| > 1
    ensures DumpItems(items, pretty, step, indent) + rest
         == Spaces(indent) + (Dump(items[0], pretty, step, indent)
              + ([44] + (Newline(pretty) + (DumpItems(items[1..], pretty, step, indent) + rest))))
    ensures ItemTokens(items) == Tokens(items[0]) + [ValueSeparator] + ItemTokens(items[1..])
  {
    hide Spaces, Dump, Newline, Tokens;
  }

  lemma {:induction false} ItemsScan(items: seq<Json>, pretty: bool, step: nat, indent: nat, rest: seq<Byte>)
    requires items != [] && Delimited(rest) && forall i :: 0 <= i < |items| ==> AllFinite(items[i])
    ensures Lex(DumpItems(items, pretty, step, indent) + rest) == ItemTokens(items) + Lex(rest)
    decreases items
  {
    hide Lex, Newline, Spaces, Delimited, Dump, Tokens, AllFinite, DumpItems, ItemTokens;
    var first := Dump(items[0], pretty, step, indent);
    if |items| == 1 {
      assert items == [items[0]];
      OneItem(items[0], pretty, step, indent, rest);
      DumpScans(items[0], pretty, step, indent, rest);
      LexSpaces(indent, first + rest);
    } else {
      var others := DumpItems(items[1..], pretty, step, indent) + rest;
      var after := [44] + (Newline(pretty) + others);
      FirstItem(items, pretty, step, indent, rest);
      ItemsScan(items[1..], pretty, step, indent, rest);
      LexNewline(pretty, others);
      LexMark(44, Newline(pretty) + others);
      CommaDelimits(Newline(pretty) + others);
      DumpScans(items[0], pretty, step, indent, after);
      LexSpaces(indent, first + after);
    }
  }

  /** A key, its colon and the blank behind it. */
  lemma KeyScans(key: seq<Byte>, pretty: bool, indent: nat, value: seq<Byte>)
    ensures Lex(Spaces(indent) + [QUOTE] + Escaped(key) + [QUOTE, 58] + (if pretty then [32] else []) + value)
         == [ValueString(Escaped(key)), NameSeparator] + Lex(value)
  {
    hide Lex, Spaces, Escaped;
    var blank := if pretty then [32] else [];
    if pretty { LexBlank(32, value); } else { assert blank + value == value; }
    LexMark(58, blank + value);
    LexString(key, [58] + (blank + value));
    var text := [QUOTE] + Escaped(key) + [QUOTE] + ([58] + (blank + value));
    LexSpaces(indent, text);
    assert Spaces(indent) + [QUOTE] + Escaped(key) + [QUOTE, 58] + blank + value == Spaces(indent) + text;
  }

  /** What follows the first member of an object's dump. */
  function DumpAfter(members: seq<Member>, pretty: bool, step: nat, indent: nat, rest: seq<Byte>): seq<Byte>
    requires members != []
  {
    if |members| == 1 then rest
    else [44] + (Newline(pretty) + (DumpMembers(members[1..], pretty, step, indent) + rest))
  }

  lemma DumpFirst(members: seq<Member>, pretty: bool, step: nat, indent: nat, rest: seq<Byte>)
    requires members != []
    ensures DumpMembers(members, pretty, step, indent) + rest
         == Spaces(indent) + [QUOTE] + Escaped(members[0].key) + [QUOTE, 58] + (if pretty then [32] else [])
            + (Dump(members[0].value, pretty, step, indent) + DumpAfter(members, pretty, step, indent, rest))
  {
    hide Spaces, Escaped, Dump, Newline;
  }

  lemma {:induction false} MembersScan(members: seq<Member>, pretty: bool, step: nat, indent: nat, rest: seq<Byte>)
    requires members != [] && Delimited(rest) && forall i :: 0 <= i < |members| ==> AllFinite(members[i].value)
    ensures Lex(DumpMembers(members, pretty, step, indent) + rest) == MemberTokens(members) + Lex(rest)
    decreases members
  {
    hide Lex, Newline, Spaces, Delimited, Dump, DumpMembers, Tokens, AllFinite, Escaped, MemberTokens;
    var m, after := members[0], DumpAfter(members, pretty, step, indent, rest);
    if |members| > 1 {
      var others := DumpMembers(members[1..], pretty, step, indent) + rest;
      MembersScan(members[1..], pretty, step, indent, rest);
      LexNewline(pretty, others);
      LexMark(44, Newline(pretty) + others);
      CommaDelimits(Newline(pretty) + others);
    }
    DumpScans(m.value, pretty, step, indent, after);
    KeyScans(m.key, pretty, indent, Dump(m.value, pretty, step, indent) + after);
    DumpFirst(members, pretty, step, indent, rest);
    FirstMember(members, Lex(rest));
  }

  // ---------- which values come back ----------

  /** Doubles hold all the integers of the value, and each of its doubles comes back. */
  ghost predicate Survives(v: Json) {
    match v
    case Int(n) => Exact(n)
    case Float(d) => ComesBack(d)
    case Arr(items) => forall i :: 0 <= i < |items| ==> Survives(items[i])
    case Obj(members) => forall i :: 0 <= i < |members| ==> Survives(members[i].value)
    case _ => true
  }

  /** Integers of 64 bits and doubles, as basic_json stores them. */
  predicate Storable(v: Json) {
    match v
    case Int(n) => -TWO63 <= n < TWO63
    case Float(d) => Representable(d)
    case Arr(items) => forall i :: 0 <= i < |items| ==> Storable(items[i])
    case Obj(members) => forall i :: 0 <= i < |members| ==> Storable(members[i].value)
    case _ => true
  }

  lemma {:induction false} ThroughDoubleKeeps(v: Json)
    requires Storable(v) && AllFinite(v)
    ensures ThroughDouble(v) == v <==> Survives(v)
    decreases v
  {
    hide IntegerOf, ReadDouble, PrintDouble, Decimal, Exact, ComesBack, Representable;
    match v
    case Int(n) => IntegerBack(n);
    case Float(d) => DoubleBackIff(d);
    case Arr(items) => ItemsKept(items);
    case Obj(members) => MembersKept(members);
    case _ =>
  }

  lemma {:induction false} ItemsKept(items: seq<Json>)
    requires forall i :: 0 <= i < |items| ==> Storable(items[i]) && AllFinite(items[i])
    ensures ItemsThrough(items) == items <==> forall i :: 0 <= i < |items| ==> Survives(items[i])
    decreases items
  {
    hide ThroughDouble, Survives, Storable, AllFinite;
    if items != [] {
      ThroughDoubleKeeps(items[0]);
      ItemsKept(items[1..]);
      assert items == [items[0]] + items[1..];
      assert ItemsThrough(items)[1..] == ItemsThrough(items[1..]);
    }
  }

  lemma {:induction false} MembersKept(members: seq<Member>)
    requires forall i :: 0 <= i < |members| ==> Storable(members[i].value) && AllFinite(members[i].value)
    ensures MembersThrough(members) == members <==> forall i :: 0 <= i < |members| ==> Survives(members[i].value)
    decreases members
  {
    hide ThroughDouble, Survives, Storable, AllFinite;
    if members != [] {
      ThroughDoubleKeeps(members[0].value);
      MembersKept(members[1..]);
      assert members == [members[0]] + members[1..];
      assert MembersThrough(members)[1..] == MembersThrough(members[1..]);
    }
  }

  /** Parsing what dump wrote, compact or indented, succeeds, and gives the value with its
      integers as doubles round them, and its doubles as integers if they are whole. */
  lemma ParsingUndoesDumping(v: Json, pretty: bool, step: nat)
    requires Regular(v) && AllFinite(v)
    ensures Parse(Dump(v, pretty, step, 0)) == Success(ThroughDouble(v))
  {
    hide Dump, Tokens, ParseValue, ThroughDouble, Scan;
    var s := Dump(v, pretty, step, 0);
    DumpScans(v, pretty, step, 0, []);
    assert s + [] == s;
    LexNothing();
    ValueParses(v, [EndOfInput]);
  }

  lemma LexNothing()
    ensures Lex([]) == [EndOfInput]
  {}

  // ---------- a dump that does not parse ----------

  ghost predicate HasError(ts: seq<Token>) {
    exists i :: 0 <= i < |ts| && ts[i].ParseError?
  }

  lemma ErrorBehind(front: seq<Token>, ts: seq<Token>)
    requires HasError(ts)
    ensures HasError(front + ts)
  {
    var i :| 0 <= i < |ts| && ts[i].ParseError?;
    assert (front + ts)[|front| + i] == ts[i];
  }

  /** "nan" and "inf", with or without a sign, are no tokens. */
  lemma NonFiniteBreaks(d: Double, rest: seq<Byte>)
    requires !d.Finite?
    ensures HasError(Lex(PrintDouble(d) + rest))
  {
    hide StringEnd;
    var s := PrintDouble(d) + rest;
    assert s[0] == 45 || s[0] == 105 || s[0] == 110;
    assert s[0] == 110 ==> s[1] == 97;
    assert s[0] == 45 ==> !Digit(s[1]) && s[1..][0] == s[1];
    assert NumberLength(s) == 0;
    assert Scan(s).token == ParseError;
    assert Lex(s)[0].ParseError?;
  }

  /** The scanner stops with an error somewhere in the dump. */
  lemma {:induction false} DumpBreaks(v: Json, pretty: bool, step: nat, indent: nat, rest: seq<Byte>)
    requires !AllFinite(v)
    ensures HasError(Lex(Dump(v, pretty, step, indent) + rest))
    decreases v
  {
    hide Lex, Dump, Newline, Spaces, DumpItems, DumpMembers, HasError;
    var deeper := if pretty then indent + step else indent;
    match v
    case Float(d) =>
      NonFiniteBreaks(d, rest);
      assert Dump(v, pretty, step, indent) == PrintDouble(d) by { DumpOfFloat(d, pretty, step, indent); }
    case Arr(items) =>
      ItemsBreak(items, pretty, step, deeper, Newline(pretty) + Spaces(indent) + [93] + rest);
      ArrayBreaks(items, pretty, step, indent, rest);
    case Obj(members) =>
      MembersBreak(members, pretty, step, deeper, Newline(pretty) + Spaces(indent) + [125] + rest);
      ObjectBreaks(members, pretty, step, indent, rest);
  }

  lemma DumpOfFloat(d: Double, pretty: bool, step: nat, indent: nat)
    ensures Dump(Float(d), pretty, step, indent) == PrintDouble(d)
  {}

  lemma ArrayBreaks(items: seq<Json>, pretty: bool, step: nat, indent: nat, rest: seq<Byte>)
    requires items != []
    requires var deeper := if pretty then indent + step else indent;
             HasError(Lex(DumpItems(items, pretty, step, deeper) + (Newline(pretty) + Spaces(indent) + [93] + rest)))
    ensures HasError(Lex(Dump(Arr(items), pretty, step, indent) + rest))
  {
    hide Lex, Newline, Spaces, DumpItems, HasError, Mark;
    var body := DumpItems(items, pretty, step, if pretty then indent + step else indent);
    BracketBreaks(91, pretty, body, Newline(pretty) + Spaces(indent) + [93] + rest);
    Regroups([91], Newline(pretty), body, Spaces(indent), [93], rest);
  }

  lemma ObjectBreaks(members: seq<Member>, pretty: bool, step: nat, indent: nat, rest: seq<Byte>)
    requires members != []
    requires var deeper := if pretty then indent + step else indent;
             HasError(Lex(DumpMembers(members, pretty, step, deeper)
                          + (Newline(pretty) + Spaces(indent) + [125] + rest)))
    ensures HasError(Lex(Dump(Obj(members), pretty, step, indent) + rest))
  {
    hide Lex, Newline, Spaces, DumpMembers, HasError, Mark;
    var body := DumpMembers(members, pretty, step, if pretty then indent + step else indent);
    BracketBreaks(123, pretty, body, Newline(pretty) + Spaces(indent) + [125] + rest);
    Regroups([123], Newline(pretty), body, Spaces(indent), [125], rest);
  }

  lemma Regroups(left: seq<Byte>, line: seq<Byte>, body: seq<Byte>, spaces: seq<Byte>, right: seq<Byte>,
                 rest: seq<Byte>)
    ensures left + line + body + line + spaces + right + rest == left + (line + (body + (line + spaces + right + rest)))
  {}

  lemma BracketBreaks(c: Byte, pretty: bool, body: seq<Byte>, close: seq<Byte>)
    requires (c == 91 || c == 123) && HasError(Lex(body + close))
    ensures HasError(Lex([c] + (Newline(pretty) + (body + close))))
  {
    hide Lex, Newline, HasError;
    LexNewline(pretty, body + close);
    LexMark(c, Newline(pretty) + (body + close));
    ErrorBehind([Mark(c)], Lex(body + close));
  }

  lemma {:induction false} ItemsBreak(items: seq<Json>, pretty: bool, step: nat, indent: nat, rest: seq<Byte>)
    requires items != [] && exists i :: 0 <= i < |items| && !AllFinite(items[i])
    ensures HasError(Lex(DumpItems(items, pretty, step, indent) + rest))
    decreases items
  {
    hide Lex, Newline, Spaces, Delimited, Dump, Tokens, AllFinite, DumpItems, ItemTokens, HasError;
    var first := Dump(items[0], pretty, step, indent);
    var others, after := [], rest;
    if |items| == 1 {
      assert items == [items[0]];
      OneItem(items[0], pretty, step, indent, rest);
    } else {
      others := DumpItems(items[1..], pretty, step, indent) + rest;
      after := [44] + (Newline(pretty) + others);
      FirstItem(items, pretty, step, indent, rest);
      CommaDelimits(Newline(pretty) + others);
    }
    LexSpaces(indent, first + after);
    if !AllFinite(items[0]) {
      DumpBreaks(items[0], pretty, step, indent, after);
    } else {
      SomeBehind(items);
      ItemsBreak(items[1..], pretty, step, indent, rest);
      LexNewline(pretty, others);
      LexMark(44, Newline(pretty) + others);
      DumpScans(items[0], pretty, step, indent, after);
      ErrorBehind([Mark(44)], Lex(others));
      ErrorBehind(Tokens(items[0]), Lex(after));
    }
  }

  lemma SomeBehind(items: seq<Json>)
    requires items != [] && AllFinite(items[0]) && exists i :: 0 <= i < |items| && !AllFinite(items[i])
    ensures items[1..] != [] && exists i :: 0 <= i < |items[1..]| && !AllFinite(items[1..][i])
  {
    var i :| 0 <= i < |items| && !AllFinite(items[i]);
    assert items[1..][i - 1] == items[i];
  }

  lemma {:induction false} MembersBreak(members: seq<Member>, pretty: bool, step: nat, indent: nat, rest: seq<Byte>)
    requires members != [] && exists i :: 0 <= i < |members| && !AllFinite(members[i].value)
    ensures HasError(Lex(DumpMembers(members, pretty, step, indent) + rest))
    decreases members
  {
    hide Lex, Newline, Spaces, Delimited, Dump, DumpMembers, Tokens, AllFinite, Escaped, HasError;
    var m, after := members[0], DumpAfter(members, pretty, step, indent, rest);
    var value := Dump(m.value, pretty, step, indent);
    DumpFirst(members, pretty, step, indent, rest);
    KeyScans(m.key, pretty, indent, value + after);
    if !AllFinite(m.value) {
      DumpBreaks(m.value, pretty, step, indent, after);
    } else {
      SomeMemberBehind(members);
      var others := DumpMembers(members[1..], pretty, step, indent) + rest;
      MembersBreak(members[1..], pretty, step, indent, rest);
      LexNewline(pretty, others);
      LexMark(44, Newline(pretty) + others);
      CommaDelimits(Newline(pretty) + others);
      DumpScans(m.value, pretty, step, indent, after);
      ErrorBehind([Mark(44)], Lex(others));
      ErrorBehind(Tokens(m.value), Lex(after));
    }
    ErrorBehind([ValueString(Escaped(m.key)), NameSeparator], Lex(value + after));
  }

  lemma SomeMemberBehind(members: seq<Member>)
    requires members != [] && AllFinite(members[0].value)
    requires exists i :: 0 <= i < |members| && !AllFinite(members[i].value)
    ensures |members| > 1 && exists i :: 0 <= i < |members[1..]| && !AllFinite(members[1..][i].value)
  {
    var i :| 0 <= i < |members| && !AllFinite(members[i].value);
    assert members[1..][i - 1] == members[i];
  }

  // ---------- a parser that succeeds has met no error ----------

  /** The tokens up to the rest are no errors. */
  ghost predicate Clean(ts: seq<Token>, rest: seq<Token>) {
    && |rest| <= |ts| && ts[|ts| - |rest|..] == rest
    && forall i :: 0 <= i < |ts| - |rest| ==> !ts[i].ParseError?
  }

  lemma CleanStep(ts: seq<Token>, n: nat, rest: seq<Token>)
    requires n <= |ts| && Clean(ts[n..], rest) && forall i :: 0 <= i < n ==> !ts[i].ParseError?
    ensures Clean(ts, rest)
  {
    forall i | 0 <= i < |ts| - |rest| ensures !ts[i].ParseError? {
      if i >= n { assert ts[i] == ts[n..][i - n]; }
    }
    assert ts[|ts| - |rest|..] == ts[n..][|ts| - n - |rest|..];
  }

  lemma CleanTail(ts: seq<Token>, rest: seq<Token>)
    requires Clean(ts, rest) && rest != [] && !rest[0].ParseError?
    ensures Clean(ts, rest[1..])
  {
    var n := |ts| - |rest|;
    assert ts[n..][0] == ts[n] && ts[n + 1..] == ts[n..][1..];
  }

  lemma CleanJoin(ts: seq<Token>, middle: seq<Token>, rest: seq<Token>)
    requires Clean(ts, middle) && Clean(middle, rest)
    ensures Clean(ts, rest)
  {
    CleanStep(ts, |ts| - |middle|, rest);
  }

  lemma {:induction false} ValueClean(ts: seq<Token>)
    requires ParseValue(ts).Ok?
    ensures Clean(ts, ParseValue(ts).rest)
    decreases |ts|, 0
  {
    hide Clean, NumberValue, Unescaped, ParseItems, ParseMembers;
    AllClean(ts[1..]);
    CleanStep(ts, 1, ts[1..]);
    if ts[0].BeginArray? || ts[0].BeginObject? {
      var isArray := ts[0].BeginArray?;
      if |ts| > 1 && (if isArray then ts[1].EndArray? else ts[1].EndObject?) {
        AllClean(ts[2..]);
        CleanStep(ts, 2, ts[2..]);
      } else if isArray {
        ItemsClean(ts[1..], []);
        CleanStep(ts, 1, ParseValue(ts).rest);
      } else {
        MembersClean(ts[1..], []);
        CleanStep(ts, 1, ParseValue(ts).rest);
      }
    }
  }

  lemma AllClean(ts: seq<Token>)
    ensures Clean(ts, ts)
  {}

  lemma {:induction false} ItemsClean(ts: seq<Token>, items: seq<Json>)
    requires ParseItems(ts, items).Ok?
    ensures Clean(ts, ParseItems(ts, items).rest)
    decreases |ts|, 1
  {
    hide Clean, ParseValue;
    ValueClean(ts);
    var v := ParseValue(ts);
    CleanTail(ts, v.rest);
    if v.rest[0].ValueSeparator? {
      ItemsClean(v.rest[1..], items + [v.value]);
      CleanJoin(ts, v.rest[1..], ParseItems(ts, items).rest);
    }
  }

  lemma {:induction false} MembersClean(ts: seq<Token>, members: seq<Member>)
    requires ParseMembers(ts, members).Ok?
    ensures Clean(ts, ParseMembers(ts, members).rest)
    decreases |ts|, 1
  {
    hide Clean, ParseValue, Insert, Unescaped;
    ValueClean(ts[2..]);
    var v := ParseValue(ts[2..]);
    CleanStep(ts, 2, v.rest);
    CleanTail(ts, v.rest);
    if v.rest[0].ValueSeparator? {
      var more := Insert(members, Unescaped(ts[0].inner).bytes, v.value);
      MembersClean(v.rest[1..], more);
      CleanJoin(ts, v.rest[1..], ParseMembers(ts, members).rest);
    }
  }

  /** Only the last token is an error or the end. */
  lemma {:induction false} LexEnds(s: seq<Byte>, i: nat)
    requires i + 1 < |Lex(s)|
    ensures !Lex(s)[i].ParseError? && !Lex(s)[i].EndOfInput?
    decreases |s|
  {
    hide Scan;
    if i > 0 { LexEnds(Scan(s).rest, i - 1); }
  }

  lemma ErrorFails(s: seq<Byte>)
    requires HasError(Lex(s))
    ensures Parse(s) == Failure
  {
    hide Lex, ParseValue;
    var ts := Lex(s);
    if Parse(s) != Failure {
      ValueClean(ts);
      var rest := ParseValue(ts).rest;
      var n := |ts| - |rest|;
      assert ts[n] == rest[0];
      if n + 1 < |ts| { LexEnds(s, n); }
    }
  }

  /** Parsing a dump fails if and only if the value has an infinity or something that is not
      a number. */
  lemma DumpParsesIff(v: Json, pretty: bool, step: nat)
    requires Regular(v)
    ensures Parse(Dump(v, pretty, step, 0)).Success? <==> AllFinite(v)
  {
    hide Parse, Dump, ThroughDouble, AllFinite, HasError, Lex;
    if AllFinite(v) {
      ParsingUndoesDumping(v, pretty, step);
    } else {
      DumpBreaks(v, pretty, step, 0, []);
      assert Dump(v, pretty, step, 0) + [] == Dump(v, pretty, step, 0);
      ErrorFails(Dump(v, pretty, step, 0));
    }
  }

  lemma {:induction false} SurvivorsFinite(v: Json)
    requires Survives(v)
    ensures AllFinite(v)
  {
    match v
    case Arr(items) =>
      forall i | 0 <= i < |items| ensures AllFinite(items[i]) { SurvivorsFinite(items[i]); }
    case Obj(members) =>
      forall i | 0 <= i < |members| ensures AllFinite(members[i].value) { SurvivorsFinite(members[i].value); }
    case _ =>
  }

  /** Parsing a dump gives the value itself exactly when doubles hold all its integers and
      its doubles come back. */
  lemma RoundTripIff(v: Json, pretty: bool, step: nat)
    requires Regular(v) && Storable(v)
    ensures Parse(Dump(v, pretty, step, 0)) == Success(v) <==> Survives(v)
  {
    hide Parse, Dump, ThroughDouble, Survives, AllFinite;
    DumpParsesIff(v, pretty, step);
    if AllFinite(v) {
      ParsingUndoesDumping(v, pretty, step);
      ThroughDoubleKeeps(v);
    } else if Survives(v) {
      SurvivorsFinite(v);
    }
  }

  // ---------- a number text parsed and dumped ----------

  /** A text that is one number, read as a normal double, parses, and what is dumped then is
      the same number if and only if it is a whole one that a double holds, or not whole and
      of at most fifteen digits, the zeros behind them left out. */
  lemma NumberTextBackIff(text: seq<Byte>, pretty: bool, step: nat)
    requires NumberText(text)
    requires ReadDouble(text).Finite? && ReadDouble(text).units >= TWO52
    ensures Mantissa(text) > 0 && Parse(text) == Success(NumberValue(text))
    ensures SameNumber(Dump(NumberValue(text), pretty, step, 0), text) <==>
            match WholeValue(Mantissa(text), Exponent(text))
            case Some(n) => Exact(n)
            case None => Stripped(Mantissa(text), Exponent(text)).digits < TEN15
  {
    hide NumberText, Lex, ReadDouble, Exact, WholeValue, Stripped, Mantissa, Exponent, SameNumber, IntegerOf;
    hide PrintDouble, Decimal;
    LexNumber(text, []);
    LexNothing();
    assert text + [] == text;
    NumberComesBackIff(text);
    assert Dump(NumberValue(text), pretty, step, 0) == Reprinted(text);
  }
}
