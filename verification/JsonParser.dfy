/** The parser object of common/json.h: one token of lookahead, and a method that calls
    itself for the values of arrays and objects. */
module JsonParser {
  import opened Bytes
  import opened JsonString
  import opened Json
  import opened JsonNumber
  import opened Options

  /** No token is read past these. */
  predicate Ends(t: Token) {
    t.ParseError? || t.EndOfInput?
  }

  /** A string token is what the scanner takes for one. */
  predicate Whole(t: Token) {
    t.ValueString? ==> Tail(t.inner + [QUOTE])
  }

  lemma {:induction false} ScanIsWhole(s: seq<Byte>)
    ensures Whole(Scan(s).token)
    decreases |s|
  {
    hide StringEnd, Tail, NumberLength, StrtodAgrees;
    if s != [] && (s[0] == 9 || s[0] == 10 || s[0] == 13 || s[0] == 32) {
      ScanIsWhole(s[1..]);
    } else if Starts(s, [0xEF, 0xBB, 0xBF]) {
      ScanIsWhole(s[3..]);
    } else if s != [] && StringEnd(s[1..]) != -1 {
      var t, end := s[1..], StringEnd(s[1..]);
      EndsWithQuote(t);
      StringEndsThere(t);
      assert t[..end] == s[1..end] + [QUOTE];
    }
  }

  lemma {:induction false} EndsWithQuote(t: seq<Byte>)
    requires StringEnd(t) != -1
    ensures t[StringEnd(t) - 1] == QUOTE
    decreases |t|
  {
    if t[0] != QUOTE {
      var n := if t[0] != BACKSLASH then 1 else if t[1] == 117 then 6 else 2;
      EndsWithQuote(t[n..]);
    }
  }

  /** get_string on the last token. */
  method TokenText(t: Token) returns (text: Text)
    requires t.ValueString? && Whole(t)
    ensures text == Unescaped(t.inner)
  {
    var token := [QUOTE] + t.inner + [QUOTE];
    assert token[1..] == t.inner + [QUOTE] && token[1..|token| - 1] == t.inner;
    text := GetString(token);
  }

  class Parser {
    /** The text from m_cursor on. */
    var unread: seq<Byte>
    var lastToken: Token

    /** The tokens from the last one read on. */
    ghost function Ahead(): (ts: seq<Token>)
      reads this
      ensures ts != [] && ts[0] == lastToken
    {
      if Ends(lastToken) then [lastToken] else [lastToken] + Lex(unread)
    }

    /** Reads the first token. */
    constructor (s: seq<Byte>)
      ensures Ahead() == Lex(s) && Whole(lastToken)
    {
      ScanIsWhole(s);
      var scanned := Scan(s);
      lastToken, unread := scanned.token, scanned.rest;
    }

    method GetToken()
      requires !Ends(lastToken)
      modifies this
      ensures Ahead() == old(Ahead())[1..] && Whole(lastToken)
    {
      ScanIsWhole(unread);
      var scanned := Scan(unread);
      lastToken, unread := scanned.token, scanned.rest;
    }

    /** What a parse that met these tokens leaves: none for an exception. */
    ghost predicate Left(goal: Parsed, result: Option<Json>)
      reads this
    {
      match goal
      case Ok(v, rest) => result == Some(v) && Ahead() == rest
      case Fail => result == None
    }

    /** parse_internal, without a callback. */
    method ParseInternal() returns (result: Option<Json>)
      requires Whole(lastToken)
      modifies this
      ensures Left(ParseValue(old(Ahead())), result)
      ensures result.Some? ==> Whole(lastToken)
      decreases |Ahead()|, 1
    {
      hide Lex, Unescaped, NumberValue, ParseItems, ParseMembers, Whole;
      match lastToken
      case BeginObject =>
        GetToken();
        if lastToken.EndObject? {
          GetToken();
          return Some(Obj([]));
        }
        if lastToken.ValueSeparator? {
          return None;
        }
        result := ParseObject();
      case BeginArray =>
        GetToken();
        if lastToken.EndArray? {
          GetToken();
          return Some(Arr([]));
        }
        if lastToken.ValueSeparator? {
          return None;
        }
        result := ParseArray();
      case LiteralNull =>
        GetToken();
        result := Some(Null);
      case ValueString(inner) =>
        var s := TokenText(lastToken);
        if s.Thrown? {
          return None;
        }
        GetToken();
        result := Some(Str(s.bytes));
      case LiteralTrue =>
        GetToken();
        result := Some(Bool(true));
      case LiteralFalse =>
        GetToken();
        result := Some(Bool(false));
      case ValueNumber(text, whole) =>
        if !whole {
          return None;
        }
        GetToken();
        result := Some(NumberValue(text));
      case _ =>
        result := None;
    }

    /** The tokens past a separator, if the last one read is one. */
    ghost function Past(): seq<Token>
      reads this
    {
      if lastToken.ValueSeparator? then Ahead()[1..] else Ahead()
    }

    /** The loop over an array's values, and the bracket behind it. */
    method ParseArray() returns (result: Option<Json>)
      requires !lastToken.ValueSeparator? && Whole(lastToken)
      modifies this
      ensures Left(ParseItems(old(Ahead()), []), result)
      ensures result.Some? ==> Whole(lastToken)
      decreases |Ahead()|, 2
    {
      hide Lex, ParseValue, Whole;
      ghost var goal := ParseItems(Ahead(), []);
      var items, more := [], true;
      while more
        invariant |Ahead()| <= old(|Ahead()|) && Whole(lastToken)
        invariant more ==> goal == ParseItems(Past(), items)
        invariant !more ==> goal == if lastToken.EndArray? then Ok(Arr(items), Ahead()[1..]) else Fail
        decreases |Ahead()|, more
      {
        if lastToken.ValueSeparator? {
          GetToken();
        }
        var value := ParseInternal();
        if value == None {
          return None;
        }
        items := items + [value.value];
        more := lastToken.ValueSeparator?;
      }
      if !lastToken.EndArray? {
        return None;
      }
      GetToken();
      result := Some(Arr(items));
    }

    /** The loop over an object's members, and the brace behind it. */
    method ParseObject() returns (result: Option<Json>)
      requires !lastToken.ValueSeparator? && Whole(lastToken)
      modifies this
      ensures Left(ParseMembers(old(Ahead()), []), result)
      ensures result.Some? ==> Whole(lastToken)
      decreases |Ahead()|, 2
    {
      hide Lex, ParseValue, Unescaped, Insert, Whole;
      ghost var goal := ParseMembers(Ahead(), []);
      var members: seq<Member>, more := [], true;
      while more
        invariant |Ahead()| <= old(|Ahead()|) && Whole(lastToken)
        invariant more ==> goal == ParseMembers(Past(), members)
        invariant !more ==> goal == if lastToken.EndObject? then Ok(Obj(members), Ahead()[1..]) else Fail
        decreases |Ahead()|, more
      {
        if lastToken.ValueSeparator? {
          GetToken();
        }
        if !lastToken.ValueString? {
          return None;
        }
        var key := TokenText(lastToken);
        if key.Thrown? {
          return None;
        }
        GetToken();
        if !lastToken.NameSeparator? {
          return None;
        }
        GetToken();
        var value := ParseInternal();
        if value == None {
          return None;
        }
        members := Insert(members, key.bytes, value.value);
        more := lastToken.ValueSeparator?;
      }
      if !lastToken.EndObject? {
        return None;
      }
      GetToken();
      result := Some(Obj(members));
    }
  }

  /** parse(): one value and the end of the input. */
  method ParseText(s: seq<Byte>) returns (result: Result)
    ensures result == Parse(s)
  {
    hide Lex, ParseValue;
    var parser := new Parser(s);
    var value := parser.ParseInternal();
    if value == None || !parser.lastToken.EndOfInput? {
      return Failure;
    }
    result := Success(value.value);
  }
}
