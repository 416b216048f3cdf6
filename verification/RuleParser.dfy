/** The table-driven parser of extract/rule_parse.cpp: Bison's shift/reduce loop
    over its own tables, with the semantic actions that build the rule set. */
module RuleParser {
  import opened Options

  // ---------- tokens ----------

  /** The characters of a STRING token: the scanner only matches quoted text, so
      there are at least the two quotes. */
  predicate Quoted(s: string) {
    |s| >= 2 && (s[0] == '\'' || s[0] == '"') && (s[|s| - 1] == '\'' || s[|s| - 1] == '"')
  }

  type QuotedText = s: string | Quoted(s) witness "''"

  datatype Kind = MIME | TYPE | EXTENSION | CATEGORY

  datatype Action = STORE | DISCARD | QUEUE | LOG

  datatype Token =
    | LBRACE | RBRACE | SEMICOLON | THEN
    | DO(action: Action)
    | KIND(kind: Kind)
    | UNKNOWN
    | STRING(text: QuotedText)

  /** YYTRANSLATE of the token's number: its symbol number. */
  function Symbol(t: Token): (symbol: nat)
    ensures 3 <= symbol <= 16
  {
    match t
    case LBRACE => 3
    case RBRACE => 4
    case SEMICOLON => 5
    case THEN => 6
    case DO(STORE) => 7
    case DO(DISCARD) => 8
    case DO(QUEUE) => 9
    case DO(LOG) => 10
    case KIND(MIME) => 11
    case KIND(TYPE) => 12
    case KIND(EXTENSION) => 13
    case KIND(CATEGORY) => 14
    case UNKNOWN => 15
    case STRING(_) => 16
  }

  /** The lookahead's symbol number; zero at the end of the input. */
  function LookaheadSymbol(tokens: seq<Token>): (symbol: nat)
    ensures symbol <= 16
  {
    if tokens == [] then 0 else Symbol(tokens[0])
  }

  // ---------- the tables; entries left out hold the default ----------

  const YYFINAL: int := 14
  const YYLAST: int := 44
  const YYNTOKENS: int := 17
  const YYINITDEPTH: int := 200
  const YYPACT_NINF: int := -22

  /** yypact: where a state's row starts. */
  function YyPact(i: int): int {
    match i
    case 0 => -5
    case 1 => -15
    case 2 => 12
    case 3 => 14
    case 4 => 17
    case 5 => 28
    case 6 => 32
    case 7 => -5
    case 9 => 31
    case 10 => 33
    case 11 => 34
    case 12 => 35
    case 13 => 29
    case 16 => 29
    case 17 => 29
    case 18 => 29
    case 19 => 29
    case 20 => 4
    case 21 => 15
    case 23 => 16
    case 24 => 19
    case 25 => 20
    case 26 => 23
    case 31 => 36
    case _ => -22
  }

  /** yydefact: a state's default reduction. */
  function YyDefact(i: int): int {
    match i
    case 7 => 2
    case 8 => 4
    case 14 => 1
    case 15 => 3
    case 22 => 11
    case 27 => 14
    case 28 => 15
    case 29 => 16
    case 30 => 13
    case 32 => 5
    case 33 => 10
    case 34 => 6
    case 35 => 7
    case 36 => 8
    case 37 => 9
    case 38 => 12
    case _ => 0
  }

  /** yytable: what to do. */
  function YyTable(i: int): int {
    match i
    case 0 => 33
    case 1 => 9
    case 2 => 33
    case 3 => 33
    case 4 => 33
    case 5 => 33
    case 6 => 1
    case 7 => 2
    case 8 => 3
    case 9 => 4
    case 10 => 5
    case 11 => 27
    case 12 => 28
    case 13 => 29
    case 14 => 30
    case 15 => 23
    case 16 => 24
    case 17 => 25
    case 18 => 26
    case 19 => 32
    case 20 => 34
    case 21 => 20
    case 22 => 20
    case 23 => 35
    case 24 => 36
    case 25 => 20
    case 26 => 20
    case 27 => 37
    case 28 => 10
    case 29 => 20
    case 30 => 11
    case 31 => 13
    case 32 => 14
    case 33 => 12
    case 34 => 16
    case 35 => 20
    case 36 => 17
    case 37 => 18
    case 38 => 19
    case 41 => 38
    case 44 => 15
    case _ => 0
  }

  /** yycheck: whom an entry of yytable belongs to. */
  function YyCheck(i: int): int {
    match i
    case 0 => 21
    case 1 => 16
    case 2 => 23
    case 3 => 24
    case 4 => 25
    case 5 => 26
    case 6 => 11
    case 7 => 12
    case 8 => 13
    case 9 => 14
    case 10 => 15
    case 11 => 7
    case 12 => 8
    case 13 => 9
    case 14 => 10
    case 15 => 16
    case 16 => 17
    case 17 => 18
    case 18 => 19
    case 19 => 4
    case 20 => 4
    case 21 => 6
    case 22 => 6
    case 23 => 4
    case 24 => 4
    case 25 => 6
    case 26 => 6
    case 27 => 4
    case 28 => 16
    case 29 => 6
    case 30 => 16
    case 31 => 3
    case 32 => 0
    case 33 => 16
    case 34 => 3
    case 35 => 6
    case 36 => 3
    case 37 => 3
    case 38 => 3
    case 41 => 5
    case 44 => 7
    case _ => -1
  }

  /** yypgoto, by non-terminal number less 17. */
  function YyPgoto(i: int): int {
    match i
    case 3 => 37
    case 4 => -1
    case 5 => -21
    case _ => -22
  }

  /** yydefgoto, by non-terminal number less 17. */
  function YyDefgoto(i: int): int {
    match i
    case 1 => 6
    case 2 => 7
    case 3 => 8
    case 4 => 21
    case 5 => 22
    case 6 => 31
    case _ => -1
  }

  /** yyr1: the left-hand side of a rule. */
  function YyR1(i: int): int {
    match i
    case 1 => 17
    case 2 => 18
    case 3 => 19
    case 4 => 19
    case 5 => 20
    case 6 => 20
    case 7 => 20
    case 8 => 20
    case 9 => 20
    case 10 => 21
    case 11 => 21
    case 12 => 22
    case 13 => 23
    case 14 => 23
    case 15 => 23
    case 16 => 23
    case _ => 0
  }

  /** yyr2: the length of a rule's right-hand side. */
  function YyR2(i: int): int {
    match i
    case 0 => 0
    case 1 => 2
    case 3 => 2
    case 5 => 4
    case 6 => 5
    case 7 => 5
    case 8 => 5
    case 9 => 5
    case 10 => 2
    case 12 => 3
    case _ => 1
  }

  datatype Move = Shift(state: int) | Reduce(rule: int) | Error

  function DefaultMove(state: int): Move {
    if YyDefact(state) == 0 then Error else Reduce(YyDefact(state))
  }

  /** yybackup and yydefault: the move in a state on a lookahead symbol. */
  function Decide(state: int, symbol: int): Move {
    var row := YyPact(state);
    if row == YYPACT_NINF then DefaultMove(state)
    else
      var i := row + symbol;
      if i < 0 || YYLAST < i || YyCheck(i) != symbol then DefaultMove(state)
      else if YyTable(i) <= 0 then Reduce(-YyTable(i))
      else Shift(YyTable(i))
  }

  /** The state to enter after reducing by a rule, over the state uncovered. */
  function Goto(rule: int, top: int): int {
    var nonterminal := YyR1(rule) - YYNTOKENS;
    var i := YyPgoto(nonterminal) + top;
    if 0 <= i <= YYLAST && YyCheck(i) == top then YyTable(i) else YyDefgoto(nonterminal)
  }

  // ---------- semantic values ----------

  /** What a rule of the file becomes: a RuleNode with its ActionNode. */
  datatype Rule = UnknownRule(actions: seq<Action>) | NamedRule(kind: Kind, name: string, actions: seq<Action>)

  /** YYSTYPE. Tokens other than STRING leave whatever the union held. */
  datatype Value = Junk | Text(text: QuotedText) | Word(action: Action) | List(actions: seq<Action>) | Node(rule: Rule)

  /** The RuleNode constructor's handling of quotes. */
  function NodeName(text: QuotedText): string {
    if text[0] == '\'' || text[0] == '"' then
      var erased := text[1..];
      erased[..|erased| - 1]
    else text
  }

  function TokenValue(tokens: seq<Token>): Value {
    if tokens != [] && tokens[0].STRING? then Text(tokens[0].text) else Junk
  }

  /** The value from the top, `back` places down: yyvsp[-back]. */
  function Peek(values: seq<Value>, back: nat): Value {
    if back < |values| then values[|values| - 1 - back] else Junk
  }

  function NodeOf(kind: Kind, name: Value, list: Value): Value {
    if name.Text? && list.List? then Node(NamedRule(kind, NodeName(name.text), list.actions)) else Junk
  }

  /** The action of a rule: the new yyval. The default is the first value of the
      right-hand side. */
  function Semantic(rule: int, values: seq<Value>): Value {
    match rule
    case 5 => if Peek(values, 1).List? then Node(UnknownRule(Peek(values, 1).actions)) else Junk
    case 6 => NodeOf(MIME, Peek(values, 3), Peek(values, 1))
    case 7 => NodeOf(TYPE, Peek(values, 3), Peek(values, 1))
    case 8 => NodeOf(EXTENSION, Peek(values, 3), Peek(values, 1))
    case 9 => NodeOf(CATEGORY, Peek(values, 3), Peek(values, 1))
    case 10 =>
      if Peek(values, 1).List? && Peek(values, 0).Word?
      then List(Peek(values, 1).actions + [Peek(values, 0).action]) else Junk
    case 11 => if Peek(values, 0).Word? then List([Peek(values, 0).action]) else Junk
    case 12 => Peek(values, 1)
    case 13 => Word(LOG)
    case 14 => Word(STORE)
    case 15 => Word(DISCARD)
    case 16 => Word(QUEUE)
    case _ => if YyR2(rule) >= 1 then Peek(values, YyR2(rule) - 1) else Junk
  }

  /** The actions of rules 3 and 4 push the finished node onto the rule set. */
  function RuleSet(rule: int, values: seq<Value>, rules: seq<Rule>): seq<Rule> {
    if (rule == 3 || rule == 4) && Peek(values, 0).Node? then rules + [Peek(values, 0).rule] else rules
  }

  // ---------- the parser ----------

  datatype Result = Accepted(rules: seq<Rule>) | Rejected

  /** A rule as written: its parts, before quotes are stripped. */
  datatype Source =
    | UnknownSource(actions: seq<Action>)
    | NamedSource(kind: Kind, text: QuotedText, actions: seq<Action>)

  function PrintActions(actions: seq<Action>): seq<Token> {
    if actions == [] then [] else [THEN, DO(actions[0]), SEMICOLON] + PrintActions(actions[1..])
  }

  function PrintSource(s: Source): seq<Token> {
    match s
    case UnknownSource(actions) => [UNKNOWN, LBRACE] + PrintActions(actions) + [RBRACE]
    case NamedSource(kind, text, actions) => [KIND(kind), STRING(text), LBRACE] + PrintActions(actions) + [RBRACE]
  }

  /** The tokens of a rule file. */
  function Print(sources: seq<Source>): seq<Token> {
    if sources == [] then [] else PrintSource(sources[0]) + Print(sources[1..])
  }

  function Build(s: Source): Rule {
    match s
    case UnknownSource(actions) => UnknownRule(actions)
    case NamedSource(kind, text, actions) => NamedRule(kind, NodeName(text), actions)
  }

  function BuildAll(sources: seq<Source>): seq<Rule> {
    if sources == [] then [] else [Build(sources[0])] + BuildAll(sources[1..])
  }

  // ---------- where in the file the parser is ----------

  datatype Head = UnknownHead | NamedHead(kind: Kind, text: QuotedText)

  /** Everything the stacks can stand for. */
  datatype Phase =
    | Ready
    | AfterKind(kind: Kind)
    | AfterName(kind: Kind, text: QuotedText)
    | AfterUnknown
    | Body(head: Head, actions: seq<Action>)
    | AfterThen(head: Head, actions: seq<Action>)
    | AfterWord(head: Head, actions: seq<Action>, action: Action)
    | AfterAction(head: Head, actions: seq<Action>, action: Action)
    | AfterSemicolon(head: Head, actions: seq<Action>, action: Action)
    | AfterStatement(head: Head, actions: seq<Action>, action: Action)
    | AfterBrace(head: Head, actions: seq<Action>)
    | AfterLine(rule: Rule)
    | AfterConfig
    | Final

  function KindIndex(k: Kind): nat {
    match k case MIME => 0 case TYPE => 1 case EXTENSION => 2 case CATEGORY => 3
  }

  function WordState(a: Action): int {
    match a case STORE => 27 case DISCARD => 28 case QUEUE => 29 case LOG => 30
  }

  function HeadStates(h: Head): seq<int> {
    match h
    case UnknownHead => [5, 13]
    case NamedHead(k, _) => [1 + KindIndex(k), 9 + KindIndex(k), 16 + KindIndex(k)]
  }

  function ListState(h: Head): int {
    match h case UnknownHead => 21 case NamedHead(k, _) => 23 + KindIndex(k)
  }

  function BraceState(h: Head): int {
    match h case UnknownHead => 32 case NamedHead(k, _) => 34 + KindIndex(k)
  }

  function BodyStates(h: Head, actions: seq<Action>): seq<int> {
    HeadStates(h) + if actions == [] then [] else [ListState(h)]
  }

  function BodyValues(h: Head, actions: seq<Action>): seq<Value> {
    (match h case UnknownHead => [Junk, Junk] case NamedHead(_, text) => [Junk, Text(text), Junk])
    + if actions == [] then [] else [List(actions)]
  }

  /** The state stack in a phase; `have` says whether a rule has been finished. */
  function States(ph: Phase, have: bool): (s: seq<int>)
    ensures 1 <= |s| <= 9
  {
    var base := if have then [0, 7] else [0];
    match ph
    case Ready => base
    case AfterKind(k) => base + [1 + KindIndex(k)]
    case AfterName(k, _) => base + [1 + KindIndex(k), 9 + KindIndex(k)]
    case AfterUnknown => base + [5]
    case Body(h, acts) => base + BodyStates(h, acts)
    case AfterThen(h, acts) => base + BodyStates(h, acts) + [20]
    case AfterWord(h, acts, a) => base + BodyStates(h, acts) + [20, WordState(a)]
    case AfterAction(h, acts, a) => base + BodyStates(h, acts) + [20, 31]
    case AfterSemicolon(h, acts, a) => base + BodyStates(h, acts) + [20, 31, 38]
    case AfterStatement(h, acts, a) => base + BodyStates(h, acts) + [if acts == [] then 22 else 33]
    case AfterBrace(h, acts) => base + BodyStates(h, acts) + [BraceState(h)]
    case AfterLine(_) => base + [if have then 15 else 8]
    case AfterConfig => [0, 6]
    case Final => [0, 6, 14]
  }

  /** The value stack beside it, above the values `base` of the bottom states. */
  function Values(ph: Phase, base: seq<Value>): seq<Value> {
    match ph
    case Ready => base
    case AfterKind(k) => base + [Junk]
    case AfterName(k, text) => base + [Junk, Text(text)]
    case AfterUnknown => base + [Junk]
    case Body(h, acts) => base + BodyValues(h, acts)
    case AfterThen(h, acts) => base + BodyValues(h, acts) + [Junk]
    case AfterWord(h, acts, a) => base + BodyValues(h, acts) + [Junk, Junk]
    case AfterAction(h, acts, a) => base + BodyValues(h, acts) + [Junk, Word(a)]
    case AfterSemicolon(h, acts, a) => base + BodyValues(h, acts) + [Junk, Word(a), Junk]
    case AfterStatement(h, acts, a) => base + BodyValues(h, acts) + [Word(a)]
    case AfterBrace(h, acts) => base + BodyValues(h, acts) + [Junk]
    case AfterLine(rule) => base + [Node(rule)]
    case AfterConfig => base
    case Final => base + [Junk]
  }

  // ---------- the grammar, one phase at a time ----------

  /** The phase after the next move, none for a syntax error. */
  function Next(ph: Phase, have: bool, tokens: seq<Token>): Option<Phase> {
    match ph
    case Ready =>
      if tokens != [] && tokens[0].KIND? then Some(AfterKind(tokens[0].kind))
      else if tokens != [] && tokens[0].UNKNOWN? then Some(AfterUnknown)
      else if have then Some(AfterConfig) else None
    case AfterKind(k) => if tokens != [] && tokens[0].STRING? then Some(AfterName(k, tokens[0].text)) else None
    case AfterName(k, text) => if tokens != [] && tokens[0].LBRACE? then Some(Body(NamedHead(k, text), [])) else None
    case AfterUnknown => if tokens != [] && tokens[0].LBRACE? then Some(Body(UnknownHead, [])) else None
    case Body(h, acts) =>
      if tokens != [] && tokens[0].THEN? then Some(AfterThen(h, acts))
      else if tokens != [] && tokens[0].RBRACE? && acts != [] then Some(AfterBrace(h, acts))
      else None
    case AfterThen(h, acts) =>
      if tokens != [] && tokens[0].DO? then Some(AfterWord(h, acts, tokens[0].action)) else None
    case AfterWord(h, acts, a) => Some(AfterAction(h, acts, a))
    case AfterAction(h, acts, a) =>
      if tokens != [] && tokens[0].SEMICOLON? then Some(AfterSemicolon(h, acts, a)) else None
    case AfterSemicolon(h, acts, a) => Some(AfterStatement(h, acts, a))
    case AfterStatement(h, acts, a) => Some(Body(h, acts + [a]))
    case AfterBrace(h, acts) => Some(AfterLine(HeadRule(h, acts)))
    case AfterLine(_) => Some(Ready)
    case AfterConfig => if tokens == [] then Some(Final) else None
    case Final => None
  }

  function HeadRule(h: Head, acts: seq<Action>): Rule {
    match h
    case UnknownHead => UnknownRule(acts)
    case NamedHead(k, text) => NamedRule(k, NodeName(text), acts)
  }

  /** Whether the next move is a shift. */
  predicate Shifts(ph: Phase, tokens: seq<Token>) {
    match ph
    case Ready => tokens != [] && (tokens[0].KIND? || tokens[0].UNKNOWN?)
    case AfterWord(_, _, _) => false
    case AfterSemicolon(_, _, _) => false
    case AfterStatement(_, _, _) => false
    case AfterBrace(_, _) => false
    case AfterLine(_) => false
    case _ => true
  }

  /** Reductions are finitely many between shifts. */
  function Rank(ph: Phase): nat {
    match ph
    case AfterWord(_, _, _) => 1
    case AfterSemicolon(_, _, _) => 2
    case AfterStatement(_, _, _) => 1
    case AfterBrace(_, _) => 4
    case AfterLine(_) => 3
    case Ready => 2
    case AfterConfig => 1
    case _ => 0
  }

  /** The rule the next reduction moves to a rule set. */
  function RulesAfter(ph: Phase, rules: seq<Rule>): seq<Rule> {
    if ph.AfterLine? then rules + [ph.rule] else rules
  }

  function Unread(ph: Phase, tokens: seq<Token>): (rest: seq<Token>)
    ensures |rest| <= |tokens|
    ensures Shifts(ph, tokens) && tokens != [] ==> |rest| < |tokens|
  {
    if Shifts(ph, tokens) && tokens != [] then tokens[1..] else tokens
  }

  /** The rule set the grammar makes of the tokens from a phase on. */
  function ParseFrom(ph: Phase, rules: seq<Rule>, tokens: seq<Token>): Option<seq<Rule>>
    decreases |tokens|, Rank(ph)
  {
    if ph == Final then Some(rules)
    else
      match Next(ph, rules != [], tokens)
      case None => None
      case Some(ph') => ParseFrom(ph', RulesAfter(ph, rules), Unread(ph, tokens))
  }

  // ---------- the tables decide as the grammar does ----------

  /** The state on top of the stack in a phase. */
  function Top(ph: Phase, have: bool): int {
    match ph
    case Ready => if have then 7 else 0
    case AfterKind(k) => 1 + KindIndex(k)
    case AfterName(k, _) => 9 + KindIndex(k)
    case AfterUnknown => 5
    case Body(h, acts) =>
      if acts != [] then ListState(h)
      else (match h case UnknownHead => 13 case NamedHead(k, _) => 16 + KindIndex(k))
    case AfterThen(h, acts) => 20
    case AfterWord(h, acts, a) => WordState(a)
    case AfterAction(h, acts, a) => 31
    case AfterSemicolon(h, acts, a) => 38
    case AfterStatement(h, acts, a) => if acts == [] then 22 else 33
    case AfterBrace(h, acts) => BraceState(h)
    case AfterLine(_) => if have then 15 else 8
    case AfterConfig => 6
    case Final => 14
  }

  function WordRule(a: Action): int {
    match a case STORE => 14 case DISCARD => 15 case QUEUE => 16 case LOG => 13
  }

  function LineRule(h: Head): int {
    match h case UnknownHead => 5 case NamedHead(k, _) => 6 + KindIndex(k)
  }

  /** The move the grammar wants in a phase. */
  function Wanted(ph: Phase, have: bool, tokens: seq<Token>): Move {
    var t := if tokens == [] then None else Some(tokens[0]);
    match ph
    case Ready =>
      if t.Some? && t.value.KIND? then Shift(1 + KindIndex(t.value.kind))
      else if t.Some? && t.value.UNKNOWN? then Shift(5)
      else if have then Reduce(2) else Error
    case AfterKind(k) => if t.Some? && t.value.STRING? then Shift(9 + KindIndex(k)) else Error
    case AfterName(k, _) => if t.Some? && t.value.LBRACE? then Shift(16 + KindIndex(k)) else Error
    case AfterUnknown => if t.Some? && t.value.LBRACE? then Shift(13) else Error
    case Body(h, acts) =>
      if t.Some? && t.value.THEN? then Shift(20)
      else if t.Some? && t.value.RBRACE? && acts != [] then Shift(BraceState(h))
      else Error
    case AfterThen(h, acts) => if t.Some? && t.value.DO? then Shift(WordState(t.value.action)) else Error
    case AfterWord(h, acts, a) => Reduce(WordRule(a))
    case AfterAction(h, acts, a) => if t.Some? && t.value.SEMICOLON? then Shift(38) else Error
    case AfterSemicolon(h, acts, a) => Reduce(12)
    case AfterStatement(h, acts, a) => Reduce(if acts == [] then 11 else 10)
    case AfterBrace(h, acts) => Reduce(LineRule(h))
    case AfterLine(_) => Reduce(if have then 3 else 4)
    case AfterConfig => if tokens == [] then Shift(14) else Error
    case Final => Reduce(1)
  }

  lemma DecideReady(have: bool, tokens: seq<Token>)
    ensures Decide(Top(Ready, have), LookaheadSymbol(tokens)) == Wanted(Ready, have, tokens)
  {}

  lemma DecideName(ph: Phase, have: bool, tokens: seq<Token>)
    requires ph.AfterKind?
    ensures Decide(Top(ph, have), LookaheadSymbol(tokens)) == Wanted(ph, have, tokens)
  {}

  lemma DecideBrace(ph: Phase, have: bool, tokens: seq<Token>)
    requires ph.AfterName? || ph.AfterUnknown?
    ensures Decide(Top(ph, have), LookaheadSymbol(tokens)) == Wanted(ph, have, tokens)
  {}

  /** The states after an opening brace, and after a statement, in terms of symbol numbers. */
  lemma OpeningStates(state: int, symbol: int)
    requires 16 <= state <= 19 || state == 13
    requires 0 <= symbol <= 16
    ensures Decide(state, symbol) == if symbol == 6 then Shift(20) else Error
  {}

  lemma ListStates(state: int, symbol: int)
    requires 23 <= state <= 26 && 0 <= symbol <= 16
    ensures Decide(state, symbol)
         == if symbol == 6 then Shift(20) else if symbol == 4 then Shift(state + 11) else Error
  {}

  lemma UnknownListState(symbol: int)
    requires 0 <= symbol <= 16
    ensures Decide(21, symbol) == if symbol == 6 then Shift(20) else if symbol == 4 then Shift(32) else Error
  {}

  lemma BodySymbols(tokens: seq<Token>)
    ensures LookaheadSymbol(tokens) == 6 <==> tokens != [] && tokens[0].THEN?
    ensures LookaheadSymbol(tokens) == 4 <==> tokens != [] && tokens[0].RBRACE?
  {}

  lemma DecideInBody(ph: Phase, have: bool, tokens: seq<Token>)
    requires ph.Body?
    ensures Decide(Top(ph, have), LookaheadSymbol(tokens)) == Wanted(ph, have, tokens)
  {
    hide Decide, LookaheadSymbol;
    BodySymbols(tokens);
    if ph.actions == [] {
      OpeningStates(Top(ph, have), LookaheadSymbol(tokens));
    } else if ph.head.UnknownHead? {
      UnknownListState(LookaheadSymbol(tokens));
    } else {
      ListStates(Top(ph, have), LookaheadSymbol(tokens));
    }
  }

  lemma DecideStatement(ph: Phase, have: bool, tokens: seq<Token>)
    requires ph.AfterThen? || ph.AfterAction?
    ensures Decide(Top(ph, have), LookaheadSymbol(tokens)) == Wanted(ph, have, tokens)
  {}

  lemma DecideReduction(ph: Phase, have: bool, tokens: seq<Token>)
    requires ph.AfterWord? || ph.AfterSemicolon? || ph.AfterStatement? || ph.AfterBrace?
    ensures Decide(Top(ph, have), LookaheadSymbol(tokens)) == Wanted(ph, have, tokens)
  {
    hide YyTable, YyCheck;
  }

  lemma DecideEnd(ph: Phase, have: bool, tokens: seq<Token>)
    requires ph.AfterLine? || ph.AfterConfig? || ph.Final?
    ensures Decide(Top(ph, have), LookaheadSymbol(tokens)) == Wanted(ph, have, tokens)
  {}

  /** In every phase and on every lookahead the tables make the grammar's move. */
  lemma TablesDecide(ph: Phase, have: bool, tokens: seq<Token>)
    ensures Decide(Top(ph, have), LookaheadSymbol(tokens)) == Wanted(ph, have, tokens)
  {
    hide Decide, Top, Wanted, LookaheadSymbol;
    match ph
    case Ready => DecideReady(have, tokens);
    case AfterKind(_) => DecideName(ph, have, tokens);
    case AfterName(_, _) => DecideBrace(ph, have, tokens);
    case AfterUnknown => DecideBrace(ph, have, tokens);
    case Body(_, _) => DecideInBody(ph, have, tokens);
    case AfterThen(_, _) => DecideStatement(ph, have, tokens);
    case AfterAction(_, _, _) => DecideStatement(ph, have, tokens);
    case AfterLine(_) => DecideEnd(ph, have, tokens);
    case AfterConfig => DecideEnd(ph, have, tokens);
    case Final => DecideEnd(ph, have, tokens);
    case _ => DecideReduction(ph, have, tokens);
  }

  lemma TopIsTop(ph: Phase, have: bool)
    ensures States(ph, have)[|States(ph, have)| - 1] == Top(ph, have)
  {}

  /** What one move does to the stacks. */
  function MovedStates(states: seq<int>, move: Move): seq<int> {
    match move
    case Shift(s) => states + [s]
    case Reduce(n) =>
      if 1 <= YyR2(n) < |states| then
        var below := states[..|states| - YyR2(n)];
        below + [Goto(n, below[|below| - 1])]
      else states
    case Error => states
  }

  function MovedValues(values: seq<Value>, move: Move, tokens: seq<Token>): seq<Value> {
    match move
    case Shift(s) => values + [TokenValue(tokens)]
    case Reduce(n) =>
      if 1 <= YyR2(n) < |values| then values[..|values| - YyR2(n)] + [Semantic(n, values)] else values
    case Error => values
  }

  /** The first rule's value stays at the bottom of the stack. */
  function BaseAfter(ph: Phase, have: bool, base: seq<Value>): seq<Value> {
    if ph.AfterLine? && !have then base + [Node(ph.rule)] else base
  }

  // ---------- what a move does to the stacks ----------

  lemma GotoOpening()
    ensures Goto(2, 0) == 6 && Goto(3, 0) == 7 && Goto(4, 0) == 7
    ensures forall n :: 5 <= n <= 9 ==> Goto(n, 0) == 8 && Goto(n, 7) == 15
    ensures forall n :: 13 <= n <= 16 ==> Goto(n, 20) == 31
  {}

  lemma GotoStatement(h: Head, acts: seq<Action>, have: bool)
    ensures Goto(12, Top(Body(h, acts), have)) == if acts == [] then 22 else 33
    ensures Goto(11, Top(Body(h, []), have)) == ListState(h)
    ensures Goto(10, Top(Body(h, []), have)) == ListState(h)
  {}

  lemma HeadTop(h: Head, have: bool)
    ensures var base := if have then [0, 7] else [0];
            (base + HeadStates(h))[|base + HeadStates(h)| - 1] == Top(Body(h, []), have)
  {}

  /** The state stack moves from phase to phase. */
  ghost predicate StatesAgree(ph: Phase, have: bool, tokens: seq<Token>) {
    var move := Wanted(ph, have, tokens);
    match Next(ph, have, tokens)
    case None => true
    case Some(ph') =>
      && (move.Reduce? ==> 1 <= YyR2(move.rule) < |States(ph, have)|)
      && MovedStates(States(ph, have), move) == States(ph', have || ph.AfterLine?)
  }

  lemma ShiftHeadStates(ph: Phase, have: bool, tokens: seq<Token>)
    requires Shifts(ph, tokens) && (ph.Ready? || ph.AfterKind? || ph.AfterName? || ph.AfterUnknown?)
    ensures StatesAgree(ph, have, tokens)
  {
    hide Goto, YyR2;
  }

  lemma ShiftBodyStates(ph: Phase, have: bool, tokens: seq<Token>)
    requires ph.Body? || ph.AfterThen? || ph.AfterAction? || (ph.AfterConfig? && have)
    ensures StatesAgree(ph, have, tokens)
  {
    hide Goto, YyR2;
  }

  lemma ReduceLineStates(ph: Phase, have: bool, tokens: seq<Token>)
    requires ph.AfterLine? || (ph.Ready? && !Shifts(ph, tokens))
    ensures StatesAgree(ph, have, tokens)
  {
    hide Goto;
    GotoOpening();
  }

  lemma ReduceBraceStates(ph: Phase, have: bool, tokens: seq<Token>)
    requires ph.AfterBrace? && ph.actions != []
    ensures StatesAgree(ph, have, tokens)
  {
    hide Goto;
    GotoOpening();
  }

  lemma ReduceWordStates(ph: Phase, have: bool, tokens: seq<Token>)
    requires ph.AfterWord?
    ensures StatesAgree(ph, have, tokens)
  {
    hide Goto, BodyStates;
    GotoOpening();
  }

  /** A reduction takes a tail off the stack and puts one state on what is below. */
  lemma TailReduced(under: seq<int>, tail: seq<int>, rule: int)
    requires under != [] && tail != [] && |tail| == YyR2(rule)
    ensures MovedStates(under + tail, Reduce(rule)) == under + [Goto(rule, under[|under| - 1])]
  {
    hide Goto, YyR2;
    assert (under + tail)[..|under|] == under;
  }

  lemma ReduceSemicolonStates(ph: Phase, have: bool, tokens: seq<Token>)
    requires ph.AfterSemicolon?
    ensures StatesAgree(ph, have, tokens)
  {
    hide Goto, BodyStates, Top;
    var under := States(Body(ph.head, ph.actions), have);
    TopIsTop(Body(ph.head, ph.actions), have);
    GotoStatement(ph.head, ph.actions, have);
    TailReduced(under, [20, 31, 38], 12);
    assert States(ph, have) == under + [20, 31, 38];
  }

  lemma ReduceStatementStates(ph: Phase, have: bool, tokens: seq<Token>)
    requires ph.AfterStatement?
    ensures StatesAgree(ph, have, tokens)
  {
    hide Goto, HeadStates, Top, ListState, YyR2, MovedStates;
    var under := (if have then [0, 7] else [0]) + HeadStates(ph.head);
    HeadTop(ph.head, have);
    GotoStatement(ph.head, ph.actions, have);
    StatementLengths();
    assert States(Body(ph.head, ph.actions + [ph.action]), have) == under + [ListState(ph.head)];
    if ph.actions == [] {
      TailReduced(under, [22], 11);
      assert States(ph, have) == under + [22];
    } else {
      TailReduced(under, [ListState(ph.head), 33], 10);
      assert States(ph, have) == under + [ListState(ph.head), 33];
    }
  }

  lemma StatementLengths()
    ensures YyR2(10) == 2 && YyR2(11) == 1
  {}

  lemma StatesMove(ph: Phase, have: bool, tokens: seq<Token>)
    requires ph != Final && (ph.AfterConfig? ==> have) && (ph.AfterBrace? ==> ph.actions != [])
    ensures StatesAgree(ph, have, tokens)
  {
    if Next(ph, have, tokens).None? { return; }
    hide StatesAgree;
    match ph
    case Ready =>
      if Shifts(ph, tokens) { ShiftHeadStates(ph, have, tokens); } else { ReduceLineStates(ph, have, tokens); }
    case AfterKind(_) => ShiftHeadStates(ph, have, tokens);
    case AfterName(_, _) => ShiftHeadStates(ph, have, tokens);
    case AfterUnknown => ShiftHeadStates(ph, have, tokens);
    case AfterWord(_, _, _) => ReduceWordStates(ph, have, tokens);
    case AfterSemicolon(_, _, _) => ReduceSemicolonStates(ph, have, tokens);
    case AfterStatement(_, _, _) => ReduceStatementStates(ph, have, tokens);
    case AfterBrace(_, _) => ReduceBraceStates(ph, have, tokens);
    case AfterLine(_) => ReduceLineStates(ph, have, tokens);
    case _ => ShiftBodyStates(ph, have, tokens);
  }

  /** The value stack moves along, and only a finished line reaches the rule set. */
  ghost predicate ValuesAgree(ph: Phase, have: bool, base: seq<Value>, tokens: seq<Token>) {
    var move := Wanted(ph, have, tokens);
    match Next(ph, have, tokens)
    case None => move == Error
    case Some(ph') =>
      && move != Error
      && (move.Shift? <==> Shifts(ph, tokens))
      && MovedValues(Values(ph, base), move, tokens) == Values(ph', BaseAfter(ph, have, base))
      && (move.Reduce? ==> forall rules :: RuleSet(move.rule, Values(ph, base), rules) == RulesAfter(ph, rules))
  }

  /** The stacks stand on the bottom's junk, and on the first rule's value if there is one. */
  predicate Based(have: bool, base: seq<Value>) {
    |base| == if have then 2 else 1
  }

  lemma ShiftValues(ph: Phase, have: bool, base: seq<Value>, tokens: seq<Token>)
    requires Based(have, base) && (ph.Ready? ==> Shifts(ph, tokens))
    requires ph.Ready? || ph.AfterKind? || ph.AfterName? || ph.AfterUnknown? || ph.AfterConfig?
    ensures ValuesAgree(ph, have, base, tokens)
  {
    hide Semantic, RuleSet, YyR2;
  }

  lemma ShiftBodyValues(ph: Phase, have: bool, base: seq<Value>, tokens: seq<Token>)
    requires Based(have, base) && (ph.Body? || ph.AfterThen? || ph.AfterAction?)
    ensures ValuesAgree(ph, have, base, tokens)
  {
    hide Semantic, RuleSet, YyR2, BodyValues;
  }

  lemma ReduceReadyValues(have: bool, base: seq<Value>, tokens: seq<Token>)
    requires Based(have, base) && !Shifts(Ready, tokens)
    ensures ValuesAgree(Ready, have, base, tokens)
  {}

  lemma ReduceLineValues(ph: Phase, have: bool, base: seq<Value>, tokens: seq<Token>)
    requires Based(have, base) && ph.AfterLine?
    ensures ValuesAgree(ph, have, base, tokens)
  {}

  lemma UnknownBraceValues(ph: Phase, have: bool, base: seq<Value>, tokens: seq<Token>)
    requires Based(have, base) && ph.AfterBrace? && ph.actions != [] && ph.head.UnknownHead?
    ensures ValuesAgree(ph, have, base, tokens)
  {}

  lemma NamedBraceValues(ph: Phase, have: bool, base: seq<Value>, tokens: seq<Token>)
    requires Based(have, base) && ph.AfterBrace? && ph.actions != [] && ph.head.NamedHead?
    ensures ValuesAgree(ph, have, base, tokens)
  {
    hide NodeName;
  }

  lemma ReduceWordValues(ph: Phase, have: bool, base: seq<Value>, tokens: seq<Token>)
    requires Based(have, base) && ph.AfterWord?
    ensures ValuesAgree(ph, have, base, tokens)
  {
    hide BodyValues;
  }

  lemma ReduceSemicolonValues(ph: Phase, have: bool, base: seq<Value>, tokens: seq<Token>)
    requires Based(have, base) && ph.AfterSemicolon?
    ensures ValuesAgree(ph, have, base, tokens)
  {
    hide BodyValues;
  }

  lemma ReduceStatementValues(ph: Phase, have: bool, base: seq<Value>, tokens: seq<Token>)
    requires Based(have, base) && ph.AfterStatement?
    ensures ValuesAgree(ph, have, base, tokens)
  {
    assert ph.actions == [] ==> ph.actions + [ph.action] == [ph.action];
  }

  lemma ValuesMove(ph: Phase, have: bool, base: seq<Value>, tokens: seq<Token>)
    requires Based(have, base)
    requires ph != Final && (ph.AfterConfig? ==> have) && (ph.AfterBrace? ==> ph.actions != [])
    ensures ValuesAgree(ph, have, base, tokens)
  {
    hide ValuesAgree;
    match ph
    case Ready =>
      if Shifts(ph, tokens) { ShiftValues(ph, have, base, tokens); } else { ReduceReadyValues(have, base, tokens); }
    case AfterKind(_) => ShiftValues(ph, have, base, tokens);
    case AfterName(_, _) => ShiftValues(ph, have, base, tokens);
    case AfterUnknown => ShiftValues(ph, have, base, tokens);
    case AfterConfig => ShiftValues(ph, have, base, tokens);
    case AfterWord(_, _, _) => ReduceWordValues(ph, have, base, tokens);
    case AfterSemicolon(_, _, _) => ReduceSemicolonValues(ph, have, base, tokens);
    case AfterStatement(_, _, _) => ReduceStatementValues(ph, have, base, tokens);
    case AfterBrace(h, _) =>
      if h.UnknownHead? {
        UnknownBraceValues(ph, have, base, tokens);
      } else {
        NamedBraceValues(ph, have, base, tokens);
      }
    case AfterLine(_) => ReduceLineValues(ph, have, base, tokens);
    case _ => ShiftBodyValues(ph, have, base, tokens);
  }

  // ---------- the parser itself ----------

  /** The stacks are those of a phase. */
  ghost predicate Stacked(ph: Phase, have: bool, base: seq<Value>, states: seq<int>, values: seq<Value>) {
    && states == States(ph, have) && values == Values(ph, base)
    && Based(have, base)
    && (ph.AfterConfig? || ph.Final? ==> have)
    && (ph.AfterBrace? ==> ph.actions != [])
  }

  /** Whatever the tables decide keeps the stacks those of the grammar's next phase. */
  lemma MoveKeepsStacks(ph: Phase, rules: seq<Rule>, base: seq<Value>, tokens: seq<Token>,
                        states: seq<int>, values: seq<Value>)
    requires Stacked(ph, rules != [], base, states, values) && ph != Final
    ensures |states| >= 1 && states[|states| - 1] == Top(ph, rules != [])
    ensures var move := Decide(states[|states| - 1], LookaheadSymbol(tokens));
            match Next(ph, rules != [], tokens)
            case None => move == Error
            case Some(ph') =>
              && move != Error
              && (move.Shift? <==> Shifts(ph, tokens))
              && (move.Reduce? ==> 1 <= YyR2(move.rule) < |states|)
              && (move.Reduce? ==> RuleSet(move.rule, values, rules) == RulesAfter(ph, rules))
              && Stacked(ph', RulesAfter(ph, rules) != [], BaseAfter(ph, rules != [], base),
                         MovedStates(states, move), MovedValues(values, move, tokens))
  {
    hide Decide, Wanted, LookaheadSymbol, States, Values, MovedStates, MovedValues, Semantic, RuleSet, YyR2, Top,
         Shifts;
    var have := rules != [];
    TablesDecide(ph, have, tokens);
    TopIsTop(ph, have);
    StatesMove(ph, have, tokens);
    ValuesMove(ph, have, base, tokens);
  }

  lemma FinalOnTop(ph: Phase, have: bool)
    ensures Top(ph, have) == YYFINAL <==> ph == Final
  {}

  /** A file the grammar has: at least one rule, and at least one action in each. */
  predicate IsFile(sources: seq<Source>) {
    sources != [] && forall i :: 0 <= i < |sources| ==> sources[i].actions != []
  }

  lemma ThenParses(h: Head, acts: seq<Action>, rules: seq<Rule>, tokens: seq<Token>, a: Action)
    requires |tokens| >= 2 && tokens[0] == THEN && tokens[1] == DO(a)
    ensures ParseFrom(Body(h, acts), rules, tokens) == ParseFrom(AfterAction(h, acts, a), rules, tokens[2..])
  {
    var t1, t2 := tokens[1..], tokens[2..];
    assert t1[1..] == t2;
    assert ParseFrom(Body(h, acts), rules, tokens) == ParseFrom(AfterThen(h, acts), rules, t1);
    assert ParseFrom(AfterThen(h, acts), rules, t1) == ParseFrom(AfterWord(h, acts, a), rules, t2);
  }

  lemma SemicolonParses(h: Head, acts: seq<Action>, rules: seq<Rule>, tokens: seq<Token>, a: Action)
    requires tokens != [] && tokens[0] == SEMICOLON
    ensures ParseFrom(AfterAction(h, acts, a), rules, tokens) == ParseFrom(Body(h, acts + [a]), rules, tokens[1..])
  {
    var rest := tokens[1..];
    assert ParseFrom(AfterAction(h, acts, a), rules, tokens) == ParseFrom(AfterSemicolon(h, acts, a), rules, rest);
    assert ParseFrom(AfterSemicolon(h, acts, a), rules, rest) == ParseFrom(AfterStatement(h, acts, a), rules, rest);
  }

  /** One action, up to its semicolon. */
  lemma StatementParses(h: Head, acts: seq<Action>, rules: seq<Rule>, tokens: seq<Token>, a: Action)
    requires |tokens| >= 3 && tokens[0] == THEN && tokens[1] == DO(a) && tokens[2] == SEMICOLON
    ensures ParseFrom(Body(h, acts), rules, tokens) == ParseFrom(Body(h, acts + [a]), rules, tokens[3..])
  {
    hide ParseFrom;
    assert tokens[2..][1..] == tokens[3..];
    ThenParses(h, acts, rules, tokens, a);
    SemicolonParses(h, acts, rules, tokens[2..], a);
  }

  /** The closing brace hands the rule to the rule set. */
  lemma BraceParses(h: Head, acts: seq<Action>, rules: seq<Rule>, tokens: seq<Token>)
    requires acts != [] && tokens != [] && tokens[0] == RBRACE
    ensures ParseFrom(Body(h, acts), rules, tokens) == ParseFrom(Ready, rules + [HeadRule(h, acts)], tokens[1..])
  {
    var rest := tokens[1..];
    assert ParseFrom(Body(h, acts), rules, tokens) == ParseFrom(AfterBrace(h, acts), rules, rest);
    assert ParseFrom(AfterBrace(h, acts), rules, rest) == ParseFrom(AfterLine(HeadRule(h, acts)), rules, rest);
  }

  /** The statements of a rule that go on from the ones already read. */
  lemma {:induction false} BodyParses(h: Head, acts: seq<Action>, more: seq<Action>, rules: seq<Rule>, rest: seq<Token>)
    requires acts + more != []
    ensures ParseFrom(Body(h, acts), rules, PrintActions(more) + [RBRACE] + rest)
         == ParseFrom(Ready, rules + [HeadRule(h, acts + more)], rest)
    decreases |more|
  {
    hide ParseFrom;
    var tokens := PrintActions(more) + [RBRACE] + rest;
    if more == [] {
      assert acts + more == acts && tokens[1..] == rest;
      BraceParses(h, acts, rules, tokens);
    } else {
      StatementParses(h, acts, rules, tokens, more[0]);
      assert tokens[3..] == PrintActions(more[1..]) + [RBRACE] + rest;
      assert (acts + [more[0]]) + more[1..] == acts + more;
      BodyParses(h, acts + [more[0]], more[1..], rules, rest);
    }
  }

  lemma UnknownHeadParses(rules: seq<Rule>, tokens: seq<Token>)
    requires |tokens| >= 2 && tokens[0] == UNKNOWN && tokens[1] == LBRACE
    ensures ParseFrom(Ready, rules, tokens) == ParseFrom(Body(UnknownHead, []), rules, tokens[2..])
  {
    assert tokens[1..][1..] == tokens[2..];
    assert ParseFrom(Ready, rules, tokens) == ParseFrom(AfterUnknown, rules, tokens[1..]);
  }

  lemma NamedHeadParses(kind: Kind, text: QuotedText, rules: seq<Rule>, tokens: seq<Token>)
    requires |tokens| >= 3 && tokens[0] == KIND(kind) && tokens[1] == STRING(text) && tokens[2] == LBRACE
    ensures ParseFrom(Ready, rules, tokens) == ParseFrom(Body(NamedHead(kind, text), []), rules, tokens[3..])
  {
    assert tokens[1..][1..] == tokens[2..] && tokens[2..][1..] == tokens[3..];
    assert ParseFrom(Ready, rules, tokens) == ParseFrom(AfterKind(kind), rules, tokens[1..]);
    assert ParseFrom(AfterKind(kind), rules, tokens[1..]) == ParseFrom(AfterName(kind, text), rules, tokens[2..]);
  }

  lemma UnknownSourceParses(actions: seq<Action>, rules: seq<Rule>, rest: seq<Token>)
    requires actions != []
    ensures ParseFrom(Ready, rules, PrintSource(UnknownSource(actions)) + rest)
         == ParseFrom(Ready, rules + [UnknownRule(actions)], rest)
  {
    hide ParseFrom, PrintActions;
    var tokens := PrintSource(UnknownSource(actions)) + rest;
    assert tokens[2..] == PrintActions(actions) + [RBRACE] + rest && [] + actions == actions;
    UnknownHeadParses(rules, tokens);
    BodyParses(UnknownHead, [], actions, rules, rest);
  }

  lemma NamedSourceParses(kind: Kind, text: QuotedText, actions: seq<Action>, rules: seq<Rule>, rest: seq<Token>)
    requires actions != []
    ensures ParseFrom(Ready, rules, PrintSource(NamedSource(kind, text, actions)) + rest)
         == ParseFrom(Ready, rules + [NamedRule(kind, NodeName(text), actions)], rest)
  {
    hide ParseFrom, PrintActions, NodeName;
    var tokens := PrintSource(NamedSource(kind, text, actions)) + rest;
    assert tokens[3..] == PrintActions(actions) + [RBRACE] + rest && [] + actions == actions;
    NamedHeadParses(kind, text, rules, tokens);
    BodyParses(NamedHead(kind, text), [], actions, rules, rest);
  }

  lemma SourceParses(s: Source, rules: seq<Rule>, rest: seq<Token>)
    requires s.actions != []
    ensures ParseFrom(Ready, rules, PrintSource(s) + rest) == ParseFrom(Ready, rules + [Build(s)], rest)
  {
    hide ParseFrom, PrintSource, NodeName;
    match s
    case UnknownSource(actions) => UnknownSourceParses(actions, rules, rest);
    case NamedSource(kind, text, actions) => NamedSourceParses(kind, text, actions, rules, rest);
  }

  lemma EndParses(rules: seq<Rule>)
    requires rules != []
    ensures ParseFrom(Ready, rules, []) == Some(rules)
  {
    assert ParseFrom(Ready, rules, []) == ParseFrom(AfterConfig, rules, []);
  }

  /** Parsing a printed file gives its rules, in order. */
  lemma {:induction false} PrintingParses(sources: seq<Source>, rules: seq<Rule>)
    requires rules != [] || sources != []
    requires forall i :: 0 <= i < |sources| ==> sources[i].actions != []
    ensures ParseFrom(Ready, rules, Print(sources)) == Some(rules + BuildAll(sources))
    decreases |sources|
  {
    hide ParseFrom, PrintSource, Build;
    if sources == [] {
      assert rules + BuildAll(sources) == rules;
      EndParses(rules);
    } else {
      SourceParses(sources[0], rules, Print(sources[1..]));
      PrintingParses(sources[1..], rules + [Build(sources[0])]);
      assert (rules + [Build(sources[0])]) + BuildAll(sources[1..]) == rules + BuildAll(sources);
    }
  }

  /** An accepted body goes on with a whole statement or its closing brace. */
  lemma BodyAccepted(h: Head, acts: seq<Action>, rules: seq<Rule>, tokens: seq<Token>)
    requires ParseFrom(Body(h, acts), rules, tokens).Some?
    ensures tokens != []
    ensures tokens[0].RBRACE? ==> acts != []
    ensures !tokens[0].RBRACE? ==> |tokens| >= 3 && tokens[0].THEN? && tokens[1].DO? && tokens[2].SEMICOLON?
  {
    if tokens[0].THEN? {
      assert ParseFrom(AfterThen(h, acts), rules, tokens[1..]).Some?;
      var a := tokens[1].action;
      assert ParseFrom(AfterWord(h, acts, a), rules, tokens[1..][1..]).Some?;
      assert ParseFrom(AfterAction(h, acts, a), rules, tokens[1..][1..]).Some?;
    }
  }

  /** If a body is accepted, it is printed actions and a brace. */
  lemma {:induction false} BodyPrinted(h: Head, acts: seq<Action>, rules: seq<Rule>, tokens: seq<Token>)
    returns (more: seq<Action>, rest: seq<Token>)
    requires ParseFrom(Body(h, acts), rules, tokens).Some?
    ensures acts + more != [] && tokens == PrintActions(more) + [RBRACE] + rest
    decreases |tokens|
  {
    hide ParseFrom;
    BodyAccepted(h, acts, rules, tokens);
    if tokens[0].RBRACE? {
      more, rest := [], tokens[1..];
    } else {
      var a := tokens[1].action;
      StatementParses(h, acts, rules, tokens, a);
      var others;
      others, rest := BodyPrinted(h, acts + [a], rules, tokens[3..]);
      assert tokens == [THEN, DO(a), SEMICOLON] + tokens[3..];
      more := [a] + others;
      assert more[1..] == others;
    }
  }

  lemma StrayTokenRejected(rules: seq<Rule>, tokens: seq<Token>)
    ensures tokens != [] && !tokens[0].KIND? && !tokens[0].UNKNOWN? ==> ParseFrom(Ready, rules, tokens) == None
  {
    if tokens != [] && !tokens[0].KIND? && !tokens[0].UNKNOWN? && rules != [] {
      assert ParseFrom(AfterConfig, rules, tokens) == None;
    }
  }

  /** An accepted file starts with a whole head, if with anything. */
  lemma HeadAccepted(rules: seq<Rule>, tokens: seq<Token>)
    requires ParseFrom(Ready, rules, tokens).Some? && tokens != []
    ensures (|tokens| >= 2 && tokens[0].UNKNOWN? && tokens[1].LBRACE?)
         || (|tokens| >= 3 && tokens[0].KIND? && tokens[1].STRING? && tokens[2].LBRACE?)
  {
    StrayTokenRejected(rules, tokens);
    if tokens[0].UNKNOWN? {
      assert ParseFrom(AfterUnknown, rules, tokens[1..]).Some?;
    } else if tokens[0].KIND? {
      assert ParseFrom(AfterKind(tokens[0].kind), rules, tokens[1..]).Some?;
      assert ParseFrom(AfterName(tokens[0].kind, tokens[1].text), rules, tokens[1..][1..]).Some?;
    }
  }

  lemma SourcePrinted(rules: seq<Rule>, tokens: seq<Token>) returns (s: Source, rest: seq<Token>)
    requires ParseFrom(Ready, rules, tokens).Some? && tokens != []
    ensures s.actions != [] && tokens == PrintSource(s) + rest
  {
    hide ParseFrom, PrintActions;
    HeadAccepted(rules, tokens);
    if tokens[0].UNKNOWN? {
      UnknownHeadParses(rules, tokens);
      var more, after := BodyPrinted(UnknownHead, [], rules, tokens[2..]);
      s, rest := UnknownSource(more), after;
      assert tokens == [UNKNOWN, LBRACE] + tokens[2..];
    } else {
      var kind, text := tokens[0].kind, tokens[1].text;
      NamedHeadParses(kind, text, rules, tokens);
      var more, after := BodyPrinted(NamedHead(kind, text), [], rules, tokens[3..]);
      s, rest := NamedSource(kind, text, more), after;
      assert tokens == [KIND(kind), STRING(text), LBRACE] + tokens[3..];
    }
  }

  /** Whatever is accepted is a printed file. */
  lemma {:induction false} AcceptedIsPrinted(rules: seq<Rule>, tokens: seq<Token>) returns (sources: seq<Source>)
    requires ParseFrom(Ready, rules, tokens).Some?
    ensures rules != [] || sources != []
    ensures forall i :: 0 <= i < |sources| ==> sources[i].actions != []
    ensures tokens == Print(sources)
    decreases |tokens|
  {
    if tokens == [] {
      sources := [];
    } else {
      var s, rest := SourcePrinted(rules, tokens);
      SourceParses(s, rules, rest);
      var others := AcceptedIsPrinted(rules + [Build(s)], rest);
      sources := [s] + others;
      assert sources[1..] == others;
    }
  }

  /** The rule language is the set of printed files, and parsing is the inverse of printing. */
  lemma GrammarInvertsPrinting(tokens: seq<Token>, rules: seq<Rule>)
    ensures ParseFrom(Ready, [], tokens) == Some(rules)
       <==> exists sources :: IsFile(sources) && tokens == Print(sources) && rules == BuildAll(sources)
  {
    if ParseFrom(Ready, [], tokens) == Some(rules) {
      var sources := AcceptedIsPrinted([], tokens);
      PrintingParses(sources, []);
      assert [] + BuildAll(sources) == BuildAll(sources);
      assert IsFile(sources);
    }
    if sources :| IsFile(sources) && tokens == Print(sources) && rules == BuildAll(sources) {
      PrintingParses(sources, []);
      assert [] + BuildAll(sources) == BuildAll(sources);
    }
  }

  lemma StartStacked()
    ensures Stacked(Ready, false, [Junk], [0], [Junk])
  {}

  /** What the loop's outcome says about the token stream. */
  ghost predicate Answers(tokens: seq<Token>, result: Result) {
    && (result.Accepted? <==> exists sources :: IsFile(sources) && tokens == Print(sources))
    && (forall sources :: IsFile(sources) && tokens == Print(sources) ==> result == Accepted(BuildAll(sources)))
  }

  lemma GrammarAnswers(tokens: seq<Token>, result: Result)
    requires ParseFrom(Ready, [], tokens) == (if result.Accepted? then Some(result.rules) else None)
    ensures Answers(tokens, result)
  {
    hide ParseFrom, Print, BuildAll;
    if result.Accepted? {
      GrammarInvertsPrinting(tokens, result.rules);
    }
    forall sources | IsFile(sources) && tokens == Print(sources)
      ensures ParseFrom(Ready, [], tokens) == Some(BuildAll(sources))
    {
      GrammarInvertsPrinting(tokens, BuildAll(sources));
    }
  }

  lemma RankFalls(ph: Phase, have: bool, tokens: seq<Token>)
    requires ph != Final && Next(ph, have, tokens).Some?
    ensures |Unread(ph, tokens)| < |tokens|
         || (Unread(ph, tokens) == tokens && Rank(Next(ph, have, tokens).value) < Rank(ph))
  {}

  lemma ShiftMoves(ph: Phase, rules: seq<Rule>, states: seq<int>, values: seq<Value>, move: Move, tokens: seq<Token>)
    requires move.Shift? && Shifts(ph, tokens)
    ensures MovedStates(states, move) == states + [move.state]
    ensures MovedValues(values, move, tokens) == values + [TokenValue(tokens)]
    ensures RulesAfter(ph, rules) == rules
    ensures Unread(ph, tokens) == if tokens == [] then tokens else tokens[1..]
  {}

  lemma ReduceMoves(ph: Phase, states: seq<int>, values: seq<Value>, move: Move, tokens: seq<Token>)
    requires move.Reduce? && 1 <= YyR2(move.rule) < |states| && |values| == |states| && !Shifts(ph, tokens)
    ensures var kept := |states| - YyR2(move.rule);
            && MovedStates(states, move) == states[..kept] + [Goto(move.rule, states[kept - 1])]
            && MovedValues(values, move, tokens) == values[..kept] + [Semantic(move.rule, values)]
    ensures Unread(ph, tokens) == tokens
  {}

  lemma BodyEven(h: Head, acts: seq<Action>)
    ensures |BodyValues(h, acts)| == |BodyStates(h, acts)|
  {}

  lemma SameHeight(ph: Phase, have: bool, base: seq<Value>)
    requires Based(have, base) && (ph.AfterConfig? || ph.Final? ==> have)
    ensures |Values(ph, base)| == |States(ph, have)|
  {
    hide BodyValues, BodyStates;
    if ph.Body? || ph.AfterThen? || ph.AfterWord? || ph.AfterAction? || ph.AfterSemicolon? || ph.AfterStatement?
       || ph.AfterBrace? {
      BodyEven(ph.head, ph.actions);
    }
  }

  lemma StacksEven(ph: Phase, have: bool, base: seq<Value>, states: seq<int>, values: seq<Value>)
    requires Stacked(ph, have, base, states, values)
    ensures |values| == |states| && 1 <= |states| <= 9
    ensures states[|states| - 1] == Top(ph, have)
  {
    hide States, Values, Top;
    SameHeight(ph, have, base);
    TopIsTop(ph, have);
  }

  /** yyparse over a token stream. The stacks never need to grow, so the branch that
      grows them is dead. */
  method YyParse(tokens: seq<Token>) returns (result: Result)
    ensures result.Accepted? <==> exists sources :: IsFile(sources) && tokens == Print(sources)
    ensures forall sources :: IsFile(sources) && tokens == Print(sources) ==> result == Accepted(BuildAll(sources))
  {
    hide Decide, LookaheadSymbol, MovedStates, MovedValues, Semantic, RuleSet, YyR2, Top, Shifts, Goto, Stacked, Next,
         Rank, Unread, RulesAfter, BaseAfter, Print, BuildAll, IsFile;
    var states, values, rules, rest := [0], [Junk], [], tokens;
    ghost var ph: Phase, base := Ready, [Junk];
    StartStacked();
    while true
      invariant Stacked(ph, rules != [], base, states, values)
      invariant ParseFrom(ph, rules, rest) == ParseFrom(Ready, [], tokens)
      decreases |rest|, Rank(ph)
    {
      StacksEven(ph, rules != [], base, states, values);
      if YYINITDEPTH - 1 <= |states| - 1 {
        assert false;
      }
      FinalOnTop(ph, rules != []);
      var state := states[|states| - 1];
      if state == YYFINAL {
        GrammarAnswers(tokens, Accepted(rules));
        return Accepted(rules);
      }
      MoveKeepsStacks(ph, rules, base, rest, states, values);
      var move := Decide(state, LookaheadSymbol(rest));
      if move.Error? {
        GrammarAnswers(tokens, Rejected);
        return Rejected;
      }
      ghost var ph' := Next(ph, rules != [], rest).value;
      ghost var base' := BaseAfter(ph, rules != [], base);
      RankFalls(ph, rules != [], rest);
      if move.Shift? {
        ShiftMoves(ph, rules, states, values, move, rest);
        states := states + [move.state];
        values := values + [TokenValue(rest)];
        rest := if rest == [] then rest else rest[1..];
      } else {
        ReduceMoves(ph, states, values, move, rest);
        var length := YyR2(move.rule);
        var value := Semantic(move.rule, values);
        rules := RuleSet(move.rule, values, rules);
        states := states[..|states| - length];
        values := values[..|values| - length] + [value];
        states := states + [Goto(move.rule, states[|states| - 1])];
      }
      ph, base := ph', base';
    }
  }
}
