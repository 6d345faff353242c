/** The grammar of the remote statement, read back: a parser that knows nothing of the printer. */
module SqlGrammar {
  import opened Prelude
  import opened SqlText

  /** An expression as the server understands it. */
  datatype RExpr =
    | RNull
    | RRowid
    | RColumn(name: string)
    | RNumber(numeral: string)
    | RText(content: string)
    | RTime(fn: string, text: string, format: string)
    | RUnary(op: string, arg: RExpr)
    | RBinary(op: string, lhs: RExpr, rhs: RExpr)

  /** An item is a column, or nothing for the word NULL. */
  datatype Query = Query(items: seq<Option<string>>, owner: Option<string>, table: string, flashback: bool,
                         where: seq<RExpr>)

  predicate TimeFunction(w: string) {
    w == "TO_DATE" || w == "TO_TIMESTAMP" || w == "TO_TIMESTAMP_TZ"
  }

  function OperatorOf(t: Token): Option<string> {
    match t
    case Symbol(s) => Some(s)
    case Word(w) => if w == "LIKE" then Some(w) else None
    case _ => None
  }

  function Eat(t: Token, ts: seq<Token>): Option<seq<Token>> {
    if ts != [] && ts[0] == t then Some(ts[1..]) else None
  }

  /** A constant or a column. */
  function ParsePrimary(ts: seq<Token>): (r: Option<(RExpr, seq<Token>)>)
    ensures r.Some? ==> |r.value.1| < |ts|
  {
    if ts == [] then None
    else
      match ts[0]
      case Quoted(n) => Some((RColumn(n), ts[1..]))
      case Str(s) => Some((RText(s), ts[1..]))
      case Number(n) => Some((RNumber(n), ts[1..]))
      case Word(w) =>
        if w == "NULL" then Some((RNull, ts[1..]))
        else if w == "ROWID" then Some((RRowid, ts[1..]))
        else if TimeFunction(w) then
          if |ts| >= 6 && ts[1] == LParen && ts[2].Str? && ts[3] == Comma && ts[4].Str? && ts[5] == RParen then
            Some((RTime(w, ts[2].content, ts[4].content), ts[6..]))
          else None
        else Some((RColumn(w), ts[1..]))
      case _ => None
  }

  const MINUS: Token := Symbol("-")

  /** Parentheses hold a prefix operation, a binary operation, or a date or timestamp constant. A minus sign may
      stand before a constant or a column, and binds tighter than any binary operator. */
  function ParseExpr(ts: seq<Token>): (r: Option<(RExpr, seq<Token>)>)
    ensures r.Some? ==> |r.value.1| < |ts|
    decreases |ts|
  {
    if ts == [] then None
    else if ts[0] == MINUS then
      var (e, rest) :- ParsePrimary(ts[1..]);
      Some((RUnary("-", e), rest))
    else if ts[0] != LParen then ParsePrimary(ts)
    else if |ts| == 1 then None
    else if OperatorOf(ts[1]).Some? then
      var (arg, r) :- ParseExpr(ts[2..]);
      var e := RUnary(OperatorOf(ts[1]).value, arg);
      if r != [] && r[0] == RParen then Some((e, r[1..]))
      else if ts[1] == MINUS && r != [] && OperatorOf(r[0]).Some? then
        var (rhs, r') :- ParseExpr(r[1..]);
        var rest :- Eat(RParen, r');
        Some((RBinary(OperatorOf(r[0]).value, e, rhs), rest))
      else None
    else if ts[1] == Word("TO_DATE") || ts[1] == Word("TO_TIMESTAMP") then
      var (e, r) :- ParsePrimary(ts[1..]);
      var rest :- Eat(RParen, r);
      Some((e, rest))
    else
      var (lhs, r) :- ParseExpr(ts[1..]);
      if r == [] || OperatorOf(r[0]).None? then None
      else
        var (rhs, r') :- ParseExpr(r[1..]);
        var rest :- Eat(RParen, r');
        Some((RBinary(OperatorOf(r[0]).value, lhs, rhs), rest))
  }

  /** ( expression ) AND ( expression ) ... up to the end */
  function ParseConditions(ts: seq<Token>): Option<seq<RExpr>>
    decreases |ts|
  {
    var r0 :- Eat(LParen, ts);
    var (e, r1) :- ParseExpr(r0);
    var r2 :- Eat(RParen, r1);
    if r2 == [] then Some([e])
    else
      var r3 :- Eat(Word("AND"), r2);
      var es :- ParseConditions(r3);
      Some([e] + es)
  }

  function ParseName(ts: seq<Token>): (r: Option<(string, seq<Token>)>)
    ensures r.Some? ==> |r.value.1| < |ts|
  {
    if ts == [] then None
    else
      match ts[0]
      case Word(w) => Some((w, ts[1..]))
      case Quoted(n) => Some((n, ts[1..]))
      case _ => None
  }

  function ParseItems(ts: seq<Token>): Option<(seq<Option<string>>, seq<Token>)>
    decreases |ts|
  {
    var (name, r) :- ParseName(ts);
    var item := if ts[0] == Word("NULL") then None else Some(name);
    if r != [] && r[0] == Comma then
      var (items, rest) :- ParseItems(r[1..]);
      Some(([item] + items, rest))
    else Some(([item], r))
  }

  function ParseTable(ts: seq<Token>): Option<((Option<string>, string), seq<Token>)> {
    var (first, r) :- ParseName(ts);
    if r != [] && r[0] == Dot then
      var (second, rest) :- ParseName(r[1..]);
      Some(((Some(first), second), rest))
    else Some(((None, first), r))
  }

  const AS_OF_TSN: seq<Token> := [Word("as"), Word("of"), Word("tsn"), Symbol("?")]

  function ParseSelect(ts: seq<Token>): Option<Query> {
    var r0 :- Eat(Word("SELECT"), ts);
    var (items, r1) :- ParseItems(r0);
    var r2 :- Eat(Word("FROM"), r1);
    var ((owner, table), r3) :- ParseTable(r2);
    var flashback := AS_OF_TSN <= r3;
    var r4 := if flashback then r3[4..] else r3;
    if r4 == [] then Some(Query(items, owner, table, flashback, []))
    else
      var r5 :- Eat(Word("WHERE"), r4);
      var where :- ParseConditions(r5);
      Some(Query(items, owner, table, flashback, where))
  }

  /** What the server makes of a statement's text. */
  function ReadStatement(sql: string): Option<Query> {
    var ts :- Lex(sql);
    ParseSelect(ts)
  }
}
