/** The printed statement reads back as the statement that was meant. */
module RoundTrip {
  import opened Prelude
  import opened PgNodes
  import opened SqlText
  import opened TimeText
  import opened ParenScan
  import opened RemoteText
  import opened SqlGrammar
  import opened Deparser

  // What was meant

  predicate OwnVariable(r: Relation, no: nat, att: int, level: nat) {
    no == r.relid && level == 0 && att <= |r.attrs|
  }

  /** A value of a type with a deparser of its own; dates and times finite. */
  predicate PrintableConst(t: Oid, d: Datum) {
    KindOf(t) != GenericKind && DatumFits(t, d) && !d.Infinite?
  }

  predicate KnownConst(c: Catalog, t: Oid, isnull: bool, d: Datum) {
    isnull || (t in c.types && PrintableConst(t, d))
  }

  predicate KnownOperator(c: Catalog, op: Oid, args: seq<Node>) {
    op in c.operators && ArityOk(c.operators[op], args)
  }

  /** A tree of columns of `r`, constants that print, and operators applied to as many arguments as they take. */
  predicate Printable(c: Catalog, r: Relation, e: Node)
    decreases e
  {
    match e
    case Var(no, att, level, _) => OwnVariable(r, no, att, level) && Fetchable(r, att)
    case Const(t, _, isnull, d) => KnownConst(c, t, isnull, d)
    case OpExpr(op, _, _, args) =>
      KnownOperator(c, op, args) && c.operators[op].builtin && forall i :: 0 <= i < |args| ==> Printable(c, r, args[i])
    case _ => false
  }

  lemma {:induction false} PrintableIsWellTyped(c: Catalog, r: Relation, e: Node)
    requires Printable(c, r, e)
    ensures WellTyped(e)
    decreases e
  {
    forall i | 0 <= i < |Children(e)| ensures WellTyped(Children(e)[i]) {
      PrintableIsWellTyped(c, r, Children(e)[i]);
    }
  }

  /** A printable tree prints: no error, no assertion, none of the bodiless cases. */
  lemma {:induction false} PrintablePrints(c: Catalog, r: Relation, e: Node)
    requires Printable(c, r, e)
    ensures WellTyped(e) && ExprText(c, r, e).Ok?
    decreases e
  {
    PrintableIsWellTyped(c, r, e);
    if e.OpExpr? {
      assert Children(e) == e.args;
      PrintablePrints(c, r, e.args[0]);
      if |e.args| == 2 {
        PrintablePrints(c, r, e.args[1]);
      }
    }
  }

  /** A numeric type's output, printed bare: what is no numeral is taken for a name. */
  function RemoteNumber(text: string): RExpr {
    if text == "NaN" || text == "Infinity" then RColumn(text)
    else if text == "-Infinity" then RUnary("-", RColumn("Infinity"))
    else RNumber(text)
  }

  function NumberTokens(text: string): seq<Token> {
    if text == "NaN" || text == "Infinity" then [Word(text)]
    else if text == "-Infinity" then [MINUS, Word("Infinity")]
    else [Number(text)]
  }

  function RemoteConst(t: Oid, d: Datum): RExpr
    requires DatumFits(t, d) && !d.Infinite?
  {
    match KindOf(t)
    case NumericKind => RemoteNumber(d.text)
    case DateKind => RTime("TO_DATE", DayText(d.year, d.month, d.day), DATE_FORMAT)
    case TimestampKind => RTime("TO_TIMESTAMP", StampText(d.stamp), TIMESTAMP_FORMAT)
    case TimestampTzKind => RTime("TO_TIMESTAMP_TZ", StampText(d.stamp) + OffsetText(d.tzoffset), TIMESTAMP_TZ_FORMAT)
    case _ => if d.text == "" then RNull else RText(d.text)
  }

  function RemoteExpr(c: Catalog, r: Relation, e: Node): RExpr
    requires Printable(c, r, e)
    decreases e
  {
    match e
    case Var(_, att, _, _) =>
      if att == SELF_ITEM_POINTER_ATTNO then RRowid else RColumn(RemoteName(r.attrs[att - 1]))
    case Const(t, _, isnull, d) => if isnull then RNull else RemoteConst(t, d)
    case OpExpr(op, _, _, args) =>
      var symbol := OperatorText(op, c.operators[op]);
      if |args| == 1 then RUnary(symbol, RemoteExpr(c, r, args[0]))
      else RBinary(symbol, RemoteExpr(c, r, args[0]), RemoteExpr(c, r, args[1]))
  }

  function RemoteExprs(c: Catalog, r: Relation, es: seq<Node>): (rs: seq<RExpr>)
    requires forall i :: 0 <= i < |es| ==> Printable(c, r, es[i])
    ensures |rs| == |es| && forall i :: 0 <= i < |es| ==> rs[i] == RemoteExpr(c, r, es[i])
  {
    if es == [] then [] else RemoteExprs(c, r, es[..|es| - 1]) + [RemoteExpr(c, r, es[|es| - 1])]
  }

  function ItemName(r: Relation, att: int): string
    requires Fetchable(r, att)
  {
    if att == SELF_ITEM_POINTER_ATTNO then "ctid" else RemoteName(r.attrs[att - 1])
  }

  function ItemNames(r: Relation, atts: seq<int>): (ns: seq<Option<string>>)
    requires forall k :: 0 <= k < |atts| ==> Fetchable(r, atts[k])
    ensures |ns| == |atts| && forall k :: 0 <= k < |atts| ==> ns[k] == Some(ItemName(r, atts[k]))
  {
    seq(|atts|, k requires 0 <= k < |atts| => Some(ItemName(r, atts[k])))
  }

  function Items(r: Relation, used: set<int>): seq<Option<string>> {
    var atts := RetrievedAttrs(r, used);
    if atts == [] then [None] else ItemNames(r, atts)
  }

  function QueryMeant(c: Catalog, r: Relation, used: set<int>, conds: seq<Node>, flashback: bool): Query
    requires forall i :: 0 <= i < |conds| ==> Printable(c, r, conds[i])
  {
    Query(Items(r, used), r.ownerName, RemoteTable(r), flashback, RemoteExprs(c, r, conds))
  }

  // Its tokens

  function NameToken(c: Catalog, name: string): Token {
    if SafeIdentifier(c, name) then Word(name) else Quoted(name)
  }

  function TimeTokens(fn: string, text: string, format: string): seq<Token> {
    [Word(fn), LParen, Str(text), Comma, Str(format), RParen]
  }

  function ConstTokens(t: Oid, d: Datum): seq<Token>
    requires DatumFits(t, d) && !d.Infinite?
  {
    if KindOf(t) == NumericKind then NumberTokens(d.text)
    else
      match RemoteConst(t, d)
      case RText(s) => [Str(s)]
      case RTime(fn, text, format) =>
        if fn == "TO_TIMESTAMP_TZ" then TimeTokens(fn, text, format)
        else [LParen] + (TimeTokens(fn, text, format) + [RParen])
      case _ => [Word("NULL")]
  }

  function OperatorToken(op: Oid, info: OpInfo): Token {
    if op in {OID_NAME_LIKE_OP, OID_TEXT_LIKE_OP, OID_BPCHAR_LIKE_OP} then Word("LIKE") else Symbol(info.name)
  }

  function ExprTokens(c: Catalog, r: Relation, e: Node): seq<Token>
    requires Printable(c, r, e)
    decreases e
  {
    match e
    case Var(_, att, _, _) =>
      if att == SELF_ITEM_POINTER_ATTNO then [Word("ROWID")] else [NameToken(c, RemoteName(r.attrs[att - 1]))]
    case Const(t, _, isnull, d) => if isnull then [Word("NULL")] else ConstTokens(t, d)
    case OpExpr(op, _, _, args) =>
      var token := OperatorToken(op, c.operators[op]);
      if |args| == 1 then [LParen] + ([token] + ExprTokens(c, r, args[0]) + [RParen])
      else [LParen] + (ExprTokens(c, r, args[0]) + ([token] + ExprTokens(c, r, args[1])) + [RParen])
  }

  // Parsing the tokens

  lemma SafeIsNoKeyword(c: Catalog, name: string)
    requires SafeIdentifier(c, name)
    ensures name != "NULL" && name != "ROWID" && name != "LIKE" && !TimeFunction(name)
  {
    assert IsSafeChar(name[0]);
  }

  predicate MinusInfinity(c: Catalog, r: Relation, e: Node)
    requires Printable(c, r, e)
  {
    e.Const? && ExprTokens(c, r, e) == [MINUS, Word("Infinity")] &&
    RemoteExpr(c, r, e) == RUnary("-", RColumn("Infinity"))
  }

  /** With one exception an operand never starts like an operator; nor like a parenthesised date. */
  lemma OperandStart(c: Catalog, r: Relation, e: Node)
    requires Printable(c, r, e)
    ensures ExprTokens(c, r, e) != [] && (OperatorOf(ExprTokens(c, r, e)[0]).None? || MinusInfinity(c, r, e))
    ensures ExprTokens(c, r, e)[0] != Word("TO_DATE") && ExprTokens(c, r, e)[0] != Word("TO_TIMESTAMP")
  {
    hide NumericOutput, FiniteNumeral, DayText, StampText, OffsetText;
    if e.Var? && e.varattno != SELF_ITEM_POINTER_ATTNO && SafeIdentifier(c, RemoteName(r.attrs[e.varattno - 1])) {
      SafeIsNoKeyword(c, RemoteName(r.attrs[e.varattno - 1]));
    }
  }

  lemma ParseTime(fn: string, text: string, format: string, more: seq<Token>)
    requires TimeFunction(fn)
    ensures ParseExpr(TimeTokens(fn, text, format) + more) == Some((RTime(fn, text, format), more))
    ensures fn != "TO_TIMESTAMP_TZ" ==>
            ParseExpr([LParen] + (TimeTokens(fn, text, format) + [RParen]) + more) ==
            Some((RTime(fn, text, format), more))
  {
    var time := TimeTokens(fn, text, format);
    assert (time + more)[6..] == more;
    assert ([LParen] + (time + [RParen]) + more)[1..] == time + ([RParen] + more);
    assert (time + ([RParen] + more))[6..] == [RParen] + more;
    assert Eat(RParen, [RParen] + more) == Some(more);
  }

  lemma ParseWordConst(t: Token, e: RExpr, more: seq<Token>)
    requires match t
             case Number(n) => e == RNumber(n)
             case Str(s) => e == RText(s)
             case _ => t == Word("NULL") && e == RNull
    ensures ParseExpr([t] + more) == Some((e, more))
  {
    assert ([t] + more)[1..] == more;
  }

  lemma ParseNumber(text: string, more: seq<Token>)
    ensures ParseExpr(NumberTokens(text) + more) == Some((RemoteNumber(text), more))
  {
    if text == "-Infinity" {
      var ts := [MINUS] + ([Word("Infinity")] + more);
      assert NumberTokens(text) + more == ts;
      assert ts[1..] == [Word("Infinity")] + more && ts[1..][1..] == more;
    } else {
      ParseBare(NumberTokens(text)[0], more);
      assert NumberTokens(text) == [NumberTokens(text)[0]];
    }
  }

  /** A number or an ordinary name. */
  lemma ParseBare(t: Token, more: seq<Token>)
    requires t.Number? || t == Word("NaN") || t == Word("Infinity")
    ensures ParseExpr([t] + more) == Some((if t.Number? then RNumber(t.numeral) else RColumn(t.text), more))
  {
    assert ([t] + more)[1..] == more;
  }

  lemma ParseConst(t: Oid, d: Datum, more: seq<Token>)
    requires DatumFits(t, d) && !d.Infinite?
    ensures ParseExpr(ConstTokens(t, d) + more) == Some((RemoteConst(t, d), more))
  {
    hide ParseExpr, NumericOutput, DayText, StampText, OffsetText, TimeTokens;
    var e := RemoteConst(t, d);
    if KindOf(t) == NumericKind {
      ParseNumber(d.text, more);
    } else if e.RTime? {
      ParseTime(e.fn, e.text, e.format, more);
    } else {
      ParseWordConst(ConstTokens(t, d)[0], e, more);
      assert ConstTokens(t, d) == [ConstTokens(t, d)[0]];
    }
  }

  lemma ParseColumn(c: Catalog, r: Relation, e: Node, more: seq<Token>)
    requires Printable(c, r, e) && e.Var?
    ensures ParseExpr(ExprTokens(c, r, e) + more) == Some((RemoteExpr(c, r, e), more))
  {
    assert (ExprTokens(c, r, e) + more)[1..] == more;
    if e.varattno != SELF_ITEM_POINTER_ATTNO && SafeIdentifier(c, RemoteName(r.attrs[e.varattno - 1])) {
      SafeIsNoKeyword(c, RemoteName(r.attrs[e.varattno - 1]));
    }
  }

  lemma {:induction false} ParseExprTokens(c: Catalog, r: Relation, e: Node, more: seq<Token>)
    requires Printable(c, r, e)
    ensures ParseExpr(ExprTokens(c, r, e) + more) == Some((RemoteExpr(c, r, e), more))
    decreases e, 1
  {
    hide ParseExpr;
    match e {
      case Var(_, _, _, _) =>
        ParseColumn(c, r, e, more);
      case Const(t, _, isnull, d) =>
        if isnull {
          ParseWordConst(Word("NULL"), RNull, more);
        } else {
          ParseConst(t, d, more);
        }
      case OpExpr(op, _, _, args) =>
        var last := args[|args| - 1];
        ParseExprTokens(c, r, last, [RParen] + more);
        if |args| == 1 {
          ParsePrefix(OperatorToken(op, c.operators[op]), ExprTokens(c, r, last), RemoteExpr(c, r, last), more);
        } else {
          ParseBinary(c, r, e, more);
        }
    }
  }

  lemma {:induction false} ParseBinary(c: Catalog, r: Relation, e: Node, more: seq<Token>)
    requires Printable(c, r, e) && e.OpExpr? && |e.args| == 2
    requires ParseExpr(ExprTokens(c, r, e.args[1]) + ([RParen] + more)) ==
             Some((RemoteExpr(c, r, e.args[1]), [RParen] + more))
    ensures ParseExpr(ExprTokens(c, r, e) + more) == Some((RemoteExpr(c, r, e), more))
    decreases e, 0
  {
    hide ParseExpr, OperatorToken;
    var token := OperatorToken(e.opno, c.operators[e.opno]);
    TokenOfOperator(e.opno, c.operators[e.opno]);
    var lhs, rhs := ExprTokens(c, r, e.args[0]), ExprTokens(c, r, e.args[1]);
    ParseExprTokens(c, r, e.args[0], [token] + (rhs + ([RParen] + more)));
    OperandStart(c, r, e.args[0]);
    if MinusInfinity(c, r, e.args[0]) {
      ParseAfterMinus(token, rhs, RemoteExpr(c, r, e.args[1]), more);
      return;
    }
    ParseInfix(lhs, RemoteExpr(c, r, e.args[0]), token, rhs, RemoteExpr(c, r, e.args[1]), more);
  }

  lemma TokenOfOperator(op: Oid, info: OpInfo)
    ensures OperatorOf(OperatorToken(op, info)) == Some(OperatorText(op, info))
  {
  }

  lemma ParsePrefix(token: Token, arg: seq<Token>, e: RExpr, more: seq<Token>)
    requires OperatorOf(token).Some?
    requires ParseExpr(arg + ([RParen] + more)) == Some((e, [RParen] + more))
    ensures ParseExpr([LParen] + ([token] + arg + [RParen]) + more) ==
            Some((RUnary(OperatorOf(token).value, e), more))
  {
    var ts := [LParen] + ([token] + arg + [RParen]) + more;
    assert ts[2..] == arg + ([RParen] + more);
    assert Eat(RParen, [RParen] + more) == Some(more);
  }

  lemma ParseInfix(lts: seq<Token>, l: RExpr, token: Token, rts: seq<Token>, r: RExpr, more: seq<Token>)
    requires OperatorOf(token).Some?
    requires lts != [] && OperatorOf(lts[0]).None? && lts[0] != Word("TO_DATE") && lts[0] != Word("TO_TIMESTAMP")
    requires ParseExpr(lts + ([token] + (rts + ([RParen] + more)))) == Some((l, [token] + (rts + ([RParen] + more))))
    requires ParseExpr(rts + ([RParen] + more)) == Some((r, [RParen] + more))
    ensures ParseExpr([LParen] + (lts + ([token] + rts) + [RParen]) + more) ==
            Some((RBinary(OperatorOf(token).value, l, r), more))
  {
    hide ParseExpr;
    var tail := rts + ([RParen] + more);
    var ts := [LParen] + (lts + ([token] + rts) + [RParen]) + more;
    assert ts == [LParen] + (lts + ([token] + tail));
    assert ts[1..] == lts + ([token] + tail) && ts[1] == lts[0];
    ParseInfixParts(ts, l, token, tail, r, more);
  }

  lemma ParseAfterMinus(token: Token, rts: seq<Token>, r: RExpr, more: seq<Token>)
    requires OperatorOf(token).Some?
    requires ParseExpr(rts + ([RParen] + more)) == Some((r, [RParen] + more))
    ensures ParseExpr([LParen] + ([MINUS, Word("Infinity")] + ([token] + rts) + [RParen]) + more) ==
            Some((RBinary(OperatorOf(token).value, RUnary("-", RColumn("Infinity")), r), more))
  {
    hide ParseExpr;
    var tail := rts + ([RParen] + more);
    var ts := [LParen] + ([MINUS, Word("Infinity")] + ([token] + rts) + [RParen]) + more;
    assert ts == [LParen, MINUS] + ([Word("Infinity")] + ([token] + tail));
    assert ts[2..] == [Word("Infinity")] + ([token] + tail);
    ParseNumber("Infinity", [token] + tail);
    ParseMinusParts(ts, RColumn("Infinity"), token, tail, r, more);
  }

  lemma ParseMinusParts(ts: seq<Token>, l: RExpr, token: Token, tail: seq<Token>, r: RExpr, more: seq<Token>)
    requires OperatorOf(token).Some? && |ts| > 2 && ts[0] == LParen && ts[1] == MINUS
    requires ParseExpr(ts[2..]) == Some((l, [token] + tail))
    requires ParseExpr(tail) == Some((r, [RParen] + more))
    ensures ParseExpr(ts) == Some((RBinary(OperatorOf(token).value, RUnary("-", l), r), more))
  {
    assert ([token] + tail)[1..] == tail;
    assert Eat(RParen, [RParen] + more) == Some(more) by { assert ([RParen] + more)[1..] == more; }
  }

  lemma ParseInfixParts(ts: seq<Token>, l: RExpr, token: Token, tail: seq<Token>, r: RExpr, more: seq<Token>)
    requires OperatorOf(token).Some? && |ts| > 1 && ts[0] == LParen
    requires OperatorOf(ts[1]).None? && ts[1] != Word("TO_DATE") && ts[1] != Word("TO_TIMESTAMP")
    requires ParseExpr(ts[1..]) == Some((l, [token] + tail))
    requires ParseExpr(tail) == Some((r, [RParen] + more))
    ensures ParseExpr(ts) == Some((RBinary(OperatorOf(token).value, l, r), more))
  {
    assert ([token] + tail)[1..] == tail;
    assert Eat(RParen, [RParen] + more) == Some(more) by { assert ([RParen] + more)[1..] == more; }
  }

  // Reading the text

  /** What may follow an operand or a name. */
  predicate Delimits(rest: string) {
    rest == "" || rest[0] == ' ' || rest[0] == ')' || rest[0] == ','
  }

  lemma ReadsKeyword(before: string, w: string, after: string, rest: string)
    requires (before == "" || before == " ") && (after == "" || after == " ")
    requires w != "" && IsLetter(w[0]) && AllChars(IsWordChar, w)
    requires after == "" ==> Delimits(rest) || (rest != "" && rest[0] == '(')
    ensures Reads(before + w + after, [Word(w)], rest)
  {
    hide Lex;
    ReadsWord(w, after + rest);
    if after == "" {
      assert after + rest == rest && w + after == w;
    } else {
      ReadsSpace(rest);
      ReadsThen(w, [Word(w)], after, [], rest);
    }
    assert [Word(w)] + [] == [Word(w)] == [] + [Word(w)];
    if before == "" {
      assert before + w + after == w + after;
    } else {
      ReadsSpace(w + after + rest);
      assert w + after + rest == (w + after) + rest;
      ReadsThen(before, [], w + after, [Word(w)], rest);
      assert before + (w + after) == before + w + after;
    }
  }

  lemma ReadsName(c: Catalog, name: string, rest: string)
    requires Delimits(rest) || (rest != "" && rest[0] == '.')
    ensures Reads(QuoteIdentifier(c, name), [NameToken(c, name)], rest)
  {
    if SafeIdentifier(c, name) {
      forall i | 0 <= i < |name| ensures IsWordChar(name[i]) {
        assert IsSafeChar(name[i]);
      }
      assert IsSafeChar(name[0]) && IsLetter(name[0]);
      ReadsWord(name, rest);
    } else {
      ReadsQuoted(name, rest);
    }
  }

  lemma ReadsParens(text: string, ts: seq<Token>, rest: string)
    requires Reads(text, ts, ")" + rest)
    ensures Reads("(" + text + ")", [LParen] + (ts + [RParen]), rest)
  {
    hide Lex;
    ReadsPunctuation(')', rest);
    ReadsThen(text, ts, ")", [RParen], rest);
    ReadsPunctuation('(', (text + ")") + rest);
    ReadsThen("(", [LParen], text + ")", ts + [RParen], rest);
    assert "(" + text + ")" == "(" + (text + ")");
  }

  lemma ReadsLiteral(text: string, rest: string)
    requires (forall i :: 0 <= i < |text| ==> text[i] != '\'') && (rest == "" || rest[0] != '\'')
    ensures Reads("'" + text + "'", [Str(text)], rest)
  {
    NothingDoubled('\'', text);
    ReadsString(text, rest);
  }

  lemma ReadsTimeCall(fn: string, text: string, format: string, rest: string)
    requires fn != "" && IsLetter(fn[0]) && AllChars(IsWordChar, fn)
    requires AllChars(IsPlain, text) && AllChars(IsPlain, format)
    ensures Reads(TimeCall(fn, text, format), TimeTokens(fn, text, format), rest)
  {
    hide Lex;
    assert (forall i :: 0 <= i < |text| ==> IsPlain(text[i])) && (forall i :: 0 <= i < |format| ==> IsPlain(format[i]));
    var lit, fmt := "'" + text + "'", "'" + format + "'";
    ReadsPunctuation(')', rest);
    ReadsLiteral(format, ")" + rest);
    ReadsThen(fmt, [Str(format)], ")", [RParen], rest);
    var tail1 := fmt + ")";
    ReadsComma(tail1 + rest);
    ReadsThen(", ", [Comma], tail1, [Str(format)] + [RParen], rest);
    var tail2 := ", " + tail1;
    ReadsLiteral(text, tail2 + rest);
    ReadsThen(lit, [Str(text)], tail2, [Comma] + ([Str(format)] + [RParen]), rest);
    var tail3 := lit + tail2;
    ReadsPunctuation('(', tail3 + rest);
    ReadsThen("(", [LParen], tail3, [Str(text)] + ([Comma] + ([Str(format)] + [RParen])), rest);
    ReadsWord(fn, ("(" + tail3) + rest);
    ReadsThen(fn, [Word(fn)], "(" + tail3, [LParen] + ([Str(text)] + ([Comma] + ([Str(format)] + [RParen]))), rest);
    assert [Word(fn)] + ([LParen] + ([Str(text)] + ([Comma] + ([Str(format)] + [RParen])))) ==
           TimeTokens(fn, text, format);
  }

  lemma ReadsComma(rest: string)
    ensures Reads(", ", [Comma], rest)
  {
    hide Lex;
    ReadsPunctuation(',', " " + rest);
    ReadsSpace(rest);
    ReadsThen(",", [Comma], " ", [], rest);
    assert [Comma] + [] == [Comma] && "," + " " == ", ";
  }

  lemma ReadsNumeric(text: string, rest: string)
    requires NumericOutput(text) && Delimits(rest)
    ensures Reads(text, NumberTokens(text), rest)
  {
    hide Lex, Reads;
    if FiniteNumeral(text) {
      NumeralChars(text);
      ReadsNumber(text, rest);
    } else {
      ReadsNonFinite(text, rest);
    }
  }

  lemma ReadsNonFinite(text: string, rest: string)
    requires text in {"NaN", "Infinity", "-Infinity"} && Delimits(rest)
    ensures Reads(text, NumberTokens(text), rest)
  {
    hide Lex, Reads, Delimits;
    assert Stops(IsWordChar, rest) by { DelimitsWord(rest); }
    if text == "-Infinity" {
      ReadsWord("Infinity", rest);
      ReadsMinus("Infinity" + rest);
      ReadsThen("-", [MINUS], "Infinity", [Word("Infinity")], rest);
      assert "-" + "Infinity" == "-Infinity" && [MINUS] + [Word("Infinity")] == [MINUS, Word("Infinity")];
    } else {
      ReadsWord(text, rest);
    }
  }

  lemma DelimitsWord(rest: string)
    requires Delimits(rest)
    ensures Stops(IsWordChar, rest)
  {
  }

  lemma ReadsMinus(rest: string)
    requires rest != "" && IsLetter(rest[0])
    ensures Reads("-", [MINUS], rest)
  {
    RunExact(IsOperatorChar, "-", rest);
    assert ("-" + rest)[..1] == "-";
    ReadsNext("-", MINUS, rest);
  }

  lemma ReadsConst(c: Catalog, t: Oid, d: Datum, rest: string)
    requires t in c.types && DatumFits(t, d) && !d.Infinite? && Delimits(rest)
    ensures Reads(DatumText(c, t, d).value, ConstTokens(t, d), rest)
  {
    hide Lex, DayText, StampText, OffsetText, TimeCall, AllChars, NumericOutput, NumberTokens;
    match KindOf(t) {
      case NumericKind => ReadsNumeric(d.text, rest);
      case DateKind =>
        DayChars(d.year, d.month, d.day);
        ReadsDateConst("TO_DATE", DayText(d.year, d.month, d.day), DATE_FORMAT, rest);
      case TimestampKind =>
        StampChars(d.stamp);
        ReadsDateConst("TO_TIMESTAMP", StampText(d.stamp), TIMESTAMP_FORMAT, rest);
      case TimestampTzKind => ReadsTimestampTz(d, rest);
      case _ =>
        ReadsStringConst(d.text, rest);
    }
  }

  lemma ReadsStringConst(s: string, rest: string)
    requires Delimits(rest)
    ensures Reads(StringLiteral(s), [if s == "" then Word("NULL") else Str(s)], rest)
  {
    if s == "" {
      ReadsWord("NULL", rest);
    } else {
      ReadsString(s, rest);
    }
  }

  lemma ReadsTimestampTz(d: Datum, rest: string)
    requires d.MomentTz?
    ensures var text := StampText(d.stamp) + OffsetText(d.tzoffset);
            Reads(TimeCall("TO_TIMESTAMP_TZ", text, TIMESTAMP_TZ_FORMAT),
                  TimeTokens("TO_TIMESTAMP_TZ", text, TIMESTAMP_TZ_FORMAT), rest)
  {
    hide Lex, DayText, StampText, OffsetText, TimeCall;
    StampChars(d.stamp);
    OffsetChars(d.tzoffset);
    AllCharsConcat(IsTimeChar, StampText(d.stamp), OffsetText(d.tzoffset));
    TimeCharsPlain(StampText(d.stamp) + OffsetText(d.tzoffset));
    FormatsPlain();
    ReadsTimeCall("TO_TIMESTAMP_TZ", StampText(d.stamp) + OffsetText(d.tzoffset), TIMESTAMP_TZ_FORMAT, rest);
  }

  lemma ReadsDateConst(fn: string, text: string, format: string, rest: string)
    requires fn == "TO_DATE" || fn == "TO_TIMESTAMP"
    requires format == DATE_FORMAT || format == TIMESTAMP_FORMAT
    requires AllChars(IsTimeChar, text)
    ensures Reads("(" + TimeCall(fn, text, format) + ")", [LParen] + (TimeTokens(fn, text, format) + [RParen]), rest)
  {
    hide Lex;
    TimeCharsPlain(text);
    FormatsPlain();
    ReadsTimeCall(fn, text, format, ")" + rest);
    ReadsParens(TimeCall(fn, text, format), TimeTokens(fn, text, format), rest);
  }

  lemma ReadsOperator(c: Catalog, op: Oid, rest: string)
    requires ValidCatalog(c) && op in c.operators && rest != "" && rest[0] == ' '
    ensures Reads(OperatorText(op, c.operators[op]), [OperatorToken(op, c.operators[op])], rest)
  {
    if OperatorText(op, c.operators[op]) == "LIKE" {
      assert !IsOperatorChar('L');
      ReadsWord("LIKE", rest);
    } else {
      ReadsSymbol(c.operators[op].name, rest);
    }
  }

  /** `lhs`, the operator and `rhs` in parentheses; `left` and `right` are the operands' tokens. */
  lemma ReadsOperation(lhs: string, left: seq<Token>, op: string, token: Token, rhs: string, right: seq<Token>,
                       rest: string)
    requires Reads(lhs, left, (op + (" " + rhs)) + (")" + rest))
    requires Reads(op, [token], (" " + rhs) + (")" + rest))
    requires Reads(rhs, right, ")" + rest)
    ensures Reads(Operation(lhs, op, rhs), [LParen] + (left + ([token] + right) + [RParen]), rest)
  {
    hide Lex;
    ReadsSpace(rhs + (")" + rest));
    ReadsThen(" ", [], rhs, right, ")" + rest);
    assert [] + right == right;
    ReadsThen(op, [token], " " + rhs, right, ")" + rest);
    ReadsThen(lhs, left, op + (" " + rhs), [token] + right, ")" + rest);
    ReadsParens(lhs + (op + (" " + rhs)), left + ([token] + right), rest);
  }

  lemma {:induction false} ReadsExpr(c: Catalog, r: Relation, e: Node, rest: string)
    requires ValidCatalog(c) && Printable(c, r, e) && Delimits(rest)
    ensures WellTyped(e) && ExprText(c, r, e).Ok? && Reads(ExprText(c, r, e).value, ExprTokens(c, r, e), rest)
    decreases e
  {
    hide Lex, QuoteIdentifier, NameToken, DatumText, ConstTokens, OperatorText, OperatorToken, Operation;
    PrintablePrints(c, r, e);
    match e {
      case Var(_, att, _, _) =>
        if att == SELF_ITEM_POINTER_ATTNO {
          ReadsWord("ROWID", rest);
        } else {
          ReadsName(c, RemoteName(r.attrs[att - 1]), rest);
        }
      case Const(t, _, isnull, d) =>
        if isnull {
          ReadsWord("NULL", rest);
        } else {
          ReadsConst(c, t, d, rest);
        }
      case OpExpr(op, _, _, args) =>
        assert Children(e) == args;
        var token, text := OperatorToken(op, c.operators[op]), OperatorText(op, c.operators[op]);
        ReadsExpr(c, r, args[|args| - 1], ")" + rest);
        var right, rhs := ExprTokens(c, r, args[|args| - 1]), ExprText(c, r, args[|args| - 1]).value;
        ReadsOperator(c, op, (" " + rhs) + (")" + rest));
        if |args| == 1 {
          ReadsNothing((text + (" " + rhs)) + (")" + rest));
          ReadsOperation("", [], text, token, rhs, right, rest);
          assert [] + ([token] + right) == [token] + right;
        } else {
          ReadsExpr(c, r, args[0], " " + ((text + (" " + rhs)) + (")" + rest)));
          var left, lhs := ExprTokens(c, r, args[0]), ExprText(c, r, args[0]).value;
          ReadsSpace((text + (" " + rhs)) + (")" + rest));
          ReadsThen(lhs, left, " ", [], (text + (" " + rhs)) + (")" + rest));
          assert left + [] == left;
          ReadsOperation(lhs + " ", left, text, token, rhs, right, rest);
        }
    }
  }

  lemma ReadsNothing(rest: string)
    ensures Reads("", [], rest)
  {
    assert "" + rest == rest;
    assert Lex(rest).Some? ==> [] + Lex(rest).value == Lex(rest).value;
  }

  // Lists

  /** The parts, with `sep` between one and the next. */
  function Separated(parts: seq<seq<Token>>, sep: Token): seq<Token>
    requires parts != []
  {
    parts[0] + if |parts| == 1 then [] else [sep] + Separated(parts[1..], sep)
  }

  lemma {:induction false} SeparatedAppend(parts: seq<seq<Token>>, sep: Token, last: seq<Token>)
    requires parts != []
    ensures Separated(parts + [last], sep) == Separated(parts, sep) + ([sep] + last)
  {
    if |parts| == 1 {
      assert (parts + [last])[1..] == [last];
    } else {
      assert (parts + [last])[1..] == parts[1..] + [last];
      SeparatedAppend(parts[1..], sep, last);
      var a, b := parts[0], Separated(parts[1..], sep);
      assert a + ([sep] + (b + ([sep] + last))) == (a + ([sep] + b)) + ([sep] + last);
    }
  }

  function ClauseTokens(c: Catalog, r: Relation, conds: seq<Node>): (ps: seq<seq<Token>>)
    requires forall i :: 0 <= i < |conds| ==> Printable(c, r, conds[i])
    ensures |ps| == |conds|
    ensures forall i :: 0 <= i < |conds| ==> ps[i] == [LParen] + (ExprTokens(c, r, conds[i]) + [RParen])
  {
    seq(|conds|, i requires 0 <= i < |conds| => [LParen] + (ExprTokens(c, r, conds[i]) + [RParen]))
  }

  function ItemTokens(c: Catalog, r: Relation, atts: seq<int>): (ps: seq<seq<Token>>)
    requires forall k :: 0 <= k < |atts| ==> Fetchable(r, atts[k])
    ensures |ps| == |atts|
    ensures forall k :: 0 <= k < |atts| ==> ps[k] == [ItemToken(c, r, atts[k])]
  {
    seq(|atts|, k requires 0 <= k < |atts| => [ItemToken(c, r, atts[k])])
  }

  function ItemToken(c: Catalog, r: Relation, att: int): Token
    requires Fetchable(r, att)
  {
    if att == SELF_ITEM_POINTER_ATTNO then Word("ctid") else NameToken(c, RemoteName(r.attrs[att - 1]))
  }

  lemma {:induction false} ReadsConditions(c: Catalog, r: Relation, conds: seq<Node>, rest: string)
    requires ValidCatalog(c) && conds != [] && forall i :: 0 <= i < |conds| ==> Printable(c, r, conds[i])
    ensures forall i :: 0 <= i < |conds| ==> WellTyped(conds[i])
    ensures ConditionsText(c, r, conds).Ok?
    ensures Reads(ConditionsText(c, r, conds).value, Separated(ClauseTokens(c, r, conds), Word("AND")), rest)
  {
    hide Lex, Reads, ExprText, ExprTokens, Separated, Printable, WellTyped;
    forall i | 0 <= i < |conds| ensures WellTyped(conds[i]) {
      PrintableIsWellTyped(c, r, conds[i]);
    }
    var init, e := conds[..|conds| - 1], conds[|conds| - 1];
    ReadsExpr(c, r, e, ")" + rest);
    var text, clause := ExprText(c, r, e).value, [LParen] + (ExprTokens(c, r, e) + [RParen]);
    ReadsParens(text, ExprTokens(c, r, e), rest);
    var parts := ClauseTokens(c, r, conds);
    if |conds| == 1 {
      SeparatedOne(clause, Word("AND"));
      assert parts == [clause] && "" + ("" + ("(" + text + ")")) == "(" + text + ")";
    } else {
      ReadsKeyword(" ", "AND", " ", ("(" + text + ")") + rest);
      assert " " + "AND" + " " == " AND ";
      ReadsThen(" AND ", [Word("AND")], "(" + text + ")", clause, rest);
      ReadsConditions(c, r, init, (" AND " + ("(" + text + ")")) + rest);
      assert parts == ClauseTokens(c, r, init) + [clause];
      SeparatedAppend(ClauseTokens(c, r, init), Word("AND"), clause);
      ReadsThen(ConditionsText(c, r, init).value, Separated(ClauseTokens(c, r, init), Word("AND")),
                " AND " + ("(" + text + ")"), [Word("AND")] + clause, rest);
    }
  }

  lemma SeparatedOne(part: seq<Token>, sep: Token)
    ensures Separated([part], sep) == part
  {
  }

  lemma ReadsItem(c: Catalog, r: Relation, att: int, rest: string)
    requires Fetchable(r, att) && Delimits(rest)
    ensures Reads(ItemText(c, r, att), [ItemToken(c, r, att)], rest)
  {
    if att == SELF_ITEM_POINTER_ATTNO {
      ReadsWord("ctid", rest);
    } else {
      ReadsName(c, RemoteName(r.attrs[att - 1]), rest);
    }
  }

  lemma {:induction false} ReadsItems(c: Catalog, r: Relation, atts: seq<int>, rest: string)
    requires atts != [] && (forall k :: 0 <= k < |atts| ==> Fetchable(r, atts[k])) && Delimits(rest)
    ensures Reads(ItemsText(c, r, atts), Separated(ItemTokens(c, r, atts), Comma), rest)
  {
    hide Lex, ItemText, ItemToken, Separated;
    var init, att := atts[..|atts| - 1], atts[|atts| - 1];
    ReadsItem(c, r, att, rest);
    var text, item := ItemText(c, r, att), [ItemToken(c, r, att)];
    var parts := ItemTokens(c, r, atts);
    if |atts| == 1 {
      SeparatedOne(item, Comma);
      assert parts == [item] && "" + ("" + text) == text;
    } else {
      ReadsComma(text + rest);
      ReadsThen(", ", [Comma], text, item, rest);
      ReadsItems(c, r, init, (", " + text) + rest);
      assert parts == ItemTokens(c, r, init) + [item];
      SeparatedAppend(ItemTokens(c, r, init), Comma, item);
      ReadsThen(ItemsText(c, r, init), Separated(ItemTokens(c, r, init), Comma), ", " + text, [Comma] + item, rest);
    }
  }

  lemma FirstClauseMeant(c: Catalog, r: Relation, conds: seq<Node>)
    requires conds != [] && forall i :: 0 <= i < |conds| ==> Printable(c, r, conds[i])
    ensures RemoteExprs(c, r, conds) == [RemoteExpr(c, r, conds[0])] + RemoteExprs(c, r, conds[1..])
  {
    hide RemoteExpr, RemoteExprs, Printable;
    var all, rest := RemoteExprs(c, r, conds), RemoteExprs(c, r, conds[1..]);
    forall i | 0 < i < |conds| ensures all[i] == rest[i - 1] {
      assert conds[1..][i - 1] == conds[i];
    }
  }

  lemma FirstClauseTokens(c: Catalog, r: Relation, conds: seq<Node>)
    requires |conds| > 1 && forall i :: 0 <= i < |conds| ==> Printable(c, r, conds[i])
    ensures Separated(ClauseTokens(c, r, conds), Word("AND")) ==
            ([LParen] + (ExprTokens(c, r, conds[0]) + [RParen])) +
            ([Word("AND")] + Separated(ClauseTokens(c, r, conds[1..]), Word("AND")))
  {
    hide ExprTokens, Separated, Printable, ClauseTokens;
    var parts, rest := ClauseTokens(c, r, conds), ClauseTokens(c, r, conds[1..]);
    forall i | 0 < i < |conds| ensures parts[i] == rest[i - 1] {
      assert conds[1..][i - 1] == conds[i];
    }
    assert parts[1..] == rest;
    SeparatedMore(parts, Word("AND"));
  }

  lemma {:induction false} ParseConditionTokens(c: Catalog, r: Relation, conds: seq<Node>)
    requires conds != [] && forall i :: 0 <= i < |conds| ==> Printable(c, r, conds[i])
    ensures ParseConditions(Separated(ClauseTokens(c, r, conds), Word("AND"))) == Some(RemoteExprs(c, r, conds))
  {
    hide ParseExpr, ExprTokens, RemoteExpr, ParseConditions, Separated, ClauseTokens, RemoteExprs, Printable;
    var ts, e := ExprTokens(c, r, conds[0]), RemoteExpr(c, r, conds[0]);
    FirstClauseMeant(c, r, conds);
    if |conds| == 1 {
      ParseExprTokens(c, r, conds[0], [RParen]);
      ParseLastClause(ts, e);
      SeparatedOne(ClauseTokens(c, r, conds)[0], Word("AND"));
      assert ClauseTokens(c, r, conds) == [ClauseTokens(c, r, conds)[0]] && RemoteExprs(c, r, conds) == [e];
    } else {
      var tail := Separated(ClauseTokens(c, r, conds[1..]), Word("AND"));
      FirstClauseTokens(c, r, conds);
      ParseConditionTokens(c, r, conds[1..]);
      ParseExprTokens(c, r, conds[0], [RParen] + ([Word("AND")] + tail));
      ParseFirstClause(ts, e, tail, RemoteExprs(c, r, conds[1..]));
    }
  }

  lemma ParseLastClause(ts: seq<Token>, e: RExpr)
    requires ParseExpr(ts + [RParen]) == Some((e, [RParen]))
    ensures ParseConditions([LParen] + (ts + [RParen])) == Some([e])
  {
    assert ([LParen] + (ts + [RParen]))[1..] == ts + [RParen];
    assert Eat(RParen, [RParen]) == Some([]) by { assert [RParen][1..] == []; }
  }

  lemma ParseFirstClause(ts: seq<Token>, e: RExpr, tail: seq<Token>, es: seq<RExpr>)
    requires ParseExpr(ts + ([RParen] + ([Word("AND")] + tail))) == Some((e, [RParen] + ([Word("AND")] + tail)))
    requires ParseConditions(tail) == Some(es)
    ensures ParseConditions(([LParen] + (ts + [RParen])) + ([Word("AND")] + tail)) == Some([e] + es)
  {
    var more := [RParen] + ([Word("AND")] + tail);
    var all := ([LParen] + (ts + [RParen])) + ([Word("AND")] + tail);
    assert all == [LParen] + (ts + more) && all[1..] == ts + more;
    assert Eat(RParen, more) == Some([Word("AND")] + tail) by { assert more[1..] == [Word("AND")] + tail; }
    assert Eat(Word("AND"), [Word("AND")] + tail) == Some(tail) by { assert ([Word("AND")] + tail)[1..] == tail; }
  }

  lemma ParseItemName(c: Catalog, r: Relation, att: int, more: seq<Token>)
    requires Fetchable(r, att)
    ensures ParseName([ItemToken(c, r, att)] + more) == Some((ItemName(r, att), more))
    ensures ItemToken(c, r, att) != Word("NULL")
  {
    assert ([ItemToken(c, r, att)] + more)[1..] == more;
    if att != SELF_ITEM_POINTER_ATTNO && SafeIdentifier(c, RemoteName(r.attrs[att - 1])) {
      SafeIsNoKeyword(c, RemoteName(r.attrs[att - 1]));
    }
  }

  lemma {:induction false} ParseItemTokens(c: Catalog, r: Relation, atts: seq<int>, more: seq<Token>)
    requires atts != [] && forall k :: 0 <= k < |atts| ==> Fetchable(r, atts[k])
    requires more == [] || more[0] != Comma
    ensures ParseItems(Separated(ItemTokens(c, r, atts), Comma) + more) == Some((ItemNames(r, atts), more))
  {
    hide ItemToken, ItemName, ParseItems, ParseName, Separated;
    var parts := ItemTokens(c, r, atts);
    var token, name := ItemToken(c, r, atts[0]), ItemName(r, atts[0]);
    if |atts| == 1 {
      ParseItemName(c, r, atts[0], more);
      SeparatedOne(parts[0], Comma);
      ParseLastItem(token, name, more);
      assert parts == [parts[0]] && ItemNames(r, atts) == [Some(name)];
    } else {
      var tail := Separated(parts[1..], Comma);
      assert parts[1..] == ItemTokens(c, r, atts[1..]);
      ParseItemTokens(c, r, atts[1..], more);
      ParseItemName(c, r, atts[0], [Comma] + (tail + more));
      ParseFirstItem(token, name, tail, ItemNames(r, atts[1..]), more);
      SeparatedMore(parts, Comma);
      assert (parts[0] + ([Comma] + tail)) + more == [token] + ([Comma] + (tail + more));
      assert ItemNames(r, atts) == [Some(name)] + ItemNames(r, atts[1..]);
    }
  }

  lemma SeparatedMore(parts: seq<seq<Token>>, sep: Token)
    requires |parts| > 1
    ensures Separated(parts, sep) == parts[0] + ([sep] + Separated(parts[1..], sep))
  {
  }

  lemma ParseLastItem(token: Token, name: string, more: seq<Token>)
    requires ParseName([token] + more) == Some((name, more)) && token != Word("NULL")
    requires more == [] || more[0] != Comma
    ensures ParseItems([token] + more) == Some(([Some(name)], more))
  {
  }

  lemma ParseFirstItem(token: Token, name: string, tail: seq<Token>, names: seq<Option<string>>, more: seq<Token>)
    requires ParseName([token] + ([Comma] + (tail + more))) == Some((name, [Comma] + (tail + more)))
    requires token != Word("NULL") && ParseItems(tail + more) == Some((names, more))
    ensures ParseItems([token] + ([Comma] + (tail + more))) == Some(([Some(name)] + names, more))
  {
    assert ([Comma] + (tail + more))[1..] == tail + more;
  }

  // The statement

  function ListTokens(c: Catalog, r: Relation, used: set<int>): seq<Token> {
    var atts := RetrievedAttrs(r, used);
    if atts == [] then [Word("NULL")] else Separated(ItemTokens(c, r, atts), Comma)
  }

  function TableTokens(c: Catalog, r: Relation): seq<Token> {
    if r.ownerName.None? then [NameToken(c, RemoteTable(r))]
    else [NameToken(c, r.ownerName.value), Dot, NameToken(c, RemoteTable(r))]
  }

  function WhereTokens(c: Catalog, r: Relation, conds: seq<Node>): seq<Token>
    requires forall i :: 0 <= i < |conds| ==> Printable(c, r, conds[i])
  {
    if conds == [] then [] else [Word("WHERE")] + Separated(ClauseTokens(c, r, conds), Word("AND"))
  }

  function SelectTokens(c: Catalog, r: Relation, used: set<int>, conds: seq<Node>, flashback: bool): seq<Token>
    requires forall i :: 0 <= i < |conds| ==> Printable(c, r, conds[i])
  {
    [Word("SELECT")] + (ListTokens(c, r, used) + ([Word("FROM")] + ((TableTokens(c, r) +
    if flashback then AS_OF_TSN else []) + WhereTokens(c, r, conds))))
  }

  lemma ReadsList(c: Catalog, r: Relation, used: set<int>, rest: string)
    requires Delimits(rest)
    ensures Reads(TargetText(c, r, used), ListTokens(c, r, used), rest)
  {
    hide Lex, ItemsText, Separated;
    var atts := RetrievedAttrs(r, used);
    if atts == [] {
      ReadsWord("NULL", rest);
    } else {
      ReadsItems(c, r, atts, rest);
    }
  }

  lemma ReadsFlashback(rest: string)
    requires rest == "" || rest[0] == ' '
    ensures Reads(" as of tsn ?", AS_OF_TSN, rest)
  {
    hide Lex;
    ReadsSymbol("?", rest);
    ReadsKeyword(" ", "tsn", " ", "?" + rest);
    assert " " + "tsn" + " " == " tsn " && " tsn " + "?" == " tsn ?";
    ReadsThen(" tsn ", [Word("tsn")], "?", [Symbol("?")], rest);
    ReadsKeyword(" ", "of", "", " tsn ?" + rest);
    assert " " + "of" + "" == " of" && " of" + " tsn ?" == " of tsn ?";
    ReadsThen(" of", [Word("of")], " tsn ?", [Word("tsn")] + [Symbol("?")], rest);
    ReadsKeyword(" ", "as", "", " of tsn ?" + rest);
    assert " " + "as" + "" == " as" && " as" + " of tsn ?" == " as of tsn ?";
    ReadsThen(" as", [Word("as")], " of tsn ?", [Word("of")] + ([Word("tsn")] + [Symbol("?")]), rest);
    assert [Word("as")] + ([Word("of")] + ([Word("tsn")] + [Symbol("?")])) == AS_OF_TSN;
  }

  lemma ReadsTable(c: Catalog, r: Relation, flashback: bool, rest: string)
    requires rest == "" || rest[0] == ' '
    ensures Reads(RelationText(c, r, flashback), TableTokens(c, r) + if flashback then AS_OF_TSN else [], rest)
  {
    hide Lex, QuoteIdentifier, NameToken;
    var after := if flashback then " as of tsn ?" else "";
    var name, token := QuoteIdentifier(c, RemoteTable(r)), NameToken(c, RemoteTable(r));
    assert after + rest == if flashback then " as of tsn ?" + rest else rest;
    ReadsName(c, RemoteTable(r), after + rest);
    if flashback {
      ReadsFlashback(rest);
    } else {
      ReadsNothing(rest);
    }
    if r.ownerName.None? {
      ReadsThen(name, [token], after, if flashback then AS_OF_TSN else [], rest);
    } else {
      var owner, ownerToken := QuoteIdentifier(c, r.ownerName.value), NameToken(c, r.ownerName.value);
      ReadsPunctuation('.', name + (after + rest));
      ReadsThen(".", [Dot], name, [token], after + rest);
      ReadsName(c, r.ownerName.value, ("." + name) + (after + rest));
      ReadsThen(owner, [ownerToken], "." + name, [Dot] + [token], after + rest);
      assert [ownerToken] + ([Dot] + [token]) == TableTokens(c, r);
      ReadsThen(owner + ("." + name), TableTokens(c, r), after, if flashback then AS_OF_TSN else [], rest);
    }
  }

  function WhereText(c: Catalog, r: Relation, conds: seq<Node>): string
    requires (forall i :: 0 <= i < |conds| ==> WellTyped(conds[i])) && ConditionsText(c, r, conds).Ok?
  {
    if conds == [] then "" else " WHERE " + ConditionsText(c, r, conds).value
  }

  lemma ReadsWhere(c: Catalog, r: Relation, conds: seq<Node>)
    requires ValidCatalog(c) && forall i :: 0 <= i < |conds| ==> Printable(c, r, conds[i])
    ensures (forall i :: 0 <= i < |conds| ==> WellTyped(conds[i])) && ConditionsText(c, r, conds).Ok?
    ensures Reads(WhereText(c, r, conds), WhereTokens(c, r, conds), "")
  {
    hide Lex, Separated, ClauseTokens;
    if conds == [] {
      NoConditions(c, r);
      ReadsNothing("");
    } else {
      hide ConditionsText;
      ReadsConditions(c, r, conds, "");
      var text := ConditionsText(c, r, conds).value;
      ReadsKeyword(" ", "WHERE", " ", text + "");
      assert " " + "WHERE" + " " == " WHERE ";
      ReadsThen(" WHERE ", [Word("WHERE")], text, Separated(ClauseTokens(c, r, conds), Word("AND")), "");
    }
  }

  lemma LexSelect(c: Catalog, r: Relation, used: set<int>, conds: seq<Node>, flashback: bool)
    requires ValidCatalog(c) && forall i :: 0 <= i < |conds| ==> Printable(c, r, conds[i])
    ensures (forall i :: 0 <= i < |conds| ==> WellTyped(conds[i])) && SelectText(c, r, used, conds, flashback).Ok?
    ensures Lex(SelectText(c, r, used, conds, flashback).value) == Some(SelectTokens(c, r, used, conds, flashback))
  {
    ReadsWhere(c, r, conds);
    hide ConditionsText, TargetText, RelationText, ListTokens, TableTokens, WhereTokens, Lex, Printable, WellTyped;
    var where := WhereText(c, r, conds);
    ReadsTable(c, r, flashback, where) by { assert where == "" || where[0] == ' '; }
    var table := TableTokens(c, r) + if flashback then AS_OF_TSN else [];
    assert where + "" == where;
    ReadsThen(RelationText(c, r, flashback), table, where, WhereTokens(c, r, conds), "");
    SelectFront(TargetText(c, r, used), ListTokens(c, r, used), RelationText(c, r, flashback) + where,
                table + WhereTokens(c, r, conds)) by { ReadsListAnywhere(c, r, used); }
    assert SelectText(c, r, used, conds, flashback).value ==
           "SELECT " + (TargetText(c, r, used) + (" FROM " + (RelationText(c, r, flashback) + where)));
  }

  lemma ReadsListAnywhere(c: Catalog, r: Relation, used: set<int>)
    ensures forall rest :: Delimits(rest) ==> Reads(TargetText(c, r, used), ListTokens(c, r, used), rest)
  {
    forall rest | Delimits(rest) ensures Reads(TargetText(c, r, used), ListTokens(c, r, used), rest) {
      ReadsList(c, r, used, rest);
    }
  }

  lemma SelectFront(list: string, listTokens: seq<Token>, tail: string, tailTokens: seq<Token>)
    requires forall rest :: Delimits(rest) ==> Reads(list, listTokens, rest)
    requires Reads(tail, tailTokens, "")
    ensures Lex("SELECT " + (list + (" FROM " + tail))) ==
            Some([Word("SELECT")] + (listTokens + ([Word("FROM")] + tailTokens)))
  {
    hide Delimits;
    ReadsKeyword(" ", "FROM", " ", tail + "");
    assert " " + "FROM" + " " == " FROM ";
    ReadsThen(" FROM ", [Word("FROM")], tail, tailTokens, "");
    assert Delimits((" FROM " + tail) + "") by { StartsBlank(" FROM " + tail); }
    ReadsThen(list, listTokens, " FROM " + tail, [Word("FROM")] + tailTokens, "");
    ReadsKeyword("", "SELECT", " ", (list + (" FROM " + tail)) + "");
    assert "" + "SELECT" + " " == "SELECT ";
    var all := "SELECT " + (list + (" FROM " + tail));
    ReadsThen("SELECT ", [Word("SELECT")], list + (" FROM " + tail), listTokens + ([Word("FROM")] + tailTokens), "");
    var ts := [Word("SELECT")] + (listTokens + ([Word("FROM")] + tailTokens));
    assert all + "" == all && ts + [] == ts && Lex("") == Some([]);
  }

  lemma StartsBlank(s: string)
    requires s != "" && s[0] == ' '
    ensures Delimits(s + "")
  {
  }

  lemma ParseList(c: Catalog, r: Relation, used: set<int>, more: seq<Token>)
    requires more != [] && more[0] != Comma
    ensures ParseItems(ListTokens(c, r, used) + more) == Some((Items(r, used), more))
  {
    if RetrievedAttrs(r, used) == [] {
      assert ([Word("NULL")] + more)[1..] == more;
    } else {
      ParseItemTokens(c, r, RetrievedAttrs(r, used), more);
    }
  }

  lemma ParseTableTokens(c: Catalog, r: Relation, more: seq<Token>)
    requires more == [] || more[0] != Dot
    ensures ParseTable(TableTokens(c, r) + more) == Some(((r.ownerName, RemoteTable(r)), more))
  {
    hide RemoteTable, ParseName, NameToken;
    var table := [NameToken(c, RemoteTable(r))] + more;
    ParseNameToken(c, RemoteTable(r), more);
    if r.ownerName.Some? {
      ParseNameToken(c, r.ownerName.value, [Dot] + table);
      assert TableTokens(c, r) + more == [NameToken(c, r.ownerName.value)] + ([Dot] + table);
      assert ([Dot] + table)[1..] == table;
    }
  }

  lemma ParseNameToken(c: Catalog, name: string, more: seq<Token>)
    ensures ParseName([NameToken(c, name)] + more) == Some((name, more))
  {
    assert ([NameToken(c, name)] + more)[1..] == more;
  }

  lemma ParseWhere(c: Catalog, r: Relation, conds: seq<Node>)
    requires conds != [] && forall i :: 0 <= i < |conds| ==> Printable(c, r, conds[i])
    ensures WhereTokens(c, r, conds) != [] && WhereTokens(c, r, conds)[0] == Word("WHERE")
    ensures ParseConditions(WhereTokens(c, r, conds)[1..]) == Some(RemoteExprs(c, r, conds))
  {
    hide ParseConditions, RemoteExprs, Separated;
    ParseConditionTokens(c, r, conds);
    assert WhereTokens(c, r, conds)[1..] == Separated(ClauseTokens(c, r, conds), Word("AND"));
  }

  lemma ParseSelectTokens(c: Catalog, r: Relation, used: set<int>, conds: seq<Node>, flashback: bool)
    requires forall i :: 0 <= i < |conds| ==> Printable(c, r, conds[i])
    ensures ParseSelect(SelectTokens(c, r, used, conds, flashback)) == Some(QueryMeant(c, r, used, conds, flashback))
  {
    hide ParseSelect, ParseItems, ParseTable, ParseConditions, ListTokens, TableTokens, WhereTokens, Items,
         RemoteExprs, RemoteTable, Printable;
    SelectPieces(c, r, used, conds, flashback);
    var where := WhereTokens(c, r, conds);
    ParseSelectParts(ListTokens(c, r, used), Items(r, used), TableTokens(c, r), r.ownerName, RemoteTable(r), flashback,
                     where, RemoteExprs(c, r, conds));
    var fb := if flashback then AS_OF_TSN else [];
    assert (TableTokens(c, r) + fb) + where == TableTokens(c, r) + (fb + where);
  }

  lemma SelectPieces(c: Catalog, r: Relation, used: set<int>, conds: seq<Node>, flashback: bool)
    requires forall i :: 0 <= i < |conds| ==> Printable(c, r, conds[i])
    ensures var where := WhereTokens(c, r, conds);
            && (where == [] || where[0] == Word("WHERE"))
            && (if where == [] then RemoteExprs(c, r, conds) == []
                else ParseConditions(where[1..]) == Some(RemoteExprs(c, r, conds)))
            && var after := (if flashback then AS_OF_TSN else []) + where;
               var tail := [Word("FROM")] + (TableTokens(c, r) + after);
               && ParseTable(TableTokens(c, r) + after) == Some(((r.ownerName, RemoteTable(r)), after))
               && ParseItems(ListTokens(c, r, used) + tail) == Some((Items(r, used), tail))
  {
    hide ParseItems, ParseTable, ParseConditions, ListTokens, TableTokens, WhereTokens, Items, RemoteExprs, Printable;
    var where := WhereTokens(c, r, conds);
    if conds == [] {
      NoWhere(c, r);
    } else {
      ParseWhere(c, r, conds);
    }
    var after := (if flashback then AS_OF_TSN else []) + where;
    FlashbackClause(flashback, where);
    ParseTableTokens(c, r, after);
    ParseList(c, r, used, [Word("FROM")] + (TableTokens(c, r) + after));
  }

  lemma NoWhere(c: Catalog, r: Relation)
    ensures WhereTokens(c, r, []) == [] && RemoteExprs(c, r, []) == []
  {
  }

  lemma FlashbackClause(flashback: bool, where: seq<Token>)
    requires where == [] || where[0] == Word("WHERE")
    ensures var after := (if flashback then AS_OF_TSN else []) + where;
            && (AS_OF_TSN <= after <==> flashback)
            && (flashback ==> after[4..] == where) && (!flashback ==> after == where)
            && (after == [] || after[0] != Dot)
  {
  }

  lemma ParseSelectParts(list: seq<Token>, items: seq<Option<string>>, from: seq<Token>, owner: Option<string>,
                         table: string, flashback: bool, where: seq<Token>, conds: seq<RExpr>)
    requires where == [] || where[0] == Word("WHERE")
    requires if where == [] then conds == [] else ParseConditions(where[1..]) == Some(conds)
    requires var after := (if flashback then AS_OF_TSN else []) + where;
             && ParseTable(from + after) == Some(((owner, table), after))
             && ParseItems(list + ([Word("FROM")] + (from + after))) ==
                Some((items, [Word("FROM")] + (from + after)))
    ensures ParseSelect([Word("SELECT")] +
                        (list + ([Word("FROM")] + (from + ((if flashback then AS_OF_TSN else []) + where))))) ==
            Some(Query(items, owner, table, flashback, conds))
  {
    hide ParseItems, ParseTable, ParseConditions;
    var after := (if flashback then AS_OF_TSN else []) + where;
    var tail := [Word("FROM")] + (from + after);
    FlashbackClause(flashback, where);
    assert Eat(Word("SELECT"), [Word("SELECT")] + (list + tail)) == Some(list + tail) by {
      assert ([Word("SELECT")] + (list + tail))[1..] == list + tail;
    }
    assert Eat(Word("FROM"), tail) == Some(from + after) by { assert tail[1..] == from + after; }
  }

  /** Printing is unambiguous: whatever the identifiers and constants contain and however deeply the clauses
      nest, the server reads exactly the columns, table and conditions meant. */
  lemma StatementRoundTrip(c: Catalog, r: Relation, used: set<int>, conds: seq<Node>, flashback: bool)
    requires ValidCatalog(c) && forall i :: 0 <= i < |conds| ==> Printable(c, r, conds[i])
    ensures (forall i :: 0 <= i < |conds| ==> WellTyped(conds[i])) && SelectText(c, r, used, conds, flashback).Ok?
    ensures ReadStatement(SelectText(c, r, used, conds, flashback).value) ==
            Some(QueryMeant(c, r, used, conds, flashback))
  {
    hide Lex, ParseSelect, SelectText, SelectTokens, QueryMeant;
    LexSelect(c, r, used, conds, flashback);
    ParseSelectTokens(c, r, used, conds, flashback);
  }

  /** A numeric type's output, as the server reads it: a number exactly if it is finite; otherwise the name NaN or
      Infinity, or the negation of the latter. */
  lemma NumericReadsExactly(text: string)
    requires NumericOutput(text)
    ensures Lex(text) == Some(NumberTokens(text)) && ParseExpr(NumberTokens(text)) == Some((RemoteNumber(text), []))
    ensures Lex(text) == Some([Number(text)]) <==> FiniteNumeral(text)
    ensures RemoteNumber(text) == RNumber(text) <==> FiniteNumeral(text)
  {
    hide Lex, Reads, ParseExpr, FiniteNumeral;
    ReadsNumeric(text, "");
    ReadsWhole(text, NumberTokens(text));
    assert NumberTokens(text) + [] == NumberTokens(text);
    ParseNumber(text, []);
    if FiniteNumeral(text) {
      NumeralChars(text);
    }
  }

  lemma ReadsWhole(text: string, ts: seq<Token>)
    requires Reads(text, ts, "")
    ensures Lex(text) == Some(ts)
  {
    assert text + "" == text && ts + [] == ts;
  }
}
