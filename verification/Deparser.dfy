/** Writing the remote statement into a buffer while counting its open parentheses (deparse.c). */
module Deparser {
  import opened Prelude
  import opened PgNodes
  import opened SqlText
  import opened TimeText
  import opened ParenScan
  import opened RemoteText

  /** PostgreSQL admits only operator characters in operator names, and no comment openers. */
  predicate ValidCatalog(c: Catalog) {
    forall op :: op in c.operators ==> OperatorSymbol(c.operators[op].name)
  }

  // The pieces that are written whole close whatever they open.

  lemma AllPlain(p: char -> bool, s: string)
    requires AllChars(p, s) && forall c: char :: p(c) ==> IsPlain(c)
    ensures Neutral(s)
  {
    forall i | 0 <= i < |s| ensures IsPlain(s[i]) {
      assert p(s[i]);
    }
    PlainNeutral(s);
  }

  lemma IdentifierNeutral(c: Catalog, name: string)
    ensures Neutral(QuoteIdentifier(c, name))
  {
    if SafeIdentifier(c, name) {
      AllPlain(IsSafeChar, name);
    } else {
      QuotedNeutral('"', name);
    }
  }

  lemma NumericNeutral(text: string)
    requires NumericOutput(text)
    ensures Neutral(text)
  {
    hide FiniteNumeral, Neutral;
    if FiniteNumeral(text) {
      NumeralChars(text);
      AllPlain(IsNumeralChar, text);
    } else {
      NonFiniteNeutral();
    }
  }

  lemma NonFiniteNeutral()
    ensures Neutral("NaN") && Neutral("Infinity") && Neutral("-Infinity")
  {
    PlainNeutral("NaN");
    PlainNeutral("Infinity");
    PlainNeutral("-Infinity");
  }

  lemma OperatorNeutral(c: Catalog, op: Oid)
    requires ValidCatalog(c) && op in c.operators
    ensures Neutral(OperatorText(op, c.operators[op]))
  {
    AllPlain(IsOperatorChar, c.operators[op].name);
    PlainNeutral("LIKE");
  }

  predicate IsTimeChar(c: char) {
    IsDigit(c) || c == '-' || c == '+' || c == ':' || c == '.' || c == ' '
  }

  lemma TimeCharsConcat(a: string, c: char, b: string)
    requires AllChars(IsTimeChar, a) && AllChars(IsTimeChar, b) && IsTimeChar(c)
    ensures AllChars(IsTimeChar, a + ([c] + b)) && AllChars(IsTimeChar, a + [c] + b)
  {
  }

  lemma PaddedChars(n: int, width: nat)
    requires width > 1
    ensures AllChars(IsTimeChar, Padded(n, width))
  {
    if n < 0 {
      DigitsDenote(-n);
      ZeroPadDenotes(Digits(-n), -n, width - 1);
    } else {
      PaddedDenotes(n, width);
    }
  }

  lemma DayChars(year: int, month: nat, day: nat)
    ensures AllChars(IsTimeChar, DayText(year, month, day))
  {
    PaddedChars(year, 4);
    PaddedChars(month, 2);
    PaddedChars(day, 2);
    TimeCharsConcat(Padded(month, 2), '-', Padded(day, 2));
    TimeCharsConcat(Padded(year, 4), '-', Padded(month, 2) + "-" + Padded(day, 2));
  }

  lemma StampChars(t: Stamp)
    ensures AllChars(IsTimeChar, StampText(t))
  {
    DayChars(t.year, t.month, t.day);
    PaddedChars(t.hour, 2);
    PaddedChars(t.minute, 2);
    PaddedChars(t.second, 2);
    PaddedChars(t.micros, 6);
    var h, m, s, f := Padded(t.hour, 2), Padded(t.minute, 2), Padded(t.second, 2), Padded(t.micros, 6);
    TimeCharsConcat(s, '.', f);
    TimeCharsConcat(m, ':', s + "." + f);
    TimeCharsConcat(h, ':', m + ":" + (s + "." + f));
    TimeCharsConcat(DayText(t.year, t.month, t.day), ' ', h + ":" + (m + ":" + (s + "." + f)));
  }

  lemma OffsetChars(tzoffset: int)
    ensures AllChars(IsTimeChar, OffsetText(tzoffset))
  {
    var hours := CDiv(-tzoffset, 3600);
    var minutes := CDiv(if tzoffset > 0 then CMod(tzoffset, 3600) else CMod(-tzoffset, 3600), 60);
    var magnitude: nat := if hours < 0 then -hours else hours;
    DigitsDenote(magnitude);
    ZeroPadDenotes(Digits(magnitude), magnitude, 2);
    assert AllChars(IsTimeChar, SignedPadded(hours));
    PaddedChars(minutes, 2);
    TimeCharsConcat(SignedPadded(hours), ':', Padded(minutes, 2));
  }

  lemma TimeCallNeutral(fn: string, text: string, format: string)
    requires AllChars(IsPlain, fn) && AllChars(IsPlain, text) && AllChars(IsPlain, format)
    ensures Neutral(TimeCall(fn, text, format))
  {
    PlainNeutral(fn);
    PlainNeutral(", ");
    LiteralNeutral(text);
    LiteralNeutral(format);
    var args := ("'" + text + "'") + (", " + ("'" + format + "'"));
    NeutralConcat(", ", "'" + format + "'");
    NeutralConcat("'" + text + "'", ", " + ("'" + format + "'"));
    NeutralParens(args);
    NeutralConcat(fn, "(" + args + ")");
    assert TimeCall(fn, text, format) == fn + ("(" + args + ")");
  }

  /** A literal without quotes inside is written without doubling. */
  lemma {:induction false} NothingDoubled(q: char, s: string)
    requires forall i :: 0 <= i < |s| ==> s[i] != q
    ensures Doubled(q, s) == s
  {
    if s != "" {
      NothingDoubled(q, s[1..]);
    }
  }

  lemma LiteralNeutral(text: string)
    requires AllChars(IsPlain, text)
    ensures Neutral("'" + text + "'")
  {
    forall i | 0 <= i < |text| ensures text[i] != '\'' {
      assert IsPlain(text[i]);
    }
    NothingDoubled('\'', text);
    QuotedNeutral('\'', text);
  }

  lemma TimeCharsPlain(s: string)
    requires AllChars(IsTimeChar, s)
    ensures AllChars(IsPlain, s)
  {
    forall i | 0 <= i < |s| ensures IsPlain(s[i]) {
      assert IsTimeChar(s[i]);
    }
  }

  lemma FormatsPlain()
    ensures AllChars(IsPlain, DATE_FORMAT) && AllChars(IsPlain, TIMESTAMP_FORMAT)
    ensures AllChars(IsPlain, TIMESTAMP_TZ_FORMAT)
    ensures AllChars(IsPlain, "TO_DATE") && AllChars(IsPlain, "TO_TIMESTAMP") && AllChars(IsPlain, "TO_TIMESTAMP_TZ")
  {
  }

  lemma TimeNeutral(fn: string, text: string, format: string)
    requires AllChars(IsPlain, fn) && AllChars(IsTimeChar, text) && AllChars(IsPlain, format)
    ensures Neutral(TimeCall(fn, text, format)) && Neutral("(" + TimeCall(fn, text, format) + ")")
  {
    TimeCharsPlain(text);
    TimeCallNeutral(fn, text, format);
    NeutralParens(TimeCall(fn, text, format));
  }

  lemma DatumNeutral(c: Catalog, consttype: Oid, d: Datum)
    requires DatumFits(consttype, d) && consttype in c.types && !d.Infinite?
    ensures Neutral(DatumText(c, consttype, d).value)
  {
    match KindOf(consttype) {
      case NumericKind => NumericNeutral(d.text);
      case DateKind => DateNeutral(d);
      case TimestampKind => TimestampNeutral(d);
      case TimestampTzKind => TimestampTzNeutral(d);
      case _ => LiteralTextNeutral(d.text);
    }
  }

  lemma DateNeutral(d: Datum)
    requires d.Day?
    ensures Neutral("(" + TimeCall("TO_DATE", DayText(d.year, d.month, d.day), DATE_FORMAT) + ")")
  {
    hide AllChars, DayText, StampText, OffsetText, TimeCall, Neutral;
    FormatsPlain();
    DayChars(d.year, d.month, d.day);
    TimeNeutral("TO_DATE", DayText(d.year, d.month, d.day), DATE_FORMAT);
  }

  lemma TimestampNeutral(d: Datum)
    requires d.Moment?
    ensures Neutral("(" + TimeCall("TO_TIMESTAMP", StampText(d.stamp), TIMESTAMP_FORMAT) + ")")
  {
    hide AllChars, DayText, StampText, OffsetText, TimeCall, Neutral;
    FormatsPlain();
    StampChars(d.stamp);
    TimeNeutral("TO_TIMESTAMP", StampText(d.stamp), TIMESTAMP_FORMAT);
  }

  lemma TimestampTzNeutral(d: Datum)
    requires d.MomentTz?
    ensures Neutral(TimeCall("TO_TIMESTAMP_TZ", StampText(d.stamp) + OffsetText(d.tzoffset), TIMESTAMP_TZ_FORMAT))
  {
    hide AllChars, DayText, StampText, OffsetText, TimeCall, Neutral;
    FormatsPlain();
    StampChars(d.stamp);
    OffsetChars(d.tzoffset);
    AllCharsConcat(IsTimeChar, StampText(d.stamp), OffsetText(d.tzoffset));
    TimeNeutral("TO_TIMESTAMP_TZ", StampText(d.stamp) + OffsetText(d.tzoffset), TIMESTAMP_TZ_FORMAT);
  }

  lemma LiteralTextNeutral(s: string)
    ensures Neutral(StringLiteral(s))
  {
    PlainNeutral("NULL");
    QuotedNeutral('\'', s);
  }

  /** Outside quotes `buf` has `depth` open parentheses, and never had fewer than none. */
  ghost predicate OpenAt(buf: string, depth: int) {
    depth >= 0 && ScanText(Scan(None, 0, 0), buf) == Scan(None, depth, 0)
  }

  lemma OpenMore(buf: string, depth: int)
    requires OpenAt(buf, depth)
    ensures OpenAt(buf + "(", depth + 1)
    ensures depth > 0 ==> OpenAt(buf + ")", depth - 1)
  {
    ScanAppend(Scan(None, 0, 0), buf, '(');
    ScanAppend(Scan(None, 0, 0), buf, ')');
  }

  lemma OpenSame(buf: string, depth: int, text: string)
    requires OpenAt(buf, depth) && Neutral(text)
    ensures OpenAt(buf + text, depth)
  {
    ScanConcat(Scan(None, 0, 0), buf, text);
  }

  lemma OperationSteps(start: string, lhs: string, op: string, rhs: string)
    ensures start + "(" + lhs + op + " " + rhs + ")" == start + Operation(lhs, op, rhs)
  {
    assert lhs + op + " " + rhs == lhs + (op + (" " + rhs));
  }

  lemma Reassociate(a: string, b: string, c: string)
    ensures (a + b) + c == a + (b + c)
  {
  }

  lemma KeywordsNeutral()
    ensures Neutral("SELECT ") && Neutral(" FROM ") && Neutral(" WHERE ") && Neutral(" AND ")
    ensures Neutral(", ") && Neutral(" ") && Neutral("NULL") && Neutral("ROWID") && Neutral("ctid")
  {
    PlainNeutral("SELECT ");
    PlainNeutral(" FROM ");
    PlainNeutral(" WHERE ");
    PlainNeutral(" AND ");
    PlainNeutral(", ");
    PlainNeutral(" ");
    PlainNeutral("NULL");
    PlainNeutral("ROWID");
    PlainNeutral("ctid");
  }

  lemma ConditionSteps(start: string, init: string, sep: string, text: string)
    ensures start + init + sep + "(" + text + ")" == start + (init + (sep + ("(" + text + ")")))
  {
  }

  /** An error in some clause is the error of the whole list. */
  lemma {:induction false} ConditionsPrefix(c: Catalog, r: Relation, conds: seq<Node>, n: nat)
    requires n <= |conds| && forall i :: 0 <= i < |conds| ==> WellTyped(conds[i])
    ensures ConditionsText(c, r, conds[..n]).Err? ==>
            ConditionsText(c, r, conds) == ConditionsText(c, r, conds[..n])
    decreases |conds|
  {
    if n < |conds| {
      assert conds[..|conds| - 1][..n] == conds[..n];
      ConditionsPrefix(c, r, conds[..|conds| - 1], n);
    } else {
      assert conds[..n] == conds;
    }
  }

  lemma ItemsStep(c: Catalog, r: Relation, start: string, atts: seq<int>, att: int)
    requires (forall k :: 0 <= k < |atts| ==> Fetchable(r, atts[k])) && Fetchable(r, att)
    ensures start + ItemsText(c, r, atts + [att]) ==
            if atts == [] then start + ItemsText(c, r, atts) + ItemText(c, r, att)
            else start + ItemsText(c, r, atts) + ", " + ItemText(c, r, att)
    ensures if att == SELF_ITEM_POINTER_ATTNO then ItemText(c, r, att) == "ctid"
            else ColumnText(c, r, att) == Ok(ItemText(c, r, att))
  {
    hide ItemsText, ItemText;
    ItemColumn(c, r, att);
    ItemsMore(c, r, atts, att);
    ItemSteps(start, ItemsText(c, r, atts), ItemText(c, r, att));
  }

  lemma ItemColumn(c: Catalog, r: Relation, att: int)
    requires Fetchable(r, att)
    ensures if att == SELF_ITEM_POINTER_ATTNO then ItemText(c, r, att) == "ctid"
            else ColumnText(c, r, att) == Ok(ItemText(c, r, att))
  {
  }

  lemma ItemsMore(c: Catalog, r: Relation, atts: seq<int>, att: int)
    requires (forall k :: 0 <= k < |atts| ==> Fetchable(r, atts[k])) && Fetchable(r, att)
    ensures ItemsText(c, r, atts + [att]) ==
            ItemsText(c, r, atts) + ((if atts == [] then "" else ", ") + ItemText(c, r, att))
  {
    hide ItemText;
    assert (atts + [att])[..|atts|] == atts;
  }

  lemma ItemSteps(start: string, items: string, item: string)
    ensures start + (items + ("" + item)) == start + items + item
    ensures start + (items + (", " + item)) == start + items + ", " + item
  {
  }

  lemma NoItems(c: Catalog, r: Relation, start: string)
    ensures ItemsText(c, r, []) == "" && start + "" == start
  {
  }

  lemma NoneFetched(r: Relation, used: set<int>)
    ensures Fetched(r, used, 0) == []
  {
  }

  lemma FetchedNext(r: Relation, used: set<int>, n: nat)
    requires 1 <= n <= |r.attrs|
    ensures Fetched(r, used, n) ==
            Fetched(r, used, n - 1) + if !r.attrs[n - 1].dropped && (0 in used || n in used) then [n] else []
    ensures Fetched(r, used, n - 1) + [] == Fetched(r, used, n - 1)
  {
  }

  lemma NoConditions(c: Catalog, r: Relation)
    ensures ConditionsText(c, r, []) == Ok("")
  {
  }

  /** No clause text fails for want of a parenthesis, so neither does the statement. */
  lemma {:induction false} NeverUnclosed(c: Catalog, r: Relation, e: Node)
    requires WellTyped(e)
    ensures ExprText(c, r, e) != Err(UnclosedParenthesis)
    decreases e
  {
    if e.OpExpr? && e.opno in c.operators && ArityOk(c.operators[e.opno], e.args) {
      assert Children(e) == e.args;
      NeverUnclosed(c, r, e.args[0]);
      if |e.args| == 2 {
        NeverUnclosed(c, r, e.args[1]);
      }
    }
  }

  lemma {:induction false} ConditionsNeverUnclosed(c: Catalog, r: Relation, conds: seq<Node>)
    requires forall i :: 0 <= i < |conds| ==> WellTyped(conds[i])
    ensures ConditionsText(c, r, conds) != Err(UnclosedParenthesis)
  {
    if conds != [] {
      ConditionsNeverUnclosed(c, r, conds[..|conds| - 1]);
      NeverUnclosed(c, r, conds[|conds| - 1]);
    }
  }

  lemma SelectSteps(list: string, from: string, where: string)
    ensures "" + "SELECT " + list + " FROM " + from + where == "SELECT " + (list + (" FROM " + (from + where)))
    ensures from + "" == from
  {
  }

  lemma DoubledStep(q: char, s: string, i: nat)
    requires i < |s|
    ensures Doubled(q, s[i..]) == (if s[i] == q then [q, q] else [s[i]]) + Doubled(q, s[i + 1..])
  {
    assert s[i..][1..] == s[i + 1..];
  }

  /** The statement under construction. */
  class DeparseContext {
    const catalog: Catalog
    const rel: Relation
    var buf: string
    var pdepth: int

    constructor (catalog: Catalog, rel: Relation)
      ensures this.catalog == catalog && this.rel == rel
      ensures buf == "" && pdepth == 0 && Tracks()
    {
      this.catalog, this.rel := catalog, rel;
      buf, pdepth := "", 0;
    }

    /** The counter is the number of parentheses open in the text written so far. */
    ghost predicate Tracks()
      reads this
    {
      pdepth >= 0 && OpenAt(buf, pdepth)
    }

    method Append(text: string)
      requires Tracks() && Neutral(text)
      modifies this`buf
      ensures Tracks() && buf == old(buf) + text
    {
      OpenSame(buf, pdepth, text);
      buf := buf + text;
    }

    method OpenParenthesis()
      requires Tracks()
      modifies this
      ensures Tracks() && buf == old(buf) + "(" && pdepth == old(pdepth) + 1
    {
      OpenMore(buf, pdepth);
      buf := buf + "(";
      pdepth := pdepth + 1;
    }

    /** The assertion that the depth stays non-negative is the precondition that a parenthesis is open. */
    method CloseParenthesis()
      requires Tracks() && pdepth > 0
      modifies this
      ensures Tracks() && buf == old(buf) + ")" && pdepth == old(pdepth) - 1
    {
      OpenMore(buf, pdepth);
      buf := buf + ")";
      pdepth := pdepth - 1;
      assert pdepth >= 0;
    }

    /** The counter decides for the text: the check passes exactly if every parenthesis written outside quotes has
        been closed. */
    method CheckSanity() returns (outcome: Result<(), DeparseError>)
      requires Tracks()
      ensures outcome == Ok(()) <==> OpenAt(buf, 0)
      ensures outcome.Err? ==> outcome.error == UnclosedParenthesis
    {
      outcome := if pdepth != 0 then Err(UnclosedParenthesis) else Ok(());
    }

    /** Quotes each character as it goes; inside the quotes parentheses do not count. */
    method DeparseStringLiteral(str: string)
      modifies this`buf
      ensures buf == old(buf) + StringLiteral(str)
    {
      if str == "" {
        buf := buf + "NULL";
        return;
      }
      ghost var start := buf;
      buf := buf + "'";
      AppendDoubled(str);
      Reassociate(start, "'", Doubled('\'', str));
      Reassociate(start, "'" + Doubled('\'', str), "'");
      buf := buf + "'";
    }

    method AppendDoubled(str: string)
      modifies this`buf
      ensures buf == old(buf) + Doubled('\'', str)
    {
      for i := 0 to |str|
        invariant buf + Doubled('\'', str[i..]) == old(buf) + Doubled('\'', str)
      {
        DoubledStep('\'', str, i);
        ghost var before, rest := buf, Doubled('\'', str[i + 1..]);
        if str[i] == '\'' {
          buf := buf + "'";
        }
        buf := buf + [str[i]];
        assert buf == before + if str[i] == '\'' then ['\'', '\''] else [str[i]];
        Reassociate(before, if str[i] == '\'' then ['\'', '\''] else [str[i]], rest);
      }
      assert buf + "" == buf && str[|str|..] == "";
    }

    method DeparseDatum(consttype: Oid, d: Datum) returns (outcome: Result<(), DeparseError>)
      requires Tracks() && DatumFits(consttype, d)
      modifies this`buf
      ensures outcome.Ok? ==> Tracks()
      ensures Matches(outcome, old(buf), buf, DatumText(catalog, consttype, d))
    {
      hide OpenAt, Neutral, ScanText;
      if consttype !in catalog.types {
        return Err(UnknownType);
      }
      if d.Infinite? {
        return Err(InfiniteTime);
      }
      DatumNeutral(catalog, consttype, d);
      OpenSame(buf, pdepth, DatumText(catalog, consttype, d).value);
      match KindOf(consttype) {
        case NumericKind => Append(d.text);
        case DateKind => Append("(" + TimeCall("TO_DATE", DayText(d.year, d.month, d.day), DATE_FORMAT) + ")");
        case TimestampKind => Append("(" + TimeCall("TO_TIMESTAMP", StampText(d.stamp), TIMESTAMP_FORMAT) + ")");
        case TimestampTzKind =>
          Append(TimeCall("TO_TIMESTAMP_TZ", StampText(d.stamp) + OffsetText(d.tzoffset), TIMESTAMP_TZ_FORMAT));
        case StringKind => DeparseStringLiteral(d.text);
        case GenericKind => DeparseStringLiteral(d.text);
      }
      outcome := Ok(());
    }

    method DeparseColumnRef(att: int) returns (outcome: Result<(), DeparseError>)
      requires Tracks()
      modifies this`buf
      ensures outcome.Ok? ==> Tracks()
      ensures Matches(outcome, old(buf), buf, ColumnText(catalog, rel, att))
    {
      hide OpenAt, Neutral, ScanText;
      if att != SELF_ITEM_POINTER_ATTNO && att <= 0 {
        return Err(AssertionFailed);
      }
      if att == SELF_ITEM_POINTER_ATTNO {
        PlainNeutral("ROWID");
        Append("ROWID");
      } else {
        if att > |rel.attrs| {
          return Err(UnknownAttribute);
        }
        IdentifierNeutral(catalog, RemoteName(rel.attrs[att - 1]));
        Append(QuoteIdentifier(catalog, RemoteName(rel.attrs[att - 1])));
      }
      outcome := Ok(());
    }

    /** A normal return has appended exactly the expected text; an error is the expected one. */
    static ghost predicate Matches(outcome: Result<(), DeparseError>, before: string, after: string,
                                   expected: Result<string, DeparseError>)
    {
      match outcome
      case Ok(_) => expected.Ok? && after == before + expected.value
      case Err(error) => expected == Err(error)
    }

    method DeparseExpr(e: Node) returns (outcome: Result<(), DeparseError>)
      requires Tracks() && ValidCatalog(catalog) && WellTyped(e)
      modifies this
      ensures outcome.Ok? ==> Tracks() && pdepth == old(pdepth)
      ensures Matches(outcome, old(buf), buf, ExprText(catalog, rel, e))
      decreases e, 1
    {
      hide OpenAt, Neutral, ScanText;
      match e {
        case Absent =>
          return Ok(());
        case Var(no, att, level, _) =>
          if no == rel.relid && level == 0 {
            outcome := DeparseColumnRef(att);
          } else {
            outcome := Err(AssertionFailed);
          }
        case Const(t, _, isnull, d) =>
          if isnull {
            PlainNeutral("NULL");
            Append("NULL");
            outcome := Ok(());
          } else {
            outcome := DeparseDatum(t, d);
          }
        case OpExpr(_, _, _, _) =>
          outcome := DeparseOpExpr(e);
        case List(_) =>
          outcome := Err(UnsupportedNode);
        case Other(_, _, _) =>
          outcome := Err(UnsupportedNode);
        case _ =>
          outcome := Ok(());
      }
    }

    method DeparseOpExpr(e: Node) returns (outcome: Result<(), DeparseError>)
      requires Tracks() && ValidCatalog(catalog) && WellTyped(e) && e.OpExpr?
      modifies this
      ensures outcome.Ok? ==> Tracks() && pdepth == old(pdepth)
      ensures Matches(outcome, old(buf), buf, ExprText(catalog, rel, e))
      decreases e, 0
    {
      hide OpenAt, Neutral, ScanText;
      assert Children(e) == e.args;
      if e.opno !in catalog.operators {
        return Err(UnknownOperator);
      }
      var info := catalog.operators[e.opno];
      if !ArityOk(info, e.args) {
        return Err(AssertionFailed);
      }
      ghost var start, op := buf, OperatorText(e.opno, info);
      OpenParenthesis();
      PlainNeutral(" ");
      ghost var lhs := "";
      if info.kind == 'b' {
        outcome := DeparseExpr(e.args[0]);
        if outcome.Err? {
          return;
        }
        Append(" ");
        lhs := ExprText(catalog, rel, e.args[0]).value + " ";
      }
      assert buf == start + "(" + lhs;
      if !info.builtin {
        return Err(AssertionFailed);
      }
      OperatorNeutral(catalog, e.opno);
      Append(OperatorText(e.opno, info));
      Append(" ");
      outcome := DeparseExpr(e.args[|e.args| - 1]);
      if outcome.Err? {
        return;
      }
      CloseParenthesis();
      OperationSteps(start, lhs, op, ExprText(catalog, rel, e.args[|e.args| - 1]).value);
    }

    method AppendConditions(conds: seq<Node>) returns (outcome: Result<(), DeparseError>)
      requires Tracks() && ValidCatalog(catalog) && forall i :: 0 <= i < |conds| ==> WellTyped(conds[i])
      modifies this
      ensures outcome.Ok? ==> Tracks() && pdepth == old(pdepth)
      ensures Matches(outcome, old(buf), buf, ConditionsText(catalog, rel, conds))
    {
      hide OpenAt, Neutral, ScanText, ExprText, WellTyped, ValidCatalog;
      var isFirst := true;
      PlainNeutral(" AND ");
      assert old(buf) + "" == buf;
      for i := 0 to |conds|
        invariant Tracks() && pdepth == old(pdepth) && isFirst == (i == 0)
        invariant Matches(Ok(()), old(buf), buf, ConditionsText(catalog, rel, conds[..i]))
      {
        ghost var init, sep := ConditionsText(catalog, rel, conds[..i]).value, if isFirst then "" else " AND ";
        assert conds[..i + 1][..i] == conds[..i];
        ConditionsPrefix(catalog, rel, conds, i + 1);
        if !isFirst {
          Append(" AND ");
        }
        assert buf == old(buf) + init + sep;
        OpenParenthesis();
        outcome := DeparseExpr(conds[i]);
        if outcome.Err? {
          return;
        }
        CloseParenthesis();
        ConditionSteps(old(buf), init, sep, ExprText(catalog, rel, conds[i]).value);
        isFirst := false;
      }
      assert conds[..|conds|] == conds;
      outcome := Ok(());
    }

    /** One more item of the list, after a comma unless it is the first. */
    method AppendItem(att: int, first: bool, ghost start: string, ghost atts: seq<int>)
      requires Tracks() && Fetchable(rel, att) && first == (atts == [])
      requires (forall k :: 0 <= k < |atts| ==> Fetchable(rel, atts[k])) && buf == start + ItemsText(catalog, rel, atts)
      modifies this`buf
      ensures Tracks() && buf == start + ItemsText(catalog, rel, atts + [att])
    {
      hide OpenAt, Neutral, ScanText, ItemText, ItemsText, ColumnText;
      KeywordsNeutral();
      ItemsStep(catalog, rel, start, atts, att);
      if !first {
        Append(", ");
      }
      if att == SELF_ITEM_POINTER_ATTNO {
        Append("ctid");
      } else {
        var _ := DeparseColumnRef(att);
      }
    }

    /** Attributes are taken in column order; without any the list is the word NULL. */
    method DeparseTargetList(attrsUsed: set<int>) returns (retrievedAttrs: seq<int>)
      requires Tracks()
      modifies this`buf
      ensures Tracks() && buf == old(buf) + TargetText(catalog, rel, attrsUsed)
      ensures retrievedAttrs == RetrievedAttrs(rel, attrsUsed)
    {
      hide OpenAt, Neutral, ScanText, ItemsText, Fetched;
      retrievedAttrs := [];
      var haveWholerow := 0 in attrsUsed;
      var first := true;
      NoItems(catalog, rel, buf);
      NoneFetched(rel, attrsUsed);
      for i := 1 to |rel.attrs| + 1
        invariant Tracks() && first == (retrievedAttrs == [])
        invariant retrievedAttrs == Fetched(rel, attrsUsed, i - 1)
        invariant buf == old(buf) + ItemsText(catalog, rel, retrievedAttrs)
      {
        FetchedNext(rel, attrsUsed, i);
        if rel.attrs[i - 1].dropped {
          continue;
        }
        if haveWholerow || i in attrsUsed {
          AppendItem(i, first, old(buf), retrievedAttrs);
          first := false;
          retrievedAttrs := retrievedAttrs + [i];
        }
      }
      assert retrievedAttrs + [] == retrievedAttrs;
      if SELF_ITEM_POINTER_ATTNO in attrsUsed {
        AppendItem(SELF_ITEM_POINTER_ATTNO, first, old(buf), retrievedAttrs);
        first := false;
        retrievedAttrs := retrievedAttrs + [SELF_ITEM_POINTER_ATTNO];
      }
      if first {
        KeywordsNeutral();
        Append("NULL");
      }
    }

    /** `xactSnapshot` is IsolationUsesXactSnapshot. */
    method DeparseRelation(useFbQuery: bool, xactSnapshot: bool)
      requires Tracks()
      modifies this`buf
      ensures Tracks() && buf == old(buf) + RelationText(catalog, rel, useFbQuery && !xactSnapshot)
    {
      hide OpenAt, Neutral, ScanText;
      ghost var start := buf;
      var relName := RemoteTable(rel);
      var clause := if useFbQuery && !xactSnapshot then " as of tsn ?" else "";
      PlainNeutral(clause);
      IdentifierNeutral(catalog, relName);
      if rel.ownerName.None? {
        Append(QuoteIdentifier(catalog, relName) + clause) by {
          NeutralConcat(QuoteIdentifier(catalog, relName), clause);
        }
      } else {
        var owner := QuoteIdentifier(catalog, rel.ownerName.value);
        IdentifierNeutral(catalog, rel.ownerName.value);
        PlainNeutral(".");
        NeutralConcat(".", QuoteIdentifier(catalog, relName));
        NeutralConcat(owner, "." + QuoteIdentifier(catalog, relName));
        NeutralConcat(owner + ("." + QuoteIdentifier(catalog, relName)), clause);
        Append((owner + ("." + QuoteIdentifier(catalog, relName))) + clause);
      }
    }

    /** The whole statement. The parenthesis check at its end cannot fail: the only errors are those of
        the clauses themselves. */
    method DeparseSelectStmtForRel(attrsUsed: set<int>, remoteConds: seq<Node>, useFbQuery: bool, xactSnapshot: bool)
      returns (outcome: Result<seq<int>, DeparseError>)
      requires Tracks() && buf == "" && pdepth == 0 && ValidCatalog(catalog)
      requires forall i :: 0 <= i < |remoteConds| ==> WellTyped(remoteConds[i])
      modifies this
      ensures outcome.Ok? ==> Tracks() && pdepth == 0 && outcome.value == RetrievedAttrs(rel, attrsUsed)
      ensures Matches(if outcome.Ok? then Ok(()) else Err(outcome.error), "", buf,
                      SelectText(catalog, rel, attrsUsed, remoteConds, useFbQuery && !xactSnapshot))
      ensures outcome != Err(UnclosedParenthesis)
    {
      hide OpenAt, Neutral, ScanText, TargetText, RelationText, ConditionsText, WellTyped, ValidCatalog, RetrievedAttrs;
      ConditionsNeverUnclosed(catalog, rel, remoteConds);
      KeywordsNeutral();
      Append("SELECT ");
      var retrievedAttrs := DeparseTargetList(attrsUsed);
      Append(" FROM ");
      DeparseRelation(useFbQuery, xactSnapshot);
      ghost var list := TargetText(catalog, rel, attrsUsed);
      ghost var from := RelationText(catalog, rel, useFbQuery && !xactSnapshot);
      if remoteConds != [] {
        Append(" WHERE ");
        var _ :- AppendConditions(remoteConds);
        SelectSteps(list, from, " WHERE " + ConditionsText(catalog, rel, remoteConds).value);
      } else {
        NoConditions(catalog, rel);
        SelectSteps(list, from, "");
      }
      assert pdepth == 0;
      var sane := CheckSanity();
      outcome := match sane case Err(error) => Err(error) case Ok(_) => Ok(retrievedAttrs);
    }
  }
}
