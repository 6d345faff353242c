/** The main theorems of the push-down: what a shipped clause means, and what the whole scan returns. */
module Pushdown {
  import opened Prelude
  import opened PgNodes
  import opened Shippability
  import opened SqlText
  import opened TimeText
  import opened RemoteText
  import opened SqlGrammar
  import opened RoundTrip
  import opened Evaluation

  // Shippable implies printable

  /** What the parser and planner guarantee of a clause on `r`: level-zero variables of `r`, operators with
      their arity and, when built in, in pg_catalog; and what the deparser adds: constants of the types it
      handles, dates and times among them finite. Nothing is asked of the node kinds that are never shipped. */
  predicate WellFormed(c: Catalog, r: Relation, e: Node)
    decreases e
  {
    match e
    case Absent => false
    case List(_) => false
    case Var(no, att, level, _) => OwnVariable(r, no, att, level)
    case Const(t, _, isnull, d) => KnownConst(c, t, isnull, d)
    case OpExpr(op, _, _, args) =>
      KnownOperator(c, op, args) && (BuiltinOid(op) ==> c.operators[op].builtin) &&
      forall i :: 0 <= i < |args| ==> WellFormed(c, r, args[i])
    case _ => true
  }

  /** A clause that is shipped can be printed, without an error, a failed assertion or a silent omission. */
  lemma {:induction false} ShippableIsPrintable(c: Catalog, r: Relation, e: Node)
    requires WellFormed(c, r, e) && Accepts(c, {r.relid}, e)
    ensures Printable(c, r, e) && WellTyped(e) && ExprText(c, r, e).Ok?
    decreases e
  {
    if e.OpExpr? {
      assert Children(e) == e.args;
      forall i | 0 <= i < |e.args| ensures Printable(c, r, e.args[i]) {
        ShippableIsPrintable(c, r, e.args[i]);
      }
    }
    PrintablePrints(c, r, e);
  }

  // Constants

  /** The server reads the constant as the value it has locally. */
  predicate FaithfulConst(t: Oid, d: Datum) {
    match KindOf(t)
    case NumericKind => d.Output? && FiniteNumeral(d.text)
    case DateKind => d.Day? && FaithfulYear(d.year)
    case TimestampKind => d.Moment? && FaithfulYear(d.stamp.year)
    case TimestampTzKind =>
      d.MomentTz? && FaithfulYear(d.stamp.year) && d.tzoffset % 60 == 0 && !(0 < d.tzoffset < 3600)
    case StringKind => d.Output? && d.text != ""
    case GenericKind => true
  }

  /** Four digits, and of our era. */
  predicate FaithfulYear(year: int) {
    1 <= year <= 9999
  }

  lemma ReadDayConst(year: int, month: nat, day: nat)
    requires RealDay(month, day)
    ensures ReadConst(RTime("TO_DATE", DayText(year, month, day), DATE_FORMAT)) ==
            match YearRead(year) case Some(y) => DayValue(y, month, day) case None => Null
  {
    hide DayText, YearRead, ReadTemplate;
    DayByTemplate(year, month, day);
  }

  lemma ReadStampConst(t: Stamp)
    requires RealStamp(t)
    ensures ReadConst(RTime("TO_TIMESTAMP", StampText(t), TIMESTAMP_FORMAT)) ==
            match YearRead(t.year) case Some(y) => StampValue(t.(year := y)) case None => Null
  {
    hide StampText, YearRead, ReadTemplate;
    StampByTemplate(t);
  }

  lemma ReadInstantConst(t: Stamp, tzoffset: int)
    requires RealStamp(t)
    ensures ReadConst(RTime("TO_TIMESTAMP_TZ", StampText(t) + OffsetText(tzoffset), TIMESTAMP_TZ_FORMAT)) ==
            match YearRead(t.year)
            case Some(y) => InstantValue(t.(year := y), PrintedOffset(tzoffset))
            case None => Null
  {
    hide StampText, OffsetText, PrintedOffset, YearRead, ReadTemplate, EastOf;
    InstantByTemplate(t, tzoffset);
  }

  lemma ReadConstIs(sem: LocalSemantics, t: Oid, d: Datum)
    requires PrintableConst(t, d)
    ensures ReadConst(RemoteConst(t, d)) == LocalConst(sem, t, d) <==> FaithfulConst(t, d)
  {
    hide DayText, StampText, OffsetText, PrintedOffset, ReadDay, ReadStamp, ReadOffset, FiniteNumeral;
    match KindOf(t) {
      case NumericKind => NumericReadsExactly(d.text);
      case DateKind => ReadDayConst(d.year, d.month, d.day);
      case TimestampKind => ReadStampConst(d.stamp);
      case TimestampTzKind =>
        ReadInstantConst(d.stamp, d.tzoffset);
        OffsetExactness(d.tzoffset);
      case _ =>
    }
  }

  /** Every constant of the tree is read faithfully. */
  predicate FaithfulConsts(e: Node)
    decreases e
  {
    (e.Const? && !e.constisnull ==> FaithfulConst(e.consttype, e.constvalue)) &&
    forall i :: 0 <= i < |Children(e)| ==> FaithfulConsts(Children(e)[i])
  }

  // Clauses

  /** The local values of an operation's operands. */
  function Operands(sem: LocalSemantics, r: Relation, t: LocalTuple, e: Node): seq<Value>
    requires e.OpExpr?
  {
    seq(|e.args|, k requires 0 <= k < |e.args| => EvalLocal(sem, r, t, e.args[k]))
  }

  /** The one assumption about the server: on the operands this tuple gives it, each operation of the tree means there,
      as it is printed, what it means here. */
  predicate SameOperations(c: Catalog, r: Relation, sem: LocalSemantics, ops: RemoteOperators, t: LocalTuple, e: Node)
    requires Printable(c, r, e)
    decreases e
  {
    e.OpExpr? ==>
      && ops(RemoteExpr(c, r, e), Operands(sem, r, t, e)) == sem.apply(Head(e), Operands(sem, r, t, e))
      && forall i :: 0 <= i < |e.args| ==> SameOperations(c, r, sem, ops, t, e.args[i])
  }

  /** ... for each of these clauses on a row, */
  ghost predicate AgreesOn(c: Catalog, r: Relation, sem: LocalSemantics, ops: RemoteOperators, row: RemoteRow,
                           clauses: seq<Node>) {
    forall k :: 0 <= k < |clauses| && Printable(c, r, clauses[k]) ==>
      SameOperations(c, r, sem, ops, FullTuple(r, row), clauses[k])
  }

  /** ... and on each row of the table. */
  ghost predicate ServerAgrees(c: Catalog, r: Relation, sem: LocalSemantics, ops: RemoteOperators,
                               rows: seq<RemoteRow>, clauses: seq<Node>) {
    forall i :: 0 <= i < |rows| ==> AgreesOn(c, r, sem, ops, rows[i], clauses)
  }

  /** Every live column of `r` exists in the remote row. */
  predicate RowFits(r: Relation, row: RemoteRow) {
    forall i :: 0 <= i < |r.attrs| && !r.attrs[i].dropped ==>
      match r.attrs[i].columnName
      case Some(n) => n in row.columns
      case None => r.attrs[i].name in row.columns
  }

  /** The tree mentions no dropped column. */
  predicate LiveColumns(r: Relation, e: Node)
    decreases e
  {
    (e.Var? && 0 < e.varattno <= |r.attrs| ==> !r.attrs[e.varattno - 1].dropped) &&
    forall i :: 0 <= i < |Children(e)| ==> LiveColumns(r, Children(e)[i])
  }

  /** A shipped clause has on every remote row the value it has on the row's local image. */
  lemma {:induction false} ClauseMeaning(c: Catalog, r: Relation, sem: LocalSemantics, ops: RemoteOperators,
                                         row: RemoteRow, e: Node)
    requires Printable(c, r, e) && FaithfulConsts(e) && LiveColumns(r, e)
    requires SameOperations(c, r, sem, ops, FullTuple(r, row), e)
    ensures EvalRemote(ops, row, RemoteExpr(c, r, e)) == EvalLocal(sem, r, FullTuple(r, row), e)
    decreases e
  {
    hide EvalRemote, EvalLocal, RemoteExpr, FullTuple, FaithfulConst, Operands;
    if e.OpExpr? {
      assert Children(e) == e.args;
      forall i | 0 <= i < |e.args|
        ensures EvalRemote(ops, row, RemoteExpr(c, r, e.args[i])) == EvalLocal(sem, r, FullTuple(r, row), e.args[i])
      {
        ClauseMeaning(c, r, sem, ops, row, e.args[i]);
      }
      OperatorMeaning(c, r, sem, ops, row, e);
    } else {
      LeafMeaning(c, r, sem, ops, row, e);
    }
  }

  lemma LeafMeaning(c: Catalog, r: Relation, sem: LocalSemantics, ops: RemoteOperators, row: RemoteRow, e: Node)
    requires Printable(c, r, e) && FaithfulConsts(e) && LiveColumns(r, e) && !e.OpExpr?
    ensures EvalRemote(ops, row, RemoteExpr(c, r, e)) == EvalLocal(sem, r, FullTuple(r, row), e)
  {
    hide FaithfulConst, PrintableConst, LocalConst, RemoteConst;
    if e.Const? && !e.constisnull {
      assert HasConst(e, e.consttype, e.constvalue);
      ConstPrintable(c, r, e, e.consttype, e.constvalue);
      ConstMeaning(sem, ops, row, e.consttype, e.constvalue);
    }
  }

  lemma ConstMeaning(sem: LocalSemantics, ops: RemoteOperators, row: RemoteRow, t: Oid, d: Datum)
    requires PrintableConst(t, d) && FaithfulConst(t, d)
    ensures DatumFits(t, d) && !d.Infinite?
    ensures EvalRemote(ops, row, RemoteConst(t, d)) == LocalConst(sem, t, d)
  {
    hide RemoteConst, LocalConst, ReadConst, DatumFits, FiniteNumeral;
    ReadConstIs(sem, t, d);
    ConstEvaluates(ops, row, t, d);
  }

  lemma ConstEvaluates(ops: RemoteOperators, row: RemoteRow, t: Oid, d: Datum)
    requires DatumFits(t, d) && !d.Infinite? && (KindOf(t) == NumericKind ==> FiniteNumeral(d.text))
    ensures EvalRemote(ops, row, RemoteConst(t, d)) == ReadConst(RemoteConst(t, d))
  {
    if KindOf(t) == NumericKind {
      NumericReadsExactly(d.text);
    }
  }

  lemma OperatorMeaning(c: Catalog, r: Relation, sem: LocalSemantics, ops: RemoteOperators, row: RemoteRow, e: Node)
    requires Printable(c, r, e) && e.OpExpr? && SameOperations(c, r, sem, ops, FullTuple(r, row), e)
    requires forall i :: 0 <= i < |e.args| ==>
               EvalRemote(ops, row, RemoteExpr(c, r, e.args[i])) == EvalLocal(sem, r, FullTuple(r, row), e.args[i])
    ensures EvalRemote(ops, row, RemoteExpr(c, r, e)) == EvalLocal(sem, r, FullTuple(r, row), e)
  {
    hide FullTuple, EvalRemote, RemoteExpr;
    var t, args := FullTuple(r, row), e.args;
    assert Children(e) == args;
    var vals := Operands(sem, r, t, e);
    OperationEvaluates(c, r, ops, row, e);
    assert vals == seq(|args|, k requires 0 <= k < |args| => EvalRemote(ops, row, RemoteExpr(c, r, args[k])));
    assert EvalLocal(sem, r, t, e) == sem.apply(Head(e), vals);
  }

  // ... and exactly when

  /** On this row the server and the executor agree whether the clause is true. */
  ghost predicate SameVerdict(c: Catalog, r: Relation, sem: LocalSemantics, ops: RemoteOperators,
                              row: RemoteRow, e: Node)
    requires Printable(c, r, e)
  {
    SameOperations(c, r, sem, ops, FullTuple(r, row), e) ==>
      (EvalRemote(ops, row, RemoteExpr(c, r, e)) == Bool(true) <==>
       EvalLocal(sem, r, FullTuple(r, row), e) == Bool(true))
  }

  /** The constant stands somewhere in the tree. */
  predicate HasConst(e: Node, t: Oid, d: Datum)
    decreases e
  {
    (e.Const? && !e.constisnull && e.consttype == t && e.constvalue == d) ||
    exists i :: 0 <= i < |Children(e)| && HasConst(Children(e)[i], t, d)
  }

  lemma {:induction false} ConstPrintable(c: Catalog, r: Relation, e: Node, t: Oid, d: Datum)
    requires Printable(c, r, e) && HasConst(e, t, d)
    ensures PrintableConst(t, d) && (FaithfulConsts(e) ==> FaithfulConst(t, d))
    decreases e
  {
    if e.OpExpr? {
      var i :| 0 <= i < |Children(e)| && HasConst(Children(e)[i], t, d);
      ConstPrintable(c, r, Children(e)[i], t, d);
    }
  }

  function YearOf(d: Datum): int {
    match d
    case Day(year, _, _) => year
    case Moment(stamp) => stamp.year
    case MomentTz(stamp, _) => stamp.year
    case _ => 0
  }

  /** No unfaithful constant of the tree has an earlier year. */
  ghost predicate Earliest(e: Node, t: Oid, d: Datum) {
    && HasConst(e, t, d) && !FaithfulConst(t, d)
    && forall t', d' :: HasConst(e, t', d') && !FaithfulConst(t', d') ==> YearOf(d) <= YearOf(d')
  }

  lemma {:induction false} FindEarliest(c: Catalog, r: Relation, e: Node) returns (t: Oid, d: Datum)
    requires Printable(c, r, e) && !FaithfulConsts(e)
    ensures Earliest(e, t, d)
    decreases e
  {
    hide FaithfulConst, Earliest, YearOf;
    if e.Const? {
      t, d := e.consttype, e.constvalue;
      OnlyConst(e);
    } else {
      assert Children(e) == e.args;
      var i :| 0 <= i < |e.args| && !FaithfulConsts(e.args[i]);
      t, d := FindEarliest(c, r, e.args[i]);
      var j := if |e.args| == 2 then 1 - i else i;
      if FaithfulConsts(e.args[j]) {
        EarliestOfFaithful(c, r, e, i, j, t, d);
      } else {
        var t', d' := FindEarliest(c, r, e.args[j]);
        EarlierOfTwo(e, i, j, t, d, t', d');
        if YearOf(d') < YearOf(d) {
          t, d := t', d';
        }
      }
    }
  }

  lemma OnlyConst(e: Node)
    requires e.Const? && !FaithfulConsts(e)
    ensures Earliest(e, e.consttype, e.constvalue)
  {
    hide FaithfulConst;
  }

  lemma EarliestOfFaithful(c: Catalog, r: Relation, e: Node, i: nat, j: nat, t: Oid, d: Datum)
    requires Printable(c, r, e) && e.OpExpr? && |e.args| <= 2 && i < |e.args| && j < |e.args|
    requires (|e.args| == 2 ==> j == 1 - i) && FaithfulConsts(e.args[j]) && Earliest(e.args[i], t, d)
    ensures Earliest(e, t, d)
  {
    hide FaithfulConst, FaithfulConsts, YearOf;
    assert Children(e) == e.args;
    forall t', d' | HasConst(e.args[j], t', d')
      ensures FaithfulConst(t', d')
    {
      ConstPrintable(c, r, e.args[j], t', d');
    }
    assert forall k :: 0 <= k < |e.args| ==> e.args[k] == e.args[i] || e.args[k] == e.args[j];
  }

  lemma EarlierOfTwo(e: Node, i: nat, j: nat, t: Oid, d: Datum, t': Oid, d': Datum)
    requires e.OpExpr? && |e.args| <= 2 && i < |e.args| && j < |e.args| && (|e.args| == 2 ==> j == 1 - i)
    requires Earliest(e.args[i], t, d) && Earliest(e.args[j], t', d')
    ensures if YearOf(d') < YearOf(d) then Earliest(e, t', d') else Earliest(e, t, d)
  {
    hide FaithfulConst, YearOf;
    assert Children(e) == e.args;
    assert forall k :: 0 <= k < |e.args| ==> e.args[k] == e.args[i] || e.args[k] == e.args[j];
  }

  lemma OffsetNeverPrinted(printed: int, tzoffset: int)
    requires tzoffset % 60 != 0 || 0 < tzoffset < 3600
    ensures PrintedOffset(printed) != -tzoffset
  {
  }

  /** If an unfaithful constant's value is read at all, then from a constant of the year before it. */
  lemma ReadFromEarlier(sem: LocalSemantics, t: Oid, d: Datum, t': Oid, d': Datum)
    requires PrintableConst(t, d) && !FaithfulConst(t, d) && PrintableConst(t', d')
    ensures ReadConst(RemoteConst(t', d')) == LocalConst(sem, t, d) ==>
              !FaithfulConst(t', d') && YearOf(d') < YearOf(d)
  {
    hide DayText, StampText, OffsetText, PrintedOffset, ReadDay, ReadStamp, ReadOffset, FiniteNumeral;
    match KindOf(t') {
      case NumericKind => NumericReadsExactly(d'.text);
      case DateKind => ReadDayConst(d'.year, d'.month, d'.day);
      case TimestampKind => ReadStampConst(d'.stamp);
      case TimestampTzKind =>
        ReadInstantConst(d'.stamp, d'.tzoffset);
        if KindOf(t) == TimestampTzKind && (d.tzoffset % 60 != 0 || 0 < d.tzoffset < 3600) {
          OffsetNeverPrinted(d'.tzoffset, d.tzoffset);
        }
      case _ =>
    }
  }

  /** Operators that are true of the value `mark` and of truth, and of nothing else. */
  function Detector(mark: Value): RemoteOperators {
    (x: RExpr, vals: seq<Value>) => if mark in vals || Bool(true) in vals then Bool(true) else Null
  }

  function DetectorSemantics(mark: Value): LocalSemantics {
    LocalSemantics((n: Node, vals: seq<Value>) => Detector(mark)(RNull, vals), (t: Oid, d: Datum) => Null,
                   (a: int) => Null, (no: nat, a: int, level: nat) => Null)
  }

  function RemoteNames(r: Relation): set<string> {
    set i | 0 <= i < |r.attrs| :: RemoteName(r.attrs[i])
  }

  function NullRow(r: Relation): RemoteRow {
    RemoteRow(Null, map n | n in RemoteNames(r) :: Null)
  }

  lemma {:induction false} DetectedLocally(c: Catalog, r: Relation, mark: Value, tuple: LocalTuple, e: Node,
                                           t: Oid, d: Datum)
    requires Printable(c, r, e) && HasConst(e, t, d) && LocalConst(DetectorSemantics(mark), t, d) == mark
    ensures EvalLocal(DetectorSemantics(mark), r, tuple, e) == (if e.Const? then mark else Bool(true))
    decreases e
  {
    if e.OpExpr? {
      var sem := DetectorSemantics(mark);
      assert Children(e) == e.args;
      var i :| 0 <= i < |e.args| && HasConst(e.args[i], t, d);
      DetectedLocally(c, r, mark, tuple, e.args[i], t, d);
      var vals := seq(|e.args|, k requires 0 <= k < |e.args| => EvalLocal(sem, r, tuple, e.args[k]));
      assert vals[i] in vals && vals[i] in {mark, Bool(true)};
      assert Detector(mark)(RNull, vals) == Bool(true);
      assert EvalLocal(sem, r, tuple, e) == sem.apply(Head(e), vals) == Detector(mark)(RNull, vals);
    }
  }

  /** No constant of the tree reads as `mark`. */
  ghost predicate Unread(e: Node, mark: Value) {
    forall t, d :: HasConst(e, t, d) && PrintableConst(t, d) ==> ReadConst(RemoteConst(t, d)) != mark
  }

  lemma UnreadBelow(e: Node, i: nat, mark: Value)
    requires i < |Children(e)| && Unread(e, mark)
    ensures Unread(Children(e)[i], mark)
  {
    hide DatumFits, RemoteConst, ReadConst;
    forall t, d | HasConst(Children(e)[i], t, d) && PrintableConst(t, d)
      ensures ReadConst(RemoteConst(t, d)) != mark
    {
      assert HasConst(e, t, d);
    }
  }

  lemma {:induction false} UndetectedRemotely(c: Catalog, r: Relation, mark: Value, e: Node)
    requires Printable(c, r, e) && mark != Null && Unread(e, mark)
    ensures EvalRemote(Detector(mark), NullRow(r), RemoteExpr(c, r, e)) !in {mark, Bool(true)}
    decreases e
  {
    hide Detector, RemoteConst, DatumFits, Unread, PrintableConst, HasConst, EvalRemote, RemoteExpr;
    if e.OpExpr? {
      assert Children(e) == e.args;
      UnreadBelow(e, 0, mark);
      UndetectedRemotely(c, r, mark, e.args[0]);
      if |e.args| == 2 {
        UnreadBelow(e, 1, mark);
        UndetectedRemotely(c, r, mark, e.args[1]);
      }
      DetectorSilent(mark, RemoteExpr(c, r, e),
                     seq(|e.args|, k requires 0 <= k < |e.args| =>
                       EvalRemote(Detector(mark), NullRow(r), RemoteExpr(c, r, e.args[k]))));
      OperationEvaluates(c, r, Detector(mark), NullRow(r), e);
    } else {
      LeafUndetected(c, r, mark, e);
    }
  }

  lemma LeafUndetected(c: Catalog, r: Relation, mark: Value, e: Node)
    requires Printable(c, r, e) && mark != Null && Unread(e, mark) && !e.OpExpr?
    ensures EvalRemote(Detector(mark), NullRow(r), RemoteExpr(c, r, e)) !in {mark, Bool(true)}
  {
    hide Detector, RemoteConst, DatumFits, Unread, PrintableConst;
    if e.Const? && !e.constisnull {
      assert HasConst(e, e.consttype, e.constvalue);
      ConstPrintable(c, r, e, e.consttype, e.constvalue);
      UnreadConst(e, e.consttype, e.constvalue, mark);
      ConstUndetected(r, mark, e.consttype, e.constvalue);
    }
  }

  lemma UnreadConst(e: Node, t: Oid, d: Datum, mark: Value)
    requires Unread(e, mark) && HasConst(e, t, d) && PrintableConst(t, d)
    ensures ReadConst(RemoteConst(t, d)) != mark
  {
    hide RemoteConst, ReadConst, DatumFits;
  }

  lemma ConstUndetected(r: Relation, mark: Value, t: Oid, d: Datum)
    requires PrintableConst(t, d) && mark != Null && ReadConst(RemoteConst(t, d)) != mark
    ensures EvalRemote(Detector(mark), NullRow(r), RemoteConst(t, d)) !in {mark, Bool(true)}
  {
    hide FiniteNumeral, ReadConst;
    if KindOf(t) == NumericKind && !FiniteNumeral(d.text) {
      NumericReadsExactly(d.text);
      assert EvalRemote(Detector(mark), NullRow(r), RColumn("Infinity")) == Null;
      assert EvalRemote(Detector(mark), NullRow(r), RColumn("NaN")) == Null;
      DetectorSilent(mark, RemoteConst(t, d), [Null]);
    } else {
      ConstEvaluates(Detector(mark), NullRow(r), t, d);
      ReadConstNoBool(RemoteConst(t, d));
    }
  }

  lemma ReadConstNoBool(e: RExpr)
    ensures !ReadConst(e).Bool?
  {
  }

  lemma DetectorSilent(mark: Value, x: RExpr, vals: seq<Value>)
    requires mark != Null && mark !in vals && Bool(true) !in vals
    ensures Detector(mark)(x, vals) == Null
  {
  }

  lemma {:induction false} DetectorAgrees(c: Catalog, r: Relation, mark: Value, t: LocalTuple, e: Node)
    requires Printable(c, r, e)
    ensures SameOperations(c, r, DetectorSemantics(mark), Detector(mark), t, e)
    decreases e
  {
    if e.OpExpr? {
      forall i | 0 <= i < |e.args|
        ensures SameOperations(c, r, DetectorSemantics(mark), Detector(mark), t, e.args[i])
      {
        DetectorAgrees(c, r, mark, t, e.args[i]);
      }
    }
  }

  lemma OperationEvaluates(c: Catalog, r: Relation, ops: RemoteOperators, row: RemoteRow, e: Node)
    requires Printable(c, r, e) && e.OpExpr?
    ensures EvalRemote(ops, row, RemoteExpr(c, r, e)) ==
            ops(RemoteExpr(c, r, e),
                seq(|e.args|, k requires 0 <= k < |e.args| => EvalRemote(ops, row, RemoteExpr(c, r, e.args[k]))))
  {
    var vals := seq(|e.args|, k requires 0 <= k < |e.args| => EvalRemote(ops, row, RemoteExpr(c, r, e.args[k])));
    if |e.args| == 1 {
      assert vals == [EvalRemote(ops, row, RemoteExpr(c, r, e.args[0]))];
    } else {
      assert vals == [EvalRemote(ops, row, RemoteExpr(c, r, e.args[0])),
                      EvalRemote(ops, row, RemoteExpr(c, r, e.args[1]))];
    }
  }

  /** A shipped operator clause is judged alike on both sides, for every such server and every row, exactly
      when each of its constants is read faithfully: finite numbers, years 1 to 9999, no empty string, and zone offsets
      that are whole minutes outside the first hour west of UTC. */
  lemma MeaningKeptExactly(c: Catalog, r: Relation, e: Node)
    requires Printable(c, r, e) && LiveColumns(r, e) && e.OpExpr?
    ensures FaithfulConsts(e) <==> forall sem, ops, row :: SameVerdict(c, r, sem, ops, row, e)
  {
    if FaithfulConsts(e) {
      forall sem, ops, row ensures SameVerdict(c, r, sem, ops, row, e) {
        if SameOperations(c, r, sem, ops, FullTuple(r, row), e) {
          ClauseMeaning(c, r, sem, ops, row, e);
        }
      }
    } else {
      var t, d := FindEarliest(c, r, e);
      ConstPrintable(c, r, e, t, d);
      var mark := LocalConst(DetectorSemantics(Null), t, d);
      EarliestUnread(c, r, e, t, d, DetectorSemantics(Null));
      DetectedLocally(c, r, mark, FullTuple(r, NullRow(r)), e, t, d);
      UndetectedRemotely(c, r, mark, e);
      DetectorAgrees(c, r, mark, FullTuple(r, NullRow(r)), e);
      assert !SameVerdict(c, r, DetectorSemantics(mark), Detector(mark), NullRow(r), e);
    }
  }

  lemma EarliestUnread(c: Catalog, r: Relation, e: Node, t: Oid, d: Datum, sem: LocalSemantics)
    requires Printable(c, r, e) && Earliest(e, t, d)
    ensures Unread(e, LocalConst(sem, t, d))
  {
    hide DatumFits, RemoteConst, ReadConst, FaithfulConst, LocalConst, Printable, HasConst, YearOf;
    ConstPrintable(c, r, e, t, d);
    forall t', d' | HasConst(e, t', d') && PrintableConst(t', d')
      ensures ReadConst(RemoteConst(t', d')) != LocalConst(sem, t, d)
    {
      ReadFromEarlier(sem, t, d, t', d');
    }
  }

  // The assumption can be met

  /** `n` is an operation somewhere in the clauses, printed as `x`. */
  ghost predicate PrintedAs(c: Catalog, r: Relation, clauses: seq<Node>, n: Node, x: RExpr) {
    && n.OpExpr? && Printable(c, r, n) && RemoteExpr(c, r, n) == x
    && exists i :: 0 <= i < |clauses| && n in Subnodes(clauses[i])
  }

  /** The text tells apart whatever differs locally. */
  ghost predicate Unambiguous(c: Catalog, r: Relation, clauses: seq<Node>) {
    forall m, n, x :: PrintedAs(c, r, clauses, m, x) && PrintedAs(c, r, clauses, n, x) ==> Head(m) == Head(n)
  }

  ghost function Chosen(c: Catalog, r: Relation, clauses: seq<Node>, x: RExpr): (n: Node)
    requires exists n :: PrintedAs(c, r, clauses, n, x)
    ensures PrintedAs(c, r, clauses, n, x)
  {
    var n :| PrintedAs(c, r, clauses, n, x); n
  }

  /** A server that does as the executor does. */
  ghost function Imitator(c: Catalog, r: Relation, sem: LocalSemantics, clauses: seq<Node>): RemoteOperators {
    (x: RExpr, vals: seq<Value>) =>
      if exists n :: PrintedAs(c, r, clauses, n, x)
      then sem.apply(Head(Chosen(c, r, clauses, x)), vals)
      else Null
  }

  /** Whatever the executor's operators mean, overloads of one name included, there is a server that agrees with it on
      every row, unless two different operations of the clauses are printed alike. */
  lemma AgreementPossible(c: Catalog, r: Relation, sem: LocalSemantics, clauses: seq<Node>, rows: seq<RemoteRow>)
    requires Unambiguous(c, r, clauses)
    ensures ServerAgrees(c, r, sem, Imitator(c, r, sem, clauses), rows, clauses)
  {
    hide Unambiguous, Imitator, SameOperations, Printable, FullTuple;
    forall i | 0 <= i < |rows|
      ensures AgreesOn(c, r, sem, Imitator(c, r, sem, clauses), rows[i], clauses)
    {
      forall k | 0 <= k < |clauses| && Printable(c, r, clauses[k])
        ensures SameOperations(c, r, sem, Imitator(c, r, sem, clauses), FullTuple(r, rows[i]), clauses[k])
      {
        ImitatorAgrees(c, r, sem, clauses, FullTuple(r, rows[i]), k, clauses[k]);
      }
    }
  }

  lemma {:induction false} ImitatorAgrees(c: Catalog, r: Relation, sem: LocalSemantics, clauses: seq<Node>,
                                          t: LocalTuple, k: nat, e: Node)
    requires k < |clauses| && e in Subnodes(clauses[k]) && Printable(c, r, e) && Unambiguous(c, r, clauses)
    ensures SameOperations(c, r, sem, Imitator(c, r, sem, clauses), t, e)
    decreases e
  {
    hide Unambiguous, Imitator, Subnodes, Operands;
    if e.OpExpr? {
      assert Children(e) == e.args;
      forall i | 0 <= i < |e.args|
        ensures SameOperations(c, r, sem, Imitator(c, r, sem, clauses), t, e.args[i])
      {
        SubnodesBelow(clauses[k], e, i);
        ImitatorAgrees(c, r, sem, clauses, t, k, e.args[i]);
      }
      assert PrintedAs(c, r, clauses, e, RemoteExpr(c, r, e));
      Imitates(c, r, sem, clauses, e, Operands(sem, r, t, e));
    }
  }

  lemma Imitates(c: Catalog, r: Relation, sem: LocalSemantics, clauses: seq<Node>, e: Node, vals: seq<Value>)
    requires Printable(c, r, e) && PrintedAs(c, r, clauses, e, RemoteExpr(c, r, e)) && Unambiguous(c, r, clauses)
    ensures Imitator(c, r, sem, clauses)(RemoteExpr(c, r, e), vals) == sem.apply(Head(e), vals)
  {
    hide PrintedAs, RemoteExpr;
    var x := RemoteExpr(c, r, e);
    assert exists n :: PrintedAs(c, r, clauses, n, x);
    assert PrintedAs(c, r, clauses, Chosen(c, r, clauses, x), x);
    assert Head(Chosen(c, r, clauses, x)) == Head(e);
    assert Imitator(c, r, sem, clauses)(x, vals) == sem.apply(Head(Chosen(c, r, clauses, x)), vals);
  }

  lemma {:induction false} SubnodesBelow(top: Node, e: Node, i: nat)
    requires e in Subnodes(top) && i < |Children(e)|
    ensures Children(e)[i] in Subnodes(top)
    decreases top
  {
    if e == top {
      assert Children(e)[i] in Subnodes(Children(e)[i]);
    } else {
      var j :| 0 <= j < |Children(top)| && e in Subnodes(Children(top)[j]);
      SubnodesBelow(Children(top)[j], e, i);
    }
  }
}
