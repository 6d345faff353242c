/** What clauses and statements mean: three-valued evaluation on either side of the connection. */
module Evaluation {
  import opened Prelude
  import opened PgNodes
  import opened TimeText
  import opened RemoteText
  import opened SqlGrammar

  datatype Value =
    | Null
    | Bool(b: bool)
    | Number(numeral: string)
    | Chars(s: string)
    | DayValue(year: int, month: nat, day: nat)
    | StampValue(stamp: Stamp)
    | InstantValue(stamp: Stamp, east: int)  // local fields and seconds east of UTC
    | Composite(fields: seq<Value>)

  // The remote side

  datatype RemoteRow = RemoteRow(rowid: Value, columns: map<string, Value>)

  /** What the server makes of an operation on its operands' values. Its name and its operands, as they are written,
      decide which of the operations of that name it is. */
  type RemoteOperators = (RExpr, seq<Value>) -> Value

  /** The server's reading of a literal; to it an empty string is a null. A date or time is what its template makes of
      its text; a text that its template does not match has no value, and neither has a name. */
  function ReadConst(e: RExpr): Value {
    match e
    case RNumber(n) => Number(n)
    case RText(s) => if s == "" then Null else Chars(s)
    case RTime(fn, text, template) =>
      (match ReadTemplate(template, text, NO_FIELDS)
       case None => Null
       case Some(f) =>
         var stamp := Stamp(f.year, f.month, f.day, f.hour, f.minute, f.second, f.micros);
         if fn == "TO_DATE" then DayValue(f.year, f.month, f.day)
         else if fn == "TO_TIMESTAMP" then StampValue(stamp)
         else if fn == "TO_TIMESTAMP_TZ" then InstantValue(stamp, EastOf(f))
         else Null)
    case _ => Null
  }

  function EvalRemote(ops: RemoteOperators, row: RemoteRow, e: RExpr): Value {
    match e
    case RRowid => row.rowid
    case RColumn(n) => if n in row.columns then row.columns[n] else Null
    case RUnary(_, arg) => ops(e, [EvalRemote(ops, row, arg)])
    case RBinary(_, lhs, rhs) => ops(e, [EvalRemote(ops, row, lhs), EvalRemote(ops, row, rhs)])
    case _ => ReadConst(e)
  }

  /** Kleene's conjunction. */
  function And3(a: Value, b: Value): Value {
    if a == Bool(false) || b == Bool(false) then Bool(false)
    else if a == Bool(true) && b == Bool(true) then Bool(true)
    else Null
  }

  function WhereValue(ops: RemoteOperators, row: RemoteRow, conds: seq<RExpr>): Value {
    if conds == [] then Bool(true)
    else And3(WhereValue(ops, row, conds[..|conds| - 1]), EvalRemote(ops, row, conds[|conds| - 1]))
  }

  function Project(row: RemoteRow, items: seq<Option<string>>): seq<Value> {
    seq(|items|, i requires 0 <= i < |items| =>
      if items[i].Some? && items[i].value in row.columns then row.columns[items[i].value] else Null)
  }

  function RunQuery(ops: RemoteOperators, q: Query, rows: seq<RemoteRow>): seq<seq<Value>> {
    if rows == [] then []
    else
      var last := rows[|rows| - 1];
      RunQuery(ops, q, rows[..|rows| - 1]) +
      if WhereValue(ops, last, q.where) == Bool(true) then [Project(last, q.items)] else []
  }

  type Database = map<(Option<string>, string), seq<RemoteRow>>

  /** The server's answer to a statement, from its text alone. */
  function RunStatement(ops: RemoteOperators, db: Database, sql: string): Option<seq<seq<Value>>> {
    var q :- ReadStatement(sql);
    if (q.owner, q.table) in db then Some(RunQuery(ops, q, db[(q.owner, q.table)])) else None
  }

  // The local side

  datatype LocalTuple = LocalTuple(attrs: seq<Value>, ctid: Value)

  /** The executor's meaning of a node over its arguments' values, of a constant whose type has no deparser
      of its own, of a system attribute and of another relation's variable. */
  datatype LocalSemantics = LocalSemantics(
    apply: (Node, seq<Value>) -> Value,
    constant: (Oid, Datum) -> Value,
    system: int -> Value,
    outer: (nat, int, nat) -> Value)

  /** The executor's value of a constant, by its type. */
  function LocalConst(sem: LocalSemantics, t: Oid, d: Datum): Value {
    match d
    case Output(text) =>
      if t in {21, 23, 20, 26, 700, 701, 1700} then Number(text)  // int2 int4 int8 oid float4 float8 numeric
      else if t in {2950, 25, 18, 1042, 1043, 19} then Chars(text)  // uuid text char bpchar varchar name
      else sem.constant(t, d)
    case Day(year, month, day) => if t == 1082 then DayValue(year, month, day) else sem.constant(t, d)
    case Moment(stamp) => if t == 1114 then StampValue(stamp) else sem.constant(t, d)
    case MomentTz(stamp, tzoffset) => if t == 1184 then InstantValue(stamp, -tzoffset) else sem.constant(t, d)
    case Infinite => sem.constant(t, d)
  }

  /** The tuple's live fields, with nulls for dropped columns. */
  function WholeRow(r: Relation, t: LocalTuple): seq<Value> {
    seq(|r.attrs|, i requires 0 <= i < |r.attrs| => if r.attrs[i].dropped || i >= |t.attrs| then Null else t.attrs[i])
  }

  function EvalLocal(sem: LocalSemantics, r: Relation, t: LocalTuple, e: Node): Value
    decreases e
  {
    if e.Var? then
      if e.varno != r.relid || e.varlevelsup != 0 then sem.outer(e.varno, e.varattno, e.varlevelsup)
      else if e.varattno == 0 then Composite(WholeRow(r, t))
      else if e.varattno == SELF_ITEM_POINTER_ATTNO then t.ctid
      else if e.varattno < 0 then sem.system(e.varattno)
      else if e.varattno <= |t.attrs| then t.attrs[e.varattno - 1]
      else Null
    else if e.Const? then
      if e.constisnull then Null else LocalConst(sem, e.consttype, e.constvalue)
    else
      var children := Children(e);
      sem.apply(Head(e), seq(|children|, i requires 0 <= i < |children| => EvalLocal(sem, r, t, children[i])))
  }

  predicate Satisfies(sem: LocalSemantics, r: Relation, t: LocalTuple, clauses: seq<Node>) {
    forall i :: 0 <= i < |clauses| ==> EvalLocal(sem, r, t, clauses[i]) == Bool(true)
  }

  /** The foreign column of an attribute: the one its column_name option names, or the one of its own name. */
  function ColumnValue(row: RemoteRow, a: Attribute): Value {
    match a.columnName
    case Some(n) => if n in row.columns then row.columns[n] else Null
    case None => if a.name in row.columns then row.columns[a.name] else Null
  }

  /** The foreign row as the local table would hold it. */
  function FullTuple(r: Relation, row: RemoteRow): LocalTuple {
    LocalTuple(
      seq(|r.attrs|, i requires 0 <= i < |r.attrs| =>
        if r.attrs[i].dropped then Null else ColumnValue(row, r.attrs[i])),
      row.rowid)
  }

  /** The foreign table: the one the table_name option names, or the one of the relation's own name. */
  function ForeignTable(r: Relation): (Option<string>, string) {
    match r.tableName
    case Some(n) => (r.ownerName, n)
    case None => (r.ownerName, r.relName)
  }

  /** pull_varattnos: the attributes of `r` that a tree mentions, 0 standing for the whole row. */
  function VarAttnos(r: Relation, e: Node): set<int>
    decreases e
  {
    (if e.Var? && e.varno == r.relid && e.varlevelsup == 0 then {e.varattno} else {}) +
    set i, a | 0 <= i < |Children(e)| && a in VarAttnos(r, Children(e)[i]) :: a
  }

  /** Two tuples show the same value of an attribute. */
  predicate AgreeOn(r: Relation, att: int, s: LocalTuple, t: LocalTuple) {
    if att == 0 then WholeRow(r, s) == WholeRow(r, t)
    else if att == SELF_ITEM_POINTER_ATTNO then s.ctid == t.ctid
    else if 0 < att <= |r.attrs| && att <= |s.attrs| && att <= |t.attrs| then s.attrs[att - 1] == t.attrs[att - 1]
    else true
  }

  /** A tree sees no more of a tuple than the attributes it mentions. */
  lemma {:induction false} EvalAgrees(sem: LocalSemantics, r: Relation, s: LocalTuple, t: LocalTuple, e: Node)
    requires |s.attrs| == |t.attrs| == |r.attrs|
    requires forall att :: att in VarAttnos(r, e) ==> AgreeOn(r, att, s, t)
    ensures EvalLocal(sem, r, s, e) == EvalLocal(sem, r, t, e)
    decreases e
  {
    var children := Children(e);
    forall i | 0 <= i < |children|
      ensures EvalLocal(sem, r, s, children[i]) == EvalLocal(sem, r, t, children[i])
    {
      assert VarAttnos(r, children[i]) <= VarAttnos(r, e);
      EvalAgrees(sem, r, s, t, children[i]);
    }
    if e.Var? && e.varno == r.relid && e.varlevelsup == 0 {
      assert e.varattno in VarAttnos(r, e);
    } else {
      assert seq(|children|, i requires 0 <= i < |children| => EvalLocal(sem, r, s, children[i])) ==
             seq(|children|, i requires 0 <= i < |children| => EvalLocal(sem, r, t, children[i]));
    }
  }
}
