/** The text each part of the remote statement is meant to have, or the error that stops it. */
module RemoteText {
  import opened Prelude
  import opened PgNodes
  import opened SqlText
  import opened TimeText

  datatype DeparseError =
    | UnsupportedNode
    | AssertionFailed
    | UnknownOperator
    | UnknownType
    | UnknownAttribute
    | InfiniteTime
    | UnclosedParenthesis

  datatype ConstKind = NumericKind | DateKind | TimestampKind | TimestampTzKind | StringKind | GenericKind

  /** How the deparser writes a constant of the type with this identifier. */
  function KindOf(consttype: Oid): ConstKind {
    if consttype in {21, 23, 20, 26, 700, 701, 1700} then NumericKind  // int2 int4 int8 oid float4 float8 numeric
    else if consttype == 1082 then DateKind
    else if consttype == 1114 then TimestampKind
    else if consttype == 1184 then TimestampTzKind
    else if consttype in {2950, 25, 18, 1042, 1043, 19} then StringKind  // uuid text char bpchar varchar name
    else GenericKind
  }

  predicate NumericOutput(text: string) {
    FiniteNumeral(text) || text == "NaN" || text == "Infinity" || text == "-Infinity"
  }

  predicate RealDay(month: nat, day: nat) {
    1 <= month <= 12 && 1 <= day <= 31
  }

  predicate RealStamp(t: Stamp) {
    RealDay(t.month, t.day) && t.hour < 24 && t.minute < 60 && t.second < 60 && t.micros < 1000000
  }

  /** The datum is one a value of the type can have. */
  predicate DatumFits(consttype: Oid, d: Datum) {
    if consttype in {21, 23, 20, 26, 700, 701, 1700} then d.Output? && NumericOutput(d.text)
    else if consttype == 1082 then (d.Day? && RealDay(d.month, d.day)) || d.Infinite?
    else if consttype == 1114 then (d.Moment? && RealStamp(d.stamp)) || d.Infinite?
    else if consttype == 1184 then (d.MomentTz? && RealStamp(d.stamp)) || d.Infinite?
    else d.Output?
  }

  /** Every constant in the tree holds a datum of its type. */
  predicate WellTyped(e: Node)
    decreases e
  {
    (e.Const? && !e.constisnull ==> DatumFits(e.consttype, e.constvalue)) &&
    forall i :: 0 <= i < |Children(e)| ==> WellTyped(Children(e)[i])
  }

  // Identifiers

  predicate IsSafeChar(c: char) { IsLower(c) || IsDigit(c) || c == '_' }

  /** Needs no quotes: lower-case, not a reserved word. */
  predicate SafeIdentifier(c: Catalog, name: string) {
    && name != "" && !IsDigit(name[0]) && AllChars(IsSafeChar, name)
    && name !in c.keywords && !c.quoteAllIdentifiers
  }

  function QuoteIdentifier(c: Catalog, name: string): string {
    if SafeIdentifier(c, name) then name else "\"" + Doubled('"', name) + "\""
  }

  function RemoteName(a: Attribute): string {
    if a.columnName.Some? then a.columnName.value else a.name
  }

  function ColumnText(c: Catalog, r: Relation, att: int): Result<string, DeparseError> {
    if att == SELF_ITEM_POINTER_ATTNO then Ok("ROWID")
    else if att <= 0 then Err(AssertionFailed)
    else if att > |r.attrs| then Err(UnknownAttribute)
    else Ok(QuoteIdentifier(c, RemoteName(r.attrs[att - 1])))
  }

  // Constants

  const DATE_FORMAT := "SYYYY-MM-DD"
  const TIMESTAMP_FORMAT := "SYYYY-MM-DD HH24:MI:SS.FF"
  const TIMESTAMP_TZ_FORMAT := "SYYYY-MM-DD HH24:MI:SS.FF TZH:TZM"

  function StringLiteral(s: string): string {
    if s == "" then "NULL" else "'" + Doubled('\'', s) + "'"
  }

  function TimeCall(fn: string, text: string, format: string): string {
    fn + ("(" + (("'" + text + "'") + (", " + (("'" + format + "'") + ")"))))
  }

  function DatumText(c: Catalog, consttype: Oid, d: Datum): Result<string, DeparseError>
    requires DatumFits(consttype, d)
  {
    if consttype !in c.types then Err(UnknownType)
    else if d.Infinite? then Err(InfiniteTime)
    else
      match KindOf(consttype)
      case NumericKind => Ok(d.text)
      case DateKind => Ok("(" + TimeCall("TO_DATE", DayText(d.year, d.month, d.day), DATE_FORMAT) + ")")
      case TimestampKind => Ok("(" + TimeCall("TO_TIMESTAMP", StampText(d.stamp), TIMESTAMP_FORMAT) + ")")
      case TimestampTzKind =>
        Ok(TimeCall("TO_TIMESTAMP_TZ", StampText(d.stamp) + OffsetText(d.tzoffset), TIMESTAMP_TZ_FORMAT))
      case _ => Ok(StringLiteral(d.text))
  }

  // Expressions

  function OperatorText(op: Oid, info: OpInfo): string {
    if op in {OID_NAME_LIKE_OP, OID_TEXT_LIKE_OP, OID_BPCHAR_LIKE_OP} then "LIKE" else info.name
  }

  predicate ArityOk(info: OpInfo, args: seq<Node>) {
    (info.kind == 'l' && |args| == 1) || (info.kind == 'b' && |args| == 2)
  }

  /** An operation in its own parentheses; `lhs` is empty for a prefix operator. */
  function Operation(lhs: string, op: string, rhs: string): string {
    "(" + (lhs + (op + (" " + rhs))) + ")"
  }

  function ExprText(c: Catalog, r: Relation, e: Node): Result<string, DeparseError>
    requires WellTyped(e)
    decreases e
  {
    match e
    case Absent => Ok("")
    case Var(no, att, level, _) => if no == r.relid && level == 0 then ColumnText(c, r, att) else Err(AssertionFailed)
    case Const(t, _, isnull, d) => if isnull then Ok("NULL") else DatumText(c, t, d)
    case OpExpr(op, _, _, args) =>
      if op !in c.operators then Err(UnknownOperator)
      else if !ArityOk(c.operators[op], args) then Err(AssertionFailed)
      else
        assert Children(e) == args;
        if |args| == 2 then
          var lhs :- ExprText(c, r, args[0]);
          if !c.operators[op].builtin then Err(AssertionFailed) else
          var rhs :- ExprText(c, r, args[1]);
          Ok(Operation(lhs + " ", OperatorText(op, c.operators[op]), rhs))
        else
          if !c.operators[op].builtin then Err(AssertionFailed) else
          var rhs :- ExprText(c, r, args[0]);
          Ok(Operation("", OperatorText(op, c.operators[op]), rhs))
    case List(_) => Err(UnsupportedNode)
    case Other(_, _, _) => Err(UnsupportedNode)
    case _ => Ok("")  // the deparse functions without a body
  }

  /** The clauses, each in parentheses, joined by AND. */
  function ConditionsText(c: Catalog, r: Relation, conds: seq<Node>): Result<string, DeparseError>
    requires forall i :: 0 <= i < |conds| ==> WellTyped(conds[i])
  {
    if conds == [] then Ok("")
    else
      var init :- ConditionsText(c, r, conds[..|conds| - 1]);
      var last :- ExprText(c, r, conds[|conds| - 1]);
      Ok(init + ((if |conds| == 1 then "" else " AND ") + ("(" + last + ")")))
  }

  // The statement

  /** Live attributes among the first `n` that the query uses, all of them if it uses the whole row. */
  function Fetched(r: Relation, used: set<int>, n: nat): (atts: seq<int>)
    requires n <= |r.attrs|
    ensures forall k :: 0 <= k < |atts| ==> 1 <= atts[k] <= n
  {
    if n == 0 then []
    else
      Fetched(r, used, n - 1) + if !r.attrs[n - 1].dropped && (0 in used || n in used) then [n] else []
  }

  function RetrievedAttrs(r: Relation, used: set<int>): seq<int> {
    Fetched(r, used, |r.attrs|) + if SELF_ITEM_POINTER_ATTNO in used then [SELF_ITEM_POINTER_ATTNO] else []
  }

  predicate Fetchable(r: Relation, att: int) {
    att == SELF_ITEM_POINTER_ATTNO || 1 <= att <= |r.attrs|
  }

  function ItemText(c: Catalog, r: Relation, att: int): string
    requires Fetchable(r, att)
  {
    if att == SELF_ITEM_POINTER_ATTNO then "ctid" else QuoteIdentifier(c, RemoteName(r.attrs[att - 1]))
  }

  function ItemsText(c: Catalog, r: Relation, atts: seq<int>): string
    requires forall k :: 0 <= k < |atts| ==> Fetchable(r, atts[k])
  {
    if atts == [] then ""
    else ItemsText(c, r, atts[..|atts| - 1]) +
         ((if |atts| == 1 then "" else ", ") + ItemText(c, r, atts[|atts| - 1]))
  }

  function TargetText(c: Catalog, r: Relation, used: set<int>): string {
    var atts := RetrievedAttrs(r, used);
    if atts == [] then "NULL" else ItemsText(c, r, atts)
  }

  function RemoteTable(r: Relation): string {
    if r.tableName.Some? then r.tableName.value else r.relName
  }

  function RelationText(c: Catalog, r: Relation, flashback: bool): string {
    (if r.ownerName.None? then QuoteIdentifier(c, RemoteTable(r))
     else QuoteIdentifier(c, r.ownerName.value) + ("." + QuoteIdentifier(c, RemoteTable(r)))) +
    (if flashback then " as of tsn ?" else "")
  }

  function SelectText(c: Catalog, r: Relation, used: set<int>, conds: seq<Node>, flashback: bool):
    Result<string, DeparseError>
    requires forall i :: 0 <= i < |conds| ==> WellTyped(conds[i])
  {
    var where :- ConditionsText(c, r, conds);
    Ok("SELECT " + (TargetText(c, r, used) + (" FROM " + (RelationText(c, r, flashback) +
       (if conds == [] then "" else " WHERE " + where)))))
  }
}
