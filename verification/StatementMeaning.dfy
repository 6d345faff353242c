/** What the statement says once the server has read it, column by column and node by node, in the catalog's terms. */
module StatementMeaning {
  import opened Prelude
  import opened PgNodes
  import opened SqlText
  import opened RemoteText
  import opened SqlGrammar
  import opened Deparser
  import opened RoundTrip
  import opened Evaluation

  /** The foreign column of an attribute: the one its column_name option names, or the one of its own name. */
  predicate NamesColumn(a: Attribute, name: string) {
    match a.columnName
    case Some(n) => name == n
    case None => name == a.name
  }

  /** A number is itself if it is finite, a string is itself unless it is empty, the rest are dates and times. */
  predicate SaysConst(t: Oid, d: Datum, x: RExpr) {
    if t in {21, 23, 20, 26, 700, 701, 1700}  // int2 int4 int8 oid float4 float8 numeric
    then d.Output? && (FiniteNumeral(d.text) ==> x == RNumber(d.text))
    else if t in {2950, 25, 18, 1042, 1043, 19}  // uuid text char bpchar varchar name
    then d.Output? && (if d.text == "" then x == RNull else x == RText(d.text))
    else if t == 1082 then x.RTime? && x.fn == "TO_DATE"
    else if t == 1114 then x.RTime? && x.fn == "TO_TIMESTAMP"
    else t == 1184 && x.RTime? && x.fn == "TO_TIMESTAMP_TZ"
  }

  /** The expression applies, node for node, the operators of the tree to its columns and constants. The operators of
      names, texts and blank-padded strings that PostgreSQL spells `~~` are LIKE, all others go by their name. */
  predicate Says(c: Catalog, r: Relation, e: Node, x: RExpr)
    decreases e
  {
    match e
    case Var(no, att, level, _) =>
      && no == r.relid && level == 0
      && if att == -1 then x == RRowid else 1 <= att <= |r.attrs| && x.RColumn? && NamesColumn(r.attrs[att - 1], x.name)
    case Const(t, _, isnull, d) => if isnull then x == RNull else SaysConst(t, d, x)
    case OpExpr(op, _, _, args) =>
      && op in c.operators
      && var name := if op in {1207, 1209, 1211} then "LIKE" else c.operators[op].name;
         (match x
          case RUnary(symbol, arg) =>
            c.operators[op].kind == 'l' && |args| == 1 && symbol == name && Says(c, r, args[0], arg)
          case RBinary(symbol, lhs, rhs) =>
            && c.operators[op].kind == 'b' && |args| == 2 && symbol == name
            && Says(c, r, args[0], lhs) && Says(c, r, args[1], rhs)
          case _ => false)
    case _ => false
  }

  /** The statement fetches these attributes, in order, of the rows of the foreign table on which these clauses hold. */
  predicate StatementSays(c: Catalog, r: Relation, retrieved: seq<int>, shipped: seq<Node>, flashback: bool,
                          sql: string) {
    match ReadStatement(sql)
    case None => false
    case Some(q) =>
      && q.owner == r.ownerName && q.table == (match r.tableName case Some(n) => n case None => r.relName)
      && q.flashback == flashback
      && |q.items| == (if retrieved == [] then 1 else |retrieved|) && (retrieved == [] ==> q.items[0] == None)
      && (forall k :: 0 <= k < |retrieved| ==>
            && q.items[k].Some?
            && if retrieved[k] == -1 then q.items[k].value == "ctid"
               else 1 <= retrieved[k] <= |r.attrs| && NamesColumn(r.attrs[retrieved[k] - 1], q.items[k].value))
      && |q.where| == |shipped| && forall i :: 0 <= i < |shipped| ==> Says(c, r, shipped[i], q.where[i])
  }

  lemma {:induction false} ExprSays(c: Catalog, r: Relation, e: Node)
    requires Printable(c, r, e)
    ensures Says(c, r, e, RemoteExpr(c, r, e))
    decreases e
  {
    hide FiniteNumeral, RemoteConst, SaysConst;
    if e.OpExpr? {
      ExprSays(c, r, e.args[0]);
      if |e.args| == 2 {
        ExprSays(c, r, e.args[1]);
      }
    } else if e.Const? && !e.constisnull {
      ConstSays(e.consttype, e.constvalue);
    }
  }

  lemma ConstSays(t: Oid, d: Datum)
    requires PrintableConst(t, d)
    ensures SaysConst(t, d, RemoteConst(t, d))
  {
    hide FiniteNumeral;
    if KindOf(t) == NumericKind {
      NumericReadsExactly(d.text);
    }
  }

  /** Exactly the constants of these sixteen types are printed by a deparser of their own, unless infinite. */
  lemma HandledTypes(t: Oid, d: Datum)
    requires DatumFits(t, d)
    ensures PrintableConst(t, d) <==>
            && t in {21, 23, 20, 26, 700, 701, 1700, 2950, 25, 18, 1042, 1043, 19, 1082, 1114, 1184}
            && !d.Infinite?
  {
  }

  /** The printed statement says just that. */
  lemma PrintedSays(c: Catalog, r: Relation, used: set<int>, conds: seq<Node>, flashback: bool, sql: string)
    requires ValidCatalog(c)
    requires forall i :: 0 <= i < |conds| ==> Printable(c, r, conds[i]) && WellTyped(conds[i])
    requires SelectText(c, r, used, conds, flashback) == Ok(sql)
    ensures StatementSays(c, r, RetrievedAttrs(r, used), conds, flashback, sql)
  {
    hide Printable, WellTyped, SelectText, ReadStatement, ValidCatalog, Says, RetrievedAttrs;
    StatementRoundTrip(c, r, used, conds, flashback);
    RetrievedFetchable(r, used);
    forall i | 0 <= i < |conds|
      ensures Says(c, r, conds[i], RemoteExpr(c, r, conds[i]))
    {
      ExprSays(c, r, conds[i]);
    }
  }

  lemma RetrievedFetchable(r: Relation, used: set<int>)
    ensures forall k :: 0 <= k < |RetrievedAttrs(r, used)| ==> Fetchable(r, RetrievedAttrs(r, used)[k])
  {
  }
}
