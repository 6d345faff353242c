/** A foreign scan returns what filtering the full table by every clause would. */
module EndToEnd {
  import opened Prelude
  import opened PgNodes
  import opened Sequences
  import opened Shippability
  import opened RemoteText
  import opened SqlGrammar
  import opened RoundTrip
  import opened Evaluation
  import opened Pushdown
  import opened TupleLayout

  // The select list

  predicate Increasing(s: seq<int>) {
    forall i, j :: 0 <= i < j < |s| ==> s[i] < s[j]
  }

  predicate FetchesAt(r: Relation, used: set<int>, att: int)
    requires 1 <= att <= |r.attrs|
  {
    !r.attrs[att - 1].dropped && (0 in used || att in used)
  }

  /** The fetched attributes are exactly the live ones used, ... */
  lemma {:induction false} FetchedExactly(r: Relation, used: set<int>, n: nat, att: int)
    requires n <= |r.attrs|
    ensures att in Fetched(r, used, n) <==> 1 <= att <= n && FetchesAt(r, used, att)
  {
    if n > 0 {
      FetchedExactly(r, used, n - 1, att);
      var init := Fetched(r, used, n - 1);
      assert att in init + [n] <==> att in init || att == n;
      assert Fetched(r, used, n) == if FetchesAt(r, used, n) then init + [n] else init;
    }
  }

  /** ... in increasing order. */
  lemma {:induction false} FetchedIncreasing(r: Relation, used: set<int>, n: nat)
    requires n <= |r.attrs|
    ensures Increasing(Fetched(r, used, n)) && |Fetched(r, used, n)| <= n
  {
    if n > 0 {
      FetchedIncreasing(r, used, n - 1);
    }
  }

  /** Without ctid the list to fetch is exactly that. */
  lemma RetrievedExactly(r: Relation, used: set<int>)
    requires SELF_ITEM_POINTER_ATTNO !in used
    ensures var atts := RetrievedAttrs(r, used);
            && Increasing(atts) && |atts| <= |r.attrs|
            && (forall k :: 0 <= k < |atts| ==> 1 <= atts[k] <= |r.attrs|)
            && forall att :: att in atts <==> 1 <= att <= |r.attrs| && FetchesAt(r, used, att)
  {
    assert RetrievedAttrs(r, used) == Fetched(r, used, |r.attrs|);
    FetchedIncreasing(r, used, |r.attrs|);
    forall att ensures att in Fetched(r, used, |r.attrs|) <==> 1 <= att <= |r.attrs| && FetchesAt(r, used, att) {
      FetchedExactly(r, used, |r.attrs|, att);
    }
  }

  lemma CellOfIncreasing(atts: seq<int>, k: nat)
    requires Increasing(atts) && k < |atts|
    ensures CellOf(atts, atts[k]) == k
  {
    var k' := CellOf(atts, atts[k]);
    assert k' >= 0 && atts[k'] == atts[k];
  }

  /** Result column `k` is the one that feeds attribute `retrieved[k]`: the column that attribute's column_name option
      names, or else the one of its own name. The statement has as many items as the driver describes columns, and
      they fit an array of one column per attribute. */
  lemma ItemsLineUp(r: Relation, used: set<int>)
    requires SELF_ITEM_POINTER_ATTNO !in used
    ensures var atts := RetrievedAttrs(r, used);
            && |Items(r, used)| == (if |atts| == 0 then 1 else |atts|)
            && (|r.attrs| >= 1 ==> |Items(r, used)| <= |r.attrs|)
            && forall k :: 0 <= k < |atts| ==>
                 && CellOf(atts, atts[k]) == k
                 && match r.attrs[atts[k] - 1].columnName
                    case Some(n) => Items(r, used)[k] == Some(n)
                    case None => Items(r, used)[k] == Some(r.attrs[atts[k] - 1].name)
  {
    hide RetrievedAttrs, CellOf;
    RetrievedExactly(r, used);
    var atts := RetrievedAttrs(r, used);
    forall k | 0 <= k < |atts|
      ensures CellOf(atts, atts[k]) == k && Items(r, used)[k] == Some(RemoteName(r.attrs[atts[k] - 1]))
    {
      CellOfIncreasing(atts, k);
    }
  }

  // One row

  function Decode(r: Relation, used: set<int>, cells: seq<Value>): LocalTuple {
    LocalTuple(Spread(|r.attrs|, RetrievedAttrs(r, used), cells, Null), Null)
  }

  /** The decoded tuple shows every used attribute as the full row does; what was not fetched is null. */
  lemma DecodeAgrees(r: Relation, used: set<int>, row: RemoteRow, att: int)
    requires SELF_ITEM_POINTER_ATTNO !in used && RowFits(r, row) && att in used
    ensures AgreeOn(r, att, Decode(r, used, Project(row, Items(r, used))), FullTuple(r, row))
  {
    if att == 0 {
      var d, f := Decode(r, used, Project(row, Items(r, used))), FullTuple(r, row);
      forall i | 0 <= i < |r.attrs| && !r.attrs[i].dropped ensures d.attrs[i] == f.attrs[i] {
        AttributeAgrees(r, used, row, i + 1);
      }
      assert WholeRow(r, d) == WholeRow(r, f);
    } else if 0 < att <= |r.attrs| {
      AttributeAgrees(r, used, row, att);
    }
  }

  lemma AttributeAgrees(r: Relation, used: set<int>, row: RemoteRow, att: int)
    requires SELF_ITEM_POINTER_ATTNO !in used && RowFits(r, row)
    requires 0 < att <= |r.attrs| && (att in used || 0 in used)
    ensures Decode(r, used, Project(row, Items(r, used))).attrs[att - 1] == FullTuple(r, row).attrs[att - 1]
  {
    hide Items, RetrievedAttrs, CellOf;
    var k := CellOf(RetrievedAttrs(r, used), att);
    ItemsLineUp(r, used);
    RetrievedExactly(r, used);
    assert k >= 0 ==> RetrievedAttrs(r, used)[k] in RetrievedAttrs(r, used);
    if !r.attrs[att - 1].dropped {
      assert k >= 0 && Items(r, used)[k] == Some(RemoteName(r.attrs[att - 1]));
    }
  }

  /** The server keeps a row exactly when every shipped clause is true of it. */
  lemma {:induction false} WhereIsAll(c: Catalog, r: Relation, sem: LocalSemantics, ops: RemoteOperators,
                                      row: RemoteRow, conds: seq<Node>)
    requires forall i :: 0 <= i < |conds| ==> Printable(c, r, conds[i]) && Faithful(r, conds[i])
    requires AgreesOn(c, r, sem, ops, row, conds)
    ensures WhereValue(ops, row, RemoteExprs(c, r, conds)) == Bool(true) <==>
            Satisfies(sem, r, FullTuple(r, row), conds)
  {
    hide SameOperations, Printable, FaithfulConsts, RemoteExpr, EvalRemote, EvalLocal, FullTuple;
    if conds != [] {
      var init, last := conds[..|conds| - 1], conds[|conds| - 1];
      WhereIsAll(c, r, sem, ops, row, init);
      ShippedMeaning(c, r, sem, ops, row, last);
      var rs := RemoteExprs(c, r, conds);
      assert rs[..|rs| - 1] == RemoteExprs(c, r, init) && rs[|rs| - 1] == RemoteExpr(c, r, last);
      SatisfiesLast(sem, r, FullTuple(r, row), conds);
    }
  }

  lemma SatisfiesLast(sem: LocalSemantics, r: Relation, t: LocalTuple, clauses: seq<Node>)
    requires clauses != []
    ensures Satisfies(sem, r, t, clauses) <==>
            Satisfies(sem, r, t, clauses[..|clauses| - 1]) && EvalLocal(sem, r, t, clauses[|clauses| - 1]) == Bool(true)
  {
    hide EvalLocal;
  }

  /** The text of a clause that prints means what the clause does. */
  predicate Faithful(r: Relation, e: Node) {
    FaithfulConsts(e) && LiveColumns(r, e)
  }

  lemma ShippedMeaning(c: Catalog, r: Relation, sem: LocalSemantics, ops: RemoteOperators, row: RemoteRow, e: Node)
    requires Printable(c, r, e) && Faithful(r, e) && SameOperations(c, r, sem, ops, FullTuple(r, row), e)
    ensures EvalRemote(ops, row, RemoteExpr(c, r, e)) == EvalLocal(sem, r, FullTuple(r, row), e)
  {
    ClauseMeaning(c, r, sem, ops, row, e);
  }

  /** A clause kept local does not notice what was not fetched. */
  lemma LocalSatisfied(r: Relation, sem: LocalSemantics, used: set<int>, row: RemoteRow, exprs: seq<Node>)
    requires SELF_ITEM_POINTER_ATTNO !in used && RowFits(r, row)
    requires forall i :: 0 <= i < |exprs| ==> VarAttnos(r, exprs[i]) <= used
    ensures Satisfies(sem, r, Decode(r, used, Project(row, Items(r, used))), exprs) <==>
            Satisfies(sem, r, FullTuple(r, row), exprs)
  {
    hide EvalLocal, AgreeOn, VarAttnos;
    var d, f := Decode(r, used, Project(row, Items(r, used))), FullTuple(r, row);
    forall att | att in used ensures AgreeOn(r, att, d, f) {
      DecodeAgrees(r, used, row, att);
    }
    forall i | 0 <= i < |exprs| ensures EvalLocal(sem, r, d, exprs[i]) == EvalLocal(sem, r, f, exprs[i]) {
      EvalAgrees(sem, r, d, f, exprs[i]);
    }
  }

  lemma InterleavedSatisfied(sem: LocalSemantics, r: Relation, t: LocalTuple, clauses: seq<Node>,
                             remote: seq<Node>, local: seq<Node>)
    requires Interleaves(clauses, remote, local)
    ensures Satisfies(sem, r, t, clauses) <==> Satisfies(sem, r, t, remote) && Satisfies(sem, r, t, local)
  {
    hide EvalLocal;
    InterleavedMembers(clauses, remote, local);
    forall x ensures x in clauses <==> x in remote || x in local {
      assert x in multiset(clauses) <==> x in multiset(remote) || x in multiset(local);
    }
    SatisfiesMembers(sem, r, t, clauses);
    SatisfiesMembers(sem, r, t, remote);
    SatisfiesMembers(sem, r, t, local);
  }

  lemma SatisfiesMembers(sem: LocalSemantics, r: Relation, t: LocalTuple, clauses: seq<Node>)
    ensures Satisfies(sem, r, t, clauses) <==> forall x :: x in clauses ==> EvalLocal(sem, r, t, x) == Bool(true)
  {
    hide EvalLocal;
    if forall x :: x in clauses ==> EvalLocal(sem, r, t, x) == Bool(true) {
      forall i | 0 <= i < |clauses| ensures EvalLocal(sem, r, t, clauses[i]) == Bool(true) {
        assert clauses[i] in clauses;
      }
    }
  }

  // The scan

  /** The executor's part: decode each fetched row and keep it if the local clauses hold. */
  function ScanRows(sem: LocalSemantics, r: Relation, used: set<int>, localExprs: seq<Node>, answer: seq<seq<Value>>):
    seq<LocalTuple>
  {
    if answer == [] then []
    else
      var tuple := Decode(r, used, answer[|answer| - 1]);
      ScanRows(sem, r, used, localExprs, answer[..|answer| - 1]) +
      if Satisfies(sem, r, tuple, localExprs) then [tuple] else []
  }

  /** The reference: the whole table, filtered by every clause. */
  function WantedRows(sem: LocalSemantics, r: Relation, clauses: seq<Node>, rows: seq<RemoteRow>): seq<LocalTuple> {
    if rows == [] then []
    else
      var tuple := FullTuple(r, rows[|rows| - 1]);
      WantedRows(sem, r, clauses, rows[..|rows| - 1]) + if Satisfies(sem, r, tuple, clauses) then [tuple] else []
  }

  /** The same rows in the same order, on every used attribute. */
  ghost predicate SameRows(r: Relation, used: set<int>, a: seq<LocalTuple>, b: seq<LocalTuple>) {
    && |a| == |b| && (forall i :: 0 <= i < |a| ==> |a[i].attrs| == |b[i].attrs| == |r.attrs|)
    && forall i, att :: 0 <= i < |a| && att in used ==> AgreeOn(r, att, a[i], b[i])
  }

  /** Each of the expressions has on each row the value it has on the corresponding one. */
  ghost predicate SameValues(sem: LocalSemantics, r: Relation, es: seq<Node>, a: seq<LocalTuple>, b: seq<LocalTuple>) {
    |a| == |b| &&
    forall i, j :: 0 <= i < |a| && 0 <= j < |es| ==> EvalLocal(sem, r, a[i], es[j]) == EvalLocal(sem, r, b[i], es[j])
  }

  /** What is computed from used attributes only is the same on both sides. */
  lemma SameRowsSameValues(sem: LocalSemantics, r: Relation, used: set<int>, es: seq<Node>,
                           a: seq<LocalTuple>, b: seq<LocalTuple>)
    requires SameRows(r, used, a, b) && forall j :: 0 <= j < |es| ==> VarAttnos(r, es[j]) <= used
    ensures SameValues(sem, r, es, a, b)
  {
    hide EvalLocal, VarAttnos, AgreeOn;
    forall i, j | 0 <= i < |a| && 0 <= j < |es|
      ensures EvalLocal(sem, r, a[i], es[j]) == EvalLocal(sem, r, b[i], es[j])
    {
      EvalAgrees(sem, r, a[i], b[i], es[j]);
    }
  }

  lemma SameWidth(r: Relation, used: set<int>, row: RemoteRow, cells: seq<Value>)
    ensures |Decode(r, used, cells).attrs| == |FullTuple(r, row).attrs| == |r.attrs|
  {
  }

  lemma SameRowsAppend(r: Relation, used: set<int>, a: seq<LocalTuple>, b: seq<LocalTuple>,
                       s: LocalTuple, t: LocalTuple)
    requires SameRows(r, used, a, b) && |s.attrs| == |t.attrs| == |r.attrs|
    requires forall att :: att in used ==> AgreeOn(r, att, s, t)
    ensures SameRows(r, used, a + [s], b + [t])
  {
    hide AgreeOn;
  }

  lemma {:induction false} ScanIsFilter(c: Catalog, r: Relation, sem: LocalSemantics, ops: RemoteOperators,
                                        rows: seq<RemoteRow>, used: set<int>, q: Query, clauses: seq<Node>,
                                        remote: seq<Node>, local: seq<Node>)
    requires Interleaves(clauses, remote, local) && ServerAgrees(c, r, sem, ops, rows, remote)
    requires forall i :: 0 <= i < |remote| ==> Printable(c, r, remote[i]) && Faithful(r, remote[i])
    requires q.items == Items(r, used) && q.where == RemoteExprs(c, r, remote)
    requires SELF_ITEM_POINTER_ATTNO !in used && forall i :: 0 <= i < |local| ==> VarAttnos(r, local[i]) <= used
    requires forall i :: 0 <= i < |rows| ==> RowFits(r, rows[i])
    ensures SameRows(r, used, ScanRows(sem, r, used, local, RunQuery(ops, q, rows)), WantedRows(sem, r, clauses, rows))
  {
    hide AgreesOn, Printable, FaithfulConsts, Interleaves, RemoteExprs, Items, Decode,
         FullTuple, VarAttnos, RowFits, Satisfies, WhereValue, AgreeOn, Project;
    if rows != [] {
      var init, row := rows[..|rows| - 1], rows[|rows| - 1];
      ScanIsFilter(c, r, sem, ops, init, used, q, clauses, remote, local);
      WhereIsAll(c, r, sem, ops, row, remote);
      LocalSatisfied(r, sem, used, row, local);
      InterleavedSatisfied(sem, r, FullTuple(r, row), clauses, remote, local);
      var cells, answer := Project(row, q.items), RunQuery(ops, q, init);
      var d, f := Decode(r, used, cells), FullTuple(r, row);
      forall att | att in used ensures AgreeOn(r, att, d, f) {
        DecodeAgrees(r, used, row, att);
      }
      assert (answer + [cells])[..|answer|] == answer;
      if WhereValue(ops, row, q.where) == Bool(true) {
        assert RunQuery(ops, q, rows) == answer + [cells];
        if Satisfies(sem, r, d, local) {
          SameWidth(r, used, row, cells);
          SameRowsAppend(r, used, ScanRows(sem, r, used, local, answer), WantedRows(sem, r, clauses, init), d, f);
        }
      } else {
        assert RunQuery(ops, q, rows) == answer;
      }
    }
  }
}
