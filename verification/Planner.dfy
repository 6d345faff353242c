/** Planning a foreign scan (tibero_fdw.c), up to the theorem that ties its plan to the table's contents. */
module Planner {
  import opened Prelude
  import opened PgNodes
  import opened Sequences
  import opened Shippability
  import opened Classification
  import opened RemoteText
  import opened SqlGrammar
  import opened Deparser
  import opened RoundTrip
  import opened Evaluation
  import opened Pushdown
  import opened StatementMeaning
  import opened EndToEnd

  function UsedBy(r: Relation, es: seq<Node>): set<int> {
    if es == [] then {} else UsedBy(r, es[..|es| - 1]) + VarAttnos(r, es[|es| - 1])
  }

  lemma {:induction false} UsedByMember(r: Relation, es: seq<Node>, e: Node)
    requires e in es
    ensures VarAttnos(r, e) <= UsedBy(r, es)
  {
    if e != es[|es| - 1] {
      assert es == es[..|es| - 1] + [es[|es| - 1]];
      UsedByMember(r, es[..|es| - 1], e);
    }
  }

  function Clauses(ris: seq<RestrictInfo>): (es: seq<Node>)
    ensures |es| == |ris| && forall i :: 0 <= i < |ris| ==> es[i] == ris[i].clause
  {
    seq(|ris|, i requires 0 <= i < |ris| => ris[i].clause)
  }

  /** The attributes to fetch: those the query asks for and those the local clauses read. */
  function AttrsUsed(c: Catalog, r: Relation, targets: seq<Node>, base: seq<RestrictInfo>): set<int> {
    UsedBy(r, targets) + UsedBy(r, Clauses(Filter(Not(ShipsClause(c, {r.relid})), base)))
  }

  lemma {:induction false} UsedByOnly(r: Relation, es: seq<Node>, a: int)
    ensures a in UsedBy(r, es) <==> exists i :: 0 <= i < |es| && a in VarAttnos(r, es[i])
  {
    if es != [] {
      var init := es[..|es| - 1];
      UsedByOnly(r, init, a);
      if a in UsedBy(r, init) {
        var i :| 0 <= i < |init| && a in VarAttnos(r, init[i]);
        assert es[i] == init[i];
      }
      if exists i :: 0 <= i < |es| && a in VarAttnos(r, es[i]) {
        var i :| 0 <= i < |es| && a in VarAttnos(r, es[i]);
        assert i < |init| ==> init[i] == es[i];
      }
    }
  }

  /** The attribute is mentioned by a target, or by a clause that is not shipped. */
  predicate Needed(c: Catalog, r: Relation, targets: seq<Node>, base: seq<RestrictInfo>, a: int) {
    || (exists i :: 0 <= i < |targets| && a in VarAttnos(r, targets[i]))
    || (exists i :: 0 <= i < |base| && !Accepts(c, {r.relid}, base[i].clause) && a in VarAttnos(r, base[i].clause))
  }

  lemma UsedIsNeeded(c: Catalog, r: Relation, targets: seq<Node>, base: seq<RestrictInfo>, a: int)
    ensures a in AttrsUsed(c, r, targets, base) <==> Needed(c, r, targets, base, a)
  {
    hide Accepts, VarAttnos, UsedBy;
    var kept := Filter(Not(ShipsClause(c, {r.relid})), base);
    UsedByOnly(r, targets, a);
    UsedByOnly(r, Clauses(kept), a);
    if i :| 0 <= i < |kept| && a in VarAttnos(r, Clauses(kept)[i]) {
      FilterMember(Not(ShipsClause(c, {r.relid})), base, kept[i]);
      var j :| 0 <= j < |base| && base[j] == kept[i];
      assert a in VarAttnos(r, base[j].clause);
    }
    if i :| 0 <= i < |base| && !Accepts(c, {r.relid}, base[i].clause) && a in VarAttnos(r, base[i].clause) {
      FilterMember(Not(ShipsClause(c, {r.relid})), base, base[i]);
      var j :| 0 <= j < |kept| && kept[j] == base[i];
      assert a in VarAttnos(r, Clauses(kept)[j]);
    }
  }

  lemma UsedAreNeeded(c: Catalog, r: Relation, targets: seq<Node>, base: seq<RestrictInfo>)
    ensures forall a :: a in AttrsUsed(c, r, targets, base) <==> Needed(c, r, targets, base, a)
    ensures forall i :: 0 <= i < |targets| ==> VarAttnos(r, targets[i]) <= AttrsUsed(c, r, targets, base)
  {
    hide VarAttnos, Accepts, UsedBy, Filter;
    forall i | 0 <= i < |targets| ensures VarAttnos(r, targets[i]) <= AttrsUsed(c, r, targets, base) {
      UsedByMember(r, targets, targets[i]);
    }
    forall a ensures a in AttrsUsed(c, r, targets, base) <==> Needed(c, r, targets, base, a) {
      UsedIsNeeded(c, r, targets, base, a);
    }
  }

  // What the scan is to return

  /** The tuple meets every clause of the scan, pseudoconstants aside. */
  predicate Meets(sem: LocalSemantics, r: Relation, t: LocalTuple, scanClauses: seq<RestrictInfo>) {
    forall i :: 0 <= i < |scanClauses| && !scanClauses[i].pseudoconstant ==>
      EvalLocal(sem, r, t, scanClauses[i].clause) == Bool(true)
  }

  /** The reference: the whole table, filtered by every such clause. */
  function TableRows(sem: LocalSemantics, r: Relation, scanClauses: seq<RestrictInfo>, rows: seq<RemoteRow>):
    seq<LocalTuple>
  {
    if rows == [] then []
    else
      var tuple := FullTuple(r, rows[|rows| - 1]);
      TableRows(sem, r, scanClauses, rows[..|rows| - 1]) + if Meets(sem, r, tuple, scanClauses) then [tuple] else []
  }

  lemma MeetsLast(sem: LocalSemantics, r: Relation, t: LocalTuple, ris: seq<RestrictInfo>)
    requires ris != []
    ensures Meets(sem, r, t, ris) <==>
            var last := ris[|ris| - 1];
            && Meets(sem, r, t, ris[..|ris| - 1])
            && (last.pseudoconstant || EvalLocal(sem, r, t, last.clause) == Bool(true))
  {
    hide EvalLocal;
  }

  lemma {:induction false} PlannedMeets(sem: LocalSemantics, r: Relation, t: LocalTuple, ris: seq<RestrictInfo>)
    ensures Satisfies(sem, r, t, PlannedClauses(ris)) <==> Meets(sem, r, t, ris)
  {
    if ris == [] {
    } else {
      hide EvalLocal, Meets, Satisfies;
      var init, last, clauses := ris[..|ris| - 1], ris[|ris| - 1], PlannedClauses(ris);
      PlannedMeets(sem, r, t, init);
      MeetsLast(sem, r, t, ris);
      if last.pseudoconstant {
        assert clauses == PlannedClauses(init);
      } else {
        assert clauses[..|clauses| - 1] == PlannedClauses(init) && clauses[|clauses| - 1] == last.clause;
        SatisfiesLast(sem, r, t, clauses);
      }
    }
  }

  lemma {:induction false} WantedIsTable(sem: LocalSemantics, r: Relation, ris: seq<RestrictInfo>,
                                         rows: seq<RemoteRow>)
    ensures WantedRows(sem, r, PlannedClauses(ris), rows) == TableRows(sem, r, ris, rows)
  {
    hide Satisfies, Meets, PlannedClauses, FullTuple;
    if rows != [] {
      WantedIsTable(sem, r, ris, rows[..|rows| - 1]);
      PlannedMeets(sem, r, FullTuple(r, rows[|rows| - 1]), ris);
    }
  }

  lemma {:induction false} PlannedMember(ris: seq<RestrictInfo>, e: Node)
    requires e in PlannedClauses(ris)
    ensures exists i :: 0 <= i < |ris| && ris[i].clause == e
  {
    var init, last := ris[..|ris| - 1], ris[|ris| - 1];
    if e in PlannedClauses(init) {
      PlannedMember(init, e);
      var i :| 0 <= i < |init| && init[i].clause == e;
      assert ris[i].clause == e;
    } else {
      assert last.clause == e;
    }
  }

  /** A base restriction mentions no dropped column; if it is shipped, it is one that prints and whose constants are
      read faithfully. Of a clause kept local nothing more is asked. */
  predicate GoodClause(c: Catalog, r: Relation, e: Node) {
    LiveColumns(r, e) && (Accepts(c, {r.relid}, e) ==> WellFormed(c, r, e) && FaithfulConsts(e))
  }

  predicate GoodClauses(c: Catalog, r: Relation, base: seq<RestrictInfo>, scanClauses: seq<RestrictInfo>) {
    (forall i :: 0 <= i < |base| ==> GoodClause(c, r, base[i].clause)) &&
    (forall i :: 0 <= i < |scanClauses| ==> scanClauses[i] in base)
  }

  lemma PlannedIsBase(c: Catalog, r: Relation, base: seq<RestrictInfo>, scanClauses: seq<RestrictInfo>, e: Node)
    returns (ri: RestrictInfo)
    requires GoodClauses(c, r, base, scanClauses) && e in PlannedClauses(scanClauses)
    ensures ri in base && ri.clause == e && GoodClause(c, r, e)
  {
    PlannedMember(scanClauses, e);
    var i :| 0 <= i < |scanClauses| && scanClauses[i].clause == e;
    ri := scanClauses[i];
    var j :| 0 <= j < |base| && base[j] == ri;
  }

  lemma ShippedPart(c: Catalog, r: Relation, base: seq<RestrictInfo>, scanClauses: seq<RestrictInfo>)
    requires GoodClauses(c, r, base, scanClauses)
    ensures var remote := Filter(Ships(c, {r.relid}), PlannedClauses(scanClauses));
            forall i :: 0 <= i < |remote| ==>
              Printable(c, r, remote[i]) && WellTyped(remote[i]) && Faithful(r, remote[i])
  {
    var remote := Filter(Ships(c, {r.relid}), PlannedClauses(scanClauses));
    forall i | 0 <= i < |remote|
      ensures Printable(c, r, remote[i]) && WellTyped(remote[i]) && Faithful(r, remote[i])
    {
      FilterMember(Ships(c, {r.relid}), PlannedClauses(scanClauses), remote[i]);
      var ri := PlannedIsBase(c, r, base, scanClauses, remote[i]);
      ShippableIsPrintable(c, r, remote[i]);
    }
  }

  lemma LocalPart(c: Catalog, r: Relation, targets: seq<Node>, base: seq<RestrictInfo>, scanClauses: seq<RestrictInfo>)
    requires GoodClauses(c, r, base, scanClauses)
    ensures var local := Filter(Not(Ships(c, {r.relid})), PlannedClauses(scanClauses));
            forall i :: 0 <= i < |local| ==> VarAttnos(r, local[i]) <= AttrsUsed(c, r, targets, base)
  {
    var local := Filter(Not(Ships(c, {r.relid})), PlannedClauses(scanClauses));
    var kept := Filter(Not(ShipsClause(c, {r.relid})), base);
    forall i | 0 <= i < |local|
      ensures VarAttnos(r, local[i]) <= AttrsUsed(c, r, targets, base)
    {
      FilterMember(Not(Ships(c, {r.relid})), PlannedClauses(scanClauses), local[i]);
      var ri := PlannedIsBase(c, r, base, scanClauses, local[i]);
      FilterMember(Not(ShipsClause(c, {r.relid})), base, ri);
      var j :| 0 <= j < |kept| && kept[j] == ri;
      assert Clauses(kept)[j] == local[i];
      UsedByMember(r, Clauses(kept), local[i]);
    }
  }

  datatype Plan = Plan(sql: string, retrievedAttrs: seq<int>, localExprs: seq<Node>)

  /** The table has the columns its clauses are about, and the server agrees with the executor on those it gets. */
  ghost predicate TableFits(c: Catalog, r: Relation, sem: LocalSemantics, ops: RemoteOperators, rows: seq<RemoteRow>,
                            shipped: seq<Node>) {
    (forall i :: 0 <= i < |rows| ==> RowFits(r, rows[i])) && ServerAgrees(c, r, sem, ops, rows, shipped)
  }

  /** Sending the plan's text to a server, decoding its answer and applying the plan's local clauses yields the rows
      that the clauses select from the full table, in its order, on the attributes used; and each target has on each
      of them the value it has on the full row. */
  ghost predicate ScanCorrect(c: Catalog, r: Relation, used: set<int>, targets: seq<Node>,
                              scanClauses: seq<RestrictInfo>, plan: Plan, sem: LocalSemantics, ops: RemoteOperators,
                              db: Database)
  {
    var key := ForeignTable(r);
    key in db && TableFits(c, r, sem, ops, db[key], Filter(Ships(c, {r.relid}), PlannedClauses(scanClauses))) ==>
      var answer, wanted := RunStatement(ops, db, plan.sql), TableRows(sem, r, scanClauses, db[key]);
      && answer.Some?
      && var rows := ScanRows(sem, r, used, plan.localExprs, answer.value);
         SameRows(r, used, rows, wanted) && SameValues(sem, r, targets, rows, wanted)
  }

  lemma PlanIsCorrect(c: Catalog, r: Relation, targets: seq<Node>, base: seq<RestrictInfo>,
                      scanClauses: seq<RestrictInfo>, flashback: bool, plan: Plan,
                      sem: LocalSemantics, ops: RemoteOperators, db: Database)
    requires ValidCatalog(c) && GoodClauses(c, r, base, scanClauses)
    requires SELF_ITEM_POINTER_ATTNO !in AttrsUsed(c, r, targets, base)
    requires plan.localExprs == Filter(Not(Ships(c, {r.relid})), PlannedClauses(scanClauses))
    requires var remote := Filter(Ships(c, {r.relid}), PlannedClauses(scanClauses));
             (forall i :: 0 <= i < |remote| ==> WellTyped(remote[i])) &&
             SelectText(c, r, AttrsUsed(c, r, targets, base), remote, flashback) == Ok(plan.sql)
    ensures ScanCorrect(c, r, AttrsUsed(c, r, targets, base), targets, scanClauses, plan, sem, ops, db)
  {
    hide SelectText, AttrsUsed, VarAttnos, ServerAgrees, Printable, FaithfulConsts, WellTyped, ScanRows, WantedRows,
         SameRows, RunQuery, RowFits, ReadStatement, Filter, PlannedClauses, GoodClauses, SameValues, TableRows, Needed;
    var key := ForeignTable(r);
    var used, clauses := AttrsUsed(c, r, targets, base), PlannedClauses(scanClauses);
    var remote := Filter(Ships(c, {r.relid}), clauses);
    if key in db && TableFits(c, r, sem, ops, db[key], remote) {
      ShippedPart(c, r, base, scanClauses);
      LocalPart(c, r, targets, base, scanClauses);
      FilterSplits(Ships(c, {r.relid}), clauses);
      StatementRoundTrip(c, r, used, remote, flashback);
      var q := QueryMeant(c, r, used, remote, flashback);
      ScanIsFilter(c, r, sem, ops, db[key], used, q, clauses, remote, plan.localExprs);
      WantedIsTable(sem, r, scanClauses, db[key]);
      UsedAreNeeded(c, r, targets, base);
      SameRowsSameValues(sem, r, used, targets, ScanRows(sem, r, used, plan.localExprs, RunQuery(ops, q, db[key])),
                         TableRows(sem, r, scanClauses, db[key]));
    }
  }

  /** Size estimation: classify the base restrictions and collect the attributes to fetch. */
  method GetForeignRelSize(c: Catalog, r: Relation, targets: seq<Node>, base: seq<RestrictInfo>)
    returns (remoteConds: seq<RestrictInfo>, localConds: seq<RestrictInfo>, attrsUsed: set<int>)
    ensures remoteConds == Filter(ShipsClause(c, {r.relid}), base)
    ensures localConds == Filter(Not(ShipsClause(c, {r.relid})), base)
    ensures attrsUsed == AttrsUsed(c, r, targets, base)
    ensures forall a :: a in attrsUsed <==> Needed(c, r, targets, base, a)
    ensures forall i :: 0 <= i < |targets| ==> VarAttnos(r, targets[i]) <= attrsUsed
  {
    hide Needed, VarAttnos, Accepts;
    UsedAreNeeded(c, r, targets, base);
    remoteConds, localConds := ClassifyConditions(c, {r.relid}, base);
    attrsUsed := {};
    for i := 0 to |targets|
      invariant attrsUsed == UsedBy(r, targets[..i])
    {
      assert targets[..i + 1][..i] == targets[..i];
      attrsUsed := attrsUsed + VarAttnos(r, targets[i]);
    }
    assert targets[..|targets|] == targets;
    ghost var clauses := Clauses(localConds);
    for i := 0 to |localConds|
      invariant attrsUsed == UsedBy(r, targets) + UsedBy(r, clauses[..i])
    {
      assert clauses[..i + 1][..i] == clauses[..i];
      attrsUsed := attrsUsed + VarAttnos(r, localConds[i].clause);
    }
    assert clauses[..|clauses|] == clauses;
  }

  /** The plan for a scan. For good clauses it always exists, and is correct against every server whose shipped
      operators mean what they mean locally, and every table. It asks for a snapshot if the server's options do and the
      isolation level leaves it to the statement. */
  method PlanForeignScan(c: Catalog, r: Relation, targets: seq<Node>, base: seq<RestrictInfo>,
                         scanClauses: seq<RestrictInfo>, useFbQuery: bool, xactSnapshot: bool)
    returns (outcome: Result<Plan, DeparseError>, ghost used: set<int>)
    requires ValidCatalog(c) && GoodClauses(c, r, base, scanClauses)
    ensures forall a :: a in used <==> Needed(c, r, targets, base, a)
    ensures outcome.Ok? && outcome.value.retrievedAttrs == RetrievedAttrs(r, used)
    ensures StatementSays(c, r, outcome.value.retrievedAttrs, Filter(Ships(c, {r.relid}), PlannedClauses(scanClauses)),
                          useFbQuery && !xactSnapshot, outcome.value.sql)
    ensures Interleaves(PlannedClauses(scanClauses), Filter(Ships(c, {r.relid}), PlannedClauses(scanClauses)),
                        outcome.value.localExprs)
    ensures SELF_ITEM_POINTER_ATTNO !in used ==>
            forall sem, ops, db :: ScanCorrect(c, r, used, targets, scanClauses, outcome.value, sem, ops, db)
  {
    hide SelectText, VarAttnos, Printable, WellTyped, AttrsUsed, ScanCorrect, GoodClauses, UsedBy, OpenAt, Filter,
         PlannedClauses, RetrievedAttrs, ReadStatement, QueryMeant, Faithful, ValidCatalog, Ships, ShipsClause,
         Interleaves, StatementSays, Needed;
    var remoteConds, localConds, attrsUsed := GetForeignRelSize(c, r, targets, base);
    used := attrsUsed;
    var remoteExprs, localExprs := SplitScanClauses(c, {r.relid}, base, remoteConds, localConds, scanClauses);
    ShippedPart(c, r, base, scanClauses);
    ghost var flashback := useFbQuery && !xactSnapshot;
    StatementRoundTrip(c, r, used, remoteExprs, flashback);
    var context := new DeparseContext(c, r);
    var deparsed := context.DeparseSelectStmtForRel(attrsUsed, remoteExprs, useFbQuery, xactSnapshot);
    ghost var text := SelectText(c, r, used, remoteExprs, flashback);
    assert text == Ok(context.buf) by { assert "" + text.value == text.value; }
    var plan := Plan(context.buf, deparsed.value, localExprs);
    PrintedSays(c, r, used, remoteExprs, flashback, plan.sql);
    outcome := Ok(plan);
    if SELF_ITEM_POINTER_ATTNO !in used {
      forall sem, ops, db
        ensures ScanCorrect(c, r, used, targets, scanClauses, plan, sem, ops, db)
      {
        PlanIsCorrect(c, r, targets, base, scanClauses, flashback, plan, sem, ops, db);
      }
    }
  }
}
