/** A planned scan carried out: the statement's text, the driver's blocks, the buffers, the tuples and the local
    clauses in one theorem (tibero_fdw.c). */
module ForeignScan {
  import opened Prelude
  import opened PgNodes
  import opened RemoteText
  import opened Evaluation
  import opened RoundTrip
  import opened EndToEnd
  import opened Planner
  import opened Classification
  import opened Sequences
  import opened ColumnBuffers
  import TupleBuilder
  import opened ScanCursor

  type Meta = TupleBuilder.AttInMetadata<Value>

  function Shown(v: Option<Value>): Value {
    match v case None => Null case Some(x) => x
  }

  /** A heap tuple as the executor's clauses see it. */
  function AsTuple(t: seq<Option<Value>>): LocalTuple {
    LocalTuple(seq(|t|, j requires 0 <= j < |t| => Shown(t[j])), Null)
  }

  /** The texts of a row stand for the values the server answered with: a null has none, and any other is what the input
      function of its attribute makes of its text. */
  predicate Carried(meta: Meta, retrieved: seq<int>, cells: seq<Value>, texts: seq<Option<string>>) {
    && |retrieved| <= |cells| && |retrieved| <= |texts|
    && forall k :: 0 <= k < |retrieved| ==>
         match texts[k]
         case None => cells[k] == Null
         case Some(text) => cells[k] == meta.input(retrieved[k], text)
  }

  /** All rows of the replies, however they are cut. */
  function Texts(replies: seq<Reply>): seq<seq<Option<string>>> {
    if replies == [] || replies[0].Failure? then [] else replies[0].rows + Texts(replies[1..])
  }

  /** The replies are the server's answer, in order. */
  ghost predicate Delivers(meta: Meta, retrieved: seq<int>, answer: seq<seq<Value>>, replies: seq<Reply>) {
    && |Texts(replies)| == |answer|
    && forall i :: 0 <= i < |answer| ==> Carried(meta, retrieved, answer[i], Texts(replies)[i])
  }

  predicate DecodesTo(meta: Meta, retrieved: seq<int>, texts: seq<Option<string>>, t: seq<Option<Value>>) {
    |retrieved| <= |texts| && t == DecodeRow(meta, retrieved, texts)
  }

  /** Block boundaries leave no trace. */
  lemma {:induction false} RowsAreTexts(meta: Meta, retrieved: seq<int>, columns: seq<Column>, fetchSize: nat,
                                        replies: seq<Reply>)
    requires |retrieved| <= |columns| && RepliesFit(columns, fetchSize, replies)
    ensures |RowsOf(meta, retrieved, columns, fetchSize, replies)| == |Texts(replies)|
    ensures forall i :: 0 <= i < |Texts(replies)| ==>
              DecodesTo(meta, retrieved, Texts(replies)[i], RowsOf(meta, retrieved, columns, fetchSize, replies)[i])
  {
    hide DecodeRow, DecodeRows, RowsOf, RepliesFit, RowsFit, Fails;
    RowsAhead(meta, retrieved, columns, fetchSize, replies);
    if replies != [] && replies[0].Block? {
      RowsAreTexts(meta, retrieved, columns, fetchSize, replies[1..]);
      forall i | 0 <= i < |replies[0].rows|
        ensures DecodesTo(meta, retrieved, replies[0].rows[i], DecodeRows(meta, retrieved, replies[0].rows)[i])
      {
      }
    }
  }

  /** The tuple built from a row's texts is the row's decoded answer. */
  lemma CarriedDecodes(meta: Meta, r: Relation, used: set<int>, cells: seq<Value>, texts: seq<Option<string>>)
    requires |meta.byval| == |r.attrs| && Carried(meta, RetrievedAttrs(r, used), cells, texts)
    ensures AsTuple(DecodeRow(meta, RetrievedAttrs(r, used), texts)) == Decode(r, used, cells)
  {
    hide RetrievedAttrs;
    var t, d := DecodeRow(meta, RetrievedAttrs(r, used), texts), Decode(r, used, cells);
    forall j | 0 <= j < |r.attrs|
      ensures Shown(t[j]) == d.attrs[j]
    {
    }
  }

  /** The tuples on which the local clauses hold. */
  function Selected(sem: LocalSemantics, r: Relation, exprs: seq<Node>, rows: seq<seq<Option<Value>>>):
    seq<LocalTuple>
  {
    if rows == [] then []
    else
      var tuple := AsTuple(rows[|rows| - 1]);
      Selected(sem, r, exprs, rows[..|rows| - 1]) + if Satisfies(sem, r, tuple, exprs) then [tuple] else []
  }

  lemma {:induction false} SelectedIsScan(sem: LocalSemantics, r: Relation, used: set<int>, exprs: seq<Node>,
                                      answer: seq<seq<Value>>, rows: seq<seq<Option<Value>>>)
    requires |rows| == |answer| && forall i :: 0 <= i < |rows| ==> AsTuple(rows[i]) == Decode(r, used, answer[i])
    ensures Selected(sem, r, exprs, rows) == ScanRows(sem, r, used, exprs, answer)
  {
    hide Satisfies, Decode, AsTuple;
    if rows != [] {
      SelectedIsScan(sem, r, used, exprs, answer[..|answer| - 1], rows[..|rows| - 1]);
    }
  }

  /** The executor's loop over the wrapper's tuples, which applies the plan's local clauses. */
  method ExecuteScan(state: ScanState<Value>, sem: LocalSemantics, r: Relation, exprs: seq<Node>)
    returns (ok: bool, result: seq<LocalTuple>)
    requires state.Valid() && !state.queryExecuted
    modifies state, state.driver, state.memory, TupleBuilder.Buffers(state.columns)
    ensures ok <==> old(state.Current()).Replies? && !Fails(old(state.Current()).replies)
    ensures ok ==> result == Selected(sem, r, exprs, old(state.Ahead()))
  {
    hide ScanState.Valid, ScanState.Buffered, RowsOf, Fails, Satisfies, AsTuple, Selected;
    ghost var run := state.Current();
    ghost var rows := if run.Replies? then state.Ahead() else [];
    ghost var i := 0;
    result := [];
    NoneSelected(sem, r, exprs);
    var slot := state.Iterate();
    while slot.Tuple?
      invariant slot != Raised ==> run.Replies? && state.Valid() && state.queryExecuted
      invariant 0 <= i <= |rows| && result == Selected(sem, r, exprs, rows[..i])
      invariant slot.Tuple? ==>
                  && i < |rows| && slot.values == rows[i] && state.Ahead() == rows[i + 1..]
                  && Fails(state.driver.pending) == Fails(run.replies)
      invariant slot == Empty ==> i == |rows| && !Fails(run.replies)
      invariant slot == Raised ==> run.Refused? || Fails(run.replies)
      decreases |rows| - i
    {
      SelectedNext(sem, r, exprs, rows, i);
      var tuple := AsTuple(slot.values);
      if Satisfies(sem, r, tuple, exprs) {
        result := result + [tuple];
      }
      i := i + 1;
      slot := state.Iterate();
    }
    assert rows[..|rows|] == rows;
    ok := slot == Empty;
  }

  lemma NoneSelected(sem: LocalSemantics, r: Relation, exprs: seq<Node>)
    ensures Selected(sem, r, exprs, []) == []
  {
  }

  lemma SelectedNext(sem: LocalSemantics, r: Relation, exprs: seq<Node>, rows: seq<seq<Option<Value>>>, i: nat)
    requires i < |rows|
    ensures Selected(sem, r, exprs, rows[..i + 1]) ==
            Selected(sem, r, exprs, rows[..i]) +
            if Satisfies(sem, r, AsTuple(rows[i]), exprs) then [AsTuple(rows[i])] else []
  {
    hide Satisfies, AsTuple;
    assert rows[..i + 1][..i] == rows[..i];
  }

  lemma RetrievedPlaced(r: Relation, used: set<int>)
    requires SELF_ITEM_POINTER_ATTNO !in used
    ensures TupleBuilder.Placed(|r.attrs|, RetrievedAttrs(r, used))
    ensures |RetrievedAttrs(r, used)| <= |Items(r, used)|
  {
    hide RetrievedAttrs;
    RetrievedExactly(r, used);
  }

  /** What the driver is taken to do with a statement: refuse it, fail on the way, or return the server's answer
      to its text, row by row, in blocks of any size. */
  ghost predicate Answers(meta: Meta, retrieved: seq<int>, ops: RemoteOperators, db: Database, sql: string, run: Run) {
    run.Replies? && !Fails(run.replies) ==>
      var answer := RunStatement(ops, db, sql);
      answer.Some? && Delivers(meta, retrieved, answer.value, run.replies)
  }

  /** The whole scan. Unless the driver fails, executing a correct plan returns exactly the rows that the clauses
      select from the full table, in its order, on every attribute used, and the query computes from each what it would
      from the full row. */
  method ExecutePlan(c: Catalog, r: Relation, ghost used: set<int>, ghost targets: seq<Node>,
                     ghost scanClauses: seq<RestrictInfo>, plan: Plan, meta: Meta, columns: seq<Column>,
                     fetchSize: nat, driver: Driver, sem: LocalSemantics, ghost ops: RemoteOperators,
                     ghost db: Database)
    returns (ok: bool, result: seq<LocalTuple>)
    requires ScanCorrect(c, r, used, targets, scanClauses, plan, sem, ops, db)
    requires SELF_ITEM_POINTER_ATTNO !in used && plan.retrievedAttrs == RetrievedAttrs(r, used)
    requires ForeignTable(r) in db
    requires TableFits(c, r, sem, ops, db[ForeignTable(r)], Filter(Ships(c, {r.relid}), PlannedClauses(scanClauses)))
    requires |meta.byval| == |r.attrs| && |columns| == |Items(r, used)| && fetchSize >= 1
    requires TupleBuilder.Readable(columns, fetchSize) && Separate(columns)
    requires driver !in TupleBuilder.Buffers(columns)
    requires forall n :: driver.runs(n).Replies? ==> RepliesFit(columns, fetchSize, driver.runs(n).replies)
    requires Answers(meta, plan.retrievedAttrs, ops, db, plan.sql, driver.runs(driver.executes))
    modifies driver, TupleBuilder.Buffers(columns)
    ensures var run := driver.runs(old(driver.executes));
            ok <==> run.Replies? && !Fails(run.replies)
    ensures var wanted := TableRows(sem, r, scanClauses, db[ForeignTable(r)]);
            ok ==> SameRows(r, used, result, wanted) && SameValues(sem, r, targets, result, wanted)
  {
    hide ScanState.Valid, RowsOf, Fails, Selected, ScanRows, TableRows, SameRows, SameValues, Items, RetrievedAttrs,
         RunStatement, TableFits, Delivers, Satisfies;
    RetrievedPlaced(r, used);
    var state := new ScanState<Value>(meta, plan.retrievedAttrs, columns, fetchSize, driver);
    ghost var run := state.Current();
    ghost var rows := if run.Replies? then state.Ahead() else [];
    ok, result := ExecuteScan(state, sem, r, plan.localExprs);
    if ok {
      DeliveredRows(meta, r, used, columns, fetchSize, RunStatement(ops, db, plan.sql).value, run.replies, sem,
                    plan.localExprs, rows);
    }
  }

  lemma DeliveredRows(meta: Meta, r: Relation, used: set<int>, columns: seq<Column>, fetchSize: nat,
                      answer: seq<seq<Value>>, replies: seq<Reply>, sem: LocalSemantics, exprs: seq<Node>,
                      rows: seq<seq<Option<Value>>>)
    requires |meta.byval| == |r.attrs| && |RetrievedAttrs(r, used)| <= |columns|
    requires RepliesFit(columns, fetchSize, replies) && Delivers(meta, RetrievedAttrs(r, used), answer, replies)
    requires rows == RowsOf(meta, RetrievedAttrs(r, used), columns, fetchSize, replies)
    ensures Selected(sem, r, exprs, rows) == ScanRows(sem, r, used, exprs, answer)
  {
    hide RowsOf, RepliesFit, DecodeRow, Carried, AsTuple, Decode, RetrievedAttrs, Texts, Selected, ScanRows;
    var retrieved := RetrievedAttrs(r, used);
    RowsAreTexts(meta, retrieved, columns, fetchSize, replies);
    forall i | 0 <= i < |rows|
      ensures AsTuple(rows[i]) == Decode(r, used, answer[i])
    {
      assert DecodesTo(meta, retrieved, Texts(replies)[i], rows[i]);
      CarriedDecodes(meta, r, used, answer[i], Texts(replies)[i]);
    }
    SelectedIsScan(sem, r, used, exprs, answer, rows);
  }
}
