/** The batched scan (executor half of tibero_fdw.c) against a driver that returns its result in blocks. */
module ScanCursor {
  import opened Prelude
  import opened TupleLayout
  import opened ColumnBuffers
  import opened TupleBuilder

  type TextRow = seq<Option<string>>

  /** What one fetch call meets: a block of rows, or a failure. */
  datatype Reply = Block(rows: seq<TextRow>) | Failure

  /** What executing the statement leads to: a refusal, or the replies to the fetches before the end of data. */
  datatype Run = Refused | Replies(replies: seq<Reply>)

  datatype ReturnCode = Success | NoData | Error

  predicate FitsColumns(columns: seq<Column>, row: TextRow) {
    |row| == |columns| &&
    forall k :: 0 <= k < |row| && row[k].Some? ==> |row[k].value| < columns[k].size && NUL !in row[k].value
  }

  predicate RowsFit(columns: seq<Column>, rows: seq<TextRow>) {
    forall i :: 0 <= i < |rows| ==> |rows[i]| == |columns| && FitsColumns(columns, rows[i])
  }

  predicate ReplyFits(columns: seq<Column>, fetchSize: nat, reply: Reply) {
    reply.Block? ==> 1 <= |reply.rows| <= fetchSize && RowsFit(columns, reply.rows)
  }

  predicate RepliesFit(columns: seq<Column>, fetchSize: nat, replies: seq<Reply>) {
    forall i :: 0 <= i < |replies| ==> ReplyFits(columns, fetchSize, replies[i])
  }

  /** No two columns share a buffer. */
  ghost predicate Separate(columns: seq<Column>) {
    forall k, m :: 0 <= k < m < |columns| ==> columns[k].data != columns[m].data && columns[k].ind != columns[m].ind
  }

  ghost predicate Holds(columns: seq<Column>, fetchSize: nat, i: nat, k: nat, cell: Option<string>)
    requires Readable(columns, fetchSize) && i < fetchSize && k < |columns|
    reads Buffers(columns)
  {
    columns[k].Cell(i) == cell
  }

  /** The statement handle on the driver's side. */
  class Driver {
    const runs: nat -> Run
    var pending: seq<Reply>
    var executes: nat
    var fetches: nat

    constructor (runs: nat -> Run)
      ensures this.runs == runs && pending == [] && executes == 0 && fetches == 0
    {
      this.runs := runs;
      pending, executes, fetches := [], 0, 0;
    }

    method Execute() returns (rc: ReturnCode)
      modifies this
      ensures executes == old(executes) + 1 && fetches == old(fetches)
      ensures match runs(old(executes))
              case Refused => rc == Error
              case Replies(rs) => rc == Success && pending == rs
    {
      match runs(executes) {
        case Refused => rc := Error;
        case Replies(rs) => rc := Success; pending := rs;
      }
      executes := executes + 1;
    }

    /** Fills the bound buffers and sets the rows-fetched counter, which is 0 at the end of data (ODBC API
        Reference, SQLFetch Function, section "Rows Fetched Buffer"). */
    method Fetch(columns: seq<Column>, ghost fetchSize: nat) returns (rc: ReturnCode, rowsFetched: nat)
      requires Readable(columns, fetchSize) && Separate(columns) && RepliesFit(columns, fetchSize, pending)
      requires this !in Buffers(columns)
      modifies this, Buffers(columns)
      ensures executes == old(executes) && fetches == old(fetches) + 1 && Readable(columns, fetchSize)
      ensures if old(pending) == [] then rc == NoData && rowsFetched == 0 && pending == []
              else pending == old(pending)[1..] &&
                   match old(pending)[0]
                   case Failure => rc == Error
                   case Block(rows) =>
                     rc == Success && rowsFetched == |rows| <= fetchSize &&
                     forall i, k :: 0 <= i < |rows| && 0 <= k < |columns| ==>
                       Holds(columns, fetchSize, i, k, rows[i][k])
    {
      fetches := fetches + 1;
      rowsFetched := 0;
      if pending == [] {
        return NoData, 0;
      }
      var reply := pending[0];
      assert ReplyFits(columns, fetchSize, reply);
      pending := pending[1..];
      match reply {
        case Failure => rc := Error;
        case Block(rows) =>
          StoreBlock(columns, fetchSize, rows);
          rc, rowsFetched := Success, |rows|;
      }
    }
  }

  method StoreBlock(columns: seq<Column>, ghost fetchSize: nat, rows: seq<TextRow>)
    requires Readable(columns, fetchSize) && Separate(columns) && |rows| <= fetchSize && RowsFit(columns, rows)
    modifies Buffers(columns)
    ensures Readable(columns, fetchSize)
    ensures forall i, k :: 0 <= i < |rows| && 0 <= k < |columns| ==> Holds(columns, fetchSize, i, k, rows[i][k])
  {
    for i := 0 to |rows|
      invariant Readable(columns, fetchSize)
      invariant forall i', k :: 0 <= i' < i && 0 <= k < |columns| ==> Holds(columns, fetchSize, i', k, rows[i'][k])
    {
      StoreRow(columns, fetchSize, i, rows[i]);
    }
  }

  method StoreRow(columns: seq<Column>, ghost fetchSize: nat, i: nat, row: TextRow)
    requires Readable(columns, fetchSize) && Separate(columns) && i < fetchSize && FitsColumns(columns, row)
    modifies Buffers(columns)
    ensures Readable(columns, fetchSize)
    ensures forall k :: 0 <= k < |columns| ==> Holds(columns, fetchSize, i, k, row[k])
    ensures forall i': nat, k :: i' < fetchSize && i' != i && 0 <= k < |columns| ==>
              columns[k].Cell(i') == old(columns[k].Cell(i'))
  {
    hide Column.Cell, Column.Piece;
    for k := 0 to |columns|
      invariant Readable(columns, fetchSize)
      invariant forall m :: 0 <= m < k ==> Holds(columns, fetchSize, i, m, row[m])
      invariant forall i': nat, m :: i' < fetchSize && i' != i && 0 <= m < |columns| ==>
                  columns[m].Cell(i') == old(columns[m].Cell(i'))
    {
      columns[k].Store(i, row[k]);
    }
  }

  /** A remote row as a local tuple. */
  function DecodeRow<V>(meta: AttInMetadata<V>, retrieved: seq<int>, row: TextRow): seq<Option<V>>
    requires |retrieved| <= |row|
  {
    Spread(|meta.byval|, retrieved,
           seq(|retrieved|, k requires 0 <= k < |retrieved| => Convert(meta, retrieved[k], row[k])), None)
  }

  /** Attribute by attribute: what the attribute's input function makes of its cell's text, null for a null and for what
      was not retrieved. */
  lemma DecodedAttribute<V>(meta: AttInMetadata<V>, retrieved: seq<int>, row: TextRow, j: nat)
    requires Placed(|meta.byval|, retrieved) && |retrieved| <= |row| && j < |meta.byval|
    ensures j + 1 !in retrieved ==> DecodeRow(meta, retrieved, row)[j] == None
    ensures forall k :: 0 <= k < |retrieved| && retrieved[k] == j + 1 ==>
              DecodeRow(meta, retrieved, row)[j] == match row[k]
                                                    case None => None
                                                    case Some(text) => Some(meta.input(j + 1, text))
  {
    if k :| 0 <= k < |retrieved| && retrieved[k] == j + 1 {
      CellOfPlaced(|meta.byval|, retrieved, k);
    }
  }

  function DecodeRows<V>(meta: AttInMetadata<V>, retrieved: seq<int>, rows: seq<TextRow>): (ts: seq<seq<Option<V>>>)
    requires forall i :: 0 <= i < |rows| ==> |retrieved| <= |rows[i]|
    ensures |ts| == |rows| && forall i :: 0 <= i < |rows| ==> ts[i] == DecodeRow(meta, retrieved, rows[i])
  {
    seq(|rows|, i requires 0 <= i < |rows| => DecodeRow(meta, retrieved, rows[i]))
  }

  /** All rows of the replies, up to the first failure. */
  function RowsOf<V>(meta: AttInMetadata<V>, retrieved: seq<int>, columns: seq<Column>, fetchSize: nat,
                     replies: seq<Reply>):
    seq<seq<Option<V>>>
    requires |retrieved| <= |columns| && RepliesFit(columns, fetchSize, replies)
  {
    if replies == [] || replies[0].Failure? then []
    else
      assert ReplyFits(columns, fetchSize, replies[0]);
      DecodeRows(meta, retrieved, replies[0].rows) + RowsOf(meta, retrieved, columns, fetchSize, replies[1..])
  }

  predicate Fails(replies: seq<Reply>) {
    exists i :: 0 <= i < |replies| && replies[i].Failure?
  }

  datatype Slot<V> = Tuple(values: seq<Option<V>>) | Empty | Raised

  const INIT_TUPLE_CNT: int := -1

  class ScanState<V> {
    const meta: AttInMetadata<V>
    const retrieved: seq<int>
    const columns: seq<Column>
    const fetchSize: nat
    const memory: BatchMemory<V>
    const driver: Driver
    var tuples: seq<seq<Option<V>>>
    var tupleCnt: int
    var curTupleIdx: int
    var endOfFetch: bool
    var queryExecuted: bool

    constructor (meta: AttInMetadata<V>, retrieved: seq<int>, columns: seq<Column>, fetchSize: nat, driver: Driver)
      requires Placed(|meta.byval|, retrieved) && |retrieved| <= |columns| && fetchSize >= 1
      requires Readable(columns, fetchSize) && Separate(columns) && driver !in Buffers(columns)
      requires forall n :: driver.runs(n).Replies? ==> RepliesFit(columns, fetchSize, driver.runs(n).replies)
      ensures Valid() && this.driver == driver && this.meta == meta && this.retrieved == retrieved
      ensures this.columns == columns && this.fetchSize == fetchSize
      ensures tupleCnt == INIT_TUPLE_CNT && !queryExecuted && fresh(memory)
    {
      this.meta, this.retrieved, this.columns := meta, retrieved, columns;
      this.fetchSize, this.driver := fetchSize, driver;
      memory := new BatchMemory<V>();
      tuples := [];
      tupleCnt, curTupleIdx, endOfFetch, queryExecuted := INIT_TUPLE_CNT, 0, false, false;
    }

    /** Two facts carry the whole scan: the buffered batch is `tuples`, and a finished scan holds none. */
    ghost predicate Valid()
      reads this, driver, memory, Buffers(columns)
    {
      && Placed(|meta.byval|, retrieved) && |retrieved| <= |columns| && fetchSize >= 1
      && Readable(columns, fetchSize) && Separate(columns) && memory.Valid()
      && driver !in Buffers(columns) && memory !in Buffers(columns) && this !in Buffers(columns)
      && (forall n :: driver.runs(n).Replies? ==> RepliesFit(columns, fetchSize, driver.runs(n).replies))
      && INIT_TUPLE_CNT <= tupleCnt && 0 <= curTupleIdx
      && (tupleCnt <= 0 ==> curTupleIdx == 0)
      && (tupleCnt > 0 ==> curTupleIdx <= tupleCnt == |tuples|)
      && (endOfFetch ==> queryExecuted && tupleCnt == 0 && driver.pending == [])
      && (queryExecuted ==> RepliesFit(columns, fetchSize, driver.pending))
      && (!queryExecuted ==> curTupleIdx == 0)
    }

    /** The run in progress, or the one that the next call will start. */
    ghost function Current(): Run
      reads this, driver
    {
      if queryExecuted then Replies(driver.pending) else driver.runs(driver.executes)
    }

    ghost function Buffered(): seq<seq<Option<V>>>
      requires Valid()
      reads this, driver, memory, Buffers(columns)
    {
      if tupleCnt > 0 then tuples[curTupleIdx..] else []
    }

    /** The tuples still to be returned before the end or a failure. */
    ghost function Ahead(): seq<seq<Option<V>>>
      requires Valid() && Current().Replies?
      reads this, driver, memory, Buffers(columns)
    {
      Buffered() + RowsOf(meta, retrieved, columns, fetchSize, Current().replies)
    }

    /** Fetches made, and those that the run in progress still takes. */
    ghost function Budget(): int
      requires Current().Replies?
      reads this, driver
    {
      driver.fetches + |Current().replies| + if endOfFetch then 0 else 1
    }

    predicate NeedFetchTuples()
      reads this
    {
      !endOfFetch && (tupleCnt == INIT_TUPLE_CNT || curTupleIdx == tupleCnt)
    }

    /** Buffers that hold a block spread into its decoded rows. */
    lemma BlockDecoded(rows: seq<TextRow>)
      requires |retrieved| <= |columns| && Readable(columns, fetchSize) && |rows| <= fetchSize && RowsFit(columns, rows)
      requires forall i, k :: 0 <= i < |rows| && 0 <= k < |columns| ==> Holds(columns, fetchSize, i, k, rows[i][k])
      ensures forall i :: 0 <= i < |rows| ==>
                RowTuple(meta, retrieved, columns, fetchSize, i) == DecodeRow(meta, retrieved, rows[i])
    {
      forall i | 0 <= i < |rows|
        ensures RowTuple(meta, retrieved, columns, fetchSize, i) == DecodeRow(meta, retrieved, rows[i])
      {
        var cells := RowCells(meta, retrieved, columns, fetchSize, i, |retrieved|);
        var converted := seq(|retrieved|, k requires 0 <= k < |retrieved| => Convert(meta, retrieved[k], rows[i][k]));
        forall k | 0 <= k < |retrieved| ensures cells[k] == converted[k] {
          assert Holds(columns, fetchSize, i, k, rows[i][k]);
        }
        assert cells == converted;
      }
    }

    /** Tuples for the block that the buffers hold. */
    method MakeBatch(ghost rows: seq<TextRow>)
      requires Placed(|meta.byval|, retrieved) && |retrieved| <= |columns| && Readable(columns, fetchSize)
      requires memory.Valid() && memory !in Buffers(columns) && this !in Buffers(columns)
      requires 0 <= tupleCnt == |rows| <= fetchSize && RowsFit(columns, rows)
      requires forall i, k :: 0 <= i < |rows| && 0 <= k < |columns| ==> Holds(columns, fetchSize, i, k, rows[i][k])
      modifies this`tuples, memory
      ensures memory.Valid() && Readable(columns, fetchSize)
      ensures (forall i :: 0 <= i < |rows| ==> |retrieved| <= |rows[i]|) && tuples == DecodeRows(meta, retrieved, rows)
    {
      hide RowTuple, DecodeRow, RowCells, Holds;
      BlockDecoded(rows);
      tuples := MakeTuples(memory, meta, retrieved, columns, fetchSize, tupleCnt);
      assert tuples == DecodeRows(meta, retrieved, rows);
    }

    /** Replaces the spent batch by the next one, or notes the end of data. */
    method FetchTuples() returns (ok: bool)
      requires Valid() && queryExecuted && NeedFetchTuples()
      modifies this, driver, memory, Buffers(columns)
      ensures queryExecuted && driver.executes == old(driver.executes) && driver.fetches == old(driver.fetches) + 1
      ensures var replies := old(driver.pending);
              if replies == [] then ok && Valid() && endOfFetch && driver.pending == []
              else if replies[0].Failure? then !ok
              else ok && Valid() && !endOfFetch && driver.pending == replies[1..] &&
                   Buffered() == DecodeRows(meta, retrieved, replies[0].rows)
    {
      hide Placed, Holds, RowsFit, DecodeRows, Readable, Separate;
      ghost var replies := driver.pending;
      RestFit(columns, fetchSize, replies);
      assert {this, memory, driver} !! Buffers(columns);
      var rc, rowsFetched := driver.Fetch(columns, fetchSize);
      if rc == Error {
        return false;
      }
      tupleCnt := rowsFetched;
      if rc == NoData {
        endOfFetch := true;
      }
      curTupleIdx := 0;
      if !endOfFetch {
        MakeBatch(replies[0].rows);
      }
      ok := true;
    }

    /** The next buffered tuple, or the empty slot at the end. The assertion that the index is in the batch is
        the first line of the proof. */
    method GetNextTuple() returns (slot: Slot<V>)
      requires Valid() && queryExecuted && !NeedFetchTuples()
      modifies this`curTupleIdx
      ensures Valid()
      ensures if endOfFetch then slot == Empty && Buffered() == old(Buffered()) == []
              else old(Buffered()) != [] && slot == Tuple(old(Buffered())[0]) && Buffered() == old(Buffered())[1..]
    {
      if endOfFetch {
        slot := Empty;
      } else {
        assert 0 <= curTupleIdx < tupleCnt;
        slot := Tuple(tuples[curTupleIdx]);
        curTupleIdx := curTupleIdx + 1;
      }
    }

    /** One call of the executor. It returns the tuple that comes next in the remote result, whatever blocks the
        driver cuts the result into; the empty slot when there is none; and it raises exactly when the driver
        refuses the statement, or fails with no tuple before the failure left to return. */
    method Iterate() returns (slot: Slot<V>)
      requires Valid()
      modifies this, driver, memory, Buffers(columns)
      ensures driver.executes == old(driver.executes) + if old(queryExecuted) then 0 else 1
      ensures slot != Raised ==> Valid() && queryExecuted
      ensures match old(Current())
              case Refused => slot == Raised
              case Replies(rs) =>
                if old(Ahead()) != [] then
                  slot == Tuple(old(Ahead())[0]) && Ahead() == old(Ahead())[1..] &&
                  Fails(driver.pending) == Fails(rs) && Budget() == old(Budget())
                else if Fails(rs) then slot == Raised
                else slot == Empty && endOfFetch && Ahead() == [] && !Fails(driver.pending) && Budget() == old(Budget())
    {
      hide Valid, RowsOf, Fails, Buffered;
      if !queryExecuted {
        var ok := Execute();
        if !ok {
          return Raised;
        }
      }
      slot := NextTuple();
    }

    /** The executor's first half: start the statement. The buffered batch is untouched. */
    method Execute() returns (ok: bool)
      requires Valid() && !queryExecuted
      modifies this`queryExecuted, driver
      ensures driver.executes == old(driver.executes) + 1 && driver.fetches == old(driver.fetches)
      ensures ok == old(Current()).Replies? && endOfFetch == old(endOfFetch)
      ensures ok ==> Valid() && queryExecuted && Current() == old(Current()) && Buffered() == old(Buffered())
    {
      hide Placed, Readable, Separate, RepliesFit;
      assert this !in Buffers(columns) && driver !in Buffers(columns);
      var rc := driver.Execute();
      ok := rc == Success;
      if ok {
        queryExecuted := true;
      }
    }

    /** The second half, with the statement under way. */
    method NextTuple() returns (slot: Slot<V>)
      requires Valid() && queryExecuted
      modifies this, driver, memory, Buffers(columns)
      ensures driver.executes == old(driver.executes)
      ensures slot != Raised ==> Valid() && queryExecuted
      ensures if old(Ahead()) != [] then
                slot == Tuple(old(Ahead())[0]) && Ahead() == old(Ahead())[1..] &&
                Fails(driver.pending) == old(Fails(driver.pending)) && Budget() == old(Budget())
              else if old(Fails(driver.pending)) then slot == Raised
              else slot == Empty && endOfFetch && Ahead() == [] && !Fails(driver.pending) && Budget() == old(Budget())
    {
      hide Valid, DecodeRows, RepliesFit, RowsOf, Fails, Buffered, NeedFetchTuples;
      ghost var replies, buffered := driver.pending, Buffered();
      BufferFacts();
      RowsAhead(meta, retrieved, columns, fetchSize, replies);
      if NeedFetchTuples() {
        var ok := FetchTuples();
        if !ok {
          return Raised;
        }
        BufferFacts();
        RowsAhead(meta, retrieved, columns, fetchSize, driver.pending);
      }
      slot := GetNextTuple();
    }

    /** A fetch is due exactly when the buffered batch is spent, and the end leaves nothing behind. */
    lemma BufferFacts()
      requires Valid() && queryExecuted
      ensures |retrieved| <= |columns| && RepliesFit(columns, fetchSize, driver.pending)
      ensures NeedFetchTuples() <==> !endOfFetch && Buffered() == []
      ensures endOfFetch ==> Buffered() == [] && driver.pending == []
    {
    }

    /** Meant to restart the scan. The batch counter is kept, so a batch that is buffered is returned again before
        the new result: the restart is clean exactly if nothing was fetched yet or the end had been reached. */
    method ReScan()
      requires Valid()
      modifies this
      ensures Valid() && !queryExecuted && tuples == old(tuples)
      ensures driver.executes == old(driver.executes) && driver.fetches == old(driver.fetches)
      ensures Current() == driver.runs(driver.executes)
      ensures Current().Replies? ==>
                var anew := RowsOf(meta, retrieved, columns, fetchSize, Current().replies);
                && Ahead() == (if old(tupleCnt) > 0 then old(tuples) else []) + anew
                && (Ahead() == anew <==> old(tupleCnt) <= 0)
    {
      hide Placed, Readable, Separate, RepliesFit, RowsOf;
      assert this !in Buffers(columns);
      endOfFetch := false;
      curTupleIdx := 0;
      queryExecuted := false;
    }

    /** `n` calls of the executor, or fewer if one raises: the remote result one row at a time, then empty slots
        for ever, or the failure. The statement is executed once, and a scan driven past its end makes one fetch
        for each block and one to learn of the end. */
    method RunScan(n: nat) returns (slots: seq<Slot<V>>)
      requires Valid() && !queryExecuted && Current().Replies?
      modifies this, driver, memory, Buffers(columns)
      ensures var rows, fails := old(Ahead()), old(Fails(Current().replies));
              && |slots| == (if fails && n > |rows| then |rows| + 1 else n)
              && (forall i :: 0 <= i < |slots| ==>
                    slots[i] == if i < |rows| then Tuple(rows[i]) else if fails then Raised else Empty)
              && (n > 0 ==> driver.executes == old(driver.executes) + 1)
              && (n > |rows| && !fails ==> driver.fetches == old(driver.fetches) + |old(Current().replies)| + 1)
    {
      hide Valid, RowsOf, Fails, Buffered, Ahead;
      ghost var rows, fails, replies := Ahead(), Fails(Current().replies), Current().replies;
      ghost var budget := Budget();
      EndIsEmpty();
      slots := [];
      while |slots| < n
        invariant |slots| <= n && Valid() && queryExecuted == (|slots| > 0) && Current().Replies?
        invariant Fails(Current().replies) == fails && Budget() == budget
        invariant Ahead() == if |slots| <= |rows| then rows[|slots|..] else []
        invariant fails ==> |slots| <= |rows|
        invariant driver.executes == old(driver.executes) + if |slots| > 0 then 1 else 0
        invariant forall i :: 0 <= i < |slots| ==> slots[i] == if i < |rows| then Tuple(rows[i]) else Empty
        invariant |slots| > |rows| ==> endOfFetch && driver.pending == []
      {
        var slot := Iterate();
        slots := slots + [slot];
        if slot == Raised {
          return;
        }
        EndIsEmpty();
      }
    }

    lemma EndIsEmpty()
      requires Valid()
      ensures endOfFetch ==> queryExecuted && driver.pending == []
    {
    }
  }

  /** What the first reply contributes: nothing at the end, a non-empty block of tuples, or a failure. */
  lemma RowsAhead<V>(meta: AttInMetadata<V>, retrieved: seq<int>, columns: seq<Column>, fetchSize: nat,
                     replies: seq<Reply>)
    requires |retrieved| <= |columns| && RepliesFit(columns, fetchSize, replies)
    ensures replies == [] ==> !Fails(replies) && RowsOf(meta, retrieved, columns, fetchSize, replies) == []
    ensures replies != [] && replies[0].Failure? ==>
              Fails(replies) && RowsOf(meta, retrieved, columns, fetchSize, replies) == []
    ensures replies != [] && replies[0].Block? ==>
              && RowsFit(columns, replies[0].rows) && RepliesFit(columns, fetchSize, replies[1..])
              && (forall i :: 0 <= i < |replies[0].rows| ==> |retrieved| <= |replies[0].rows[i]|)
              && DecodeRows(meta, retrieved, replies[0].rows) != []
              && Fails(replies) == Fails(replies[1..])
              && RowsOf(meta, retrieved, columns, fetchSize, replies) ==
                 DecodeRows(meta, retrieved, replies[0].rows) +
                 RowsOf(meta, retrieved, columns, fetchSize, replies[1..])
  {
    if replies != [] && replies[0].Block? {
      assert ReplyFits(columns, fetchSize, replies[0]);
      RestFit(columns, fetchSize, replies);
      if Fails(replies) {
        var i :| 0 <= i < |replies| && replies[i].Failure?;
        assert replies[1..][i - 1].Failure?;
      }
    }
  }

  lemma RestFit(columns: seq<Column>, fetchSize: nat, replies: seq<Reply>)
    requires RepliesFit(columns, fetchSize, replies)
    ensures replies != [] ==> ReplyFits(columns, fetchSize, replies[0]) && RepliesFit(columns, fetchSize, replies[1..])
  {
  }
}
