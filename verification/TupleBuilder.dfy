/** Building the tuples of a fetched block in arrays that are reused from row to row (tibero_fdw.c). */
module TupleBuilder {
  import opened Prelude
  import opened TupleLayout
  import opened ColumnBuffers

  /** A value in a machine word, or the address of one in the batch's memory. */
  datatype DatumWord<V> = NoDatum | ByValue(v: V) | ByReference(addr: nat)

  /** The batch's memory, as far as by-reference values live in it. */
  class BatchMemory<V> {
    var live: map<nat, V>
    var next: nat

    constructor ()
      ensures Valid() && live == map[]
    {
      live, next := map[], 0;
    }

    ghost predicate Valid()
      reads this
    {
      forall p :: p in live ==> p < next
    }

    method Reset()
      modifies this
      ensures Valid() && live == map[]
    {
      live := map[];
    }

    method Alloc(v: V) returns (p: nat)
      requires Valid()
      modifies this
      ensures Valid() && p !in old(live) && live == old(live)[p := v]
    {
      p := next;
      live := live[p := v];
      next := next + 1;
    }

    /** Only what is allocated, and not freed since, may be freed. */
    method Free(p: nat)
      requires Valid() && p in live
      modifies this
      ensures Valid() && live == old(live) - {p}
    {
      live := live - {p};
    }
  }

  /** The input function and passing convention of each attribute's type. */
  datatype AttInMetadata<!V> = AttInMetadata(input: (int, string) -> V, byval: seq<bool>)

  function Convert<V>(meta: AttInMetadata<V>, att: int, cell: Option<string>): Option<V> {
    match cell case None => None case Some(text) => Some(meta.input(att, text))
  }

  function Buffers(columns: seq<Column>): set<object> {
    (set k | 0 <= k < |columns| :: columns[k].data as object) + set k | 0 <= k < |columns| :: columns[k].ind as object
  }

  ghost predicate Readable(columns: seq<Column>, rows: nat)
    reads Buffers(columns)
  {
    forall k :: 0 <= k < |columns| ==> columns[k].Valid() && columns[k].rows == rows
  }

  /** The first `n` cells of row `i` of the buffers, converted for the attributes they feed. */
  ghost function RowCells<V>(meta: AttInMetadata<V>, retrieved: seq<int>, columns: seq<Column>, rows: nat, i: nat,
                             n: nat): (cells: seq<Option<V>>)
    requires n <= |retrieved| <= |columns| && Readable(columns, rows) && i < rows
    reads Buffers(columns)
    ensures |cells| == n
    ensures forall k :: 0 <= k < n ==> cells[k] == Convert(meta, retrieved[k], columns[k].Cell(i))
  {
    if n == 0 then []
    else RowCells(meta, retrieved, columns, rows, i, n - 1) + [Convert(meta, retrieved[n - 1], columns[n - 1].Cell(i))]
  }

  /** Result columns feed distinct attributes of the tuple. */
  predicate Placed(natts: nat, retrieved: seq<int>) {
    (forall k :: 0 <= k < |retrieved| ==> 1 <= retrieved[k] <= natts) &&
    (forall k, m :: 0 <= k < m < |retrieved| ==> retrieved[k] != retrieved[m])
  }

  lemma CellOfPlaced(natts: nat, retrieved: seq<int>, k: nat)
    requires Placed(natts, retrieved) && k < |retrieved|
    ensures CellOf(retrieved, retrieved[k]) == k
  {
    var m := CellOf(retrieved, retrieved[k]);
    assert m != -1 && retrieved[m] == retrieved[k];
  }

  /** Attribute `j` of the arrays stands for `t`. */
  ghost predicate Stands<V>(live: map<nat, V>, byval: bool, d: DatumWord<V>, isnull: bool, t: Option<V>) {
    match t
    case None => isnull && d == NoDatum
    case Some(v) =>
      !isnull && if byval then d == ByValue(v) else d.ByReference? && d.addr in live && live[d.addr] == v
  }

  /** The attributes in `done` stand for their part of `t`, and the live values are exactly those they point
      at: `owner` tells which attribute holds an address. */
  ghost predicate RowDone<V>(live: map<nat, V>, owner: map<nat, int>, byval: seq<bool>, dvalues: seq<DatumWord<V>>,
                             nulls: seq<bool>, t: seq<Option<V>>, done: iset<int>)
    requires |byval| == |dvalues| == |nulls| == |t|
  {
    && (forall j :: 0 <= j < |t| && j in done ==>
          Stands(live, byval[j], dvalues[j], nulls[j], t[j]) && HeldBy(owner, dvalues[j], j))
    && (forall p :: p in live ==>
          p in owner && owner[p] in done && 0 <= owner[p] < |t| && dvalues[owner[p]] == ByReference(p))
  }

  ghost predicate HeldBy<V>(owner: map<nat, int>, d: DatumWord<V>, j: int) {
    d.ByReference? ==> d.addr in owner && owner[d.addr] == j
  }

  /** heap_form_tuple: copies what the arrays stand for, never through a dangling address. */
  method FormTuple<V>(memory: BatchMemory<V>, ghost byval: seq<bool>, dvalues: array<DatumWord<V>>, nulls: array<bool>,
                      ghost t: seq<Option<V>>, ghost owner: map<nat, int>) returns (tuple: seq<Option<V>>)
    requires |byval| == dvalues.Length == nulls.Length == |t|
    requires RowDone(memory.live, owner, byval, dvalues[..], nulls[..], t, From(0))
    ensures tuple == t
  {
    tuple := [];
    for j := 0 to dvalues.Length
      invariant tuple == t[..j]
    {
      assert j in From(0) && Stands(memory.live, byval[j], dvalues[..][j], nulls[..][j], t[j]);
      if nulls[j] {
        tuple := tuple + [None];
      } else {
        match dvalues[j] {
          case ByValue(v) => tuple := tuple + [Some(v)];
          case ByReference(p) => tuple := tuple + [Some(memory.live[p])];
        }
      }
    }
  }

  ghost predicate AtLeast(k: int, j: int) {
    k <= j
  }

  ghost function From(k: int): iset<int> {
    iset j: int | AtLeast(k, j)
  }

  /** Frees every by-reference value of the row once. The addresses stay behind in the array. */
  method FreeRow<V>(memory: BatchMemory<V>, byval: seq<bool>, dvalues: array<DatumWord<V>>, ghost nulls: seq<bool>,
                    ghost t: seq<Option<V>>, ghost owner: map<nat, int>)
    requires memory.Valid() && |byval| == dvalues.Length == |nulls| == |t|
    requires RowDone(memory.live, owner, byval, dvalues[..], nulls, t, From(0))
    modifies memory
    ensures memory.Valid() && memory.live == map[]
  {
    for j := 0 to dvalues.Length
      invariant memory.Valid() && RowDone(memory.live, owner, byval, dvalues[..], nulls, t, From(j))
    {
      ghost var live := memory.live;
      assert j in From(j) && Stands(live, byval[j], dvalues[..][j], nulls[j], t[j]);
      if dvalues[j].ByReference? && !byval[j] {
        memory.Free(dvalues[j].addr);
      }
      FreedOne(live, memory.live, owner, byval, dvalues[..], nulls, t, j);
    }
  }

  lemma FreedOne<V>(live: map<nat, V>, live': map<nat, V>, owner: map<nat, int>, byval: seq<bool>,
                    dvalues: seq<DatumWord<V>>, nulls: seq<bool>, t: seq<Option<V>>, j: nat)
    requires |byval| == |dvalues| == |nulls| == |t| && j < |t|
    requires RowDone(live, owner, byval, dvalues, nulls, t, From(j))
    requires live' == if dvalues[j].ByReference? && !byval[j] then live - {dvalues[j].addr} else live
    ensures RowDone(live', owner, byval, dvalues, nulls, t, From(j + 1))
  {
    assert j in From(j);
    assert Stands(live, byval[j], dvalues[j], nulls[j], t[j]) && HeldBy(owner, dvalues[j], j);
    forall i | 0 <= i < |t| && i in From(j + 1)
      ensures Stands(live', byval[i], dvalues[i], nulls[i], t[i]) && HeldBy(owner, dvalues[i], i)
    {
      assert i in From(j);
    }
  }

  /** Attributes without a result column stay null from the arrays' creation on. */
  ghost predicate Blank<V>(retrieved: seq<int>, dvalues: seq<DatumWord<V>>, nulls: seq<bool>)
    requires |dvalues| == |nulls|
  {
    forall j :: 0 <= j < |dvalues| && j + 1 !in retrieved ==> nulls[j] && dvalues[j] == NoDatum
  }

  ghost predicate SettledAt(retrieved: seq<int>, n: nat, j: int)
    requires n <= |retrieved|
  {
    j + 1 !in retrieved || j + 1 in retrieved[..n]
  }

  /** The attributes settled once the first `n` result columns are placed. */
  ghost function Settled(retrieved: seq<int>, n: nat): iset<int>
    requires n <= |retrieved|
  {
    iset j: int | SettledAt(retrieved, n, j)
  }

  lemma NothingPlaced<V>(meta: AttInMetadata<V>, retrieved: seq<int>, columns: seq<Column>, rows: nat, i: nat,
                         dvalues: seq<DatumWord<V>>, nulls: seq<bool>)
    requires |meta.byval| == |dvalues| == |nulls| && Blank(retrieved, dvalues, nulls)
    requires |retrieved| <= |columns| && Readable(columns, rows) && i < rows
    ensures RowDone(map[], map[], meta.byval, dvalues, nulls, RowTuple(meta, retrieved, columns, rows, i),
                    Settled(retrieved, 0))
  {
    hide RowCells;
  }

  /** Placing one more cell, by value or by a newly allocated address. */
  lemma OneMorePlaced<V>(live: map<nat, V>, live': map<nat, V>, owner: map<nat, int>, byval: seq<bool>,
                         dvalues: seq<DatumWord<V>>, nulls: seq<bool>, t: seq<Option<V>>, done: iset<int>, a: int,
                         d: DatumWord<V>, isnull: bool) returns (owner': map<nat, int>)
    requires |byval| == |dvalues| == |nulls| == |t| && 0 <= a < |t| && a !in done
    requires RowDone(live, owner, byval, dvalues, nulls, t, done)
    requires Stands(live', byval[a], d, isnull, t[a])
    requires if d.ByReference? then d.addr !in live && d.addr in live' && live' == live[d.addr := live'[d.addr]]
             else live' == live
    ensures RowDone(live', owner', byval, dvalues[a := d], nulls[a := isnull], t, done + iset{a})
  {
    owner' := if d.ByReference? then owner[d.addr := a] else owner;
    var ds, ns := dvalues[a := d], nulls[a := isnull];
    forall j | 0 <= j < |t| && j in done + iset{a}
      ensures Stands(live', byval[j], ds[j], ns[j], t[j]) && HeldBy(owner', ds[j], j)
    {
      if j != a {
        assert Stands(live, byval[j], dvalues[j], nulls[j], t[j]) && HeldBy(owner, dvalues[j], j);
      }
    }
  }

  lemma SettledStep(natts: nat, retrieved: seq<int>, n: nat)
    requires Placed(natts, retrieved) && n < |retrieved|
    ensures retrieved[n] - 1 !in Settled(retrieved, n)
    ensures Settled(retrieved, n + 1) == Settled(retrieved, n) + iset{retrieved[n] - 1}
  {
    assert retrieved[..n + 1] == retrieved[..n] + [retrieved[n]];
  }

  lemma AllSettled(retrieved: seq<int>)
    ensures Settled(retrieved, |retrieved|) >= From(0)
  {
    assert retrieved[..|retrieved|] == retrieved;
  }

  lemma StillBlank<V>(meta: AttInMetadata<V>, retrieved: seq<int>, columns: seq<Column>, rows: nat, i: nat,
                      dvalues: seq<DatumWord<V>>, nulls: seq<bool>, live: map<nat, V>, owner: map<nat, int>)
    requires |meta.byval| == |dvalues| == |nulls|
    requires |retrieved| <= |columns| && Readable(columns, rows) && i < rows
    requires RowDone(live, owner, meta.byval, dvalues, nulls, RowTuple(meta, retrieved, columns, rows, i), From(0))
    ensures Blank(retrieved, dvalues, nulls)
  {
    hide RowCells;
    var t := RowTuple(meta, retrieved, columns, rows, i);
    forall j | 0 <= j < |dvalues| && j + 1 !in retrieved ensures nulls[j] && dvalues[j] == NoDatum {
      assert CellOf(retrieved, j + 1) == -1 && t[j] == None && j in From(0);
      assert Stands(live, meta.byval[j], dvalues[j], nulls[j], t[j]);
    }
  }

  /** Overwrites the arrays with row `i`. Stale addresses of the row before are all replaced. */
  method FillRow<V>(memory: BatchMemory<V>, meta: AttInMetadata<V>, retrieved: seq<int>, columns: seq<Column>,
                    ghost rows: nat, i: nat, dvalues: array<DatumWord<V>>, nulls: array<bool>)
    returns (ghost owner: map<nat, int>)
    requires memory.Valid() && memory.live == map[] && dvalues.Length == nulls.Length == |meta.byval|
    requires Placed(|meta.byval|, retrieved) && |retrieved| <= |columns| && Readable(columns, rows) && i < rows
    requires Blank(retrieved, dvalues[..], nulls[..])
    requires memory !in Buffers(columns) && dvalues !in Buffers(columns) && nulls !in Buffers(columns)
    modifies memory, dvalues, nulls
    ensures memory.Valid()
    ensures RowDone(memory.live, owner, meta.byval, dvalues[..], nulls[..],
                    RowTuple(meta, retrieved, columns, rows, i), From(0))
  {
    hide RowDone, Blank, RowCells, Spread, Settled, CellOf, RowTuple, Stands, From;
    ghost var t := RowTuple(meta, retrieved, columns, rows, i);
    NothingPlaced(meta, retrieved, columns, rows, i, dvalues[..], nulls[..]);
    owner := map[];
    for attid := 0 to |retrieved|
      invariant memory.Valid()
      invariant RowDone(memory.live, owner, meta.byval, dvalues[..], nulls[..], t, Settled(retrieved, attid))
    {
      var attnum := retrieved[attid] - 1;
      ghost var before, beforeNulls, live := dvalues[..], nulls[..], memory.live;
      TargetOf(meta, retrieved, columns, rows, i, attid);
      PlaceCell(memory, meta, columns[attid], i, attnum, dvalues, nulls, t[attnum]);
      SettledStep(|meta.byval|, retrieved, attid);
      owner := OneMorePlaced(live, memory.live, owner, meta.byval, before, beforeNulls, t, Settled(retrieved, attid),
                             attnum, dvalues[attnum], nulls[attnum]);
    }
    AllSettled(retrieved);
    Narrow(memory.live, owner, meta.byval, dvalues[..], nulls[..], t, Settled(retrieved, |retrieved|));
  }

  /** The body of the inner loop: one cell into one attribute. */
  method PlaceCell<V>(memory: BatchMemory<V>, meta: AttInMetadata<V>, column: Column, i: nat, attnum: nat,
                      dvalues: array<DatumWord<V>>, nulls: array<bool>, ghost target: Option<V>)
    requires memory.Valid() && dvalues.Length == nulls.Length == |meta.byval| && attnum < |meta.byval|
    requires column.Valid() && i < column.rows && target == Convert(meta, attnum + 1, column.Cell(i))
    requires {memory as object, dvalues, nulls} !! {column.data as object, column.ind}
    modifies memory, dvalues, nulls
    ensures memory.Valid()
    ensures dvalues[..] == old(dvalues[..])[attnum := dvalues[attnum]]
    ensures nulls[..] == old(nulls[..])[attnum := nulls[attnum]]
    ensures Stands(memory.live, meta.byval[attnum], dvalues[attnum], nulls[attnum], target)
    ensures if dvalues[attnum].ByReference?
            then dvalues[attnum].addr !in old(memory.live) && dvalues[attnum].addr in memory.live &&
                 memory.live == old(memory.live)[dvalues[attnum].addr := memory.live[dvalues[attnum].addr]]
            else memory.live == old(memory.live)
  {
    if column.ind[i] == SQL_NULL_DATA {
      nulls[attnum] := true;
      dvalues[attnum] := NoDatum;
    } else {
      var text := column.Read(i);
      var value := meta.input(attnum + 1, text);
      nulls[attnum] := false;
      if meta.byval[attnum] {
        dvalues[attnum] := ByValue(value);
      } else {
        var p := memory.Alloc(value);
        dvalues[attnum] := ByReference(p);
      }
    }
  }

  lemma Narrow<V>(live: map<nat, V>, owner: map<nat, int>, byval: seq<bool>, dvalues: seq<DatumWord<V>>,
                  nulls: seq<bool>, t: seq<Option<V>>, done: iset<int>)
    requires |byval| == |dvalues| == |nulls| == |t| && RowDone(live, owner, byval, dvalues, nulls, t, done)
    requires done >= From(0)
    ensures RowDone(live, owner, byval, dvalues, nulls, t, From(0))
  {
  }

  /** The tuple that row `i` of the buffers spreads into. */
  ghost function RowTuple<V>(meta: AttInMetadata<V>, retrieved: seq<int>, columns: seq<Column>, rows: nat, i: nat):
    (t: seq<Option<V>>)
    requires |retrieved| <= |columns| && Readable(columns, rows) && i < rows
    reads Buffers(columns)
    ensures |t| == |meta.byval|
  {
    Spread(|meta.byval|, retrieved, RowCells(meta, retrieved, columns, rows, i, |retrieved|), None)
  }

  lemma TargetOf<V>(meta: AttInMetadata<V>, retrieved: seq<int>, columns: seq<Column>, rows: nat, i: nat, k: nat)
    requires Placed(|meta.byval|, retrieved) && k < |retrieved| <= |columns| && Readable(columns, rows) && i < rows
    ensures RowTuple(meta, retrieved, columns, rows, i)[retrieved[k] - 1] ==
            Convert(meta, retrieved[k], columns[k].Cell(i))
  {
    CellOfPlaced(|meta.byval|, retrieved, k);
  }

  /** Though the arrays are reused, tuple `i` is row `i` spread over the attributes and nothing else: what has
      no result column is null in every tuple, and every value allocated on the way has been freed, once. */
  method MakeTuples<V>(memory: BatchMemory<V>, meta: AttInMetadata<V>, retrieved: seq<int>, columns: seq<Column>,
                       ghost rows: nat, tupleCnt: nat) returns (tuples: seq<seq<Option<V>>>)
    requires memory.Valid() && Placed(|meta.byval|, retrieved)
    requires |retrieved| <= |columns| && Readable(columns, rows) && tupleCnt <= rows && memory !in Buffers(columns)
    modifies memory
    ensures memory.Valid() && memory.live == map[] && |tuples| == tupleCnt
    ensures forall i :: 0 <= i < tupleCnt ==> tuples[i] == RowTuple(meta, retrieved, columns, rows, i)
  {
    hide RowDone, RowTuple, Placed, Blank, From, Stands, Readable;
    memory.Reset();
    var natts := |meta.byval|;
    var dvalues := new DatumWord<V>[natts](_ => NoDatum);
    var nulls := new bool[natts](_ => true);
    AllBlank(retrieved, dvalues[..], nulls[..]);
    tuples := [];
    for i := 0 to tupleCnt
      invariant memory.Valid() && memory.live == map[] && |tuples| == i
      invariant Blank(retrieved, dvalues[..], nulls[..])
      invariant forall k :: 0 <= k < i ==> tuples[k] == old(RowTuple(meta, retrieved, columns, rows, k))
    {
      ghost var owner := FillRow(memory, meta, retrieved, columns, rows, i, dvalues, nulls);
      ghost var t := RowTuple(meta, retrieved, columns, rows, i);
      StillBlank(meta, retrieved, columns, rows, i, dvalues[..], nulls[..], memory.live, owner);
      var tuple := FormTuple(memory, meta.byval, dvalues, nulls, t, owner);
      tuples := tuples + [tuple];
      FreeRow(memory, meta.byval, dvalues, nulls[..], t, owner);
    }
  }

  lemma AllBlank<V>(retrieved: seq<int>, dvalues: seq<DatumWord<V>>, nulls: seq<bool>)
    requires |dvalues| == |nulls| && forall j :: 0 <= j < |nulls| ==> nulls[j] && dvalues[j] == NoDatum
    ensures Blank(retrieved, dvalues, nulls)
  {
  }
}
