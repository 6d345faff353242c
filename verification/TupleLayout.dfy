/** Where the cells of a remote row go in a local tuple. */
module TupleLayout {

  /** The last result column that feeds attribute `att`, or -1. */
  function CellOf(retrieved: seq<int>, att: int): (k: int)
    ensures -1 <= k < |retrieved|
    ensures k >= 0 ==> retrieved[k] == att
    ensures k == -1 ==> att !in retrieved
  {
    if retrieved == [] then -1
    else if retrieved[|retrieved| - 1] == att then |retrieved| - 1
    else CellOf(retrieved[..|retrieved| - 1], att)
  }

  /** A tuple of `natts` attributes from the cells of one row; attributes not retrieved stay blank. */
  function Spread<V>(natts: nat, retrieved: seq<int>, cells: seq<V>, blank: V): (t: seq<V>)
    ensures |t| == natts
  {
    seq(natts, j requires 0 <= j < natts =>
      var k := CellOf(retrieved, j + 1);
      if 0 <= k < |cells| then cells[k] else blank)
  }
}
