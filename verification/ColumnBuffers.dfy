/** The flat buffers that the driver fills with a block of rows, one per result column. */
module ColumnBuffers {
  import opened Prelude

  const NUL: char := 0 as char
  const SQL_NULL_DATA: int := -1

  /** The C string that starts at `off`. */
  function CStringAt(s: seq<char>, off: nat): string
    decreases |s| - off
  {
    if off >= |s| || s[off] == NUL then "" else [s[off]] + CStringAt(s, off + 1)
  }

  /** With a terminator in reach, reading stops inside its own piece of the buffer. */
  lemma {:induction false} ReadsOwnPiece(s: seq<char>, off: nat, size: nat)
    requires off + size <= |s| && NUL in s[off..off + size]
    ensures CStringAt(s, off) == CStringAt(s[off..off + size], 0)
    decreases size
  {
    var piece := s[off..off + size];
    if piece[0] != NUL {
      assert piece == [piece[0]] + s[off + 1..off + size];
      ReadsOwnPiece(s, off + 1, size - 1);
      ReadsShifted(piece[0], s[off + 1..off + size], 0);
      assert s[off + 1..off + 1 + (size - 1)] == s[off + 1..off + size];
    }
  }

  lemma {:induction false} ReadsShifted(c: char, s: seq<char>, k: nat)
    requires k <= |s|
    ensures CStringAt([c] + s, k + 1) == CStringAt(s, k)
    decreases |s| - k
  {
    if k < |s| {
      ReadsShifted(c, s, k + 1);
    }
  }

  lemma {:induction false} ReadsStored(text: string, rest: seq<char>)
    requires NUL !in text
    ensures CStringAt(text + ([NUL] + rest), 0) == text
  {
    if text != "" {
      ReadsStored(text[1..], rest);
      ReadsShifted(text[0], text[1..] + ([NUL] + rest), 0);
      assert text + ([NUL] + rest) == [text[0]] + (text[1..] + ([NUL] + rest));
    }
  }

  lemma {:induction false} MultipleBelow(a: nat, b: nat, size: nat)
    requires a < b
    ensures a * size + size <= b * size
    decreases b
  {
    assert b * size == (b - 1) * size + size;
    if a < b - 1 {
      MultipleBelow(a, b - 1, size);
    }
  }

  /** Cell `i` lies inside the buffer and meets no other cell. */
  lemma CellBounds(i: nat, j: nat, size: nat, n: nat)
    requires i < n && j < n
    ensures i * size + size <= n * size
    ensures i < j ==> i * size + size <= j * size
    ensures j < i ==> j * size + size <= i * size
  {
    MultipleBelow(i, n, size);
    if i < j {
      MultipleBelow(i, j, size);
    } else if j < i {
      MultipleBelow(j, i, size);
    }
  }

  /** One result column: `rows` cells of `size` characters and an indicator for each. */
  class Column {
    const size: nat
    const rows: nat
    const data: array<char>
    const ind: array<int>

    constructor (size: nat, rows: nat)
      requires size > 0
      ensures this.size == size && this.rows == rows && Valid() && fresh(data) && fresh(ind)
    {
      this.size, this.rows := size, rows;
      var d := new char[size * rows](_ => NUL);
      data := d;
      ind := new int[rows](_ => 0);
      new;
      forall i: nat | i < rows ensures NUL in Piece(i) {
        CellBounds(i, i, size, rows);
        assert Piece(i)[0] == NUL;
      }
    }

    ghost predicate Shape() {
      size > 0 && data.Length == size * rows && ind.Length == rows
    }

    /** The characters of cell `i`. */
    ghost function Piece(i: nat): (p: seq<char>)
      requires Shape() && i < rows
      reads data
      ensures |p| == size
    {
      CellBounds(i, i, size, rows);
      data[i * size..i * size + size]
    }

    /** Every cell is terminated within itself. */
    ghost predicate Valid()
      reads data
    {
      Shape() && forall i: nat :: i < rows ==> NUL in Piece(i)
    }

    /** What the wrapper reads as row `i`: nothing for a null, else the string that starts at the cell. */
    ghost function Cell(i: nat): Option<string>
      requires Shape() && i < rows
      reads data, ind
    {
      CellBounds(i, i, size, rows);
      if ind[i] == SQL_NULL_DATA then None else Some(CStringAt(data[..], i * size))
    }

    lemma CellIsPiece(i: nat)
      requires Valid() && i < rows && ind[i] != SQL_NULL_DATA
      ensures Cell(i) == Some(CStringAt(Piece(i), 0))
    {
      CellBounds(i, i, size, rows);
      assert Piece(i) == data[..][i * size..i * size + size];
      ReadsOwnPiece(data[..], i * size, size);
    }

    /** The wrapper's read of a cell that is not null. */
    method Read(i: nat) returns (text: string)
      requires Valid() && i < rows && ind[i] != SQL_NULL_DATA
      ensures Cell(i) == Some(text)
    {
      CellBounds(i, i, size, rows);
      text := CStringAt(data[..], i * size);
    }

    /** Writes the text and its terminator; every other cell keeps its characters. */
    method WriteText(i: nat, text: string)
      requires Shape() && i < rows && |text| < size
      modifies data
      ensures Piece(i)[..|text|] == text && Piece(i)[|text|] == NUL
      ensures forall j: nat :: j < rows && j != i ==> Piece(j) == old(Piece(j))
    {
      CellBounds(i, i, size, rows);
      var base := i * size;
      WriteAt(base, text);
      assert Piece(i) == data[base..base + size];
      forall j: nat | j < rows && j != i ensures Piece(j) == old(Piece(j)) {
        CellBounds(j, i, size, rows);
        var start := j * size;
        assert start + size <= base || base + size <= start;
        assert data[start..start + size] == old(data[start..start + size]);
      }
    }

    method WriteAt(base: nat, text: string)
      requires base + |text| < data.Length
      modifies data
      ensures data[base..base + |text|] == text && data[base + |text|] == NUL
      ensures forall k :: 0 <= k < data.Length && !(base <= k <= base + |text|) ==> data[k] == old(data[k])
    {
      forall k | 0 <= k < |text| {
        data[base + k] := text[k];
      }
      data[base + |text|] := NUL;
    }

    /** The driver's write of row `i`; no other row changes. */
    method Store(i: nat, cell: Option<string>)
      requires Valid() && i < rows
      requires cell.Some? ==> |cell.value| < size && NUL !in cell.value
      modifies data, ind
      ensures Valid() && Cell(i) == cell
      ensures forall j: nat :: j < rows && j != i ==> Cell(j) == old(Cell(j))
    {
      forall j: nat | j < rows && ind[j] != SQL_NULL_DATA ensures Cell(j) == Some(CStringAt(Piece(j), 0)) {
        CellIsPiece(j);
      }
      if cell.None? {
        ind[i] := SQL_NULL_DATA;
      } else {
        WriteText(i, cell.value);
        ind[i] := |cell.value|;
        assert Piece(i)[|cell.value|] in Piece(i);
        TextRead(Piece(i), cell.value);
      }
      forall j: nat | j < rows && ind[j] != SQL_NULL_DATA ensures Cell(j) == Some(CStringAt(Piece(j), 0)) {
        CellIsPiece(j);
      }
    }
  }

  lemma TextRead(piece: seq<char>, text: string)
    requires |text| < |piece| && piece[..|text|] == text && piece[|text|] == NUL && NUL !in text
    ensures CStringAt(piece, 0) == text
  {
    assert piece == text + ([NUL] + piece[|text| + 1..]);
    ReadsStored(text, piece[|text| + 1..]);
  }
}
