/** The tile matrix shared by the committed board and the merge pass.
    A matrix is indexed `m[row][col]`; row 0 is the bottom row of the board.
    A cell holds the number of the tile on it, or nothing. */
module Matrices {
  import opened Options
  import opened Tiles

  type Cell = Option<nat>
  type Row = seq<Cell>
  type Matrix = seq<Row>

  /** Number of columns, read off the bottom row. */
  function Width(m: Matrix): nat
  {
    if |m| == 0 then 0 else |m[0]|
  }

  /** Every row has the same number of cells. */
  predicate Rect(m: Matrix)
  {
    forall r :: 0 <= r < |m| ==> |m[r]| == Width(m)
  }

  /** A row of `width` empty cells. */
  function EmptyRow(width: nat): (row: Row)
    ensures |row| == width
    ensures forall c :: 0 <= c < width ==> row[c].None?
  {
    seq(width, _ => None)
  }

  /** Every cell of the row holds a tile. */
  predicate Full(row: Row)
  {
    forall c :: 0 <= c < |row| ==> row[c].Some?
  }

  /** Every tile of the matrix carries a number of the colour table. */
  predicate HoldsTileNumbers(m: Matrix)
  {
    forall r, c :: 0 <= r < |m| && 0 <= c < |m[r]| && m[r][c].Some? ==> IsTileNumber(m[r][c].value)
  }

  /** The matrix with cell (r, c) replaced by v. */
  function Put(m: Matrix, r: nat, c: nat, v: Cell): (m': Matrix)
    requires r < |m| && c < |m[r]|
    ensures |m'| == |m| && Width(m') == Width(m) && (Rect(m) ==> Rect(m'))
    ensures forall i :: 0 <= i < |m| ==> |m'[i]| == |m[i]|
    ensures m'[r][c] == v
    ensures forall i, j :: 0 <= i < |m| && 0 <= j < |m[i]| && (i != r || j != c) ==> m'[i][j] == m[i][j]
  {
    m[r := m[r][c := v]]
  }

  // Weighted totals. A weight gives each cell a number; the total of a matrix adds the
  // weights of all its cells. Count and Sum are the two weights the game cares about.

  /** 1 for a tile, 0 for an empty cell. */
  function Occupancy(cell: Cell): nat
  {
    if cell.Some? then 1 else 0
  }

  /** The tile's number, 0 for an empty cell. */
  function Value(cell: Cell): nat
  {
    if cell.Some? then cell.value else 0
  }

  function RowTotal(row: Row, w: Cell -> nat): nat
  {
    if |row| == 0 then 0 else w(row[0]) + RowTotal(row[1..], w)
  }

  function Total(m: Matrix, w: Cell -> nat): nat
  {
    if |m| == 0 then 0 else RowTotal(m[0], w) + Total(m[1..], w)
  }

  /** Number of tiles on the matrix. */
  function Count(m: Matrix): nat
  {
    Total(m, Occupancy)
  }

  /** Sum of the numbers of all tiles on the matrix. */
  function Sum(m: Matrix): nat
  {
    Total(m, Value)
  }

  /** Number of rows whose cells are all occupied. */
  function FullRows(m: Matrix): nat
  {
    if |m| == 0 then 0 else (if Full(m[0]) then 1 else 0) + FullRows(m[1..])
  }

  /** Replacing one cell changes a row's total by the difference of the two weights. */
  lemma {:induction false} RowTotalUpdate(row: Row, c: nat, v: Cell, w: Cell -> nat)
    requires c < |row|
    ensures RowTotal(row[c := v], w) + w(row[c]) == RowTotal(row, w) + w(v)
  {
    if c > 0 {
      assert row[c := v][1..] == row[1..][c - 1 := v];
      RowTotalUpdate(row[1..], c - 1, v, w);
    } else {
      assert row[c := v][1..] == row[1..];
    }
  }

  /** Replacing one cell changes a matrix's total by the difference of the two weights. */
  lemma {:induction false} TotalUpdate(m: Matrix, r: nat, c: nat, v: Cell, w: Cell -> nat)
    requires r < |m| && c < |m[r]|
    ensures Total(Put(m, r, c, v), w) + w(m[r][c]) == Total(m, w) + w(v)
  {
    var m' := Put(m, r, c, v);
    if r > 0 {
      assert m'[1..] == Put(m[1..], r - 1, c, v);
      TotalUpdate(m[1..], r - 1, c, v, w);
    } else {
      assert m'[1..] == m[1..];
      RowTotalUpdate(m[0], c, v, w);
    }
  }

  /** The total of stacked matrices is the sum of their totals. */
  lemma {:induction false} TotalAppend(a: Matrix, b: Matrix, w: Cell -> nat)
    ensures Total(a + b, w) == Total(a, w) + Total(b, w)
  {
    if |a| > 0 {
      assert (a + b)[1..] == a[1..] + b;
      TotalAppend(a[1..], b, w);
    } else {
      assert a + b == b;
    }
  }

  /** The full rows of stacked matrices are those of each part. */
  lemma {:induction false} FullRowsAppend(a: Matrix, b: Matrix)
    ensures FullRows(a + b) == FullRows(a) + FullRows(b)
  {
    if |a| > 0 {
      assert (a + b)[1..] == a[1..] + b;
      FullRowsAppend(a[1..], b);
    } else {
      assert a + b == b;
    }
  }

  /** Empty cells weigh nothing under either weight. */
  lemma {:induction false} EmptyRowWeighsNothing(width: nat, w: Cell -> nat)
    requires w(None) == 0
    ensures RowTotal(EmptyRow(width), w) == 0
  {
    if width > 0 {
      assert EmptyRow(width)[1..] == EmptyRow(width - 1);
      EmptyRowWeighsNothing(width - 1, w);
    }
  }

  /** A matrix of empty rows holds no tile. */
  lemma {:induction false} EmptyMatrixWeighsNothing(m: Matrix, w: Cell -> nat)
    requires w(None) == 0
    requires forall r, c :: 0 <= r < |m| && 0 <= c < |m[r]| ==> m[r][c].None?
    ensures Total(m, w) == 0
  {
    if |m| > 0 {
      assert m[0] == EmptyRow(|m[0]|);
      EmptyRowWeighsNothing(|m[0]|, w);
      EmptyMatrixWeighsNothing(m[1..], w);
    }
  }

  /** A matrix has no full row exactly when none of its rows is full. */
  lemma {:induction false} NoFullRows(m: Matrix)
    ensures FullRows(m) == 0 <==> forall i :: 0 <= i < |m| ==> !Full(m[i])
  {
    if |m| > 0 {
      NoFullRows(m[1..]);
      assert forall i :: 1 <= i < |m| ==> m[i] == m[1..][i - 1];
    }
  }

  /** A full row holds one tile per cell. */
  lemma {:induction false} FullRowCount(row: Row)
    requires Full(row)
    ensures RowTotal(row, Occupancy) == |row|
  {
    if |row| > 0 {
      FullRowCount(row[1..]);
    }
  }
}
