/** The committed board of game_grid.py: a fixed-size matrix of tiles, the score and the
    one-way game-over flag, with the bounds queries, the locking of a landed piece and the
    clearing of full rows. */
module GameGrid {
  import opened Options
  import opened Matrices
  import opened Settling

  /** A board position: x is the column, y the row (0 is the bottom row). */
  datatype Point = Point(x: int, y: int)

  datatype Grid = Grid(height: nat, width: nat, tiles: Matrix, score: nat, gameOver: bool)
  {
    /** The matrix has `height` rows of `width` cells, and neither dimension is zero. */
    predicate Valid()
    {
      && height >= 1
      && width >= 1
      && |tiles| == height
      && Rect(tiles)
      && Width(tiles) == width
    }
  }

  /** A new board: every cell empty, no score, game running. */
  function NewGrid(height: nat, width: nat): (g: Grid)
    ensures g.height == height && g.width == width && |g.tiles| == height
    ensures forall r :: 0 <= r < height ==> |g.tiles[r]| == width
    ensures forall r, c :: 0 <= r < height && 0 <= c < width ==> g.tiles[r][c].None?
    ensures height >= 1 && width >= 1 ==> g.Valid()
    ensures Count(g.tiles) == 0 && g.score == 0 && !g.gameOver
  {
    var tiles := seq(height, _ => EmptyRow(width));
    EmptyMatrixWeighsNothing(tiles, Occupancy);
    Grid(height, width, tiles, 0, false)
  }

  /** The cell (row, col) lies on the board. */
  function IsInside(g: Grid, row: int, col: int): (inside: bool)
    ensures inside <==> 0 <= row < g.height && 0 <= col < g.width
  {
    if row < 0 || row >= g.height then false
    else if col < 0 || col >= g.width then false
    else true
  }

  /** The cell (row, col) holds a tile; cells off the board, including those above the
      top row where a new piece enters, are never occupied. */
  function IsOccupied(g: Grid, row: int, col: int): (occupied: bool)
    requires g.Valid()
    ensures occupied ==> IsInside(g, row, col)
    ensures IsInside(g, row, col) ==> (occupied <==> g.tiles[row][col].Some?)
  {
    if !IsInside(g, row, col) then false
    else g.tiles[row][col].Some?
  }

  // Locking. The piece arrives as its trimmed tile matrix, whose row 0 is its TOP row,
  // together with the board position of its bottom-left cell.

  /** The board cell that piece cell (r, c) is locked into. */
  function Target(piece: Matrix, blc: Point, r: int, c: int): Point
  {
    Point(blc.x + c, blc.y + |piece| - 1 - r)
  }

  /** Piece cell (r, c) has been handled once the loop, columns outer and rows inner, has
      reached column `col`, row `row`. */
  predicate Handled(r: int, c: int, col: int, row: int)
  {
    c < col || (c == col && r < row)
  }

  /** Contents of board cell (y, x) once the piece cells handled before (col, row) are
      locked: the tile that lands there, whatever was there before, or the old contents. */
  function LockedSoFar(g: Grid, piece: Matrix, blc: Point, y: int, x: int, col: int, row: int): Cell
    requires g.Valid() && Rect(piece) && 0 <= y < g.height && 0 <= x < g.width
  {
    var r := blc.y + |piece| - 1 - y;
    var c := x - blc.x;
    if 0 <= r < |piece| && 0 <= c < Width(piece) && Handled(r, c, col, row) && piece[r][c].Some?
    then piece[r][c]
    else g.tiles[y][x]
  }

  /** Some handled piece tile lands off the board. */
  predicate OverflowsSoFar(g: Grid, piece: Matrix, blc: Point, col: int, row: int)
    requires Rect(piece)
  {
    exists r, c :: 0 <= r < |piece| && 0 <= c < Width(piece) && Handled(r, c, col, row)
      && piece[r][c].Some?
      && !IsInside(g, Target(piece, blc, r, c).y, Target(piece, blc, r, c).x)
  }

  /** `update_grid`: locks every tile of the piece into the board. Each tile is handled on
      its own: a tile that lands on the board replaces the cell's contents, a tile that
      lands off the board is dropped and ends the game, and the other tiles are still
      locked. Returns the game-over flag, which is never reset. */
  method UpdateGrid(g: Grid, piece: Matrix, blc: Point) returns (g': Grid, over: bool)
    requires g.Valid() && |piece| >= 1 && Rect(piece)
    ensures g'.Valid() && g'.height == g.height && g'.width == g.width && g'.score == g.score
    ensures forall y, x :: 0 <= y < g.height && 0 <= x < g.width ==>
      g'.tiles[y][x] == LockedSoFar(g, piece, blc, y, x, Width(piece), 0)
    ensures g'.gameOver <==> g.gameOver || OverflowsSoFar(g, piece, blc, Width(piece), 0)
    ensures over == g'.gameOver
  {
    var nRows, nCols := |piece|, |piece[0]|;
    var tiles := g.tiles;
    var gameOver := g.gameOver;
    for col := 0 to nCols
      invariant |tiles| == g.height && Rect(tiles) && Width(tiles) == g.width
      invariant forall y, x :: 0 <= y < g.height && 0 <= x < g.width ==>
        tiles[y][x] == LockedSoFar(g, piece, blc, y, x, col, 0)
      invariant gameOver <==> g.gameOver || OverflowsSoFar(g, piece, blc, col, 0)
    {
      for row := 0 to nRows
        invariant |tiles| == g.height && Rect(tiles) && Width(tiles) == g.width
        invariant forall y, x :: 0 <= y < g.height && 0 <= x < g.width ==>
          tiles[y][x] == LockedSoFar(g, piece, blc, y, x, col, row)
        invariant gameOver <==> g.gameOver || OverflowsSoFar(g, piece, blc, col, row)
      {
        if piece[row][col].Some? {
          var pos := Target(piece, blc, row, col);
          if IsInside(g, pos.y, pos.x) {
            tiles := Put(tiles, pos.y, pos.x, piece[row][col]);
          } else {
            gameOver := true;
          }
        }
      }
    }
    g' := g.(tiles := tiles, gameOver := gameOver);
    over := gameOver;
  }

  // Row clearing.

  /** `np.delete` of row r followed by `np.insert(.., -1, None, 0)`: the rows above r move
      down one place, and the new empty row goes in at index height-2, second from the top,
      so the previous top row stays on top unless it was the one removed. */
  function RemoveRow(m: Matrix, r: nat): (m': Matrix)
    requires Rect(m) && 2 <= |m| && r < |m|
    ensures |m'| == |m| && Rect(m') && Width(m') == Width(m)
    ensures forall i :: 0 <= i < r && i < |m| - 2 ==> m'[i] == m[i]
    ensures forall i :: r <= i < |m| - 2 ==> m'[i] == m[i + 1]
    ensures m'[|m| - 2] == EmptyRow(Width(m))
    ensures m'[|m| - 1] == if r == |m| - 1 then m[|m| - 2] else m[|m| - 1]
  {
    var rest := m[..r] + m[r + 1..];
    assert forall i :: 0 <= i < r ==> rest[i] == m[i];
    assert forall i :: r <= i < |rest| ==> rest[i] == m[i + 1];
    var m' := rest[..|m| - 2] + [EmptyRow(Width(m))] + rest[|m| - 2..];
    assert forall i :: 0 <= i < |m| - 2 ==> m'[i] == rest[i];
    m'
  }

  /** A matrix is its rows before i, row i and its rows after i. */
  lemma SplitAt(m: Matrix, i: nat)
    requires i < |m|
    ensures m == m[..i] + ([m[i]] + m[i + 1..])
  {
  }

  /** Removing row r leaves the other rows with the empty row slipped in at index |m| - 2. */
  lemma RemoveRowParts(m: Matrix, r: nat)
    requires Rect(m) && 2 <= |m| && r < |m|
    ensures var rest := m[..r] + m[r + 1..];
      && rest == rest[..|m| - 2] + rest[|m| - 2..]
      && RemoveRow(m, r) == rest[..|m| - 2] + ([EmptyRow(Width(m))] + rest[|m| - 2..])
  {
    var rest := m[..r] + m[r + 1..];
    var e := EmptyRow(Width(m));
    assert RemoveRow(m, r) == rest[..|m| - 2] + [e] + rest[|m| - 2..];
  }

  /** A one-row matrix weighs what its row weighs and is full when its row is. */
  lemma SingleRow(row: Row, w: Cell -> nat)
    ensures Total([row], w) == RowTotal(row, w)
    ensures FullRows([row]) == if Full(row) then 1 else 0
  {
    var single: Matrix := [row];
    assert single[1..] == [];
  }

  /** Removing a row takes exactly that row's weight off the matrix. */
  lemma RemoveRowTotal(m: Matrix, r: nat, w: Cell -> nat)
    requires Rect(m) && 2 <= |m| && r < |m| && w(None) == 0
    ensures Total(RemoveRow(m, r), w) + RowTotal(m[r], w) == Total(m, w)
  {
    var rest := m[..r] + m[r + 1..];
    var e := EmptyRow(Width(m));
    SplitAt(m, r);
    RemoveRowParts(m, r);
    TotalAppend(m[..r], [m[r]] + m[r + 1..], w);
    TotalAppend([m[r]], m[r + 1..], w);
    TotalAppend(m[..r], m[r + 1..], w);
    SingleRow(m[r], w);
    TotalAppend(rest[..|m| - 2], [e] + rest[|m| - 2..], w);
    TotalAppend([e], rest[|m| - 2..], w);
    TotalAppend(rest[..|m| - 2], rest[|m| - 2..], w);
    SingleRow(e, w);
    EmptyRowWeighsNothing(Width(m), w);
  }

  /** Removing a full row of a board with at least one column leaves one full row fewer. */
  lemma RemoveRowFullRows(m: Matrix, r: nat)
    requires Rect(m) && 2 <= |m| && r < |m| && Width(m) >= 1 && Full(m[r])
    ensures FullRows(RemoveRow(m, r)) + 1 == FullRows(m)
  {
    var rest := m[..r] + m[r + 1..];
    var e := EmptyRow(Width(m));
    assert !Full(e) by {
      assert e[0].None?;
    }
    SplitAt(m, r);
    RemoveRowParts(m, r);
    FullRowsAppend(m[..r], [m[r]] + m[r + 1..]);
    FullRowsAppend([m[r]], m[r + 1..]);
    FullRowsAppend(m[..r], m[r + 1..]);
    SingleRow(m[r], Occupancy);
    FullRowsAppend(rest[..|m| - 2], [e] + rest[|m| - 2..]);
    FullRowsAppend([e], rest[|m| - 2..]);
    FullRowsAppend(rest[..|m| - 2], rest[|m| - 2..]);
    SingleRow(e, Occupancy);
  }

  /** Removing a full row takes one full row, its value and one tile per column off the
      matrix. */
  lemma RemoveFullRow(m: Matrix, r: nat)
    requires Rect(m) && 2 <= |m| && r < |m| && Width(m) >= 1 && Full(m[r])
    ensures FullRows(RemoveRow(m, r)) + 1 == FullRows(m)
    ensures Sum(RemoveRow(m, r)) + RowTotal(m[r], Value) == Sum(m)
    ensures Count(RemoveRow(m, r)) + Width(m) == Count(m)
    ensures forall i :: 0 <= i < r && Full(RemoveRow(m, r)[i]) ==> Full(m[i])
  {
    assert EmptyRow(Width(m))[0].None?;
    RemoveRowFullRows(m, r);
    RemoveRowTotal(m, r, Value);
    RemoveRowTotal(m, r, Occupancy);
    FullRowCount(m[r]);
  }

  /** Stacking one more row adds that row's value. */
  lemma AppendRowSum(m: Matrix, row: Row)
    ensures Sum(m + [row]) == Sum(m) + RowTotal(row, Value)
  {
    TotalAppend(m, [row], Value);
    SingleRow(row, Value);
  }

  /** Stacking one more row adds that row's tiles. */
  lemma AppendRowCount(m: Matrix, row: Row)
    ensures Count(m + [row]) == Count(m) + RowTotal(row, Occupancy)
  {
    TotalAppend(m, [row], Occupancy);
    SingleRow(row, Occupancy);
  }

  /** Removing a row below the top row: the rows above it move down, and the empty row goes
      in just under the top row. */
  lemma RemoveBelowTop(m: Matrix, r: nat)
    requires Rect(m) && 2 <= |m| && r < |m| - 1
    ensures RemoveRow(m, r) == m[..r] + m[r + 1..|m| - 1] + [EmptyRow(Width(m)), m[|m| - 1]]
  {
    var m' := RemoveRow(m, r);
    var expected := m[..r] + m[r + 1..|m| - 1] + [EmptyRow(Width(m)), m[|m| - 1]];
    assert |m'| == |expected|;
    forall i | 0 <= i < |m|
      ensures m'[i] == expected[i]
    {
      if i < r {
        assert expected[i] == m[i];
      } else if i < |m| - 2 {
        assert expected[i] == m[i + 1];
      }
    }
  }

  /** Removing the top row: the empty row goes in under the row that was second from the
      top, which becomes the top row. */
  lemma RemoveTop(m: Matrix)
    requires Rect(m) && 2 <= |m|
    ensures RemoveRow(m, |m| - 1) == m[..|m| - 2] + [EmptyRow(Width(m)), m[|m| - 2]]
  {
    var m' := RemoveRow(m, |m| - 1);
    var expected := m[..|m| - 2] + [EmptyRow(Width(m)), m[|m| - 2]];
    assert |m'| == |expected|;
    forall i | 0 <= i < |m|
      ensures m'[i] == expected[i]
    {
      if i < |m| - 2 {
        assert expected[i] == m[i];
      }
    }
  }

  /** Removing the first row of b from such a board moves the rest of b down and puts one
      more empty row under t. */
  lemma StackRemove(a: Matrix, b: Matrix, e: nat, t: Row)
    requires Rect(Stack(a, b, e, t)) && |b| >= 1
    ensures Width(Stack(a, b, e, t)) == |t| && |Stack(a, b, e, t)| >= 2
    ensures Stack(a, b, e, t)[|a|] == b[0]
    ensures RemoveRow(Stack(a, b, e, t), |a|) == Stack(a, b[1..], e + 1, t)
  {
    var m := Stack(a, b, e, t);
    assert m[|a|] == b[0];
    RemoveBelowTop(m, |a|);
    assert m[..|a|] == a;
    assert m[|a| + 1..|m| - 1] == b[1..] + Empties(e, |t|);
    EmptiesSucc(e, |t|);
  }

  /** Before the scan starts, no row has been passed or removed, and b is every row below
      the top one. */
  lemma ScanStart(m: Matrix)
    requires Scannable(m)
    ensures Scanning(m, m, 0, [], [], m[..|m| - 1], 0, false)
  {
    var below, t := m[..|m| - 1], m[|m| - 1];
    assert m == below + [t];
    assert m == Stack([], below, 0, t);
    assert [] + Kept(below) == Kept(below);
    FullOnesAppend(below, [t]);
    var single: Matrix := [t];
    assert single[1..] == [];
  }

  /** The full row at the scan's index is the first row of b: it is removed, the rest of b
      moves down and one more empty row goes in under the top row. */
  lemma RemoveFromB(m: Matrix, cleared: Matrix, a: Matrix, b: Matrix, e: nat)
    requires Scannable(m) && |b| >= 1 && Full(b[0])
    requires Rect(Stack(a, b, e, m[|m| - 1]))
    requires Scanning(m, Stack(a, b, e, m[|m| - 1]), |a|, cleared, a, b, e, false)
    ensures |m| >= 2
    ensures Scanning(m, RemoveRow(Stack(a, b, e, m[|m| - 1]), |a|), |a|, cleared + [b[0]],
                     a, b[1..], e + 1, false)
  {
    var t := m[|m| - 1];
    var last: Matrix := if Full(t) then [t] else [];
    StackRemove(a, b, e, t);
    ConsRow(b);
    assert Kept(b[1..]) == Kept(b) && e + 1 + FullRows(b[1..]) == e + FullRows(b);
    assert FullOnes(b) == [b[0]] + FullOnes(b[1..]);
    assert cleared + [b[0]] + FullOnes(b[1..]) + last == cleared + FullOnes(b) + last;
  }

  /** The full row at the scan's index is the top row, with nothing left below it to look
      at: it is removed and the empty row goes in under the row below it, which becomes the
      top row, not full, at the scan's index. */
  lemma RemoveTopRow(m: Matrix, cleared: Matrix, a: Matrix)
    requires Scannable(m) && Full(m[|m| - 1])
    requires Rect(Stack(a, [], 0, m[|m| - 1]))
    requires Scanning(m, Stack(a, [], 0, m[|m| - 1]), |a|, cleared, a, [], 0, false)
    ensures |m| >= 2 && Stack(a, [], 0, m[|m| - 1])[|a|] == m[|m| - 1]
    ensures Scanning(m, RemoveRow(Stack(a, [], 0, m[|m| - 1]), |a|), |a|,
                     cleared + [m[|m| - 1]], a, [], 0, true)
  {
    var t := m[|m| - 1];
    var tiles := Stack(a, [], 0, t);
    assert tiles == a + [t];
    assert a + Kept([]) == a;
    RemoveTop(tiles);
    assert tiles[..|tiles| - 2] == a[..|a| - 1];
  }

  /** The scan finds a full row at its index: it is the first row of b or the top row, and
      after its removal the scan still stands as Scanning describes. */
  lemma ScanFull(m: Matrix, tiles: Matrix, row: nat, cleared: Matrix,
                 a: Matrix, b: Matrix, e: nat, past: bool)
      returns (a': Matrix, b': Matrix, e': nat, past': bool)
    requires Scannable(m)
    requires Rect(tiles) && Width(tiles) >= 1 && |tiles| == |m| && row < |m|
    requires Scanning(m, tiles, row, cleared, a, b, e, past)
    requires Full(tiles[row])
    ensures |m| >= 2
    ensures Scanning(m, RemoveRow(tiles, row), row, cleared + [tiles[row]], a', b', e', past')
  {
    if past {
      assert false;
    }
    if |b| >= 1 {
      assert tiles[row] == b[0];
      RemoveFromB(m, cleared, a, b, e);
      a', b', e', past' := a, b[1..], e + 1, false;
    } else {
      EmptiesNotFull(a, e, m[|m| - 1]);
      RemoveTopRow(m, cleared, a);
      a', b', e', past' := a, b, e, true;
    }
  }

  /** The row at the scan's index is the first row of b and not full: it joins the rows
      passed. */
  lemma PassOverB(m: Matrix, cleared: Matrix, a: Matrix, b: Matrix, e: nat)
    requires Scannable(m) && |b| >= 1 && !Full(b[0])
    requires Scanning(m, Stack(a, b, e, m[|m| - 1]), |a|, cleared, a, b, e, false)
    ensures Stack(a, b, e, m[|m| - 1])[|a|] == b[0]
    ensures Scanning(m, Stack(a, b, e, m[|m| - 1]), |a| + 1, cleared, a + [b[0]], b[1..], e, false)
  {
    var t := m[|m| - 1];
    assert Stack(a, b, e, t)[|a|] == b[0];
    assert b == [b[0]] + b[1..];
    ConsRow(b);
    assert (a + [b[0]]) + Kept(b[1..]) == a + Kept(b);
  }

  /** The row at the scan's index is one of the empty rows: it joins the rows passed. */
  lemma PassOverEmpty(m: Matrix, cleared: Matrix, a: Matrix, e: nat)
    requires Scannable(m) && e >= 1 && |m[|m| - 1]| >= 1
    requires Scanning(m, Stack(a, [], e, m[|m| - 1]), |a|, cleared, a, [], e, false)
    ensures Stack(a, [], e, m[|m| - 1])[|a|] == EmptyRow(|m[|m| - 1]|)
    ensures Scanning(m, Stack(a, [], e, m[|m| - 1]), |a| + 1, cleared,
                     a + [EmptyRow(|m[|m| - 1]|)], [], e - 1, false)
  {
    var t := m[|m| - 1];
    var empty := EmptyRow(|t|);
    assert empty[0].None?;
    assert a + Kept([]) == a;
    EmptiesSucc(e - 1, |t|);
    assert Stack(a, [], e, t) == Stack(a + [empty], [], e - 1, t);
    SettleShift(a, e, t);
    assert (a + [empty]) + Kept([]) == a + [empty];
  }

  /** The row at the scan's index is the top row and not full: it stays, and the board is
      already the settled one. */
  lemma PassOverTop(m: Matrix, cleared: Matrix, a: Matrix)
    requires Scannable(m) && !Full(m[|m| - 1])
    requires Scanning(m, Stack(a, [], 0, m[|m| - 1]), |a|, cleared, a, [], 0, false)
    ensures Scanning(m, Stack(a, [], 0, m[|m| - 1]), |a| + 1, cleared, a, [], 0, true)
  {
    var t := m[|m| - 1];
    assert a + Kept([]) == a;
    assert Stack(a, [], 0, t) == Settle(a, 0, t);
  }

  /** The scan finds a row that is not full at its index: the first row of b, an empty row
      or the top row, and one index on the scan still stands as Scanning describes. */
  lemma ScanPass(m: Matrix, tiles: Matrix, row: nat, cleared: Matrix,
                 a: Matrix, b: Matrix, e: nat, past: bool)
      returns (a': Matrix, b': Matrix, e': nat, past': bool)
    requires Scannable(m)
    requires Rect(tiles) && Width(tiles) >= 1 && |tiles| == |m| && row < |m|
    requires Scanning(m, tiles, row, cleared, a, b, e, past)
    requires !Full(tiles[row])
    ensures Scanning(m, tiles, row + 1, cleared, a', b', e', past')
  {
    if past {
      a', b', e', past' := a, b, e, true;
    } else if |b| >= 1 {
      PassOverB(m, cleared, a, b, e);
      a', b', e', past' := a + [b[0]], b[1..], e, false;
    } else if e >= 1 {
      PassOverEmpty(m, cleared, a, e);
      a', b', e', past' := a + [EmptyRow(|m[|m| - 1]|)], b, e - 1, false;
    } else {
      PassOverTop(m, cleared, a);
      a', b', e', past' := a, b, e, true;
    }
  }

  /** A scan beyond the last index has dealt with the top row. */
  lemma ScanDone(m: Matrix, tiles: Matrix, row: nat, cleared: Matrix,
                 a: Matrix, b: Matrix, e: nat, past: bool)
    requires Scannable(m)
    requires Scanning(m, tiles, row, cleared, a, b, e, past) && row >= |m|
    ensures tiles == Settled(m) && cleared == FullOnes(m)
  {
  }

  /** A full row at the scan's index is credited and removed, and the scan still stands as
      Clearing describes. */
  lemma ClearFull(g: Grid, tiles: Matrix, row: nat, score: nat, cleared: Matrix,
                  a: Matrix, b: Matrix, e: nat, past: bool)
      returns (a': Matrix, b': Matrix, e': nat, past': bool)
    requires g.Valid() && Scannable(g.tiles)
    requires Clearing(g.tiles, g.score, tiles, row, score, cleared, a, b, e, past)
    requires row < g.height && Full(tiles[row])
    ensures |tiles| >= 2
    ensures Clearing(g.tiles, g.score, RemoveRow(tiles, row), row,
                     score + RowTotal(tiles[row], Value), cleared + [tiles[row]], a', b', e', past')
  {
    a', b', e', past' := ScanFull(g.tiles, tiles, row, cleared, a, b, e, past);
    assert |cleared + [tiles[row]]| <= |FullOnes(g.tiles)| <= g.height by {
      assert |Kept(g.tiles)| + FullRows(g.tiles) == g.height;
    }
    RemoveFullRow(tiles, row);
    AppendRowSum(cleared, tiles[row]);
    AppendRowCount(cleared, tiles[row]);
    FullRowCount(tiles[row]);
  }

  /** A row at the scan's index that is not full is passed over, and the scan, one index
      on, still stands as Clearing describes. */
  lemma ClearPass(g: Grid, tiles: Matrix, row: nat, score: nat, cleared: Matrix,
                  a: Matrix, b: Matrix, e: nat, past: bool)
      returns (a': Matrix, b': Matrix, e': nat, past': bool)
    requires g.Valid() && Scannable(g.tiles)
    requires Clearing(g.tiles, g.score, tiles, row, score, cleared, a, b, e, past)
    requires row < g.height && !Full(tiles[row])
    ensures Clearing(g.tiles, g.score, tiles, row + 1, score, cleared, a', b', e', past')
  {
    a', b', e', past' := ScanPass(g.tiles, tiles, row, cleared, a, b, e, past);
  }

  /** Before the scan starts, nothing has been removed and the scan stands at the bottom
      row as Clearing describes. */
  lemma ClearBegins(g: Grid)
    requires g.Valid() && Scannable(g.tiles)
    ensures Clearing(g.tiles, g.score, g.tiles, 0, g.score, [], [], g.tiles[..g.height - 1], 0,
                     false)
  {
    var none: Matrix := [];
    assert Sum(none) == 0 && Count(none) == 0;
    ScanStart(g.tiles);
  }

  /** One turn of the loop of `clear_tiles`: a full row at the index is credited and
      removed and the index stays; any other row is passed over. Either one more row has
      been removed or the index has moved up, and the scan stands as Clearing describes. */
  method ClearStep(g: Grid, tiles: Matrix, row: nat, score: nat, ghost cleared: Matrix,
                   ghost a: Matrix, ghost b: Matrix, ghost e: nat, ghost past: bool)
      returns (tiles': Matrix, row': nat, score': nat, ghost cleared': Matrix,
               ghost a': Matrix, ghost b': Matrix, ghost e': nat, ghost past': bool)
    requires g.Valid() && Scannable(g.tiles)
    requires Clearing(g.tiles, g.score, tiles, row, score, cleared, a, b, e, past) && row < g.height
    ensures Clearing(g.tiles, g.score, tiles', row', score', cleared', a', b', e', past')
    ensures Full(tiles[row]) ==> row' == row && score' == score + RowTotal(tiles[row], Value)
    ensures Full(tiles[row]) ==>
      |tiles| >= 2 && tiles' == RemoveRow(tiles, row) && cleared' == cleared + [tiles[row]]
    ensures !Full(tiles[row]) ==> tiles' == tiles && row' == row + 1 && score' == score
    ensures |cleared| < |cleared'| || (cleared' == cleared && row < row')
  {
    if Full(tiles[row]) {
      a', b', e', past' := ClearFull(g, tiles, row, score, cleared, a, b, e, past);
      tiles', row' := RemoveRow(tiles, row), row;
      score', cleared' := score + RowTotal(tiles[row], Value), cleared + [tiles[row]];
    } else {
      a', b', e', past' := ClearPass(g, tiles, row, score, cleared, a, b, e, past);
      tiles', row', score', cleared' := tiles, row + 1, score, cleared;
    }
  }

  /** When the scan has gone past the top row, the board, with the score credited, is
      valid, has no full row and is the settled board of g; the rows removed are the full
      rows of g, each with one tile per column; value and tiles are accounted for; and a
      board that had no full row is left as it was. */
  lemma ClearDone(g: Grid, tiles: Matrix, row: nat, score: nat, cleared: Matrix,
                  a: Matrix, b: Matrix, e: nat, past: bool)
    requires g.Valid() && Scannable(g.tiles)
    requires Clearing(g.tiles, g.score, tiles, row, score, cleared, a, b, e, past)
    requires row >= g.height
    ensures var g' := g.(tiles := tiles, score := score);
      && g'.Valid() && g'.height == g.height && g'.width == g.width && g'.gameOver == g.gameOver
      && FullRows(g'.tiles) == 0
      && (forall i :: 0 <= i < |cleared| ==> |cleared[i]| == g.width && Full(cleared[i]))
      && g'.score == g.score + Sum(cleared)
      && g'.score + Sum(g'.tiles) == g.score + Sum(g.tiles)
      && Count(g'.tiles) + |cleared| * g.width == Count(g.tiles)
      && (FullRows(g.tiles) == 0 ==> g' == g)
      && g'.tiles == Settled(g.tiles)
      && cleared == FullOnes(g.tiles)
  {
    ScanDone(g.tiles, tiles, row, cleared, a, b, e, past);
    SettledNoFullRow(g.tiles);
    FullOnesFull(g.tiles);
    FullOnesWidth(g.tiles, g.width);
    FullRowsCount(cleared, g.width);
    if FullRows(g.tiles) == 0 {
      NoFullRows(g.tiles);
      SettledUnchanged(g.tiles);
    }
  }

  /** `clear_tiles`: scans the rows from the bottom; a full row is credited with the sum of
      its tile numbers and removed, and the same index is examined again, since another row
      has moved into it; otherwise the scan moves up. The rows removed are returned in
      `cleared`, in order. On a one-row board a full row makes `np.insert` fail, so that
      case is excluded. */
  method ClearTiles(g: Grid) returns (g': Grid, ghost cleared: Matrix)
    requires g.Valid()
    requires Scannable(g.tiles)
    ensures g'.Valid() && g'.height == g.height && g'.width == g.width && g'.gameOver == g.gameOver
    ensures FullRows(g'.tiles) == 0
    ensures forall i :: 0 <= i < |cleared| ==> |cleared[i]| == g.width && Full(cleared[i])
    ensures g'.score == g.score + Sum(cleared)
    ensures g'.score + Sum(g'.tiles) == g.score + Sum(g.tiles)
    ensures Count(g'.tiles) + |cleared| * g.width == Count(g.tiles)
    ensures FullRows(g.tiles) == 0 ==> g' == g
    ensures g'.tiles == Settled(g.tiles)
    ensures cleared == FullOnes(g.tiles)
  {
    var tiles: Matrix, score: nat := g.tiles, g.score;
    var row: nat := 0;
    cleared := [];
    ghost var a: Matrix, b: Matrix, e: nat, past := [], g.tiles[..g.height - 1], 0, false;
    ClearBegins(g);
    while row < g.height
      invariant Clearing(g.tiles, g.score, tiles, row, score, cleared, a, b, e, past)
      decreases g.height - |cleared|, g.height - row
    {
      tiles, row, score, cleared, a, b, e, past :=
        ClearStep(g, tiles, row, score, cleared, a, b, e, past);
    }
    ClearDone(g, tiles, row, score, cleared, a, b, e, past);
    g' := g.(tiles := tiles, score := score);
  }

}
