/** The 2048-style pass of `Tile.merge_tiles` (tile.py), run over the committed board once
    per frame. Columns are visited left to right and, within a column, rows bottom to top;
    every cell is visited exactly once. At each cell:
      1. if the cell and the cell above it hold equal numbers, the lower tile absorbs the
         upper one (`merge_matches`), the upper cell is emptied and everything above it in
         the column moves down one row; at the top row no merge is attempted;
      2. then, if the cell is not in the bottom row and holds a tile whose four neighbours
         are empty (a neighbour off the board counts as empty), that tile falls one row.
    A tile doubled at one cell is not compared again in the same pass, so a cascade of
    merges takes several passes. */
module TileMerge {
  import opened Options
  import opened Tiles
  import opened Matrices

  // ---------------------------------------------------------------------------------------
  // Moving tiles down a column

  /** Moves the contents of (row, col) to (row - 1, col) and empties (row, col). */
  function Drop(m: Matrix, row: nat, col: nat): (m': Matrix)
    requires Rect(m) && 1 <= row < |m| && col < Width(m)
    ensures |m'| == |m| && Rect(m') && Width(m') == Width(m)
    ensures m'[row - 1][col] == m[row][col] && m'[row][col].None?
    ensures forall r, c :: 0 <= r < |m| && 0 <= c < Width(m) && (c != col || (r != row && r != row - 1)) ==>
      m'[r][c] == m[r][c]
  {
    Put(Put(m, row - 1, col, m[row][col]), row, col, None)
  }

  /** Dropping a tile into an empty cell neither adds nor removes weight. */
  lemma DropKeepsTotal(m: Matrix, row: nat, col: nat, w: Cell -> nat)
    requires Rect(m) && 1 <= row < |m| && col < Width(m)
    requires m[row - 1][col].None? && w(None) == 0
    ensures Total(Drop(m, row, col), w) == Total(m, w)
  {
    var m1 := Put(m, row - 1, col, m[row][col]);
    TotalUpdate(m, row - 1, col, m[row][col], w);
    TotalUpdate(m1, row, col, None, w);
  }

  /** The shifting loop that follows a merge: for every row index from k upwards, a tile is
      moved one row down. Only column col, from row k - 1 up, can change. */
  function ShiftDown(m: Matrix, col: nat, k: nat): (m': Matrix)
    requires Rect(m) && col < Width(m) && 1 <= k <= |m|
    ensures |m'| == |m| && Rect(m') && Width(m') == Width(m)
    ensures forall r, c :: 0 <= r < |m| && 0 <= c < Width(m) && (c != col || r < k - 1) ==>
      m'[r][c] == m[r][c]
    decreases |m| - k
  {
    if k == |m| then m
    else if m[k][col].Some? then ShiftDown(Drop(m, k, col), col, k + 1)
    else ShiftDown(m, col, k + 1)
  }

  /** When the cell below the starting index is empty, the shifting loop removes that cell
      from the column: every cell from k - 1 up takes the contents of the cell above it, the
      top cell becomes empty, and nothing else changes. Tiles keep their order and no tile
      lands on another. */
  lemma {:induction false} ShiftDownShifts(m: Matrix, col: nat, k: nat)
    requires Rect(m) && col < Width(m) && 1 <= k <= |m| && m[k - 1][col].None?
    ensures forall r, c :: 0 <= r < |m| && 0 <= c < Width(m) ==>
      ShiftDown(m, col, k)[r][c] ==
        if c != col || r < k - 1 then m[r][c]
        else if r + 1 < |m| then m[r + 1][c]
        else None
    decreases |m| - k
  {
    if k < |m| {
      if m[k][col].Some? {
        ShiftDownShifts(Drop(m, k, col), col, k + 1);
      } else {
        ShiftDownShifts(m, col, k + 1);
      }
    }
  }

  /** The shifting loop only moves tiles into empty cells, so no weight is gained or lost. */
  lemma {:induction false} ShiftDownKeepsTotal(m: Matrix, col: nat, k: nat, w: Cell -> nat)
    requires Rect(m) && col < Width(m) && 1 <= k <= |m| && m[k - 1][col].None? && w(None) == 0
    ensures Total(ShiftDown(m, col, k), w) == Total(m, w)
    decreases |m| - k
  {
    if k < |m| {
      if m[k][col].Some? {
        DropKeepsTotal(m, k, col, w);
        ShiftDownKeepsTotal(Drop(m, k, col), col, k + 1, w);
      } else {
        ShiftDownKeepsTotal(m, col, k + 1, w);
      }
    }
  }

  // ---------------------------------------------------------------------------------------
  // Step 1: merging the pair at a cell

  /** What step 1 at one cell leaves: the matrix, the value credited to the score and, when a
      pair was merged, the number both tiles carried. */
  datatype Step = Step(tiles: Matrix, gained: nat, merged: Option<nat>)

  /** The cell and the one above it hold tiles of equal number (never true at the top row,
      where the lookup of the row above fails and the failure is ignored). */
  predicate PairAt(m: Matrix, row: nat, col: nat)
    requires Rect(m) && row < |m| && col < Width(m)
    ensures PairAt(m, row, col) <==>
      row + 1 < |m| && m[row][col].Some? && m[row][col] == m[row + 1][col]
  {
    && row + 1 < |m|
    && m[row][col].Some? && m[row + 1][col].Some?
    && m[row][col].value == m[row + 1][col].value
  }

  /** Step 1 at (row, col). A pair of equal tiles is always collapsed into the lower cell,
      even when both are at the cap and `merge_matches` leaves the number unchanged and
      returns 0; the cells above move down one row to close the gap. */
  function MergeAt(m: Matrix, row: nat, col: nat): (s: Step)
    requires Rect(m) && row < |m| && col < Width(m)
    ensures |s.tiles| == |m| && Rect(s.tiles) && Width(s.tiles) == Width(m)
    ensures s.merged.Some? <==> PairAt(m, row, col)
    ensures s.merged.None? ==> s.tiles == m && s.gained == 0
    ensures s.merged.Some? ==>
      var v := s.merged.value;
      && m[row][col] == Some(v)
      && s.gained == MergeMatches(v, v).gained
      && forall r, c :: 0 <= r < |m| && 0 <= c < Width(m) ==>
           s.tiles[r][c] ==
             if c != col || r < row then m[r][c]
             else if r == row then Some(MergeMatches(v, v).lower)
             else if r + 1 < |m| then m[r + 1][c]
             else None
  {
    if !PairAt(m, row, col) then Step(m, 0, None)
    else
      var v := m[row][col].value;
      var outcome := MergeMatches(v, m[row + 1][col].value);
      var m1 := Put(Put(m, row, col, Some(outcome.lower)), row + 1, col, None);
      ShiftDownShifts(m1, col, row + 2);
      assert ShiftDown(m1, col, row + 1) == ShiftDown(m1, col, row + 2);
      Step(ShiftDown(m1, col, row + 1), outcome.gained, Some(v))
  }

  /** The number of tiles lost by merging a pair of `v`s: none below the cap, where the
      lower tile doubles, and one tile of value `v` at the cap. */
  function Loss(v: nat): nat
  {
    if v < MaxNumber then 0 else v
  }

  /** A merge removes exactly one tile and, below the cap, keeps the sum of the numbers. */
  lemma MergeAtAccounts(m: Matrix, row: nat, col: nat)
    requires Rect(m) && row < |m| && col < Width(m) && PairAt(m, row, col)
    ensures Count(MergeAt(m, row, col).tiles) + 1 == Count(m)
    ensures Sum(MergeAt(m, row, col).tiles) + Loss(m[row][col].value) == Sum(m)
  {
    var v := m[row][col].value;
    var outcome := MergeMatches(v, v);
    var m0 := Put(m, row, col, Some(outcome.lower));
    var m1 := Put(m0, row + 1, col, None);
    TotalUpdate(m, row, col, Some(outcome.lower), Occupancy);
    TotalUpdate(m0, row + 1, col, None, Occupancy);
    TotalUpdate(m, row, col, Some(outcome.lower), Value);
    TotalUpdate(m0, row + 1, col, None, Value);
    ShiftDownKeepsTotal(m1, col, row + 2, Occupancy);
    ShiftDownKeepsTotal(m1, col, row + 2, Value);
  }

  // ---------------------------------------------------------------------------------------
  // Step 2: an isolated tile falls

  /** The cell (r, c) holds no tile; cells off the board count as empty. */
  predicate Vacant(m: Matrix, r: int, c: int)
    requires Rect(m)
  {
    !(0 <= r < |m| && 0 <= c < Width(m)) || m[r][c].None?
  }

  /** The tile at (row, col) is not in the bottom row and its four neighbours are empty. */
  predicate Falls(m: Matrix, row: nat, col: nat)
    requires Rect(m) && row < |m| && col < Width(m)
    ensures Falls(m, row, col) <==>
      && 1 <= row && m[row][col].Some? && m[row - 1][col].None?
      && (row + 1 < |m| ==> m[row + 1][col].None?)
      && (col + 1 < Width(m) ==> m[row][col + 1].None?)
      && (1 <= col ==> m[row][col - 1].None?)
  {
    && row != 0
    && m[row][col].Some?
    && Vacant(m, row + 1, col) && Vacant(m, row - 1, col)
    && Vacant(m, row, col + 1) && Vacant(m, row, col - 1)
  }

  /** Step 2 at (row, col): an isolated tile moves exactly one row down; tiles in the bottom
      row and tiles with a neighbour stay. No tile is created or lost. */
  function FallAt(m: Matrix, row: nat, col: nat): (m': Matrix)
    requires Rect(m) && row < |m| && col < Width(m)
    ensures |m'| == |m| && Rect(m') && Width(m') == Width(m)
    ensures !Falls(m, row, col) ==> m' == m
    ensures Falls(m, row, col) ==>
      && m'[row - 1][col] == m[row][col]
      && m'[row][col].None?
      && forall r, c :: 0 <= r < |m| && 0 <= c < Width(m) && (c != col || (r != row && r != row - 1)) ==>
           m'[r][c] == m[r][c]
    ensures Count(m') == Count(m) && Sum(m') == Sum(m)
  {
    if Falls(m, row, col) then
      DropKeepsTotal(m, row, col, Occupancy);
      DropKeepsTotal(m, row, col, Value);
      Drop(m, row, col)
    else
      m
  }

  // ---------------------------------------------------------------------------------------
  // The whole pass

  /** The state the pass carries: the matrix, the score and, as a record for the proofs,
      the number of every pair merged so far, in order. */
  datatype PassState = PassState(tiles: Matrix, score: nat, merged: seq<nat>)

  /** Both steps at one cell. */
  function Visit(st: PassState, row: nat, col: nat): (st': PassState)
    requires Rect(st.tiles) && row < |st.tiles| && col < Width(st.tiles)
    ensures |st'.tiles| == |st.tiles| && Rect(st'.tiles) && Width(st'.tiles) == Width(st.tiles)
    ensures forall r, c :: 0 <= r < |st.tiles| && 0 <= c < Width(st.tiles) && c != col ==>
      st'.tiles[r][c] == st.tiles[r][c]
    ensures st'.score >= st.score
    ensures |st.merged| <= |st'.merged| <= |st.merged| + 1 && st'.merged[..|st.merged|] == st.merged
    ensures st'.score > st.score ==> |st'.merged| == |st.merged| + 1
  {
    var s := MergeAt(st.tiles, row, col);
    var log := if s.merged.Some? then [s.merged.value] else [];
    PassState(FallAt(s.tiles, row, col), st.score + s.gained, st.merged + log)
  }

  /** The state after visiting rows 0 .. rows-1 of column col. */
  function ColumnSweep(st: PassState, col: nat, rows: nat): (st': PassState)
    requires Rect(st.tiles) && col < Width(st.tiles) && rows <= |st.tiles|
    ensures |st'.tiles| == |st.tiles| && Rect(st'.tiles) && Width(st'.tiles) == Width(st.tiles)
    ensures forall r, c :: 0 <= r < |st.tiles| && 0 <= c < Width(st.tiles) && c != col ==>
      st'.tiles[r][c] == st.tiles[r][c]
    ensures st'.score >= st.score
  {
    if rows == 0 then st else Visit(ColumnSweep(st, col, rows - 1), rows - 1, col)
  }

  /** The matrix and the score a column sweep reaches do not depend on the log it starts with. */
  lemma {:induction false} ColumnSweepIgnoresLog(st: PassState, col: nat, rows: nat)
    requires Rect(st.tiles) && col < Width(st.tiles) && rows <= |st.tiles|
    ensures ColumnSweep(st.(merged := []), col, rows).tiles == ColumnSweep(st, col, rows).tiles
    ensures ColumnSweep(st.(merged := []), col, rows).score == ColumnSweep(st, col, rows).score
  {
    if rows > 0 {
      ColumnSweepIgnoresLog(st, col, rows - 1);
      VisitIgnoresLog(ColumnSweep(st.(merged := []), col, rows - 1), ColumnSweep(st, col, rows - 1),
                      rows - 1, col);
    }
  }

  /** A visit reads only the matrix and the score of the state, never its log. */
  lemma VisitIgnoresLog(st: PassState, st2: PassState, row: nat, col: nat)
    requires st.tiles == st2.tiles && st.score == st2.score
    requires Rect(st.tiles) && row < |st.tiles| && col < Width(st.tiles)
    ensures Visit(st, row, col).tiles == Visit(st2, row, col).tiles
    ensures Visit(st, row, col).score == Visit(st2, row, col).score
  {
  }

  /** The state after visiting every row of columns 0 .. cols-1. */
  function Sweep(st: PassState, cols: nat): (st': PassState)
    requires Rect(st.tiles) && cols <= Width(st.tiles)
    ensures |st'.tiles| == |st.tiles| && Rect(st'.tiles) && Width(st'.tiles) == Width(st.tiles)
    ensures forall r, c :: 0 <= r < |st.tiles| && cols <= c < Width(st.tiles) ==>
      st'.tiles[r][c] == st.tiles[r][c]
    ensures st'.score >= st.score
  {
    if cols == 0 then st else ColumnSweep(Sweep(st, cols - 1), cols - 1, |st.tiles|)
  }

  /** One complete pass from matrix m with score `score`. It keeps the shape and the tile
      numbers, the score grows by the sum of what `merge_matches` returned, and the board
      loses one tile per merged pair (see Accounts). */
  function MergePass(m: Matrix, score: nat): (st: PassState)
    requires Rect(m)
    ensures Accounts(m, score, st)
  {
    SweepAccounts(m, score, PassState(m, score, []), Width(m));
    Sweep(PassState(m, score, []), Width(m))
  }

  // ---------------------------------------------------------------------------------------
  // Accounting

  /** Total score credited for the pairs merged, as returned by `merge_matches`. */
  function Gains(merged: seq<nat>): nat
  {
    if |merged| == 0 then 0
    else Gains(merged[..|merged| - 1]) + MergeMatches(merged[|merged| - 1], merged[|merged| - 1]).gained
  }

  /** Total of the numbers that disappeared from the board with the pairs merged. */
  function Losses(merged: seq<nat>): nat
  {
    if |merged| == 0 then 0 else Losses(merged[..|merged| - 1]) + Loss(merged[|merged| - 1])
  }

  /** Every number of the log is a tile number. */
  predicate AllTileNumbers(merged: seq<nat>)
  {
    forall i :: 0 <= i < |merged| ==> IsTileNumber(merged[i])
  }

  /** The pass state st is consistent with a pass started from m0 with score0: same shape,
      the score grew by the merge gains, every merge took one tile off the board, the sum of
      numbers fell only by merges at the cap, and tile numbers stay in the colour table. */
  ghost predicate Accounts(m0: Matrix, score0: nat, st: PassState)
  {
    && |st.tiles| == |m0| && Rect(st.tiles) && Width(st.tiles) == Width(m0)
    && st.score == score0 + Gains(st.merged)
    && Count(st.tiles) + |st.merged| == Count(m0)
    && Sum(st.tiles) + Losses(st.merged) == Sum(m0)
    && (HoldsTileNumbers(m0) ==>
          HoldsTileNumbers(st.tiles) && AllTileNumbers(st.merged))
  }

  /** Merging and falling only ever put tile numbers on the board. */
  lemma VisitKeepsTileNumbers(m: Matrix, row: nat, col: nat)
    requires Rect(m) && row < |m| && col < Width(m) && HoldsTileNumbers(m)
    ensures MergeAt(m, row, col).merged.Some? ==> IsTileNumber(MergeAt(m, row, col).merged.value)
    ensures HoldsTileNumbers(MergeAt(m, row, col).tiles)
    ensures HoldsTileNumbers(FallAt(MergeAt(m, row, col).tiles, row, col))
  {
  }

  /** Visiting a cell keeps the accounts. */
  lemma VisitAccounts(m0: Matrix, score0: nat, st: PassState, row: nat, col: nat)
    requires Rect(m0) && Accounts(m0, score0, st) && row < |m0| && col < Width(m0)
    ensures Accounts(m0, score0, Visit(st, row, col))
  {
    var m := st.tiles;
    var s := MergeAt(m, row, col);
    var st' := Visit(st, row, col);
    if HoldsTileNumbers(m0) {
      VisitKeepsTileNumbers(m, row, col);
    }
    if s.merged.Some? {
      MergeAtAccounts(m, row, col);
      assert st'.merged == st.merged + [s.merged.value];
      assert st'.merged[..|st.merged|] == st.merged;
    } else {
      assert st'.merged == st.merged;
    }
  }

  /** Visiting rows 0 .. rows-1 of a column keeps the accounts. */
  lemma {:induction false} ColumnSweepAccounts(m0: Matrix, score0: nat, st: PassState, col: nat, rows: nat)
    requires Rect(m0) && Accounts(m0, score0, st) && col < Width(m0) && rows <= |m0|
    ensures Accounts(m0, score0, ColumnSweep(st, col, rows))
  {
    if rows > 0 {
      ColumnSweepAccounts(m0, score0, st, col, rows - 1);
      VisitAccounts(m0, score0, ColumnSweep(st, col, rows - 1), rows - 1, col);
    }
  }

  /** Visiting columns 0 .. cols-1 keeps the accounts. */
  lemma {:induction false} SweepAccounts(m0: Matrix, score0: nat, st: PassState, cols: nat)
    requires Rect(m0) && Accounts(m0, score0, st) && cols <= Width(m0)
    ensures Accounts(m0, score0, Sweep(st, cols))
  {
    if cols > 0 {
      SweepAccounts(m0, score0, st, cols - 1);
      ColumnSweepAccounts(m0, score0, Sweep(st, cols - 1), cols - 1, |st.tiles|);
    }
  }

  // ---------------------------------------------------------------------------------------
  // The pass as the program runs it

  /** The shifting loop after a merge (tile.py lines 91-94), run in place. */
  method ShiftColumn(m0: Matrix, col: nat, k0: nat) returns (m: Matrix)
    requires Rect(m0) && col < Width(m0) && 1 <= k0 <= |m0|
    ensures m == ShiftDown(m0, col, k0)
  {
    m := m0;
    for k := k0 to |m0|
      invariant |m| == |m0| && Rect(m) && Width(m) == Width(m0)
      invariant ShiftDown(m, col, k) == ShiftDown(m0, col, k0)
    {
      if m[k][col].Some? {
        m := Drop(m, k, col);
      }
    }
  }

  /** The body of the row loop of `merge_tiles` at (row, col). */
  method VisitCell(m0: Matrix, score0: nat, ghost merged0: seq<nat>, row: nat, col: nat)
    returns (m: Matrix, score: nat, ghost merged: seq<nat>)
    requires Rect(m0) && row < |m0| && col < Width(m0)
    ensures m == FallAt(MergeAt(m0, row, col).tiles, row, col)
    ensures score == score0 + MergeAt(m0, row, col).gained
    ensures PassState(m, score, merged) == Visit(PassState(m0, score0, merged0), row, col)
  {
    m, score, merged := m0, score0, merged0;
    if row + 1 < |m| && m[row][col].Some? && m[row + 1][col].Some?
      && m[row][col].value == m[row + 1][col].value
    {
      var v := m[row][col].value;
      var outcome := MergeMatches(v, m[row + 1][col].value);
      score := score + outcome.gained;
      merged := merged + [v];
      m := Put(m, row, col, Some(outcome.lower));
      m := Put(m, row + 1, col, None);
      m := ShiftColumn(m, col, row + 1);
    }
    ghost var s := MergeAt(m0, row, col);
    assert m == s.tiles && score == score0 + s.gained;
    assert merged == merged0 + if s.merged.Some? then [s.merged.value] else [];
    if row != 0 && m[row][col].Some? && Falls(m, row, col) {
      m := Drop(m, row, col);
    }
  }

  /** The row loop of `merge_tiles` for one column. */
  method SweepColumn(m0: Matrix, score0: nat, ghost merged0: seq<nat>, col: nat)
    returns (m: Matrix, score: nat, ghost merged: seq<nat>)
    requires Rect(m0) && col < Width(m0)
    ensures PassState(m, score, merged) == ColumnSweep(PassState(m0, score0, merged0), col, |m0|)
    ensures var st := ColumnSweep(PassState(m0, score0, []), col, |m0|);
      m == st.tiles && score == st.score
  {
    m, score, merged := m0, score0, merged0;
    ghost var start := PassState(m0, score0, merged0);
    for row := 0 to |m0|
      invariant |m| == |m0| && Rect(m) && Width(m) == Width(m0)
      invariant PassState(m, score, merged) == ColumnSweep(start, col, row)
    {
      m, score, merged := VisitCell(m, score, merged, row, col);
    }
    ColumnSweepIgnoresLog(start, col, |m0|);
  }

  /** `Tile.merge_tiles(tile_matrix, score)`: runs the pass in place and returns the new
      score. `merged` records the number of each pair merged. */
  method MergeTiles(m0: Matrix, score0: nat) returns (m: Matrix, score: nat, ghost merged: seq<nat>)
    requires Rect(m0) && |m0| >= 1
    ensures PassState(m, score, merged) == MergePass(m0, score0)
    ensures |m| == |m0| && Rect(m) && Width(m) == Width(m0)
    ensures score == score0 + Gains(merged)
    ensures Count(m) + |merged| == Count(m0)
    ensures Sum(m) + Losses(merged) == Sum(m0)
    ensures HoldsTileNumbers(m0) ==> HoldsTileNumbers(m)
  {
    m, score, merged := m0, score0, [];
    ghost var start := PassState(m0, score0, []);
    for col := 0 to |m0[0]|
      invariant |m| == |m0| && Rect(m) && Width(m) == Width(m0)
      invariant PassState(m, score, merged) == Sweep(start, col)
    {
      m, score, merged := SweepColumn(m, score, merged, col);
    }
    assert PassState(m, score, merged) == MergePass(m0, score0);
  }

  // ---------------------------------------------------------------------------------------
  // Worked cases

  /** Two stacked tiles at the cap: the lower tile keeps its number, the upper one is gone
      and nothing is credited. */
  lemma CappedPairCollapses(m: Matrix, row: nat, col: nat)
    requires Rect(m) && row + 1 < |m| && col < Width(m)
    requires m[row][col] == Some(MaxNumber) && m[row + 1][col] == Some(MaxNumber)
    ensures MergeAt(m, row, col).tiles[row][col] == Some(MaxNumber)
    ensures MergeAt(m, row, col).gained == 0
    ensures Count(MergeAt(m, row, col).tiles) + 1 == Count(m)
  {
    MergeAtAccounts(m, row, col);
  }

  /** A column of two 2s becomes a single 4 at the bottom and the score rises by 4. */
  lemma StackedTwosMerge()
    ensures MergePass([[Some(2)], [Some(2)]], 0) == PassState([[Some(4)], [None]], 4, [2])
  {
    var m: Matrix := [[Some(2)], [Some(2)]];
    var st0 := PassState(m, 0, []);
    var s := MergeAt(m, 0, 0);
    assert PairAt(m, 0, 0);
    assert s.tiles[0][0] == Some(4) && s.tiles[1][0] == None;
    assert |s.tiles[0]| == 1 && |s.tiles[1]| == 1;
    assert s.tiles[0] == [Some(4)] && s.tiles[1] == [None];
    assert s.tiles == [[Some(4)], [None]];
    var st1 := Visit(st0, 0, 0);
    assert st1 == PassState([[Some(4)], [None]], 4, [2]);
    assert Visit(st1, 1, 0) == st1;
    assert ColumnSweep(st0, 0, 2) == st1;
  }

  /** First pass over 2, 2, 4 (bottom to top): the 2s merge and the 4 above moves down, but
      the new 4 at the bottom is not compared with it again. */
  lemma CascadeFirstPass()
    ensures MergePass([[Some(2)], [Some(2)], [Some(4)]], 0) == PassState([[Some(4)], [Some(4)], [None]], 4, [2])
  {
    var m: Matrix := [[Some(2)], [Some(2)], [Some(4)]];
    var st0 := PassState(m, 0, []);
    var s := MergeAt(m, 0, 0);
    assert PairAt(m, 0, 0);
    assert s.tiles[0][0] == Some(4) && s.tiles[1][0] == Some(4) && s.tiles[2][0] == None;
    assert |s.tiles[0]| == 1 && |s.tiles[1]| == 1 && |s.tiles[2]| == 1;
    assert s.tiles[0] == [Some(4)] && s.tiles[1] == [Some(4)] && s.tiles[2] == [None];
    var t: Matrix := [[Some(4)], [Some(4)], [None]];
    assert s.tiles == t;
    var st1 := Visit(st0, 0, 0);
    assert st1 == PassState(t, 4, [2]);
    assert !Falls(t, 1, 0);
    assert Visit(st1, 1, 0) == st1;
    assert Visit(st1, 2, 0) == st1;
    assert ColumnSweep(st0, 0, 1) == st1;
    assert ColumnSweep(st0, 0, 2) == st1;
    assert ColumnSweep(st0, 0, 3) == st1;
    assert Sweep(st0, 1) == st1;
  }

  /** Second pass: the two 4s merge into an 8. */
  lemma CascadeSecondPass()
    ensures MergePass([[Some(4)], [Some(4)], [None]], 4) == PassState([[Some(8)], [None], [None]], 12, [4])
  {
    var t: Matrix := [[Some(4)], [Some(4)], [None]];
    var u0 := PassState(t, 4, []);
    var s := MergeAt(t, 0, 0);
    assert PairAt(t, 0, 0);
    assert s.tiles[0][0] == Some(8) && s.tiles[1][0] == None && s.tiles[2][0] == None;
    assert |s.tiles[0]| == 1 && |s.tiles[1]| == 1 && |s.tiles[2]| == 1;
    assert s.tiles[0] == [Some(8)] && s.tiles[1] == [None] && s.tiles[2] == [None];
    var t': Matrix := [[Some(8)], [None], [None]];
    assert s.tiles == t';
    var u1 := Visit(u0, 0, 0);
    assert u1 == PassState(t', 12, [4]);
    assert Visit(u1, 1, 0) == u1;
    assert Visit(u1, 2, 0) == u1;
    assert ColumnSweep(u0, 0, 1) == u1;
    assert ColumnSweep(u0, 0, 2) == u1;
    assert ColumnSweep(u0, 0, 3) == u1;
    assert Sweep(u0, 1) == u1;
  }

  /** A single 2 at the top of an otherwise empty 3×1 column falls one row in a pass, not
      to the bottom. */
  lemma IsolatedTileFallsOneRow()
    ensures MergePass([[None], [None], [Some(2)]], 0).tiles == [[None], [Some(2)], [None]]
  {
    var m: Matrix := [[None], [None], [Some(2)]];
    var st0 := PassState(m, 0, []);
    assert Visit(st0, 0, 0) == st0;
    assert Visit(st0, 1, 0) == st0;
    assert ColumnSweep(st0, 0, 2) == st0;
    TopTileDrops(st0);
    assert ColumnSweep(st0, 0, 3).tiles == [[None], [Some(2)], [None]];
  }

  /** The visit of the top cell in the example above: the tile has no neighbour and drops. */
  lemma TopTileDrops(st: PassState)
    requires st.tiles == [[None], [None], [Some(2)]]
    ensures Visit(st, 2, 0).tiles == [[None], [Some(2)], [None]]
  {
    var m := st.tiles;
    assert !PairAt(m, 2, 0) && MergeAt(m, 2, 0).tiles == m;
    assert Falls(m, 2, 0);
    var d := Drop(m, 2, 0);
    assert d[0] == [None] && d[1] == [Some(2)] && d[2] == [None];
    assert d == [[None], [Some(2)], [None]];
  }
}
