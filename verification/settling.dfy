/** Where the rows of a board end up after `clear_tiles` of game_grid.py, in closed form,
    and the state of its scan part way through. */
module Settling {
  import opened Options
  import opened Matrices

  /** The full rows of m, bottom to top. */
  function FullOnes(m: Matrix): (f: Matrix)
    ensures |f| == FullRows(m)
  {
    if |m| == 0 then [] else (if Full(m[0]) then [m[0]] else []) + FullOnes(m[1..])
  }

  /** The rows of m that are not full, bottom to top. */
  function Kept(m: Matrix): (k: Matrix)
    ensures |k| + FullRows(m) == |m|
  {
    if |m| == 0 then [] else (if Full(m[0]) then [] else [m[0]]) + Kept(m[1..])
  }

  /** Every row FullOnes picks is full, and so is every row of m that Kept leaves out. */
  lemma {:induction false} FullOnesFull(m: Matrix)
    ensures forall i :: 0 <= i < |FullOnes(m)| ==> Full(FullOnes(m)[i])
    ensures forall i :: 0 <= i < |Kept(m)| ==> !Full(Kept(m)[i])
  {
    if |m| > 0 {
      FullOnesFull(m[1..]);
    }
  }

  /** k empty rows of the given width. */
  function Empties(k: nat, width: nat): (e: Matrix)
    ensures |e| == k && forall i :: 0 <= i < k ==> e[i] == EmptyRow(width)
  {
    seq(k, _ => EmptyRow(width))
  }

  /** The board left by clearing, from the rows n kept from below the top row, the number k
      of rows removed from below it, and the top row t. If t is not full, the kept rows
      settle at the bottom, the k empty rows come next and t stays on top. If t is full and
      k > 0, t goes as well and k + 1 empty rows fill the board above the kept rows. If t is
      full and nothing below it was removed, the empty row goes in under the last kept row,
      which ends up on top. */
  function Settle(n: Matrix, k: nat, t: Row): Matrix
    requires Full(t) && k == 0 ==> |n| >= 1
  {
    if !Full(t) then n + Empties(k, |t|) + [t]
    else if k >= 1 then n + Empties(k + 1, |t|)
    else n[..|n| - 1] + [EmptyRow(|t|), n[|n| - 1]]
  }

  /** A board `clear_tiles` can work on: once a row has been removed `np.insert` needs a
      second row, so a one-row board must not be full. */
  predicate Scannable(m: Matrix)
  {
    |m| >= 2 || (|m| == 1 && !Full(m[0]))
  }

  /** The board `clear_tiles` leaves m in, in closed form. */
  function Settled(m: Matrix): Matrix
    requires Scannable(m)
  {
    var below := m[..|m| - 1];
    Settle(Kept(below), FullRows(below), m[|m| - 1])
  }

  /** One more empty row. */
  lemma EmptiesSucc(k: nat, width: nat)
    ensures Empties(k, width) + [EmptyRow(width)] == Empties(k + 1, width)
    ensures [EmptyRow(width)] + Empties(k, width) == Empties(k + 1, width)
  {
  }

  /** A board in the middle of the scan of `clear_tiles`: rows a, then rows b, then e empty rows, then
      the top row t. */
  function Stack(a: Matrix, b: Matrix, e: nat, t: Row): (m: Matrix)
    ensures |m| == |a| + |b| + e + 1 && m[|m| - 1] == t
  {
    a + b + Empties(e, |t|) + [t]
  }

  /** The first row of b, the first row the scan looks at, splits off b. */
  lemma ConsRow(b: Matrix)
    requires |b| >= 1
    ensures FullRows(b) == (if Full(b[0]) then 1 else 0) + FullRows(b[1..])
    ensures Kept(b) == (if Full(b[0]) then [] else [b[0]]) + Kept(b[1..])
    ensures FullOnes(b) == (if Full(b[0]) then [b[0]] else []) + FullOnes(b[1..])
  {
  }

  /** One more empty row passed over changes nothing in the closed form. */
  lemma SettleShift(a: Matrix, e: nat, t: Row)
    requires e >= 1
    ensures Settle(a + [EmptyRow(|t|)], e - 1, t) == Settle(a, e, t)
  {
    EmptiesSucc(e - 1, |t|);
    if Full(t) && e == 1 {
      assert (a + [EmptyRow(|t|)])[..|a|] == a;
    }
  }

  /** The full rows of stacked matrices are those of each part, in order. */
  lemma {:induction false} FullOnesAppend(x: Matrix, y: Matrix)
    ensures FullOnes(x + y) == FullOnes(x) + FullOnes(y)
  {
    if |x| > 0 {
      assert (x + y)[1..] == x[1..] + y;
      FullOnesAppend(x[1..], y);
    } else {
      assert x + y == y;
    }
  }

  /** With nothing left in b, the row at the scan's index is an empty row if any is left,
      and an empty row is not full. */
  lemma EmptiesNotFull(a: Matrix, e: nat, t: Row)
    requires |t| >= 1
    ensures e >= 1 ==> Stack(a, [], e, t)[|a|] == EmptyRow(|t|) && !Full(Stack(a, [], e, t)[|a|])
  {
    if e >= 1 {
      assert EmptyRow(|t|)[0].None?;
    }
  }

  /** Every row of a matrix without a full row is kept. */
  lemma {:induction false} KeptAll(m: Matrix)
    requires forall i :: 0 <= i < |m| ==> !Full(m[i])
    ensures Kept(m) == m
  {
    if |m| > 0 {
      assert forall i :: 0 <= i < |m| - 1 ==> m[1..][i] == m[i + 1];
      KeptAll(m[1..]);
      assert m == [m[0]] + m[1..];
    }
  }

  /** A board without a full row is its own settled board. */
  lemma SettledUnchanged(m: Matrix)
    requires Scannable(m) && forall i :: 0 <= i < |m| ==> !Full(m[i])
    ensures Settled(m) == m
  {
    var below, t := m[..|m| - 1], m[|m| - 1];
    assert !Full(t);
    assert forall i :: 0 <= i < |below| ==> !Full(below[i]);
    KeptAll(below);
    NoFullRows(below);
    assert Empties(0, |t|) == [];
    assert Settled(m) == below + [t];
    assert below + [t] == m;
  }

  /** No row of the settled board is full: the kept rows were not, the empty rows are not,
      and a top row that stays was not. */
  lemma SettledNoFullRow(m: Matrix)
    requires Scannable(m) && Rect(m) && Width(m) >= 1
    ensures FullRows(Settled(m)) == 0
  {
    var below, t := m[..|m| - 1], m[|m| - 1];
    var n, k := Kept(below), FullRows(below);
    var s := Settled(m);
    var empty := EmptyRow(|t|);
    assert empty[0].None?;
    FullOnesFull(below);
    forall i | 0 <= i < |s|
      ensures !Full(s[i])
    {
      if !Full(t) {
        if i < |n| {
          assert s[i] == n[i];
        } else if i < |n| + k {
          assert s[i] == Empties(k, |t|)[i - |n|];
        }
      } else if k >= 1 {
        if i < |n| {
          assert s[i] == n[i];
        } else {
          assert s[i] == Empties(k + 1, |t|)[i - |n|];
        }
      } else if i < |n| - 1 {
        assert s[i] == n[i];
      } else if i == |n| {
        assert s[i] == n[|n| - 1];
      }
    }
    NoFullRows(s);
  }

  /** The full rows of a matrix whose rows all have width w have width w. */
  lemma {:induction false} FullOnesWidth(m: Matrix, w: nat)
    requires forall i :: 0 <= i < |m| ==> |m[i]| == w
    ensures forall i :: 0 <= i < |FullOnes(m)| ==> |FullOnes(m)[i]| == w
  {
    if |m| > 0 {
      assert forall i :: 0 <= i < |m| - 1 ==> m[1..][i] == m[i + 1];
      FullOnesWidth(m[1..], w);
    }
  }

  /** Full rows of width w hold w tiles each. */
  lemma {:induction false} FullRowsCount(ms: Matrix, w: nat)
    requires forall i :: 0 <= i < |ms| ==> |ms[i]| == w && Full(ms[i])
    ensures Count(ms) == |ms| * w
  {
    if |ms| > 0 {
      assert forall i :: 0 <= i < |ms| - 1 ==> ms[1..][i] == ms[i + 1];
      FullRowsCount(ms[1..], w);
      FullRowCount(ms[0]);
      assert |ms| * w == w + (|ms| - 1) * w;
    }
  }

  /** A 3×2 board with the full row 2 2 at the bottom and a lone 4 above it: the full row
      goes, the 4 moves down to the bottom row, and 2 + 2 is what the clearing credits. */
  lemma ClearsBottomRow()
    ensures Settled([[Some(2), Some(2)], [Some(4), None], [None, None]])
         == [[Some(4), None], [None, None], [None, None]]
    ensures FullOnes([[Some(2), Some(2)], [Some(4), None], [None, None]]) == [[Some(2), Some(2)]]
    ensures Sum(FullOnes([[Some(2), Some(2)], [Some(4), None], [None, None]])) == 4
  {
    var m: Matrix := [[Some(2), Some(2)], [Some(4), None], [None, None]];
    var below: Matrix := m[..2];
    var rest: Matrix := below[1..];
    assert below[1][1].None? && m[2][0].None?;
    assert Full(below[0]) && !Full(below[1]) && |rest[1..]| == 0;
    assert Kept(below) == [[Some(4), None]] && FullRows(below) == 1;
    assert |m[1..][1..]| == 1 && !Full(m[2]);
    assert FullOnes(m) == [[Some(2), Some(2)]];
    var empty := EmptyRow(2);
    assert empty[0].None? && empty[1].None?;
    assert Empties(1, 2) == [empty] && empty == [None, None];
  }

  /** A 2×2 board whose only full row is the top one: the empty row goes in under the row
      below it, and that row ends up on top. */
  lemma FullTopRowLeavesLowerRowOnTop()
    ensures Settled([[Some(2), None], [Some(4), Some(8)]]) == [[None, None], [Some(2), None]]
  {
    var m: Matrix := [[Some(2), None], [Some(4), Some(8)]];
    var below: Matrix := m[..1];
    assert below[0][1].None? && !Full(below[0]) && |below[1..]| == 0;
    var empty := EmptyRow(2);
    assert empty[0].None? && empty[1].None? && empty == [None, None];
    assert Kept(below) == below && FullRows(below) == 0;
  }

  /** Where the scan of `clear_tiles` over m stands. Until it has dealt with the top row t of
      m, the board is the rows a it has passed, none of them full, then the rows b it has
      still to look at, then e empty rows, then t; the scan is at the first row of b; the
      rows kept and removed so far and still to come settle into Settled(m); and the rows
      removed so far, then the full rows of b, then t if it is full, are the full rows of m.
      Once it has dealt with t (past), the board is Settled(m), the rows removed are the
      full rows of m, and the scan is at the top row, which is not full, or beyond it. */
  ghost predicate Scanning(m: Matrix, tiles: Matrix, row: nat, cleared: Matrix,
                           a: Matrix, b: Matrix, e: nat, past: bool)
    requires Scannable(m)
  {
    var t := m[|m| - 1];
    if !past then
      && tiles == Stack(a, b, e, t)
      && |tiles| == |m|
      && (|m| >= 2 || !Full(t))
      && row == |a|
      && (forall i :: 0 <= i < |a| ==> !Full(a[i]))
      && Settle(a + Kept(b), e + FullRows(b), t) == Settled(m)
      && cleared + FullOnes(b) + (if Full(t) then [t] else []) == FullOnes(m)
    else
      && tiles == Settled(m)
      && cleared == FullOnes(m)
      && |m| - 1 <= row
      && (row < |tiles| ==> !Full(tiles[row]))
  }

  /** What holds at each step of the scan of `clear_tiles` over the board m, whose score
      was score0 before: the board keeps its shape; at most one row per board row has been
      removed; the score has been credited with the value of the rows removed so far;
      board and score together keep the value of m and score0, and board and removed rows
      together the tiles of m; and the scan stands as Scanning describes. */
  ghost predicate Clearing(m: Matrix, score0: nat, tiles: Matrix, row: nat, score: nat,
                           cleared: Matrix, a: Matrix, b: Matrix, e: nat, past: bool)
    requires Scannable(m)
  {
    && row <= |m|
    && |tiles| == |m| && Rect(tiles) && Width(tiles) == Width(m)
    && |cleared| <= |m|
    && score == score0 + Sum(cleared)
    && score + Sum(tiles) == score0 + Sum(m)
    && Count(tiles) + Count(cleared) == Count(m)
    && Scanning(m, tiles, row, cleared, a, b, e, past)
  }
}
