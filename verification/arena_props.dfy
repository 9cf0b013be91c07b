/** Properties of the board engine: what a sweep keeps and scores, how the
    collision test and the merge fit together, and what `clear` and
    `addGarbage` leave behind. */
module ArenaProps {
  import opened Arena

  // ---------------------------------------------------------------- sweep

  lemma {:induction false} OpenRowsAreOpenRowsOf(rows: Grid)
    ensures forall i | 0 <= i < |OpenRows(rows)| :: OpenRows(rows)[i] in rows && !Full(OpenRows(rows)[i])
  {
    if rows != [] {
      OpenRowsAreOpenRowsOf(rows[1..]);
    }
  }

  lemma {:induction false} NoFullRowMeansAllOpen(rows: Grid)
    ensures FullCount(rows) == 0 <==> forall i | 0 <= i < |rows| :: !Full(rows[i])
  {
    if rows != [] {
      NoFullRowMeansAllOpen(rows[1..]);
      assert forall i | 1 <= i < |rows| :: rows[i] == rows[1..][i - 1];
    }
  }

  lemma ZerosNotFull(w: nat)
    requires w > 0
    ensures !Full(Zeros(w))
  {
    assert Zeros(w)[0] == EmptyCell;
  }

  /** A sweep keeps the number of rows and the width of every row. */
  lemma SweptShape(m: Grid)
    requires IsBoard(m)
    ensures |Swept(m)| == |m|
    ensures Rect(Swept(m), Width(m))
  {
    OpenRowsLength(m);
    OpenRowsAreOpenRowsOf(m);
  }

  /** After a sweep no row below the top one is full: every full row the scan
      reached was cleared, and an emptied row is never full. */
  lemma SweptLeavesNoFullRowBelowTop(m: Grid)
    requires IsBoard(m)
    ensures forall y | 1 <= y < |Swept(m)| :: !Full(Swept(m)[y])
  {
    var r := Swept(m);
    if ClearedBy(m) == 0 {
      if |m| > 0 {
        NoFullRowMeansAllOpen(m[1..]);
        assert forall y | 1 <= y < |m| :: m[y] == m[1..][y - 1];
      }
    } else {
      var k := ClearedBy(m);
      OpenRowsAreOpenRowsOf(m);
      ZerosNotFull(Width(m));
      assert forall y | 0 <= y < k :: r[y] == Zeros(Width(m));
      assert forall y | k <= y < |r| :: r[y] == OpenRows(m)[y - k];
    }
  }

  /** The top row is spared on its own: a full top row survives a sweep
      exactly when no row below it is full. */
  lemma FullTopRowSurvivesIffAlone(m: Grid)
    requires IsBoard(m) && |m| > 0 && Full(m[0])
    ensures Swept(m)[0] == m[0] <==> FullCount(m[1..]) == 0
  {
    SweptShape(m);
    if FullCount(m[1..]) != 0 {
      ZerosNotFull(Width(m));
      assert Swept(m)[0] == Zeros(Width(m));
    }
  }

  /** A second sweep right after the first finds nothing to clear. */
  lemma SweepIdempotent(m: Grid)
    requires IsBoard(m)
    ensures ClearedBy(Swept(m)) == 0
    ensures Swept(Swept(m)) == Swept(m)
  {
    var r := Swept(m);
    SweptShape(m);
    SweptLeavesNoFullRowBelowTop(m);
    if |r| > 0 {
      assert forall i | 0 <= i < |r[1..]| :: r[1..][i] == r[i + 1];
      NoFullRowMeansAllOpen(r[1..]);
    }
  }

  /** One sweep clears every full row of the board or none: when it clears
      anything, the count is the number of full rows, the top one included. */
  lemma SweepClearsAllOrNothing(m: Grid)
    requires IsBoard(m)
    ensures ClearedBy(m) == 0 || ClearedBy(m) == FullCount(m)
    ensures ClearedBy(m) > 0 ==> FullCount(Swept(m)) == 0
  {
    if ClearedBy(m) > 0 {
      SweptShape(m);
      SweptLeavesNoFullRowBelowTop(m);
      ZerosNotFull(Width(m));
      assert Swept(m)[0] == Zeros(Width(m));
      NoFullRowMeansAllOpen(Swept(m));
    }
  }

  /** Each further row in the same sweep is worth twice the previous one. */
  lemma {:induction false} ComboScoreDoubles(k: nat)
    ensures ComboScore(k + 1) == ComboScore(k) + LineScore * Pow2(k)
    ensures ComboScore(k + 1) == 2 * ComboScore(k) + LineScore
  {
    assert Pow2(k + 1) == 2 * Pow2(k);
  }

  /** 1 row scores 10, 2 rows 30, 3 rows 70, 4 rows 150. */
  lemma ComboScoreExamples()
    ensures ComboScore(0) == 0
    ensures ComboScore(1) == 10 && ComboScore(2) == 30
    ensures ComboScore(3) == 70 && ComboScore(4) == 150
  {
    assert Pow2(4) == 16 by {
      assert Pow2(1) == 2;
      assert Pow2(2) == 4;
      assert Pow2(3) == 8;
    }
  }

  // ------------------------------------------------------ collide / merge

  /** A position that passes the collision test is one `merge` can write: every
      non-empty piece cell lands on an empty cell of the board. */
  lemma NoCollisionMeansFits(m: Grid, p: Piece)
    requires !Collides(m, p)
    ensures Fits(m, p)
    ensures forall y, x | 0 <= y < |p.matrix| && 0 <= x < |p.matrix[y]| && p.matrix[y][x] != EmptyCell ::
              m[y + p.pos.y][x + p.pos.x] == EmptyCell
  {
  }

  /** After a merge the piece collides with its own cells at the same place. */
  lemma MergedPieceCollides(r: Grid, m: Grid, p: Piece, y: nat, x: nat)
    requires Fits(m, p) && IsMergeOf(r, m, p)
    requires y < |p.matrix| && x < |p.matrix[y]| && p.matrix[y][x] != EmptyCell
    ensures Collides(r, p)
  {
    var ry, rx := y + p.pos.y, x + p.pos.x;
    assert PieceCellAt(p, ry, rx) == p.matrix[y][x];
    assert r[ry][rx] == p.matrix[y][x];
    assert Blocked(r, y + p.pos.y, x + p.pos.x);
  }

  /** A merge keeps the board's shape. */
  lemma MergeKeepsBoard(r: Grid, m: Grid, p: Piece)
    requires IsBoard(m) && IsMergeOf(r, m, p)
    ensures IsBoard(r) && Width(r) == Width(m)
  {
  }

  /** Collision and merge agree on what a clear board is: merging a piece that
      passed the test onto a board changes only cells that were empty. */
  lemma MergeOverwritesOnlyEmptyCells(r: Grid, m: Grid, p: Piece)
    requires !Collides(m, p) && IsMergeOf(r, m, p)
    ensures forall y, x | 0 <= y < |m| && 0 <= x < |m[y]| && r[y][x] != m[y][x] :: m[y][x] == EmptyCell
  {
    forall y, x | 0 <= y < |m| && 0 <= x < |m[y]| && r[y][x] != m[y][x]
      ensures m[y][x] == EmptyCell
    {
      var py, px := y - p.pos.y, x - p.pos.x;
      assert 0 <= py < |p.matrix| && 0 <= px < |p.matrix[py]| && p.matrix[py][px] != EmptyCell;
      assert !Blocked(m, py + p.pos.y, px + p.pos.x);
    }
  }

  // ------------------------------------------------------- clear / garbage

  /** Clearing a rectangular board gives the board the constructor builds. */
  lemma ClearIsNew(m: Grid, w: nat)
    requires Rect(m, w)
    ensures Clear(m) == New(w, |m|)
  {
    assert forall y | 0 <= y < |m| :: Clear(m)[y] == Zeros(w);
  }

  /** On a cleared board a piece collides only where it sticks out of the board. */
  lemma ClearedBoardBlocksOnlyOffBoard(m: Grid, p: Piece)
    ensures Collides(Clear(m), p) <==> !Fits(m, p)
  {
    var c := Clear(m);
    if !Fits(m, p) {
      var y, x :| 0 <= y < |p.matrix| && 0 <= x < |p.matrix[y]| && p.matrix[y][x] != EmptyCell
                  && !(0 <= y + p.pos.y < |m| && 0 <= x + p.pos.x < |m[y + p.pos.y]|);
      assert Blocked(c, y + p.pos.y, x + p.pos.x);
    }
  }

  /** A sweep of a cleared board clears nothing. */
  lemma SweepOfClearedBoard(m: Grid)
    requires IsBoard(m)
    ensures ClearedBy(Clear(m)) == 0 && Swept(Clear(m)) == Clear(m)
  {
    var c := Clear(m);
    if |m| > 0 {
      ZerosNotFull(Width(m));
      assert forall i | 0 <= i < |c[1..]| :: c[1..][i] == Zeros(Width(m));
      NoFullRowMeansAllOpen(c[1..]);
    }
  }

  /** A garbage row has exactly one empty cell, at the hole, and garbage
      everywhere else, so a sweep never clears it. */
  lemma GarbageRowHasOneHole(w: nat, hole: nat)
    requires hole < w
    ensures forall x | 0 <= x < w :: GarbageRow(w, hole)[x] == EmptyCell <==> x == hole
    ensures forall x | 0 <= x < w && x != hole :: GarbageRow(w, hole)[x] == GarbageCell
    ensures multiset(GarbageRow(w, hole))[EmptyCell] == 1
    ensures !Full(GarbageRow(w, hole))
  {
    var row := GarbageRow(w, hole);
    assert row == row[..hole] + [row[hole]] + row[hole + 1..];
    assert EmptyCell !in row[..hole];
    assert EmptyCell !in row[hole + 1..];
  }
}
