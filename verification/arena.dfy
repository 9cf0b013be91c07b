/** The board engine of one side of a match (client/arena.js): a grid of
    cells where 0 is empty, 1..7 a settled piece colour and 8 a garbage cell,
    with the collision test, the merge of a falling piece, the line sweep with
    its doubling score, and garbage-row injection. */
module Arena {
  import opened Wrappers

  type Grid = seq<seq<int>>

  const EmptyCell := 0
  const GarbageCell := 8
  /** Points for the first row cleared by one sweep; every further row doubles. */
  const LineScore := 10

  datatype Pos = Pos(x: int, y: int)

  /** The falling piece: its local matrix and where that matrix sits on the board. */
  datatype Piece = Piece(matrix: Grid, pos: Pos)

  /** `addGarbage` removed every row and then read the width of row 0. */
  datatype ArenaError = NoRowLeft

  // ---------------------------------------------------------------- shape

  predicate Rect(m: Grid, w: nat) {
    forall y | 0 <= y < |m| :: |m[y]| == w
  }

  function Width(m: Grid): nat {
    if |m| == 0 then 0 else |m[0]|
  }

  /** A board as the constructor builds it: rectangular and, unless it has no
      rows, at least one column wide. */
  predicate IsBoard(m: Grid) {
    Rect(m, Width(m)) && (|m| > 0 ==> Width(m) > 0)
  }

  function Zeros(w: nat): seq<int> {
    seq(w, _ => EmptyCell)
  }

  function ZeroRows(k: nat, w: nat): Grid {
    seq(k, _ => Zeros(w))
  }

  /** A row is full when none of its cells is empty. */
  predicate Full(row: seq<int>) {
    forall x | 0 <= x < |row| :: row[x] != EmptyCell
  }

  // ---------------------------------------------------------- constructor

  /** `new Arena(w, h)`: h rows of w empty cells. */
  function New(w: nat, h: nat): (m: Grid)
    ensures |m| == h && Rect(m, w)
    ensures forall y, x | 0 <= y < h && 0 <= x < w :: m[y][x] == EmptyCell
  {
    ZeroRows(h, w)
  }

  /** `clear`: every cell becomes empty, every row keeps its length. */
  function Clear(m: Grid): (r: Grid)
    ensures |r| == |m|
    ensures forall y | 0 <= y < |m| :: |r[y]| == |m[y]|
    ensures forall y, x | 0 <= y < |r| && 0 <= x < |r[y]| :: r[y][x] == EmptyCell
  {
    seq(|m|, y requires 0 <= y < |m| => Zeros(|m[y]|))
  }

  // ------------------------------------------------------------- collide

  /** A board position stops a piece cell when it is occupied or lies off the
      board: a missing row or column reads as `undefined`, which is not 0. */
  predicate Blocked(m: Grid, r: int, c: int) {
    !(0 <= r < |m| && 0 <= c < |m[r]|) || m[r][c] != EmptyCell
  }

  /** Some non-empty piece cell lands on a blocked board position. */
  predicate Collides(m: Grid, p: Piece) {
    exists y, x | 0 <= y < |p.matrix| && 0 <= x < |p.matrix[y]| ::
      p.matrix[y][x] != EmptyCell && Blocked(m, y + p.pos.y, x + p.pos.x)
  }

  /** `collide`: scans the piece row by row and stops at the first blocked cell. */
  method Collide(m: Grid, p: Piece) returns (hit: bool)
    ensures hit == Collides(m, p)
  {
    var y := 0;
    while y < |p.matrix|
      invariant 0 <= y <= |p.matrix|
      invariant forall yy, x | 0 <= yy < y && 0 <= x < |p.matrix[yy]| ::
                  !(p.matrix[yy][x] != EmptyCell && Blocked(m, yy + p.pos.y, x + p.pos.x))
    {
      var x := 0;
      while x < |p.matrix[y]|
        invariant 0 <= x <= |p.matrix[y]|
        invariant forall xx | 0 <= xx < x ::
                    !(p.matrix[y][xx] != EmptyCell && Blocked(m, y + p.pos.y, xx + p.pos.x))
      {
        if p.matrix[y][x] != EmptyCell && Blocked(m, y + p.pos.y, x + p.pos.x) {
          return true;
        }
        x := x + 1;
      }
      y := y + 1;
    }
    return false;
  }

  // --------------------------------------------------------------- merge

  /** The piece cell that lands on board position (r, c), or empty if none does. */
  function PieceCellAt(p: Piece, r: int, c: int): int {
    var y, x := r - p.pos.y, c - p.pos.x;
    if 0 <= y < |p.matrix| && 0 <= x < |p.matrix[y]| then p.matrix[y][x] else EmptyCell
  }

  /** Every non-empty piece cell lands inside the board. */
  predicate Fits(m: Grid, p: Piece) {
    forall y, x | 0 <= y < |p.matrix| && 0 <= x < |p.matrix[y]| && p.matrix[y][x] != EmptyCell ::
      0 <= y + p.pos.y < |m| && 0 <= x + p.pos.x < |m[y + p.pos.y]|
  }

  /** `r` is `m` with the piece's non-empty cells written over it and every
      other cell as it was. */
  predicate IsMergeOf(r: Grid, m: Grid, p: Piece) {
    && |r| == |m|
    && (forall y | 0 <= y < |m| :: |r[y]| == |m[y]|)
    && forall y, x | 0 <= y < |m| && 0 <= x < |m[y]| ::
         r[y][x] == (if PieceCellAt(p, y, x) != EmptyCell then PieceCellAt(p, y, x) else m[y][x])
  }

  /** Piece cell (py, px) has been visited once the scan reached (y, x). */
  predicate Visited(py: int, px: int, y: int, x: int) {
    py < y || (py == y && px < x)
  }

  /** What the board holds once the scan of `merge` has reached (y, x). */
  predicate MergedUpTo(cur: Grid, m: Grid, p: Piece, y: int, x: int) {
    && |cur| == |m|
    && (forall r | 0 <= r < |m| :: |cur[r]| == |m[r]|)
    && forall r, c | 0 <= r < |m| && 0 <= c < |m[r]| ::
         cur[r][c] == (if PieceCellAt(p, r, c) != EmptyCell && Visited(r - p.pos.y, c - p.pos.x, y, x)
                       then PieceCellAt(p, r, c) else m[r][c])
  }

  /** `merge`: writes every non-empty piece cell at its board position.  The
      caller has checked `collide` first, so every such position is on the
      board (see ArenaProps.NoCollisionMeansFits). */
  method Merge(m: Grid, p: Piece) returns (r: Grid)
    requires Fits(m, p)
    ensures IsMergeOf(r, m, p)
  {
    r := m;
    var y := 0;
    while y < |p.matrix|
      invariant 0 <= y <= |p.matrix|
      invariant MergedUpTo(r, m, p, y, 0)
    {
      var x := 0;
      while x < |p.matrix[y]|
        invariant 0 <= x <= |p.matrix[y]|
        invariant MergedUpTo(r, m, p, y, x)
      {
        var v := p.matrix[y][x];
        if v != EmptyCell {
          var ty, tx := y + p.pos.y, x + p.pos.x;
          r := r[ty := r[ty][tx := v]];
        }
        x := x + 1;
      }
      y := y + 1;
    }
  }

  // --------------------------------------------------------------- sweep

  /** The rows of `rows` that are not full, in their original order. */
  function OpenRows(rows: Grid): Grid {
    if rows == [] then []
    else (if Full(rows[0]) then [] else [rows[0]]) + OpenRows(rows[1..])
  }

  function FullCount(rows: Grid): nat {
    if rows == [] then 0
    else (if Full(rows[0]) then 1 else 0) + FullCount(rows[1..])
  }

  /** How many rows one sweep clears.  The scan stops above row 0, so nothing
      is cleared unless a row below the top one is full; once one is, the top
      row moves down into the scanned range and every full row goes. */
  function ClearedBy(m: Grid): nat {
    if |m| == 0 || FullCount(m[1..]) == 0 then 0 else FullCount(m)
  }

  /** The board one sweep leaves: the cleared rows as empty rows on top, then
      the rows that were not full in their original order. */
  function Swept(m: Grid): Grid {
    if ClearedBy(m) == 0 then m else ZeroRows(ClearedBy(m), Width(m)) + OpenRows(m)
  }

  function Pow2(k: nat): (r: nat)
    ensures r >= 1
  {
    if k == 0 then 1 else 2 * Pow2(k - 1)
  }

  /** Total score of clearing k rows in one sweep: 10 + 20 + ... + 10 * 2^(k-1). */
  function ComboScore(k: nat): nat {
    LineScore * (Pow2(k) - 1)
  }

  /** The inner scan of `sweep`: it leaves a row at its first empty cell. */
  method RowIsFull(row: seq<int>) returns (full: bool)
    ensures full == Full(row)
  {
    var x := 0;
    while x < |row|
      invariant 0 <= x <= |row|
      invariant forall i | 0 <= i < x :: row[i] != EmptyCell
    {
      if row[x] == EmptyCell {
        return false;
      }
      x := x + 1;
    }
    return true;
  }

  lemma {:induction false} OpenRowsLength(rows: Grid)
    ensures |OpenRows(rows)| + FullCount(rows) == |rows|
  {
    if rows != [] {
      OpenRowsLength(rows[1..]);
    }
  }

  lemma {:induction false} NoFullRowKeepsAll(rows: Grid)
    requires FullCount(rows) == 0
    ensures OpenRows(rows) == rows
  {
    if rows != [] {
      NoFullRowKeepsAll(rows[1..]);
      assert rows == [rows[0]] + rows[1..];
    }
  }

  /** The board while `sweep` runs: `lines` emptied rows on top, then the
      rows `m[..j]` the scan has not reached, then the rows below them that
      were not full. */
  function Scanned(m: Grid, w: nat, lines: nat, j: nat): Grid
    requires j <= |m|
  {
    ZeroRows(lines, w) + m[..j] + OpenRows(m[j..])
  }

  /** Clearing the full row `m[j - 1]` moves it, emptied, to the top. */
  lemma ClearStep(m: Grid, w: nat, lines: nat, j: nat)
    requires 0 < j <= |m| && Full(m[j - 1]) && |m[j - 1]| == w
    ensures var r, y := Scanned(m, w, lines, j), lines + j - 1;
            r[y] == m[j - 1]
            && [Zeros(w)] + r[..y] + r[y + 1..] == Scanned(m, w, lines + 1, j - 1)
  {
    var z, pre, o := ZeroRows(lines, w), m[..j - 1], OpenRows(m[j..]);
    assert Scanned(m, w, lines, j) == z + (pre + [m[j - 1]]) + o by {
      assert m[..j] == pre + [m[j - 1]];
    }
    assert Scanned(m, w, lines + 1, j - 1) == ([Zeros(w)] + z) + pre + o by {
      FullHead(m, j - 1);
      assert [Zeros(w)] + z == ZeroRows(lines + 1, w);
    }
    ClearShape(z, pre, m[j - 1], o, Zeros(w));
  }

  /** Taking `x` out from between `z + pre` and `o` and putting `h` in front. */
  lemma ClearShape<T>(z: seq<T>, pre: seq<T>, x: T, o: seq<T>, h: T)
    ensures var s, y := z + (pre + [x]) + o, |z| + |pre|;
            s[y] == x && [h] + s[..y] + s[y + 1..] == ([h] + z) + pre + o
  {
    var s, y := z + (pre + [x]) + o, |z| + |pre|;
    assert s[..y] == z + pre;
    assert s[y + 1..] == o;
  }

  /** A full first row of `m[i..]` is left out of the open rows and counted. */
  lemma FullHead(m: Grid, i: nat)
    requires i < |m| && Full(m[i])
    ensures OpenRows(m[i..]) == OpenRows(m[i + 1..])
    ensures FullCount(m[i..]) == FullCount(m[i + 1..]) + 1
  {
    assert m[i..][0] == m[i];
    assert m[i..][1..] == m[i + 1..];
  }

  /** Passing over the row `m[j - 1]` that is not full changes nothing. */
  lemma SkipStep(m: Grid, w: nat, lines: nat, j: nat)
    requires 0 < j <= |m| && !Full(m[j - 1])
    ensures Scanned(m, w, lines, j)[lines + j - 1] == m[j - 1]
    ensures Scanned(m, w, lines, j) == Scanned(m, w, lines, j - 1)
    ensures FullCount(m[j - 1..]) == FullCount(m[j..])
  {
    assert m[j - 1..] == [m[j - 1]] + m[j..];
    assert m[..j] == m[..j - 1] + [m[j - 1]];
  }

  /** The state of `sweep` before each round: the board is `Scanned` with
      `lines` rows cleared so far, `y` is the row under the scan, and the scan
      never falls below the emptied rows while unscanned rows remain. */
  predicate SweepInv(m: Grid, w: nat, r: Grid, lines: nat, j: nat, y: int) {
    && j <= |m|
    && y < |m|
    && r == Scanned(m, w, lines, j)
    && |r| == |m|
    && lines == FullCount(m[j..])
    && y < lines + j
    && (j > 0 ==> y + 1 == lines + j)
    && (|m| > 0 && j == 0 ==> FullCount(m[1..]) > 0)
  }

  /** The emptied rows on top of the scanned board are not full. */
  lemma EmptiedRowNotFull(m: Grid, w: nat, lines: nat, j: nat, y: int)
    requires 0 < w && j <= |m| && 0 <= y
    ensures y < lines ==> !Full(Scanned(m, w, lines, j)[y])
  {
    if y < lines {
      assert Scanned(m, w, lines, j)[y] == Zeros(w);
      assert Zeros(w)[0] == EmptyCell;
    }
  }

  /** A full row under the scan is an unscanned row of `m`; clearing it keeps
      the sweep state with one more row cleared. */
  lemma SweepClears(m: Grid, w: nat, r: Grid, lines: nat, j: nat, y: int)
    requires IsBoard(m) && w == Width(m) && SweepInv(m, w, r, lines, j, y)
    requires 0 < y && Full(r[y])
    ensures j > 0
    ensures SweepInv(m, w, [Zeros(|r[y]|)] + r[..y] + r[y + 1..], lines + 1, j - 1, y)
  {
    EmptiedRowNotFull(m, w, lines, j, y);
    ClearStep(m, w, lines, j);
    FullHead(m, j - 1);
    OpenRowsLength(m[j - 1..]);
  }

  /** A row under the scan that is not full is passed over. */
  lemma SweepSkips(m: Grid, w: nat, r: Grid, lines: nat, j: nat, y: int)
    requires IsBoard(m) && w == Width(m) && SweepInv(m, w, r, lines, j, y)
    requires 0 < y && !Full(r[y])
    ensures SweepInv(m, w, r, lines, if j > 0 then j - 1 else 0, y - 1)
  {
    if j > 0 {
      SkipStep(m, w, lines, j);
    }
  }

  /** The sweep state before the first round: nothing scanned or cleared. */
  lemma SweepStarts(m: Grid)
    ensures SweepInv(m, Width(m), m, 0, |m|, |m| - 1)
  {
    assert m[|m|..] == [];
    assert Scanned(m, Width(m), 0, |m|) == m;
  }

  /** Once the scan is above row 1, the board is the swept one and the
      cleared count is the one `ClearedBy` gives. */
  lemma SweepEnds(m: Grid, w: nat, r: Grid, lines: nat, j: nat, y: int)
    requires IsBoard(m) && w == Width(m) && SweepInv(m, w, r, lines, j, y) && y <= 0
    ensures r == Swept(m) && lines == ClearedBy(m)
  {
    if j > 0 {
      EndsBelowTop(m);
    } else if |m| > 0 {
      EndsAtTop(m, lines);
    } else {
      assert r == [];
    }
  }

  /** The scan ended at row 1 with nothing cleared: the board is unchanged. */
  lemma EndsBelowTop(m: Grid)
    requires |m| > 0 && FullCount(m[1..]) == 0
    ensures ClearedBy(m) == 0 && Scanned(m, Width(m), 0, 1) == Swept(m)
  {
    NoFullRowKeepsAll(m[1..]);
    assert m[..1] + m[1..] == m;
  }

  /** The scan ran through row 0: every full row was cleared. */
  lemma EndsAtTop(m: Grid, lines: nat)
    requires |m| > 0 && FullCount(m[1..]) > 0 && lines == FullCount(m[0..])
    ensures ClearedBy(m) == lines && Scanned(m, Width(m), lines, 0) == Swept(m)
  {
    assert m[0..] == m;
  }


  lemma ComboScoreNext(k: nat)
    ensures ComboScore(k + 1) == ComboScore(k) + Pow2(k) * LineScore
  {
  }

  /** One round of the `sweep` loop at row `y`: a full row is cleared and
      scored and `y` stays; otherwise the scan moves up a row. */
  method SweepRound(ghost m: Grid, ghost w: nat, r: Grid, y: int, rowCount: nat, score: nat, linesCleared: nat, ghost j: nat)
    returns (r': Grid, y': int, rowCount': nat, score': nat, linesCleared': nat, ghost j': nat)
    requires IsBoard(m) && w == Width(m) && SweepInv(m, w, r, linesCleared, j, y) && y > 0
    requires rowCount == Pow2(linesCleared) && score == ComboScore(linesCleared)
    ensures SweepInv(m, w, r', linesCleared', j', y')
    ensures rowCount' == Pow2(linesCleared') && score' == ComboScore(linesCleared')
    ensures 0 <= y' + j' < y + j
  {
    var full := RowIsFull(r[y]);
    if full {
      SweepClears(m, w, r, linesCleared, j, y);
      ComboScoreNext(linesCleared);
      r' := [Zeros(|r[y]|)] + r[..y] + r[y + 1..];
      y' := y;
      score' := score + rowCount * LineScore;
      rowCount' := rowCount * 2;
      linesCleared' := linesCleared + 1;
      j' := j - 1;
    } else {
      SweepSkips(m, w, r, linesCleared, j, y);
      r', y', rowCount', score', linesCleared' := r, y - 1, rowCount, score, linesCleared;
      j' := if j > 0 then j - 1 else 0;
    }
  }

  /** `sweep`: scans from the bottom row up to row 1; a full row is taken out,
      emptied and put back on top, and the same index is looked at again.
      Each cleared row scores `rowCount * 10` and doubles `rowCount`. */
  method Sweep(m: Grid) returns (r: Grid, score: nat, linesCleared: nat)
    requires IsBoard(m)
    ensures r == Swept(m)
    ensures linesCleared == ClearedBy(m)
    ensures score == ComboScore(linesCleared)
  {
    ghost var w := Width(m);
    var rowCount: nat := 1;
    score, linesCleared := 0, 0;
    r := m;
    var y := |m| - 1;
    // ghost: m[..j] are the rows the scan has not reached yet
    ghost var j: nat := |m|;
    SweepStarts(m);
    while y > 0
      invariant SweepInv(m, w, r, linesCleared, j, y)
      invariant rowCount == Pow2(linesCleared)
      invariant score == ComboScore(linesCleared)
      decreases y + j
    {
      r, y, rowCount, score, linesCleared, j := SweepRound(m, w, r, y, rowCount, score, linesCleared, j);
    }
    SweepEnds(m, w, r, linesCleared, j, y);
  }

  // ------------------------------------------------------------- garbage

  /** A garbage row: every cell is garbage except the hole. */
  function GarbageRow(w: nat, hole: nat): seq<int> {
    seq(w, x => if x == hole then EmptyCell else GarbageCell)
  }

  /** The hole columns `Math.random` would pick, one per injected row, each on
      the board. */
  predicate ValidHoles(holes: seq<nat>, lines: int, w: nat) {
    && |holes| == (if lines > 0 then lines else 0)
    && forall i | 0 <= i < |holes| :: holes[i] < w
  }

  /** `addGarbage(lines)`: drops the top `lines` rows and appends `lines`
      garbage rows at the bottom.  A count of 0 or less removes and adds
      nothing; a count that removes every row throws when the width of row 0
      is read, and the board it leaves behind is the emptied one.  The hole
      columns are the parameter `holes`. */
  method AddGarbage(m: Grid, lines: int, holes: seq<nat>) returns (r: Grid, thrown: Option<ArenaError>)
    requires IsBoard(m)
    requires ValidHoles(holes, lines, Width(m))
    ensures thrown.Some? <==> lines > 0 && lines >= |m|
    ensures thrown.Some? ==> thrown == Some(NoRowLeft) && r == []
    ensures lines <= 0 ==> r == m && thrown == None
    ensures thrown.None? ==> |r| == |m| && Rect(r, Width(m))
    ensures thrown.None? ==> forall y | 0 <= y < |m| - |holes| :: r[y] == m[y + |holes|]
    ensures thrown.None? ==> forall i | 0 <= i < |holes| ::
              r[|m| - |holes| + i] == GarbageRow(Width(m), holes[i])
  {
    if lines <= 0 {
      return m, None;
    }
    if lines >= |m| {
      return [], Some(NoRowLeft);
    }
    var w := |m[lines]|;
    assert w == Width(m);
    var g := m[lines..];
    var i := 0;
    while i < lines
      invariant 0 <= i <= lines
      invariant |g| == |m| - lines + i
      invariant Rect(g, w)
      invariant g[..|m| - lines] == m[lines..]
      invariant forall k | 0 <= k < i :: g[|m| - lines + k] == GarbageRow(w, holes[k])
    {
      g := g + [GarbageRow(w, holes[i])];
      i := i + 1;
    }
    return g, None;
  }
}
