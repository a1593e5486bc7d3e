/** The grid of the game as a value: cells, positions, neighbourhoods and the
    counting facts that generation, reveal and the win check rely on. */
module Board {

  /** Side of the square grid and number of mines the game is played with. */
  const GridSize: nat := 9
  const NumMines: nat := 10

  /** One square of the grid. `adjacent` is meaningful for non-mine cells only;
      mine cells keep the 0 they were allocated with. */
  datatype Cell = Cell(mine: bool, revealed: bool, flagged: bool, adjacent: nat)

  /** A cell as generation allocates it: no mine, hidden, unflagged, count 0. */
  const Blank: Cell := Cell(false, false, false, 0)

  /** (row, column) */
  type Pos = (int, int)

  /** Row-major grid of cells. */
  type Grid = seq<seq<Cell>>

  predicate IsSquare(g: Grid, n: nat) {
    |g| == n && forall i :: 0 <= i < n ==> |g[i]| == n
  }

  predicate InBounds(n: nat, p: Pos) {
    0 <= p.0 < n && 0 <= p.1 < n
  }

  /** q is one of the eight cells around p (Chebyshev distance exactly 1). */
  predicate Adjacent(p: Pos, q: Pos) {
    p != q && -1 <= q.0 - p.0 <= 1 && -1 <= q.1 - p.1 <= 1
  }

  /** The value of a grid held in a two-dimensional array. */
  ghost function Snapshot(a: array2<Cell>): (g: Grid)
    reads a
    ensures |g| == a.Length0
    ensures forall i :: 0 <= i < a.Length0 ==> |g[i]| == a.Length1
    ensures forall i, j :: 0 <= i < a.Length0 && 0 <= j < a.Length1 ==> g[i][j] == a[i, j]
  {
    seq(a.Length0, i requires 0 <= i < a.Length0 reads a =>
      seq(a.Length1, j requires 0 <= j < a.Length1 reads a => a[i, j]))
  }

  /** All positions of a rows-by-cols rectangle anchored at (0, 0). */
  ghost function Rect(rows: int, cols: int): set<Pos> {
    set i, j | 0 <= i < rows && 0 <= j < cols :: (i, j)
  }

  /** Row i of a rectangle that is cols wide. */
  ghost function Row(i: int, cols: int): set<Pos> {
    set j | 0 <= j < cols :: (i, j)
  }

  /** The in-bounds cells around p on an n-by-n grid. */
  ghost function Neighbours(n: nat, p: Pos): set<Pos> {
    set i, j | p.0 - 1 <= i <= p.0 + 1 && p.1 - 1 <= j <= p.1 + 1
               && 0 <= i < n && 0 <= j < n && Adjacent(p, (i, j)) :: (i, j)
  }

  /** The mines among the in-bounds cells around p. */
  ghost function MineNeighbours(g: Grid, n: nat, p: Pos): set<Pos>
    requires IsSquare(g, n)
  {
    set i, j | p.0 - 1 <= i <= p.0 + 1 && p.1 - 1 <= j <= p.1 + 1
               && 0 <= i < n && 0 <= j < n && Adjacent(p, (i, j)) && g[i][j].mine :: (i, j)
  }

  /** Number of mines around p: what a revealed non-mine cell displays. */
  ghost function MinesAround(g: Grid, n: nat, p: Pos): nat
    requires IsSquare(g, n)
  {
    |MineNeighbours(g, n, p)|
  }

  ghost function MinePositions(g: Grid, n: nat): set<Pos>
    requires IsSquare(g, n)
  {
    set i, j | 0 <= i < n && 0 <= j < n && g[i][j].mine :: (i, j)
  }

  ghost function RevealedPositions(g: Grid, n: nat): set<Pos>
    requires IsSquare(g, n)
  {
    set i, j | 0 <= i < n && 0 <= j < n && g[i][j].revealed :: (i, j)
  }

  /** The distinct cells named by a sequence of mine-placement picks. */
  ghost function PickSet(picks: seq<Pos>): set<Pos> {
    set p | p in picks
  }

  /** Every non-mine cell holds the number of mines around it; mine cells hold 0. */
  ghost predicate AdjacencyCorrect(g: Grid, n: nat)
    requires IsSquare(g, n)
  {
    forall i, j :: 0 <= i < n && 0 <= j < n ==>
      g[i][j].adjacent == if g[i][j].mine then 0 else MinesAround(g, n, (i, j))
  }

  /** The win condition: every cell without a mine has been revealed. */
  predicate AllSafeRevealed(g: Grid, n: nat)
    requires IsSquare(g, n)
  {
    forall i, j :: 0 <= i < n && 0 <= j < n && !g[i][j].mine ==> g[i][j].revealed
  }

  predicate NoMineRevealed(g: Grid, n: nat)
    requires IsSquare(g, n)
  {
    forall i, j :: 0 <= i < n && 0 <= j < n && g[i][j].revealed ==> !g[i][j].mine
  }

  /** g and h place the same mines. */
  predicate SameMines(g: Grid, h: Grid, n: nat)
    requires IsSquare(g, n) && IsSquare(h, n)
  {
    forall i, j :: 0 <= i < n && 0 <= j < n ==> g[i][j].mine == h[i][j].mine
  }

  /** g and h agree on everything generation decides: mines and counts. */
  predicate SameLayout(g: Grid, h: Grid, n: nat)
    requires IsSquare(g, n) && IsSquare(h, n)
  {
    SameMines(g, h, n) &&
    forall i, j :: 0 <= i < n && 0 <= j < n ==> g[i][j].adjacent == h[i][j].adjacent
  }

  /** A cell the flood fill or a click either left alone or uncovered: it was
      hidden, unflagged and not a mine, and only `revealed` changed. */
  predicate KeptOrUncovered(before: Cell, after: Cell) {
    after == before ||
    (!before.revealed && !before.flagged && !before.mine && after == before.(revealed := true))
  }

  /** h is g with some hidden, unflagged, mine-free cells revealed, and
      nothing else changed. */
  predicate Uncovers(g: Grid, h: Grid, n: nat)
    requires IsSquare(g, n) && IsSquare(h, n)
  {
    forall i, j :: 0 <= i < n && 0 <= j < n ==> KeptOrUncovered(g[i][j], h[i][j])
  }

  /** Every in-bounds cell around p is revealed or flagged. */
  predicate Surrounded(g: Grid, n: nat, p: Pos)
    requires IsSquare(g, n)
  {
    forall i, j :: 0 <= i < n && 0 <= j < n && Adjacent(p, (i, j)) ==> g[i][j].revealed || g[i][j].flagged
  }

  /** A revealed, mine-free cell that counts no mines: the cells the flood fill expands. */
  predicate ZeroCell(g: Grid, n: nat, p: Pos)
    requires IsSquare(g, n)
  {
    InBounds(n, p) && g[p.0][p.1].revealed && !g[p.0][p.1].mine && g[p.0][p.1].adjacent == 0
  }

  /** What expanding the cell p may do to the cell q: leave it alone, or, when
      q is next to p, uncover it. */
  predicate UncoveredNear(p: Pos, q: Pos, before: Cell, after: Cell) {
    after == before || (Adjacent(p, q) && KeptOrUncovered(before, after))
  }

  /** p is a zero-count cell that h shows changed from g: a cell the flood fill
      uncovered and must expand in turn. */
  predicate UncoveredZero(g: Grid, h: Grid, n: nat, p: Pos)
    requires IsSquare(g, n) && IsSquare(h, n)
  {
    InBounds(n, p) && h[p.0][p.1] != g[p.0][p.1] && h[p.0][p.1].adjacent == 0
  }

  /** What a finished flood fill leaves on h, started from g: every zero-count
      cell it uncovered has all its neighbours revealed or flagged, and every
      cell it uncovered is such a cell or lies next to one. */
  ghost predicate FloodClosed(g: Grid, h: Grid, n: nat)
    requires IsSquare(g, n) && IsSquare(h, n)
  {
    (forall p :: UncoveredZero(g, h, n, p) ==> Surrounded(h, n, p)) &&
    (forall i, j :: 0 <= i < n && 0 <= j < n && h[i][j] != g[i][j] ==>
      UncoveredZero(g, h, n, (i, j)) || exists p :: UncoveredZero(g, h, n, p) && Adjacent(p, (i, j)))
  }

  // ---------------------------------------------------------------------------
  // Cardinality helpers

  lemma SubsetCard(a: set<Pos>, b: set<Pos>)
    requires a <= b
    ensures |a| <= |b|
    ensures |b - a| == |b| - |a|
  {
    assert b == a + (b - a);
    assert a * (b - a) == {};
  }

  lemma {:induction false} RowSize(i: int, cols: nat)
    ensures |Row(i, cols)| == cols
  {
    if cols > 0 {
      RowSize(i, cols - 1);
      assert Row(i, cols) == Row(i, cols - 1) + {(i, cols - 1)};
    } else {
      assert Row(i, cols) == {};
    }
  }

  /** A rectangle one row taller is the old one plus the disjoint new row. */
  lemma RectSplit(rows: nat, cols: nat)
    ensures |Rect(rows + 1, cols)| == |Rect(rows, cols)| + |Row(rows, cols)|
  {
    var top, last := Rect(rows, cols), Row(rows, cols);
    forall x | x in Rect(rows + 1, cols) ensures x in top + last {
      var (i, j) := x;
      if i < rows { assert (i, j) in top; } else { assert (i, j) in last; }
    }
    assert Rect(rows + 1, cols) == top + last;
    assert top * last == {};
  }

  lemma {:induction false} RectSize(rows: nat, cols: nat)
    ensures |Rect(rows, cols)| == rows * cols
  {
    if rows > 0 {
      RectSize(rows - 1, cols);
      RowSize(rows - 1, cols);
      RectSplit(rows - 1, cols);
      assert (rows - 1) * cols + cols == rows * cols;
    } else {
      assert Rect(rows, cols) == {};
    }
  }

  // ---------------------------------------------------------------------------
  // Facts about the grid

  /** A cell has at most eight neighbours, and fewer at the edges. */
  lemma NeighboursAtMostEight(n: nat, p: Pos)
    ensures |Neighbours(n, p)| <= 8
  {
    var (r, c) := p;
    var around := {(r - 1, c - 1), (r - 1, c), (r - 1, c + 1), (r, c - 1),
                   (r, c + 1), (r + 1, c - 1), (r + 1, c), (r + 1, c + 1)};
    assert |around| <= 8;
    forall q | q in Neighbours(n, p) ensures q in around {
      var (i, j) := q;
      assert i == r - 1 || i == r || i == r + 1;
      assert j == c - 1 || j == c || j == c + 1;
    }
    SubsetCard(Neighbours(n, p), around);
  }

  /** On a correctly counted grid every cell's count lies in 0..8. */
  lemma AdjacentAtMostEight(g: Grid, n: nat)
    requires IsSquare(g, n) && AdjacencyCorrect(g, n)
    ensures forall i, j :: 0 <= i < n && 0 <= j < n ==> g[i][j].adjacent <= 8
  {
    forall i, j | 0 <= i < n && 0 <= j < n
      ensures g[i][j].adjacent <= 8
    {
      NeighboursAtMostEight(n, (i, j));
      SubsetCard(MineNeighbours(g, n, (i, j)), Neighbours(n, (i, j)));
    }
  }

  /** The count around a cell depends on where the mines are and on nothing else. */
  lemma MinesAroundOnlyReadsMines(g: Grid, h: Grid, n: nat, p: Pos)
    requires IsSquare(g, n) && IsSquare(h, n) && SameMines(g, h, n)
    ensures MinesAround(g, n, p) == MinesAround(h, n, p)
  {
    assert MineNeighbours(g, n, p) == MineNeighbours(h, n, p);
  }

  /** Revealing, flagging and unflagging keep the generated layout valid. */
  lemma SameLayoutKeepsAdjacency(g: Grid, h: Grid, n: nat)
    requires IsSquare(g, n) && IsSquare(h, n) && SameLayout(g, h, n)
    requires AdjacencyCorrect(g, n)
    ensures AdjacencyCorrect(h, n)
    ensures MinePositions(h, n) == MinePositions(g, n)
  {
    forall i, j | 0 <= i < n && 0 <= j < n
      ensures h[i][j].adjacent == if h[i][j].mine then 0 else MinesAround(h, n, (i, j))
    {
      MinesAroundOnlyReadsMines(g, h, n, (i, j));
    }
  }

  /** A non-mine cell that counts zero mines has no mine next to it: this is
      why the flood fill never uncovers a mine. */
  lemma ZeroAdjacentNeighbourIsSafe(g: Grid, n: nat, p: Pos, q: Pos)
    requires IsSquare(g, n) && AdjacencyCorrect(g, n)
    requires InBounds(n, p) && InBounds(n, q) && Adjacent(p, q)
    requires !g[p.0][p.1].mine && g[p.0][p.1].adjacent == 0
    ensures !g[q.0][q.1].mine
  {
    var mined := MineNeighbours(g, n, p);
    assert g[q.0][q.1].mine ==> q in mined;
  }

  /** Uncovering twice is uncovering. */
  lemma UncoversTransitive(g: Grid, h: Grid, k: Grid, n: nat)
    requires IsSquare(g, n) && IsSquare(h, n) && IsSquare(k, n)
    requires Uncovers(g, h, n) && Uncovers(h, k, n)
    ensures Uncovers(g, k, n)
  {
  }

  /** Uncovering keeps the layout, and since it reveals no mine it keeps a
      board without a revealed mine that way. */
  lemma UncoversKeepsLayout(g: Grid, h: Grid, n: nat)
    requires IsSquare(g, n) && IsSquare(h, n) && Uncovers(g, h, n)
    ensures SameLayout(g, h, n)
    ensures NoMineRevealed(g, n) ==> NoMineRevealed(h, n)
  {
  }

  /** Uncovering changes no mine and no count, so around a zero cell of the
      uncovered grid there is still no mine. */
  lemma ZeroCellNeighboursSafe(g: Grid, h: Grid, n: nat, p: Pos)
    requires IsSquare(g, n) && IsSquare(h, n) && AdjacencyCorrect(g, n)
    requires Uncovers(g, h, n) && ZeroCell(h, n, p)
    ensures forall i, j :: 0 <= i < n && 0 <= j < n && Adjacent(p, (i, j)) ==> !h[i][j].mine
  {
    forall i, j | 0 <= i < n && 0 <= j < n && Adjacent(p, (i, j))
      ensures !h[i][j].mine
    {
      assert KeptOrUncovered(g[p.0][p.1], h[p.0][p.1]);
      assert KeptOrUncovered(g[i][j], h[i][j]);
      ZeroAdjacentNeighbourIsSafe(g, n, p, (i, j));
    }
  }

  /** One expansion around `top` keeps what the flood fill has established:
      the grid still only uncovers the original one, zero cells stay zero
      cells, surrounded cells stay surrounded, and a cell that differs from
      the original either differed already or lies around `top`. */
  lemma UncoverStep(g: Grid, prev: Grid, h: Grid, n: nat, top: Pos)
    requires IsSquare(g, n) && IsSquare(prev, n) && IsSquare(h, n)
    requires Uncovers(g, prev, n)
    requires forall i, j :: 0 <= i < n && 0 <= j < n ==> UncoveredNear(top, (i, j), prev[i][j], h[i][j])
    ensures Uncovers(g, h, n)
    ensures forall p :: ZeroCell(prev, n, p) ==> ZeroCell(h, n, p)
    ensures forall p :: Surrounded(prev, n, p) ==> Surrounded(h, n, p)
    ensures forall i, j :: 0 <= i < n && 0 <= j < n && h[i][j] != g[i][j] ==>
      prev[i][j] != g[i][j] || Adjacent(top, (i, j))
  {
  }

  /** Revealing the zero-count cell o on g0 (giving g1) and then flooding from
      it (giving g) closes the flood as seen from g0: o is itself an uncovered
      zero cell, so "next to o" becomes "next to an uncovered zero cell". */
  lemma RevealThenFlood(g0: Grid, g1: Grid, g: Grid, n: nat, o: Pos)
    requires IsSquare(g0, n) && IsSquare(g1, n) && IsSquare(g, n) && InBounds(n, o)
    requires g1[o.0][o.1] == g0[o.0][o.1].(revealed := true) && !g0[o.0][o.1].revealed
    requires g1[o.0][o.1].adjacent == 0
    requires forall i, j :: 0 <= i < n && 0 <= j < n && (i, j) != o ==> g1[i][j] == g0[i][j]
    requires Uncovers(g1, g, n) && Surrounded(g, n, o)
    requires forall p :: UncoveredZero(g1, g, n, p) ==> Surrounded(g, n, p)
    requires forall i, j :: 0 <= i < n && 0 <= j < n && g[i][j] != g1[i][j] ==>
      Adjacent(o, (i, j)) || exists p :: UncoveredZero(g1, g, n, p) && Adjacent(p, (i, j))
    ensures FloodClosed(g0, g, n)
  {
    assert g[o.0][o.1] == g1[o.0][o.1];
    assert UncoveredZero(g0, g, n, o);
    forall p | UncoveredZero(g0, g, n, p) ensures Surrounded(g, n, p) {
      if p != o {
        assert UncoveredZero(g1, g, n, p);
      }
    }
    forall i, j | 0 <= i < n && 0 <= j < n && g[i][j] != g0[i][j]
      ensures UncoveredZero(g0, g, n, (i, j)) || exists p :: UncoveredZero(g0, g, n, p) && Adjacent(p, (i, j))
    {
      if (i, j) != o && !Adjacent(o, (i, j)) {
        var p :| UncoveredZero(g1, g, n, p) && Adjacent(p, (i, j));
        assert p != o;
        assert UncoveredZero(g0, g, n, p);
      }
    }
  }

  /** The win condition in counting form: while no mine is showing, every safe
      cell is revealed exactly when the revealed cells number n*n minus the mines. */
  lemma WinIffRevealedCount(g: Grid, n: nat)
    requires IsSquare(g, n) && NoMineRevealed(g, n)
    ensures AllSafeRevealed(g, n) <==> |RevealedPositions(g, n)| == n * n - |MinePositions(g, n)|
  {
    var all, mines, shown := Rect(n, n), MinePositions(g, n), RevealedPositions(g, n);
    var safe := all - mines;
    RectSize(n, n);
    SubsetCard(mines, all);
    assert shown <= safe;
    SubsetCard(shown, safe);
    if AllSafeRevealed(g, n) {
      assert safe <= shown;
    }
    if |shown| == n * n - |mines| {
      assert safe - shown == {};
      forall i, j | 0 <= i < n && 0 <= j < n && !g[i][j].mine
        ensures g[i][j].revealed
      {
        assert (i, j) in safe;
      }
    }
  }
}
