/** Building a fresh grid: mines are placed by rejection sampling over a
    stream of candidate cells, then every non-mine cell gets its count. */
module Generation {
  import opened Board

  /** The mines are the distinct cells of the shortest prefix of `picks` that
      names `count` distinct cells. */
  ghost predicate FirstDistinctPicks(mines: set<Pos>, count: nat, picks: seq<Pos>) {
    exists used :: 0 <= used <= |picks| && mines == PickSet(picks[..used]) && |mines| == count &&
      (used == 0 || |PickSet(picks[..used - 1])| < count)
  }

  /** Whether the offset (dr, dc) from p names an in-bounds mine other than p. */
  ghost predicate MineAt(g: Grid, n: nat, p: Pos, dr: int, dc: int)
    requires IsSquare(g, n)
  {
    (dr, dc) != (0, 0) && InBounds(n, (p.0 + dr, p.1 + dc)) && g[p.0 + dr][p.1 + dc].mine
  }

  /** The count the loop over offsets around p holds on reaching offset
      (dr, dc): the mines at the offsets it visited before, row by row, column
      offsets -1 to 1 within a row, so that (dr, 2) and (dr + 1, -1) are the
      same point and (2, -1) is the end. Offsets outside that range count 0. */
  ghost function ScanCount(g: Grid, n: nat, p: Pos, dr: int, dc: int): nat
    requires IsSquare(g, n)
    decreases 4 * (dr + 1) + dc + 1
  {
    if dr < -1 || dc < -1 || dr > 2 || dc > 2 then 0
    else if dc == -1 then
      if dr == -1 then 0 else ScanCount(g, n, p, dr - 1, 2)
    else
      ScanCount(g, n, p, dr, dc - 1) + if MineAt(g, n, p, dr, dc - 1) then 1 else 0
  }

  /** The mines around p in an earlier row offset than dr, or in row offset dr
      at a column offset before dc. */
  ghost function Scanned(g: Grid, n: nat, p: Pos, dr: int, dc: int): set<Pos>
    requires IsSquare(g, n)
  {
    set q | q in MineNeighbours(g, n, p) && (q.0 - p.0 < dr || (q.0 - p.0 == dr && q.1 - p.1 < dc))
  }

  /** One more pick adds that pick's cell to the cells picked so far. */
  lemma PickSetStep(picks: seq<Pos>, k: nat)
    requires k < |picks|
    ensures PickSet(picks[..k + 1]) == PickSet(picks[..k]) + {picks[k]}
  {
    assert picks[..k + 1] == picks[..k] + [picks[k]];
  }

  /** While fewer than `mines` distinct cells have been drawn, and the draws
      hold at least `mines` distinct cells, a draw is left. */
  lemma PicksLeft(picks: seq<Pos>, k: nat, mines: nat)
    requires k <= |picks| && |PickSet(picks[..k])| < mines <= |PickSet(picks)|
    ensures k < |picks|
  {
    assert picks[..|picks|] == picks;
  }

  /** Adding a cell to a set grows it by one exactly when the cell is new. */
  lemma AddOneCard(s: set<Pos>, x: Pos)
    ensures |s + {x}| == if x in s then |s| else |s| + 1
  {
    if x in s {
      assert s + {x} == s;
    }
  }

  /** A grid whose mines are marked exactly on the in-bounds cells of s has
      s as its set of mine positions. */
  lemma MinePositionsAre(g: Grid, n: nat, s: set<Pos>)
    requires IsSquare(g, n)
    requires forall p :: p in s ==> InBounds(n, p)
    requires forall i, j :: 0 <= i < n && 0 <= j < n ==> (g[i][j].mine <==> (i, j) in s)
    ensures MinePositions(g, n) == s
  {
    forall x | x in s ensures x in MinePositions(g, n) {
      var (i, j) := x;
      assert InBounds(n, x);
    }
  }

  /** Draws candidate cells from `picks` (standing for the random draws) until
      `mines` distinct cells are mines; a draw that hits a mine is ignored. */
  method PlaceMines(a: array2<Cell>, mines: nat, picks: seq<Pos>) returns (ghost used: nat)
    requires a.Length0 == a.Length1
    requires forall i, j :: 0 <= i < a.Length0 && 0 <= j < a.Length1 ==> !a[i, j].mine
    requires forall k :: 0 <= k < |picks| ==> InBounds(a.Length0, picks[k])
    requires |PickSet(picks)| >= mines
    modifies a
    ensures used <= |picks|
    ensures MinePositions(Snapshot(a), a.Length0) == PickSet(picks[..used])
    ensures |PickSet(picks[..used])| == mines
    ensures used == 0 || |PickSet(picks[..used - 1])| < mines
    ensures forall i, j :: 0 <= i < a.Length0 && 0 <= j < a.Length1 ==>
      a[i, j] == old(a[i, j]).(mine := (i, j) in PickSet(picks[..used]))
  {
    var n := a.Length0;
    var placed := 0;
    used := 0;
    var k := 0;
    ghost var chosen: set<Pos> := {};
    while placed < mines
      invariant k == used <= |picks|
      invariant chosen == PickSet(picks[..k])
      invariant placed == |chosen| <= mines
      invariant k == 0 || |PickSet(picks[..k - 1])| < mines
      invariant forall i, j :: 0 <= i < n && 0 <= j < n ==> a[i, j] == old(a[i, j]).(mine := (i, j) in chosen)
      decreases |picks| - k
    {
      PicksLeft(picks, k, mines);
      var (r, c) := picks[k];
      PickSetStep(picks, k);
      assert a[r, c].mine == ((r, c) in chosen);
      if !a[r, c].mine {
        a[r, c] := a[r, c].(mine := true);
        placed := placed + 1;
      }
      AddOneCard(chosen, (r, c));
      chosen := chosen + {(r, c)};
      k := k + 1;
      used := k;
    }
    ghost var g: Grid := Snapshot(a);
    MinePositionsAre(g, n, chosen);
  }

  /** Passing offset (dr, dc) adds that cell to the scanned mines exactly
      when it is an in-bounds mine other than p. */
  lemma ScanStep(g: Grid, n: nat, p: Pos, dr: int, dc: int)
    requires IsSquare(g, n) && -1 <= dr <= 1 && -1 <= dc <= 1
    ensures |Scanned(g, n, p, dr, dc + 1)| == |Scanned(g, n, p, dr, dc)| + if MineAt(g, n, p, dr, dc) then 1 else 0
  {
    if MineAt(g, n, p, dr, dc) {
      ScanHit(g, n, p, dr, dc);
    } else {
      ScanMiss(g, n, p, dr, dc);
    }
  }

  /** At an offset holding a mine, the scanned set grows by that one cell. */
  lemma ScanHit(g: Grid, n: nat, p: Pos, dr: int, dc: int)
    requires IsSquare(g, n) && -1 <= dr <= 1 && -1 <= dc <= 1 && MineAt(g, n, p, dr, dc)
    ensures (p.0 + dr, p.1 + dc) !in Scanned(g, n, p, dr, dc)
    ensures Scanned(g, n, p, dr, dc + 1) == Scanned(g, n, p, dr, dc) + {(p.0 + dr, p.1 + dc)}
  {
    assert (p.0 + dr, p.1 + dc) in MineNeighbours(g, n, p);
  }

  /** At any other offset the scanned set stays as it is. */
  lemma ScanMiss(g: Grid, n: nat, p: Pos, dr: int, dc: int)
    requires IsSquare(g, n) && -1 <= dr <= 1 && -1 <= dc <= 1 && !MineAt(g, n, p, dr, dc)
    ensures Scanned(g, n, p, dr, dc + 1) == Scanned(g, n, p, dr, dc)
  {
  }

  /** Column offsets run from -1 to 1, so finishing row offset dr is starting dr + 1. */
  lemma ScanNextRow(g: Grid, n: nat, p: Pos, dr: int)
    requires IsSquare(g, n)
    ensures |Scanned(g, n, p, dr, 2)| == |Scanned(g, n, p, dr + 1, -1)|
  {
    assert Scanned(g, n, p, dr, 2) == Scanned(g, n, p, dr + 1, -1);
  }

  /** Nothing is scanned before offset (-1, -1), everything after row offset 1. */
  lemma ScanBounds(g: Grid, n: nat, p: Pos)
    requires IsSquare(g, n)
    ensures |Scanned(g, n, p, -1, -1)| == 0
    ensures |Scanned(g, n, p, 2, -1)| == MinesAround(g, n, p)
  {
    assert Scanned(g, n, p, -1, -1) == {};
    assert Scanned(g, n, p, 2, -1) == MineNeighbours(g, n, p);
  }

  /** The running count at each offset is the number of mines scanned so far. */
  lemma {:induction false} ScanCountIsScanned(g: Grid, n: nat, p: Pos, dr: int, dc: int)
    requires IsSquare(g, n) && -1 <= dr <= 2 && -1 <= dc <= 2 && (dr == 2 ==> dc == -1)
    ensures ScanCount(g, n, p, dr, dc) == |Scanned(g, n, p, dr, dc)|
    decreases 4 * (dr + 1) + dc + 1
  {
    if dc == -1 {
      if dr == -1 {
        ScanBounds(g, n, p);
      } else {
        assert ScanCount(g, n, p, dr, dc) == ScanCount(g, n, p, dr - 1, 2);
        ScanCountIsScanned(g, n, p, dr - 1, 2);
        ScanNextRow(g, n, p, dr - 1);
      }
    } else {
      assert ScanCount(g, n, p, dr, dc) == ScanCount(g, n, p, dr, dc - 1) + if MineAt(g, n, p, dr, dc - 1) then 1 else 0;
      ScanCountIsScanned(g, n, p, dr, dc - 1);
      ScanStep(g, n, p, dr, dc - 1);
    }
  }

  /** Past the last row the count is exactly the mines around p. */
  lemma ScanCountIsMinesAround(g: Grid, n: nat, p: Pos)
    requires IsSquare(g, n)
    ensures ScanCount(g, n, p, 2, -1) == MinesAround(g, n, p)
  {
    ScanCountIsScanned(g, n, p, 2, -1);
    ScanBounds(g, n, p);
  }

  /** Counts the mines among the in-bounds cells around (r, c) of the array
      `a`, whose contents are the grid `g`. */
  method CountAdjacentMines(a: array2<Cell>, r: int, c: int, ghost g: Grid) returns (count: nat)
    requires a.Length0 == a.Length1 && IsSquare(g, a.Length0)
    requires forall i, j :: 0 <= i < a.Length0 && 0 <= j < a.Length1 ==> g[i][j] == a[i, j]
    requires 0 <= r < a.Length0 && 0 <= c < a.Length1
    ensures count == MinesAround(g, a.Length0, (r, c))
  {
    var n := a.Length0;
    count := 0;
    for dr := -1 to 2
      invariant count == ScanCount(g, n, (r, c), dr, -1)
    {
      for dc := -1 to 2
        invariant count == ScanCount(g, n, (r, c), dr, dc)
      {
        ghost var before := count;
        if dr == 0 && dc == 0 {
          continue;
        }
        var nr, nc := r + dr, c + dc;
        if 0 <= nr < n && 0 <= nc < n {
          if a[nr, nc].mine {
            count := count + 1;
          }
        }
        assert count == before + if MineAt(g, n, (r, c), dr, dc) then 1 else 0;
      }
    }
    ScanCountIsMinesAround(g, n, (r, c));
  }

  /** Gives every non-mine cell the number of mines around it. */
  method ComputeAdjacency(a: array2<Cell>)
    requires a.Length0 == a.Length1
    requires forall i, j :: 0 <= i < a.Length0 && 0 <= j < a.Length1 && a[i, j].mine ==> a[i, j].adjacent == 0
    modifies a
    ensures AdjacencyCorrect(Snapshot(a), a.Length0)
    ensures forall i, j :: 0 <= i < a.Length0 && 0 <= j < a.Length1 ==>
      a[i, j] == old(a[i, j]).(adjacent := a[i, j].adjacent)
  {
    var n := a.Length0;
    ghost var g0 := Snapshot(a);
    for r := 0 to n
      invariant forall i, j :: 0 <= i < n && 0 <= j < n ==>
        a[i, j] == old(a[i, j]).(adjacent := a[i, j].adjacent)
      invariant forall i, j :: 0 <= i < n && 0 <= j < n && a[i, j].mine ==> a[i, j].adjacent == 0
      invariant forall i, j :: 0 <= i < r && 0 <= j < n && !a[i, j].mine ==>
        a[i, j].adjacent == MinesAround(g0, n, (i, j))
    {
      for c := 0 to n
        invariant forall i, j :: 0 <= i < n && 0 <= j < n ==>
          a[i, j] == old(a[i, j]).(adjacent := a[i, j].adjacent)
        invariant forall i, j :: 0 <= i < n && 0 <= j < n && a[i, j].mine ==> a[i, j].adjacent == 0
        invariant forall i, j :: 0 <= i < n && 0 <= j < n && (i < r || (i == r && j < c)) && !a[i, j].mine ==>
          a[i, j].adjacent == MinesAround(g0, n, (i, j))
      {
        if a[r, c].mine {
          continue;
        }
        var count := CountAdjacentMines(a, r, c, Snapshot(a));
        MinesAroundOnlyReadsMines(Snapshot(a), g0, n, (r, c));
        a[r, c] := a[r, c].(adjacent := count);
      }
    }
    ghost var g: Grid := Snapshot(a);
    forall i: int, j: int | 0 <= i < n && 0 <= j < n
      ensures g[i][j].adjacent == if g[i][j].mine then 0 else MinesAround(g, n, (i, j))
    {
      MinesAroundOnlyReadsMines(g, g0, n, (i, j));
    }
  }

  /** A new n-by-n grid: every cell hidden and unflagged, the mines the first
      `mines` distinct picks, every non-mine cell counting its neighbouring mines. */
  method Generate(n: nat, mines: nat, picks: seq<Pos>) returns (a: array2<Cell>)
    requires forall k :: 0 <= k < |picks| ==> InBounds(n, picks[k])
    requires |PickSet(picks)| >= mines
    ensures fresh(a)
    ensures a.Length0 == n && a.Length1 == n
    ensures forall i, j :: 0 <= i < n && 0 <= j < n ==> !a[i, j].revealed && !a[i, j].flagged
    ensures FirstDistinctPicks(MinePositions(Snapshot(a), n), mines, picks)
    ensures AdjacencyCorrect(Snapshot(a), n)
  {
    a := new Cell[n, n]((i, j) => Blank);
    ghost var used := PlaceMines(a, mines, picks);
    ghost var placed := Snapshot(a);
    ComputeAdjacency(a);
    ghost var g := Snapshot(a);
    assert SameMines(placed, g, n);
    assert MinePositions(g, n) == MinePositions(placed, n);
  }
}
