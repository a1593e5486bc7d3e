/** The game component's state and the operations the player triggers:
    revealing a cell (with its flood fill), flagging a cell, and the win check. */
module Engine {
  import opened Board
  import Generation
  import opened Flood

  class Minesweeper {
    const size: nat
    const mineCount: nat
    /** The grid; clicks update its cells in place. */
    const cells: array2<Cell>
    var gameOver: bool
    var won: bool

    /** The game invariant: the generated layout is intact, a win is a game
        over with every safe cell shown, and a mine is showing exactly when
        the game was lost. */
    ghost predicate Valid()
      reads this, cells
    {
      cells.Length0 == size && cells.Length1 == size &&
      |MinePositions(Snapshot(cells), size)| == mineCount &&
      AdjacencyCorrect(Snapshot(cells), size) &&
      (won ==> gameOver && AllSafeRevealed(Snapshot(cells), size)) &&
      (NoMineRevealed(Snapshot(cells), size) <==> !gameOver || won)
    }

    /** A new game on an n-by-n grid whose mines are the first `mines` distinct
        cells drawn from `picks`. */
    constructor (n: nat, mines: nat, picks: seq<Pos>)
      requires forall k :: 0 <= k < |picks| ==> InBounds(n, picks[k])
      requires |PickSet(picks)| >= mines
      ensures Valid() && fresh(cells)
      ensures size == n && mineCount == mines && !gameOver && !won
      ensures forall i, j :: 0 <= i < n && 0 <= j < n ==> !cells[i, j].revealed && !cells[i, j].flagged
      ensures Generation.FirstDistinctPicks(MinePositions(Snapshot(cells), n), mines, picks)
    {
      var a := Generation.Generate(n, mines, picks);
      size, mineCount, cells := n, mines, a;
      gameOver, won := false, false;
    }

    /** Reveals (r, c). A click after the game is over, on a revealed cell or on
        a flagged cell does nothing. A mine loses the game; any other cell is
        revealed by RevealSafe. */
    method RevealCell(r: int, c: int)
      requires Valid()
      requires 0 <= r < size && 0 <= c < size
      modifies this, cells
      ensures Valid()
      ensures old(gameOver || cells[r, c].revealed || cells[r, c].flagged) ==>
        gameOver == old(gameOver) && won == old(won) &&
        forall i, j :: 0 <= i < size && 0 <= j < size ==> cells[i, j] == old(cells[i, j])
      ensures old(!gameOver && !cells[r, c].revealed && !cells[r, c].flagged && cells[r, c].mine) ==>
        gameOver && !won && cells[r, c] == old(cells[r, c]).(revealed := true) &&
        forall i, j :: 0 <= i < size && 0 <= j < size && (i, j) != (r, c) ==> cells[i, j] == old(cells[i, j])
      ensures old(!gameOver && !cells[r, c].revealed && !cells[r, c].flagged && !cells[r, c].mine) ==>
        cells[r, c] == old(cells[r, c]).(revealed := true) &&
        Uncovers(old(Snapshot(cells)), Snapshot(cells), size) &&
        (old(cells[r, c].adjacent) != 0 ==>
          forall i, j :: 0 <= i < size && 0 <= j < size && (i, j) != (r, c) ==> cells[i, j] == old(cells[i, j])) &&
        (old(cells[r, c].adjacent) == 0 ==>
          Surrounded(Snapshot(cells), size, (r, c)) && FloodClosed(old(Snapshot(cells)), Snapshot(cells), size)) &&
        won == gameOver == AllSafeRevealed(Snapshot(cells), size)
    {
      if gameOver || cells[r, c].revealed || cells[r, c].flagged {
        return;
      }
      if cells[r, c].mine {
        ghost var g0 := Snapshot(cells);
        cells[r, c] := cells[r, c].(revealed := true);
        gameOver := true;
        ghost var g := Snapshot(cells);
        assert SameLayout(g0, g, size);
        SameLayoutKeepsAdjacency(g0, g, size);
        assert !NoMineRevealed(g, size) by {
          assert g[r][c].revealed && g[r][c].mine;
        }
        return;
      }
      RevealSafe(r, c);
    }

    /** Reveals the hidden, unflagged, mine-free cell (r, c) of a running game,
        floods outward from it when it has no mine around it, and runs the win
        check. */
    method RevealSafe(r: int, c: int)
      requires Valid() && !gameOver
      requires 0 <= r < size && 0 <= c < size
      requires !cells[r, c].revealed && !cells[r, c].flagged && !cells[r, c].mine
      modifies this, cells
      ensures Valid()
      ensures cells[r, c] == old(cells[r, c]).(revealed := true)
      ensures Uncovers(old(Snapshot(cells)), Snapshot(cells), size)
      ensures old(cells[r, c].adjacent) != 0 ==>
        forall i, j :: 0 <= i < size && 0 <= j < size && (i, j) != (r, c) ==> cells[i, j] == old(cells[i, j])
      ensures old(cells[r, c].adjacent) == 0 ==>
        Surrounded(Snapshot(cells), size, (r, c)) && FloodClosed(old(Snapshot(cells)), Snapshot(cells), size)
      ensures won == gameOver == AllSafeRevealed(Snapshot(cells), size)
    {
      ghost var g0 := Snapshot(cells);
      cells[r, c] := cells[r, c].(revealed := true);
      ghost var g1 := Snapshot(cells);
      assert Uncovers(g0, g1, size);
      UncoversKeepsLayout(g0, g1, size);
      SameLayoutKeepsAdjacency(g0, g1, size);
      if cells[r, c].adjacent == 0 {
        FloodFill(r, c);
        RevealThenFlood(g0, g1, Snapshot(cells), size, (r, c));
      }
      ghost var g := Snapshot(cells);
      UncoversTransitive(g0, g1, g, size);
      UncoversKeepsLayout(g0, g, size);
      SameLayoutKeepsAdjacency(g0, g, size);
      CheckWin();
    }

    /** The flood fill from the zero-count cell (r, c): a stack of cells to
        expand, each expansion uncovering the cells around the popped one. */
    method FloodFill(r: int, c: int)
      requires cells.Length0 == size && cells.Length1 == size
      requires AdjacencyCorrect(Snapshot(cells), size)
      requires ZeroCell(Snapshot(cells), size, (r, c))
      modifies cells
      ensures Uncovers(old(Snapshot(cells)), Snapshot(cells), size)
      ensures Surrounded(Snapshot(cells), size, (r, c))
      ensures forall p :: UncoveredZero(old(Snapshot(cells)), Snapshot(cells), size, p) ==>
        Surrounded(Snapshot(cells), size, p)
      ensures forall i, j :: 0 <= i < size && 0 <= j < size && Snapshot(cells)[i][j] != old(Snapshot(cells))[i][j] ==>
        Adjacent((r, c), (i, j)) ||
        exists p :: UncoveredZero(old(Snapshot(cells)), Snapshot(cells), size, p) && Adjacent(p, (i, j))
    {
      ghost var g0 := Snapshot(cells);
      ghost var cur: Grid := g0;
      var stack := [(r, c)];
      ghost var expanded := {(r, c)};
      ghost var done: set<Pos> := {};
      ghost var hidden := set i, j | 0 <= i < size && 0 <= j < size && !cur[i][j].revealed :: (i, j);
      FillStart(g0, size, (r, c), hidden);
      while |stack| > 0
        invariant cur == Snapshot(cells)
        invariant FillState(g0, cur, size, (r, c), stack, expanded, done, hidden)
        invariant ExpandedAreZeros(g0, cur, size, (r, c), expanded)
        decreases |hidden|, |stack|
      {
        var top := stack[|stack| - 1];
        assert ZeroCell(cur, size, top);
        ZeroCellNeighboursSafe(g0, cur, size, top);
        ghost var prev: Grid := cur;
        var pushed, hidden' := Expand(top, hidden);
        cur := Snapshot(cells);
        FillIteration(g0, prev, cur, size, (r, c), stack, expanded, done, hidden, pushed, hidden');
        stack := stack[..|stack| - 1] + pushed;
        expanded := expanded + PickSet(pushed);
        done := done + {top};
        hidden := hidden';
      }
      FillEnd(g0, cur, size, (r, c), expanded, done, hidden);
    }

    /** One step of the flood fill: every in-bounds cell around `top` that is
        hidden and unflagged is revealed, and those of them that count zero
        mines are pushed onto the stack. */
    method Expand(top: Pos, ghost hidden: set<Pos>)
      returns (pushed: seq<Pos>, ghost hidden': set<Pos>)
      requires cells.Length0 == size && cells.Length1 == size
      requires InBounds(size, top) && cells[top.0, top.1].revealed
      requires forall i, j :: 0 <= i < size && 0 <= j < size && Adjacent(top, (i, j)) ==> !cells[i, j].mine
      requires forall i, j :: 0 <= i < size && 0 <= j < size ==> ((i, j) in hidden <==> !cells[i, j].revealed)
      modifies cells
      ensures forall i, j :: 0 <= i < size && 0 <= j < size ==> UncoveredNear(top, (i, j), old(cells[i, j]), cells[i, j])
      ensures forall i, j :: 0 <= i < size && 0 <= j < size && Adjacent(top, (i, j)) ==> cells[i, j].revealed || cells[i, j].flagged
      ensures forall k :: 0 <= k < |pushed| ==> InBounds(size, pushed[k])
      ensures forall i, j :: 0 <= i < size && 0 <= j < size ==>
        ((i, j) in pushed <==> cells[i, j] != old(cells[i, j]) && cells[i, j].adjacent == 0)
      ensures forall i, j :: 0 <= i < size && 0 <= j < size ==> ((i, j) in hidden' <==> !cells[i, j].revealed)
      ensures |hidden'| + |pushed| <= |hidden|
    {
      var (cr, cc) := top;
      pushed, hidden' := [], hidden;
      for dr := -1 to 2
        invariant forall i, j :: 0 <= i < size && 0 <= j < size && Adjacent(top, (i, j)) && i < cr + dr ==>
          cells[i, j].revealed || cells[i, j].flagged
        invariant forall k :: 0 <= k < |pushed| ==> InBounds(size, pushed[k])
        invariant forall i, j :: 0 <= i < size && 0 <= j < size ==>
          UncoveredNear(top, (i, j), old(cells[i, j]), cells[i, j]) &&
          ((i, j) in hidden' <==> !cells[i, j].revealed) &&
          ((i, j) in pushed <==> cells[i, j] != old(cells[i, j]) && cells[i, j].adjacent == 0)
        invariant |hidden'| + |pushed| <= |hidden|
      {
        for dc := -1 to 2
          invariant forall i, j ::
            0 <= i < size && 0 <= j < size && Adjacent(top, (i, j)) && (i < cr + dr || (i == cr + dr && j < cc + dc))
            ==> cells[i, j].revealed || cells[i, j].flagged
          invariant forall k :: 0 <= k < |pushed| ==> InBounds(size, pushed[k])
          invariant forall i, j :: 0 <= i < size && 0 <= j < size ==>
            UncoveredNear(top, (i, j), old(cells[i, j]), cells[i, j]) &&
            ((i, j) in hidden' <==> !cells[i, j].revealed) &&
            ((i, j) in pushed <==> cells[i, j] != old(cells[i, j]) && cells[i, j].adjacent == 0)
          invariant |hidden'| + |pushed| <= |hidden|
        {
          var nr, nc := cr + dr, cc + dc;
          if 0 <= nr < size && 0 <= nc < size && !cells[nr, nc].revealed && !cells[nr, nc].flagged {
            cells[nr, nc] := cells[nr, nc].(revealed := true);
            hidden' := hidden' - {(nr, nc)};
            if cells[nr, nc].adjacent == 0 {
              pushed := pushed + [(nr, nc)];
            }
          }
        }
      }
    }

    /** Flips the flag on (r, c), unless the game is over or the cell is revealed. */
    method ToggleFlag(r: int, c: int)
      requires Valid()
      requires 0 <= r < size && 0 <= c < size
      modifies cells
      ensures Valid()
      ensures old(gameOver || cells[r, c].revealed) ==>
        forall i, j :: 0 <= i < size && 0 <= j < size ==> cells[i, j] == old(cells[i, j])
      ensures !old(gameOver || cells[r, c].revealed) ==>
        cells[r, c] == old(cells[r, c]).(flagged := !old(cells[r, c].flagged)) &&
        forall i, j :: 0 <= i < size && 0 <= j < size && (i, j) != (r, c) ==> cells[i, j] == old(cells[i, j])
    {
      if gameOver || cells[r, c].revealed {
        return;
      }
      ghost var g0 := Snapshot(cells);
      cells[r, c] := cells[r, c].(flagged := !cells[r, c].flagged);
      ghost var g := Snapshot(cells);
      assert SameLayout(g0, g, size);
      SameLayoutKeepsAdjacency(g0, g, size);
    }

    /** Toggling the same cell twice gives back the grid it started from. */
    method ToggleFlagTwice(r: int, c: int)
      requires Valid()
      requires 0 <= r < size && 0 <= c < size
      modifies cells
      ensures Valid()
      ensures forall i, j :: 0 <= i < size && 0 <= j < size ==> cells[i, j] == old(cells[i, j])
    {
      ToggleFlag(r, c);
      ToggleFlag(r, c);
    }

    /** Ends the game as won when every cell without a mine is revealed;
        otherwise leaves both flags as they are. */
    method CheckWin()
      requires cells.Length0 == size && cells.Length1 == size
      modifies this
      ensures AllSafeRevealed(Snapshot(cells), size) ==> won && gameOver
      ensures !AllSafeRevealed(Snapshot(cells), size) ==> won == old(won) && gameOver == old(gameOver)
    {
      for r := 0 to size
        invariant forall i, j :: 0 <= i < r && 0 <= j < size ==> cells[i, j].mine || cells[i, j].revealed
      {
        for c := 0 to size
          invariant forall i, j :: 0 <= i < size && 0 <= j < size && (i < r || (i == r && j < c)) ==>
            cells[i, j].mine || cells[i, j].revealed
        {
          var cell := cells[r, c];
          if !cell.mine && !cell.revealed {
            assert !AllSafeRevealed(Snapshot(cells), size) by {
              assert Snapshot(cells)[r][c] == cell;
            }
            return;
          }
        }
      }
      won := true;
      gameOver := true;
    }
  }

  /** The component's start-up: a GridSize-by-GridSize board with NumMines
      mines, every cell hidden, the game running. */
  method NewGame(picks: seq<Pos>) returns (game: Minesweeper)
    requires forall k :: 0 <= k < |picks| ==> InBounds(GridSize, picks[k])
    requires |PickSet(picks)| >= NumMines
    ensures fresh(game) && fresh(game.cells) && game.Valid()
    ensures game.size == GridSize && game.mineCount == NumMines && !game.gameOver && !game.won
    ensures forall i, j :: 0 <= i < GridSize && 0 <= j < GridSize ==>
      !game.cells[i, j].revealed && !game.cells[i, j].flagged
  {
    game := new Minesweeper(GridSize, NumMines, picks);
  }
}
