/** The bookkeeping of the flood fill, stated on grid values: the stack of
    cells still to expand, the cells ever pushed, and those already expanded. */
module Flood {
  import opened Board

  /** What holds between two iterations of the flood fill started at `origin`
      on the grid `g0`, now showing `cur`. */
  ghost predicate FillState(g0: Grid, cur: Grid, n: nat, origin: Pos,
                            stack: seq<Pos>, expanded: set<Pos>, done: set<Pos>, hidden: set<Pos>)
  {
    IsSquare(g0, n) && IsSquare(cur, n) &&
    Uncovers(g0, cur, n) &&
    (forall i, j :: 0 <= i < n && 0 <= j < n ==> ((i, j) in hidden <==> !cur[i][j].revealed)) &&
    origin in expanded &&
    (forall k :: 0 <= k < |stack| ==> stack[k] in expanded) &&
    (forall p :: p in expanded ==> p in done || p in stack) &&
    (forall p :: p in expanded ==> ZeroCell(cur, n, p)) &&
    (forall p :: p in done ==> Surrounded(cur, n, p)) &&
    (forall i, j :: 0 <= i < n && 0 <= j < n && cur[i][j] != g0[i][j] ==>
      exists p :: p in expanded && Adjacent(p, (i, j)))
  }

  /** The expanded cells are the origin together with exactly the zero-count
      cells uncovered since the fill started on g0. */
  ghost predicate ExpandedAreZeros(g0: Grid, cur: Grid, n: nat, origin: Pos, expanded: set<Pos>)
    requires IsSquare(g0, n) && IsSquare(cur, n)
  {
    (forall p :: p in expanded ==> p == origin || UncoveredZero(g0, cur, n, p)) &&
    (forall p :: UncoveredZero(g0, cur, n, p) ==> p in expanded)
  }

  /** The fill starts with only the origin on the stack. */
  lemma FillStart(g0: Grid, n: nat, origin: Pos, hidden: set<Pos>)
    requires IsSquare(g0, n) && ZeroCell(g0, n, origin)
    requires forall i, j :: 0 <= i < n && 0 <= j < n ==> ((i, j) in hidden <==> !g0[i][j].revealed)
    ensures FillState(g0, g0, n, origin, [origin], {origin}, {}, hidden)
    ensures ExpandedAreZeros(g0, g0, n, origin, {origin})
  {
  }

  /** Popping `top`, uncovering around it and pushing the uncovered zero cells
      keeps the fill's bookkeeping. */
  lemma FillStep(g0: Grid, prev: Grid, cur: Grid, n: nat, origin: Pos, stack: seq<Pos>,
                 expanded: set<Pos>, done: set<Pos>, hidden: set<Pos>, pushed: seq<Pos>, hidden': set<Pos>)
    requires FillState(g0, prev, n, origin, stack, expanded, done, hidden) && |stack| > 0
    requires IsSquare(cur, n)
    requires forall i, j :: 0 <= i < n && 0 <= j < n ==>
      UncoveredNear(stack[|stack| - 1], (i, j), prev[i][j], cur[i][j])
    requires Surrounded(cur, n, stack[|stack| - 1])
    requires forall k :: 0 <= k < |pushed| ==> ZeroCell(cur, n, pushed[k])
    requires forall i, j :: 0 <= i < n && 0 <= j < n ==> ((i, j) in hidden' <==> !cur[i][j].revealed)
    ensures FillState(g0, cur, n, origin, stack[..|stack| - 1] + pushed,
                      expanded + PickSet(pushed), done + {stack[|stack| - 1]}, hidden')
  {
    var top := stack[|stack| - 1];
    var stack' := stack[..|stack| - 1] + pushed;
    var expanded' := expanded + PickSet(pushed);
    assert top in expanded;
    UncoverStep(g0, prev, cur, n, top);
    forall k | 0 <= k < |stack'| ensures stack'[k] in expanded' {
      if k < |stack| - 1 {
        assert stack'[k] == stack[k];
      } else {
        assert stack'[k] == pushed[k - |stack| + 1];
      }
    }
    forall p | p in expanded' ensures p in done + {top} || p in stack' {
      if p in expanded && p !in done && p != top {
        var k :| 0 <= k < |stack| && stack[k] == p;
        assert stack'[k] == p;
      } else if p !in expanded {
        var k :| 0 <= k < |pushed| && pushed[k] == p;
        assert stack'[|stack| - 1 + k] == p;
      }
    }
  }

  /** One iteration of the fill loop: popping `top` and expanding it, with the
      pushed cells exactly the zero-count cells the expansion uncovered, keeps
      both the fill's bookkeeping and the match between expanded cells and
      uncovered zero cells. */
  lemma FillIteration(g0: Grid, prev: Grid, cur: Grid, n: nat, origin: Pos, stack: seq<Pos>,
                      expanded: set<Pos>, done: set<Pos>, hidden: set<Pos>, pushed: seq<Pos>, hidden': set<Pos>)
    requires FillState(g0, prev, n, origin, stack, expanded, done, hidden) && |stack| > 0
    requires ExpandedAreZeros(g0, prev, n, origin, expanded)
    requires IsSquare(cur, n)
    requires forall i, j :: 0 <= i < n && 0 <= j < n ==>
      UncoveredNear(stack[|stack| - 1], (i, j), prev[i][j], cur[i][j])
    requires Surrounded(cur, n, stack[|stack| - 1])
    requires forall k :: 0 <= k < |pushed| ==> InBounds(n, pushed[k])
    requires forall i, j :: 0 <= i < n && 0 <= j < n ==>
      ((i, j) in pushed <==> cur[i][j] != prev[i][j] && cur[i][j].adjacent == 0)
    requires forall i, j :: 0 <= i < n && 0 <= j < n ==> ((i, j) in hidden' <==> !cur[i][j].revealed)
    ensures FillState(g0, cur, n, origin, stack[..|stack| - 1] + pushed,
                      expanded + PickSet(pushed), done + {stack[|stack| - 1]}, hidden')
    ensures ExpandedAreZeros(g0, cur, n, origin, expanded + PickSet(pushed))
  {
    ExpandedAreUncoveredZeros(g0, prev, cur, n, origin, stack[|stack| - 1], expanded, pushed);
    FillStep(g0, prev, cur, n, origin, stack, expanded, done, hidden, pushed, hidden');
  }

  /** Across one expansion that pushes exactly the zero-count cells it
      uncovers, those cells are revealed safe zero cells, and the expanded
      cells stay the origin plus exactly the zero-count cells uncovered so far. */
  lemma ExpandedAreUncoveredZeros(g0: Grid, prev: Grid, cur: Grid, n: nat, origin: Pos, top: Pos,
                                  expanded: set<Pos>, pushed: seq<Pos>)
    requires IsSquare(g0, n) && IsSquare(prev, n) && IsSquare(cur, n)
    requires Uncovers(g0, prev, n)
    requires forall p :: p in expanded ==> ZeroCell(prev, n, p)
    requires ExpandedAreZeros(g0, prev, n, origin, expanded)
    requires forall i, j :: 0 <= i < n && 0 <= j < n ==> UncoveredNear(top, (i, j), prev[i][j], cur[i][j])
    requires forall k :: 0 <= k < |pushed| ==> InBounds(n, pushed[k])
    requires forall i, j :: 0 <= i < n && 0 <= j < n ==>
      ((i, j) in pushed <==> cur[i][j] != prev[i][j] && cur[i][j].adjacent == 0)
    ensures forall k :: 0 <= k < |pushed| ==> ZeroCell(cur, n, pushed[k])
    ensures ExpandedAreZeros(g0, cur, n, origin, expanded + PickSet(pushed))
  {
    forall k | 0 <= k < |pushed| ensures ZeroCell(cur, n, pushed[k]) && !prev[pushed[k].0][pushed[k].1].revealed {
      assert pushed[k] in pushed;
    }
    forall p | p in expanded + PickSet(pushed) && p != origin ensures UncoveredZero(g0, cur, n, p) {
      if p in expanded {
        assert UncoveredZero(g0, prev, n, p);
        assert cur[p.0][p.1] == prev[p.0][p.1];
      } else {
        var k :| 0 <= k < |pushed| && pushed[k] == p;
        assert prev[p.0][p.1] == g0[p.0][p.1];
      }
    }
    forall p | UncoveredZero(g0, cur, n, p) ensures p in expanded + PickSet(pushed) {
      if cur[p.0][p.1] == prev[p.0][p.1] {
        assert UncoveredZero(g0, prev, n, p);
      }
    }
  }

  /** When the stack is empty every cell ever pushed has been expanded: the
      origin and every uncovered zero cell have all their neighbours revealed
      or flagged, and every uncovered cell lies next to one of them. */
  lemma FillEnd(g0: Grid, cur: Grid, n: nat, origin: Pos,
                expanded: set<Pos>, done: set<Pos>, hidden: set<Pos>)
    requires FillState(g0, cur, n, origin, [], expanded, done, hidden)
    requires ExpandedAreZeros(g0, cur, n, origin, expanded)
    ensures Surrounded(cur, n, origin)
    ensures forall p :: UncoveredZero(g0, cur, n, p) ==> Surrounded(cur, n, p)
    ensures forall i, j :: 0 <= i < n && 0 <= j < n && cur[i][j] != g0[i][j] ==>
      Adjacent(origin, (i, j)) || exists p :: UncoveredZero(g0, cur, n, p) && Adjacent(p, (i, j))
  {
    forall i, j | 0 <= i < n && 0 <= j < n && cur[i][j] != g0[i][j]
      ensures Adjacent(origin, (i, j)) || exists p :: UncoveredZero(g0, cur, n, p) && Adjacent(p, (i, j))
    {
      var p :| p in expanded && Adjacent(p, (i, j));
    }
  }
}
