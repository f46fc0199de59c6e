/**
 * The grid distance oracle: A* over the 4-connected board with unit edge cost
 * and the Manhattan heuristic. The board has no obstacles, so the search is
 * proved to return the Manhattan distance for any two cells of the board.
 */
module PathOracle {
  import opened Grid

  /** A search result; `Infinite` stands for the `float('inf')` returned when the goal is never popped. */
  datatype Distance = Finite(steps: nat) | Infinite

  /** An entry (f, cell) of the open set. */
  datatype Entry = Entry(f: int, cell: Cell)

  /** Python's order on `(f, (row, col))` tuples: by f, then row, then column. */
  predicate EntryLe(a: Entry, b: Entry) {
    || a.f < b.f
    || (a.f == b.f && (a.cell.row < b.cell.row || (a.cell.row == b.cell.row && a.cell.col <= b.cell.col)))
  }

  /** The position of the entry `heappop` takes: a least one. */
  function MinIndex(open: seq<Entry>): (k: nat)
    requires open != []
    ensures k < |open|
    ensures forall e :: e in open ==> EntryLe(open[k], e)
  {
    if |open| == 1 then 0
    else
      var k := MinIndex(open[1..]);
      assert forall e :: e in open ==> e == open[0] || e in open[1..];
      if EntryLe(open[0], open[1 + k]) then 0 else 1 + k
  }

  // ---------------------------------------------------------------------------
  // The search state and what stays true of it
  // ---------------------------------------------------------------------------

  /** Some open entry for `c` has priority at most `bound`. */
  ghost predicate HasEntry(open: seq<Entry>, c: Cell, bound: int) {
    exists e :: e in open && e.cell == c && e.f <= bound
  }

  /** Cell `c` has been expanded: each in-bounds neighbour has a g-score at most one above it. */
  ghost predicate ClosedAt(g: map<Cell, nat>, c: Cell)
    requires c in g
  {
    forall d: Direction :: InBounds(Step(c, d)) ==> Step(c, d) in g && g[Step(c, d)] <= g[c] + 1
  }

  /** Facts that hold of every search state, between expansions and inside one. */
  ghost predicate Sound(start: Cell, goal: Cell, open: seq<Entry>, g: map<Cell, nat>) {
    && start in g && g[start] == 0
    && (forall c :: c in g ==> c == start || InBounds(c))
    && (forall c :: c in g ==> g[c] >= Manhattan(start, c))
    && (forall e :: e in open ==> e.cell in g && (e.cell == goal ==> e.f >= g[goal]))
  }

  /** The invariant of the main loop: every scored cell is still open with a small enough priority, or expanded. */
  ghost predicate SearchInv(start: Cell, goal: Cell, open: seq<Entry>, g: map<Cell, nat>) {
    && Sound(start, goal, open, g)
    && (forall c :: c in g ==> HasEntry(open, c, g[c] + Manhattan(c, goal)) || (c != goal && ClosedAt(g, c)))
  }

  /** The invariant while `cur` is being expanded: its first `i` neighbours are relaxed. */
  ghost predicate RelaxInv(start: Cell, goal: Cell, open: seq<Entry>, g: map<Cell, nat>, cur: Cell, i: nat) {
    && Sound(start, goal, open, g)
    && cur in g && cur != goal
    && (forall c :: c in g && c != cur ==> HasEntry(open, c, g[c] + Manhattan(c, goal)) || (c != goal && ClosedAt(g, c)))
    && (forall d: Direction :: DirIndex(d) < i && InBounds(Step(cur, d)) ==>
          Step(cur, d) in g && g[Step(cur, d)] <= g[cur] + 1)
  }

  lemma PopKeepsInvariant(start: Cell, goal: Cell, open: seq<Entry>, g: map<Cell, nat>, k: nat)
    requires SearchInv(start, goal, open, g)
    requires k < |open| && open[k].cell != goal
    ensures RelaxInv(start, goal, open[..k] + open[k + 1..], g, open[k].cell, 0)
  {
    var rest := open[..k] + open[k + 1..];
    var cur := open[k].cell;
    forall e | e in open && e != open[k] ensures e in rest {
      var j :| 0 <= j < |open| && open[j] == e;
      if j < k { assert rest[j] == e; } else { assert rest[j - 1] == e; }
    }
    forall c | c in g && c != cur && HasEntry(open, c, g[c] + Manhattan(c, goal))
      ensures HasEntry(rest, c, g[c] + Manhattan(c, goal))
    {
      var e :| e in open && e.cell == c && e.f <= g[c] + Manhattan(c, goal);
      assert e in rest;
    }
  }

  /** Relaxing neighbour `n` of `cur` with a better score keeps the invariant. */
  lemma RelaxUpdateKeepsInvariant(start: Cell, goal: Cell, open: seq<Entry>, g: map<Cell, nat>, cur: Cell, i: nat, n: Cell, temp: nat)
    requires RelaxInv(start, goal, open, g, cur, i) && i < |Directions|
    requires n == Step(cur, Directions[i]) && InBounds(n) && temp == g[cur] + 1
    requires n !in g || temp < g[n]
    ensures RelaxInv(start, goal, open + [Entry(temp + Manhattan(n, goal), n)], g[n := temp], cur, i + 1)
  {
    var open' := open + [Entry(temp + Manhattan(n, goal), n)];
    var g' := g[n := temp];
    assert Manhattan(start, n) <= Manhattan(start, cur) + Manhattan(cur, n);
    assert Entry(temp + Manhattan(n, goal), n) in open';
    forall c | c in g' && c != cur
      ensures HasEntry(open', c, g'[c] + Manhattan(c, goal)) || (c != goal && ClosedAt(g', c))
    {
      if c == n {
        assert Entry(temp + Manhattan(n, goal), n) in open';
      } else if HasEntry(open, c, g[c] + Manhattan(c, goal)) {
        var e :| e in open && e.cell == c && e.f <= g[c] + Manhattan(c, goal);
        assert e in open';
      } else {
        assert ClosedAt(g', c);
      }
    }
    forall d: Direction | DirIndex(d) < i + 1 && InBounds(Step(cur, d))
      ensures Step(cur, d) in g' && g'[Step(cur, d)] <= g'[cur] + 1
    {
      if DirIndex(d) == i { assert d == Directions[i]; }
    }
  }

  /** Leaving neighbour `n` of `cur` alone (out of bounds, or no better score) keeps the invariant. */
  lemma RelaxSkipKeepsInvariant(start: Cell, goal: Cell, open: seq<Entry>, g: map<Cell, nat>, cur: Cell, i: nat)
    requires RelaxInv(start, goal, open, g, cur, i) && i < |Directions|
    requires InBounds(Step(cur, Directions[i])) ==>
               Step(cur, Directions[i]) in g && g[Step(cur, Directions[i])] <= g[cur] + 1
    ensures RelaxInv(start, goal, open, g, cur, i + 1)
  {
    forall d: Direction | DirIndex(d) < i + 1 && InBounds(Step(cur, d))
      ensures Step(cur, d) in g && g[Step(cur, d)] <= g[cur] + 1
    {
      if DirIndex(d) == i { assert d == Directions[i]; }
    }
  }

  lemma ExpansionRestoresInvariant(start: Cell, goal: Cell, open: seq<Entry>, g: map<Cell, nat>, cur: Cell)
    requires RelaxInv(start, goal, open, g, cur, |Directions|)
    ensures SearchInv(start, goal, open, g)
  {
    assert ClosedAt(g, cur);
  }

  /**
   * The heart of A*'s optimality on an empty board: as long as the goal has not
   * been popped, some open entry has priority at most the Manhattan distance.
   * Follow a shortest route from any exactly-scored cell on it: the first cell
   * that is not yet expanded is open with priority at most that distance.
   */
  lemma {:induction false} PromisingEntry(start: Cell, goal: Cell, open: seq<Entry>, g: map<Cell, nat>, c: Cell)
    requires InBounds(start) && InBounds(goal) && InBounds(c)
    requires SearchInv(start, goal, open, g)
    requires c in g && g[c] + Manhattan(c, goal) <= Manhattan(start, goal)
    ensures exists e :: e in open && e.f <= Manhattan(start, goal)
    decreases Manhattan(c, goal)
  {
    if HasEntry(open, c, g[c] + Manhattan(c, goal)) {
      var e :| e in open && e.cell == c && e.f <= g[c] + Manhattan(c, goal);
    } else {
      var n := Step(c, TowardDir(c, goal));
      assert ClosedAt(g, c);
      PromisingEntry(start, goal, open, g, n);
    }
  }

  /** When the goal is popped, its g-score is the Manhattan distance (if both cells are on the board). */
  lemma GoalPoppedIsExact(start: Cell, goal: Cell, open: seq<Entry>, g: map<Cell, nat>, k: nat)
    requires SearchInv(start, goal, open, g) && start != goal
    requires InBounds(start) && InBounds(goal) ==> exists e :: e in open && e.f <= Manhattan(start, goal)
    requires k < |open| && open[k].cell == goal
    requires forall e :: e in open ==> EntryLe(open[k], e)
    ensures goal in g && g[goal] >= Manhattan(start, goal) && InBounds(goal)
    ensures InBounds(start) ==> g[goal] == Manhattan(start, goal)
  {
    if InBounds(start) && InBounds(goal) {
      var e :| e in open && e.f <= Manhattan(start, goal);
      assert EntryLe(open[k], e);
    }
  }

  // ---------------------------------------------------------------------------
  // Termination: every push lowers some g-score or scores a new cell.
  // ---------------------------------------------------------------------------

  ghost const BoardCells: set<Cell> := set r, c | 0 <= r < GridSize && 0 <= c < GridSize :: Cell(r, c)

  ghost function Unvisited(g: map<Cell, nat>): set<Cell> {
    BoardCells - g.Keys
  }

  ghost function CellAt(i: nat): Cell {
    Cell(i / GridSize, i % GridSize)
  }

  /** The g-scores of the first `n` board cells in row-major order, summed. */
  ghost function Weight(g: map<Cell, nat>, n: nat): nat {
    if n == 0 then 0
    else Weight(g, n - 1) + (if CellAt(n - 1) in g then g[CellAt(n - 1)] else 0)
  }

  lemma {:induction false} WeightDrops(g: map<Cell, nat>, c: Cell, v: nat, n: nat)
    requires c in g && v < g[c] && InBounds(c)
    ensures Weight(g[c := v], n) <= Weight(g, n)
    ensures n > c.row * GridSize + c.col ==> Weight(g[c := v], n) < Weight(g, n)
  {
    if n > 0 {
      WeightDrops(g, c, v, n - 1);
      var i := n - 1;
      assert CellAt(i) == c <==> i == c.row * GridSize + c.col;
    }
  }

  lemma UpdateProgress(g: map<Cell, nat>, n: Cell, v: nat)
    requires InBounds(n) && (n !in g || v < g[n])
    ensures n !in g ==> Unvisited(g[n := v]) < Unvisited(g)
    ensures n in g ==> Unvisited(g[n := v]) == Unvisited(g)
    ensures n in g ==> Weight(g[n := v], GridSize * GridSize) < Weight(g, GridSize * GridSize)
  {
    assert n == Cell(n.row, n.col) && n in BoardCells;
    assert g[n := v].Keys == g.Keys + {n};
    if n in g {
      WeightDrops(g, n, v, GridSize * GridSize);
    }
  }

  /** (unvisited cells, weight, open entries) has not grown, lexicographically, from (g, open) to (g', open'). */
  ghost predicate NoWorse(g: map<Cell, nat>, open: seq<Entry>, g': map<Cell, nat>, open': seq<Entry>) {
    && Unvisited(g') <= Unvisited(g)
    && (Unvisited(g') == Unvisited(g) ==>
          Weight(g', GridSize * GridSize) <= Weight(g, GridSize * GridSize) &&
          (Weight(g', GridSize * GridSize) == Weight(g, GridSize * GridSize) ==> |open'| <= |open|))
  }

  // ---------------------------------------------------------------------------
  // The search
  // ---------------------------------------------------------------------------

  /**
   * The body of the `for dx, dy` loop: give each in-bounds neighbour of `current`
   * the score g[current] + 1 when that is new or better, and push it with
   * priority score + Manhattan distance to the goal.
   */
  method RelaxNeighbours(ghost start: Cell, goal: Cell, current: Cell, open: seq<Entry>, g: map<Cell, nat>)
    returns (open': seq<Entry>, g': map<Cell, nat>)
    requires RelaxInv(start, goal, open, g, current, 0)
    ensures SearchInv(start, goal, open', g')
    ensures NoWorse(g, open, g', open')
    ensures |open| <= |open'|
  {
    open', g' := open, g;
    for i := 0 to |Directions|
      invariant RelaxInv(start, goal, open', g', current, i)
      invariant NoWorse(g, open, g', open') && |open| <= |open'|
    {
      var neighbor := Step(current, Directions[i]);
      if InBounds(neighbor) {
        var temp := g'[current] + 1;
        if neighbor !in g' || temp < g'[neighbor] {
          RelaxUpdateKeepsInvariant(start, goal, open', g', current, i, neighbor, temp);
          UpdateProgress(g', neighbor, temp);
          g' := g'[neighbor := temp];
          open' := open' + [Entry(temp + Manhattan(neighbor, goal), neighbor)];
        } else {
          RelaxSkipKeepsInvariant(start, goal, open', g', current, i);
        }
      } else {
        RelaxSkipKeepsInvariant(start, goal, open', g', current, i);
      }
    }
    ExpansionRestoresInvariant(start, goal, open', g', current);
  }

  /**
   * `a_star_distance`: 0 at once when start == goal; otherwise pop the least
   * entry, stop if it is the goal, else relax its in-bounds neighbours.
   */
  method AStarDistance(start: Cell, goal: Cell) returns (d: Distance)
    ensures start == goal ==> d == Finite(0)
    ensures InBounds(start) && InBounds(goal) ==> d == Finite(Manhattan(start, goal))
    ensures start != goal && !InBounds(goal) ==> d == Infinite
    ensures d.Finite? ==> d.steps >= Manhattan(start, goal)
  {
    if start == goal {
      return Finite(0);
    }
    var open := [Entry(0, start)];
    var g: map<Cell, nat> := map[start := 0];
    while open != []
      invariant SearchInv(start, goal, open, g)
      invariant InBounds(start) && InBounds(goal) ==> exists e :: e in open && e.f <= Manhattan(start, goal)
      decreases Unvisited(g), Weight(g, GridSize * GridSize), |open|
    {
      ghost var before := open;
      var k := MinIndex(open);
      var current := open[k].cell;
      open := open[..k] + open[k + 1..];
      if current == goal {
        GoalPoppedIsExact(start, goal, before, g, k);
        return Finite(g[current]);
      }
      PopKeepsInvariant(start, goal, before, g, k);
      ghost var g0, open0 := g, open;
      open, g := RelaxNeighbours(start, goal, current, open, g);
      assert NoWorse(g0, open0, g, open);
      if InBounds(start) && InBounds(goal) {
        PromisingEntry(start, goal, open, g, start);
      }
    }
    return Infinite;
  }
}
