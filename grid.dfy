/**
 * The 8x8 board: cells, bounds, orthogonal steps and the Manhattan metric.
 * A cell is (row, col); the game writes it (x, y) with x the row.
 */
module Grid {
  const GridSize: int := 8

  datatype Cell = Cell(row: int, col: int)

  predicate InBounds(c: Cell) {
    0 <= c.row < GridSize && 0 <= c.col < GridSize
  }

  function Abs(x: int): nat {
    if x < 0 then -x else x
  }

  function Manhattan(a: Cell, b: Cell): nat {
    Abs(a.row - b.row) + Abs(a.col - b.col)
  }

  /** The four orthogonal moves, named after the sprite direction they show. */
  datatype Direction = Right | Down | Left | Up

  /** The order in which both the search and the computer try neighbours: (0,1), (1,0), (0,-1), (-1,0). */
  const Directions: seq<Direction> := [Right, Down, Left, Up]

  function Step(c: Cell, d: Direction): (n: Cell)
    ensures Manhattan(c, n) == 1
  {
    match d
    case Right => Cell(c.row, c.col + 1)
    case Down => Cell(c.row + 1, c.col)
    case Left => Cell(c.row, c.col - 1)
    case Up => Cell(c.row - 1, c.col)
  }

  /** The guard the key handler tests before moving a seeker (`x > 0`, `x < GRID_SIZE - 1`, ...). */
  function CanStep(c: Cell, d: Direction): (ok: bool)
    ensures InBounds(c) ==> (ok <==> InBounds(Step(c, d)))
  {
    match d
    case Up => c.row > 0
    case Down => c.row < GridSize - 1
    case Left => c.col > 0
    case Right => c.col < GridSize - 1
  }

  /** A direction that brings `c` one step closer to `goal` (columns first, then rows). */
  function TowardDir(c: Cell, goal: Cell): (d: Direction)
    requires c != goal
    ensures Manhattan(Step(c, d), goal) + 1 == Manhattan(c, goal)
    ensures InBounds(c) && InBounds(goal) ==> InBounds(Step(c, d))
  {
    if goal.col > c.col then Right
    else if goal.row > c.row then Down
    else if goal.col < c.col then Left
    else Up
  }

  /** Every direction is listed in `Directions`. */
  function DirIndex(d: Direction): (i: nat)
    ensures i < |Directions| && Directions[i] == d
  {
    match d
    case Right => 0
    case Down => 1
    case Left => 2
    case Up => 3
  }

  // ---------------------------------------------------------------------------
  // Walks: the obstacle-free shortest-path reference for the search.
  // ---------------------------------------------------------------------------

  /** A walk on the board: in-bounds cells, each one orthogonal step from the previous. */
  ghost predicate IsWalk(w: seq<Cell>) {
    && (forall i :: 0 <= i < |w| ==> InBounds(w[i]))
    && (forall i :: 0 <= i < |w| - 1 ==> Manhattan(w[i], w[i + 1]) == 1)
  }

  /** No walk from `a` to `b` takes fewer than Manhattan(a, b) steps. */
  lemma {:induction false} WalkAtLeastManhattan(w: seq<Cell>)
    requires IsWalk(w) && |w| > 0
    ensures |w| - 1 >= Manhattan(w[0], w[|w| - 1])
  {
    if |w| > 1 {
      var rest := w[1..];
      assert IsWalk(rest) by {
        forall i | 0 <= i < |rest| - 1 ensures Manhattan(rest[i], rest[i + 1]) == 1 {
          assert rest[i] == w[i + 1] && rest[i + 1] == w[i + 2];
        }
      }
      WalkAtLeastManhattan(rest);
      assert Manhattan(w[0], w[1]) == 1;
    }
  }

  /** A walk from `a` to `b` of exactly Manhattan(a, b) steps. */
  function StraightWalk(a: Cell, b: Cell): (w: seq<Cell>)
    requires InBounds(a) && InBounds(b)
    ensures |w| == Manhattan(a, b) + 1 && w[0] == a && w[|w| - 1] == b
    ensures IsWalk(w)
    decreases Manhattan(a, b)
  {
    if a == b then [a]
    else
      var rest := StraightWalk(Step(a, TowardDir(a, b)), b);
      PrependStep(a, rest);
      [a] + rest
  }

  /** A board cell next to the start of a walk extends it. */
  lemma PrependStep(a: Cell, rest: seq<Cell>)
    requires InBounds(a) && IsWalk(rest) && |rest| > 0 && Manhattan(a, rest[0]) == 1
    ensures IsWalk([a] + rest)
  {
    assert forall i :: 0 < i < |rest| + 1 ==> ([a] + rest)[i] == rest[i - 1];
  }

  /** Manhattan distance is the length of a shortest walk on the empty board. */
  lemma ManhattanIsShortestWalk(a: Cell, b: Cell)
    requires InBounds(a) && InBounds(b)
    ensures exists w :: IsWalk(w) && |w| == Manhattan(a, b) + 1 && w[0] == a && w[|w| - 1] == b
    ensures forall w :: IsWalk(w) && |w| > 0 && w[0] == a && w[|w| - 1] == b ==> |w| - 1 >= Manhattan(a, b)
  {
    var s := StraightWalk(a, b);
    forall w | IsWalk(w) && |w| > 0 && w[0] == a && w[|w| - 1] == b
      ensures |w| - 1 >= Manhattan(a, b)
    {
      WalkAtLeastManhattan(w);
    }
  }
}
