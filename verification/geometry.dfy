/** Coordinates on the 8x8 Othello board, the eight compass directions the
    engine walks, and the rays they trace from a cell. */
module Geometry {

  /** The side length of the board. */
  const Size: int := 8

  /** A (row, column) coordinate; row 0 is the top row. */
  datatype Pos = Pos(row: int, col: int)

  /** A coordinate delta of a compass step: -1, 0 or 1. */
  type Unit = u: int | -1 <= u <= 1

  /** A step (row delta, column delta). */
  datatype Dir = Dir(dr: Unit, dc: Unit)

  /** A compass direction: any step but the null one. */
  type Step = d: Dir | d.dr != 0 || d.dc != 0 witness Dir(1, 0)

  /** The eight compass directions, in the order the engine tries them. */
  const Directions: seq<Step> :=
    [Dir(-1, -1), Dir(-1, 0), Dir(-1, 1),
     Dir(0, -1),              Dir(0, 1),
     Dir(1, -1),  Dir(1, 0),  Dir(1, 1)]

  predicate InBounds(q: Pos) {
    0 <= q.row < Size && 0 <= q.col < Size
  }

  /** The cell `k` steps away from `p` in direction `d`. */
  function At(p: Pos, d: Step, k: int): Pos {
    Pos(p.row + Scale(k, d.dr), p.col + Scale(k, d.dc))
  }

  /** The product `k * u` for a unit `u`, written by cases so that ray
      arithmetic stays linear. */
  function Scale(k: int, u: Unit): int {
    if u == 1 then k else if u == -1 then -k else 0
  }

  /** Row-major index of a cell: rows top to bottom, columns left to right. */
  function Index(q: Pos): int {
    q.row * Size + q.col
  }

  /** The cell with row-major index `n`. */
  function CellOf(n: int): (q: Pos)
    requires 0 <= n < Size * Size
    ensures InBounds(q) && Index(q) == n
  {
    Pos(n / Size, n % Size)
  }

  /** Every on-board cell has exactly one row-major index. */
  lemma IndexOfCell(q: Pos)
    requires InBounds(q)
    ensures 0 <= Index(q) < Size * Size
    ensures CellOf(Index(q)) == q
  {
    var n := q.row * Size + q.col;
    assert n / Size == q.row && n % Size == q.col;
  }

  /** A ray from an on-board cell leaves the board in fewer than `Size` steps,
      which bounds every walk of the engine. */
  lemma RayLeavesBoard(p: Pos, d: Step, k: int)
    requires InBounds(p) && 0 <= k
    requires InBounds(At(p, d, k))
    ensures k < Size
  {
    if d.dr == 1 {
      assert At(p, d, k).row == p.row + k;
    } else if d.dr == -1 {
      assert At(p, d, k).row == p.row - k;
    } else if d.dc == 1 {
      assert At(p, d, k).col == p.col + k;
    } else {
      assert At(p, d, k).col == p.col - k;
    }
  }

  /** No ray passes through its own origin. */
  lemma RayAvoidsOrigin(p: Pos, d: Step, i: int)
    requires 1 <= i
    ensures At(p, d, i) != p
  {
    if d.dr == 1 {
      assert At(p, d, i).row == p.row + i;
    } else if d.dr == -1 {
      assert At(p, d, i).row == p.row - i;
    } else if d.dc == 1 {
      assert At(p, d, i).col == p.col + i;
    } else {
      assert At(p, d, i).col == p.col - i;
    }
  }

  /** The eight rays from one origin are pairwise disjoint: a cell lies on at
      most one of them, at exactly one distance. */
  lemma RaysDisjoint(p: Pos, d1: Step, i: int, d2: Step, j: int)
    requires 1 <= i && 1 <= j
    requires At(p, d1, i) == At(p, d2, j)
    ensures d1 == d2 && i == j
  {
    if d1.dr == 0 {
      assert d2.dr == 0;
    } else if d1.dr == 1 {
      assert d2.dr == 1;
    } else {
      assert d2.dr == -1;
    }
    if d1.dc == 0 {
      assert d2.dc == 0;
    } else if d1.dc == 1 {
      assert d2.dc == 1;
    } else {
      assert d2.dc == -1;
    }
  }

  /** `DIRECTIONS` lists every compass direction. */
  lemma DirectionsComplete(d: Step)
    ensures d in Directions
  {
    if d.dr == -1 {
      assert d == Directions[d.dc + 1];
    } else if d.dr == 0 {
      assert d == Directions[if d.dc == -1 then 3 else 4];
    } else {
      assert d == Directions[d.dc + 6];
    }
  }

  /** The directions are listed without repetition. */
  lemma DirectionsDistinct(i: int, j: int)
    requires 0 <= i < |Directions| && 0 <= j < |Directions|
    requires Directions[i] == Directions[j]
    ensures i == j
  {
  }
}
