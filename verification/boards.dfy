/** The board: an 8x8 grid of cells holding EMPTY (0), BLACK (1) or WHITE (-1),
    the opening position, single-cell writes and stone counts. */
module Boards {
  import opened Geometry

  const Empty: int := 0
  const Black: int := 1
  const White: int := -1

  /** A player is a stone colour; its opponent is its negation. */
  type Player = p: int | p == Black || p == White witness Black

  /** The other colour: the engine writes it `-player`. */
  function Opponent(player: Player): Player {
    -(player as int)
  }

  predicate IsCell(v: int) {
    v == Empty || v == Black || v == White
  }

  /** Eight rows of eight cells, each EMPTY, BLACK or WHITE. */
  predicate WellFormed(g: seq<seq<int>>) {
    && |g| == Size
    && (forall i :: 0 <= i < Size ==> |g[i]| == Size)
    && (forall i, j :: 0 <= i < Size && 0 <= j < Size ==> IsCell(g[i][j]))
  }

  /** The grid `board[row][col]`, always 8x8 with valid cell values. */
  type Board = g: seq<seq<int>> | WellFormed(g) witness seq(Size, i => seq(Size, j => Empty))

  function Get(b: Board, q: Pos): int
    requires InBounds(q)
  {
    b[q.row][q.col]
  }

  lemma GetIsCell(b: Board, q: Pos)
    requires InBounds(q)
    ensures IsCell(Get(b, q))
  {
  }

  /** Two boards with the same cells are the same board. */
  lemma BoardExt(x: Board, y: Board)
    requires forall q :: InBounds(q) ==> Get(x, q) == Get(y, q)
    ensures x == y
  {
    forall i | 0 <= i < Size
      ensures x[i] == y[i]
    {
      forall j | 0 <= j < Size
        ensures x[i][j] == y[i][j]
      {
        assert Get(x, Pos(i, j)) == Get(y, Pos(i, j));
      }
    }
  }

  /** The write `board[row][col] = v`: cell `q` becomes `v`, every other cell keeps its value. */
  function Place(b: Board, q: Pos, v: int): (r: Board)
    requires InBounds(q) && IsCell(v)
    ensures Get(r, q) == v
    ensures forall q' :: InBounds(q') && q' != q ==> Get(r, q') == Get(b, q')
  {
    b[q.row := b[q.row][q.col := v]]
  }

  /** The all-EMPTY board (`np.zeros`). */
  function Zeros(): (r: Board)
    ensures forall q :: InBounds(q) ==> Get(r, q) == Empty
  {
    seq(Size, i => seq(Size, j => Empty))
  }

  /** The stone a cell holds in the opening position: WHITE on one diagonal
      of the centre 2x2 block, BLACK on the other, EMPTY everywhere else. */
  function Opening(q: Pos): int {
    var mid := Size / 2;
    if q == Pos(mid - 1, mid - 1) || q == Pos(mid, mid) then White
    else if q == Pos(mid - 1, mid) || q == Pos(mid, mid - 1) then Black
    else Empty
  }

  /** The opening position. */
  function Initial(): (r: Board)
    ensures Get(r, Pos(3, 3)) == White && Get(r, Pos(4, 4)) == White
    ensures Get(r, Pos(3, 4)) == Black && Get(r, Pos(4, 3)) == Black
    ensures forall q :: InBounds(q) && q != Pos(3, 3) && q != Pos(4, 4) && q != Pos(3, 4) && q != Pos(4, 3) ==>
                          Get(r, q) == Empty
  {
    seq(Size, i => seq(Size, j => Opening(Pos(i, j))))
  }

  /** The opening position is what the four writes into the all-EMPTY board
      produce: WHITE at (3,3) and (4,4), then BLACK at (3,4) and (4,3). */
  lemma InitialAsWritten()
    ensures Initial() ==
              Place(Place(Place(Place(Zeros(), Pos(3, 3), White), Pos(4, 4), White), Pos(3, 4), Black), Pos(4, 3), Black)
  {
    var w := Place(Place(Place(Place(Zeros(), Pos(3, 3), White), Pos(4, 4), White), Pos(3, 4), Black), Pos(4, 3), Black);
    BoardExt(Initial(), w);
  }

  /** Number of cells with row-major index at least `n` that hold `v`. */
  function CountFrom(b: Board, v: int, n: int): nat
    requires 0 <= n <= Size * Size
    decreases Size * Size - n
  {
    if n == Size * Size then 0
    else (if Get(b, CellOf(n)) == v then 1 else 0) + CountFrom(b, v, n + 1)
  }

  /** Number of cells holding `v` (`np.sum(board == v)`). */
  function Count(b: Board, v: int): nat
  {
    CountFrom(b, v, 0)
  }

  lemma {:induction false} CountFromPartition(b: Board, n: int)
    requires 0 <= n <= Size * Size
    ensures CountFrom(b, Empty, n) + CountFrom(b, Black, n) + CountFrom(b, White, n) == Size * Size - n
    decreases Size * Size - n
  {
    if n < Size * Size {
      GetIsCell(b, CellOf(n));
      CountFromPartition(b, n + 1);
    }
  }

  /** Every cell is EMPTY, BLACK or WHITE, so the three counts add up to 64. */
  lemma CountPartition(b: Board)
    ensures Count(b, Empty) + Count(b, Black) + Count(b, White) == Size * Size
  {
    CountFromPartition(b, 0);
  }

  lemma {:induction false} CountFromZero(b: Board, v: int, n: int)
    requires 0 <= n <= Size * Size
    ensures CountFrom(b, v, n) == 0 <==>
              forall q :: InBounds(q) && Index(q) >= n ==> Get(b, q) != v
    decreases Size * Size - n
  {
    if n < Size * Size {
      CountFromZero(b, v, n + 1);
      forall q | InBounds(q) && Index(q) >= n && q != CellOf(n)
        ensures Index(q) >= n + 1
      {
        IndexOfCell(q);
      }
    }
  }

  /** A count is zero exactly when no cell holds that value. */
  lemma CountZero(b: Board, v: int)
    ensures Count(b, v) == 0 <==> forall q :: InBounds(q) ==> Get(b, q) != v
  {
    CountFromZero(b, v, 0);
    forall q | InBounds(q)
      ensures Index(q) >= 0
    {
      IndexOfCell(q);
    }
  }

  lemma {:induction false} CountFromOneDiff(b: Board, r: Board, v: int, w: Pos, n: int)
    requires InBounds(w) && 0 <= n <= Size * Size
    requires forall q :: InBounds(q) && q != w ==> (Get(r, q) == v <==> Get(b, q) == v)
    ensures CountFrom(r, v, n) + (if Index(w) >= n && Get(b, w) == v then 1 else 0)
         == CountFrom(b, v, n) + (if Index(w) >= n && Get(r, w) == v then 1 else 0)
    decreases Size * Size - n
  {
    IndexOfCell(w);
    if n < Size * Size {
      CountFromOneDiff(b, r, v, w, n + 1);
    }
  }

  /** Two boards that agree on whether each cell holds `v`, except at `w`,
      have counts of `v` that differ by what happens at `w`. */
  lemma CountOneDiff(b: Board, r: Board, v: int, w: Pos)
    requires InBounds(w)
    requires forall q :: InBounds(q) && q != w ==> (Get(r, q) == v <==> Get(b, q) == v)
    ensures Count(r, v) + (if Get(b, w) == v then 1 else 0)
         == Count(b, v) + (if Get(r, w) == v then 1 else 0)
  {
    IndexOfCell(w);
    CountFromOneDiff(b, r, v, w, 0);
  }

  /** Writing `x` into cell `w` moves that cell from the count of its old value to the count of `x`. */
  lemma CountPlace(b: Board, w: Pos, x: int, v: int)
    requires InBounds(w) && IsCell(x)
    ensures Count(Place(b, w, x), v) + (if Get(b, w) == v then 1 else 0)
         == Count(b, v) + (if x == v then 1 else 0)
  {
    CountOneDiff(b, Place(b, w, x), v, w);
  }

  lemma {:induction false} CountFromMonotone(b: Board, r: Board, v: int, n: int)
    requires 0 <= n <= Size * Size
    requires forall q :: InBounds(q) && Get(r, q) == v ==> Get(b, q) == v
    ensures CountFrom(r, v, n) <= CountFrom(b, v, n)
    ensures forall w :: InBounds(w) && Index(w) >= n && Get(b, w) == v && Get(r, w) != v ==>
              CountFrom(r, v, n) < CountFrom(b, v, n)
    decreases Size * Size - n
  {
    if n < Size * Size {
      CountFromMonotone(b, r, v, n + 1);
      forall w | InBounds(w) && Index(w) >= n && w != CellOf(n)
        ensures Index(w) >= n + 1
      {
        IndexOfCell(w);
      }
    }
  }

  /** If every `v` cell of `r` is a `v` cell of `b`, then `r` has no more of
      them, and strictly fewer when some `v` cell of `b` is lost. */
  lemma CountMonotone(b: Board, r: Board, v: int)
    requires forall q :: InBounds(q) && Get(r, q) == v ==> Get(b, q) == v
    ensures Count(r, v) <= Count(b, v)
    ensures (exists w :: InBounds(w) && Get(b, w) == v && Get(r, w) != v) ==> Count(r, v) < Count(b, v)
  {
    CountFromMonotone(b, r, v, 0);
    forall w | InBounds(w)
      ensures Index(w) >= 0
    {
      IndexOfCell(w);
    }
  }
}
