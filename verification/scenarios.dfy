/** Concrete facts about the opening position: its stone counts, the legal
    moves of each colour, and the result of BLACK's first move at (2,3). */
module Scenarios {
  import opened Geometry
  import opened Boards
  import opened Legality
  import opened Moves
  import opened Game

  /** The count of `v` in the opening position, built up one write at a time. */
  lemma InitialCount(v: int)
    ensures Count(Initial(), v) ==
              Count(Zeros(), v) + (if v == Black || v == White then 2 else 0) - (if v == Empty then 4 else 0)
  {
    var b0 := Zeros();
    var b1 := Place(b0, Pos(3, 3), White);
    var b2 := Place(b1, Pos(4, 4), White);
    var b3 := Place(b2, Pos(3, 4), Black);
    var b4 := Place(b3, Pos(4, 3), Black);
    InitialAsWritten();
    CountPlace(b0, Pos(3, 3), White, v);
    CountPlace(b1, Pos(4, 4), White, v);
    CountPlace(b2, Pos(3, 4), Black, v);
    CountPlace(b3, Pos(4, 3), Black, v);
  }

  /** The empty board holds 64 EMPTY cells and no stone. */
  lemma ZerosCounts()
    ensures Count(Zeros(), Black) == 0 && Count(Zeros(), White) == 0
    ensures Count(Zeros(), Empty) == Size * Size
  {
    CountZero(Zeros(), Black);
    CountZero(Zeros(), White);
    CountPartition(Zeros());
  }

  /** The opening position has 2 BLACK stones, 2 WHITE stones and 60 EMPTY cells. */
  lemma InitialCounts()
    ensures Count(Initial(), Black) == 2
    ensures Count(Initial(), White) == 2
    ensures Count(Initial(), Empty) == 60
  {
    ZerosCounts();
    InitialCount(Black);
    InitialCount(White);
    InitialCount(Empty);
  }

  /** A single opponent stone at `r1` closed by one of `player`'s at `r2`,
      the next two cells along `d`, is a capture. */
  lemma SingleBracket(b: Board, q: Pos, d: Step, player: Player, r1: Pos, r2: Pos)
    requires At(q, d, 1) == r1 && At(q, d, 2) == r2
    requires InBounds(r1) && Get(b, r1) == Opponent(player)
    requires InBounds(r2) && Get(b, r2) == player
    ensures Bracket(b, q, d, player, 1)
  {
  }

  /** A capture needs an opponent stone next to the target and a stone
      behind it, and a third stone when the second is an opponent's. */
  lemma BracketShape(b: Board, q: Pos, d: Step, player: Player, k: int)
    requires Bracket(b, q, d, player, k)
    ensures InBounds(At(q, d, 1)) && Get(b, At(q, d, 1)) == Opponent(player)
    ensures InBounds(At(q, d, 2))
    ensures Get(b, At(q, d, 2)) == player || (k >= 2 && Get(b, At(q, d, 2)) == Opponent(player))
    ensures k >= 2 ==> InBounds(At(q, d, 3)) && Get(b, At(q, d, 3)) != Empty
  {
    assert InBounds(At(q, d, 1)) && Get(b, At(q, d, 1)) == Opponent(player);
    if k >= 2 {
      assert InBounds(At(q, d, 2)) && Get(b, At(q, d, 2)) == Opponent(player);
      if k >= 3 {
        assert InBounds(At(q, d, 3)) && Get(b, At(q, d, 3)) == Opponent(player);
      } else {
        assert InBounds(At(q, d, 3)) && Get(b, At(q, d, 3)) == player;
      }
    } else {
      assert InBounds(At(q, d, 2)) && Get(b, At(q, d, 2)) == player;
    }
  }

  /** The centre 2x2 block, which holds the four stones of the opening position. */
  predicate InCentre(a: Pos) {
    a == Pos(3, 3) || a == Pos(4, 4) || a == Pos(3, 4) || a == Pos(4, 3)
  }

  lemma InitialCell(a: Pos)
    requires InBounds(a)
    ensures Get(Initial(), a) == White <==> a == Pos(3, 3) || a == Pos(4, 4)
    ensures Get(Initial(), a) == Black <==> a == Pos(3, 4) || a == Pos(4, 3)
    ensures Get(Initial(), a) != Empty <==> InCentre(a)
  {
  }

  /** The rays that run from outside the centre into it and back out: a
      target whose first step lands on `c1` or `c2`, whose second step stays
      in the centre, and whose third step does too when the second lands on
      `c1` or `c2` again. */
  lemma CentreRay(q: Pos, d: Step, c1: Pos, c2: Pos)
    requires {c1, c2} == {Pos(3, 3), Pos(4, 4)} || {c1, c2} == {Pos(3, 4), Pos(4, 3)}
    requires At(q, d, 1) == c1 || At(q, d, 1) == c2
    requires InCentre(At(q, d, 2))
    requires At(q, d, 2) == c1 || At(q, d, 2) == c2 ==> InCentre(At(q, d, 3))
    ensures c1 == Pos(3, 3) || c1 == Pos(4, 4) ==>
              q == Pos(2, 3) || q == Pos(3, 2) || q == Pos(4, 5) || q == Pos(5, 4)
    ensures c1 == Pos(3, 4) || c1 == Pos(4, 3) ==>
              q == Pos(2, 4) || q == Pos(3, 5) || q == Pos(4, 2) || q == Pos(5, 3)
  {
  }

  lemma InitialBlackCaptures(q: Pos, j: int, k: int)
    requires InBounds(q) && 0 <= j < |Directions| && Bracket(Initial(), q, Directions[j], Black, k)
    ensures q == Pos(2, 3) || q == Pos(3, 2) || q == Pos(4, 5) || q == Pos(5, 4)
  {
    var d := Directions[j];
    BracketShape(Initial(), q, d, Black, k);
    InitialCell(At(q, d, 1));
    InitialCell(At(q, d, 2));
    if InBounds(At(q, d, 3)) {
      InitialCell(At(q, d, 3));
    }
    CentreRay(q, d, Pos(3, 3), Pos(4, 4));
  }

  lemma InitialWhiteCaptures(q: Pos, j: int, k: int)
    requires InBounds(q) && 0 <= j < |Directions| && Bracket(Initial(), q, Directions[j], White, k)
    ensures q == Pos(2, 4) || q == Pos(3, 5) || q == Pos(4, 2) || q == Pos(5, 3)
  {
    var d := Directions[j];
    BracketShape(Initial(), q, d, White, k);
    InitialCell(At(q, d, 1));
    InitialCell(At(q, d, 2));
    if InBounds(At(q, d, 3)) {
      InitialCell(At(q, d, 3));
    }
    CentreRay(q, d, Pos(3, 4), Pos(4, 3));
  }

  /** Each of the four opening cells of BLACK captures along one direction. */
  lemma InitialBlackOpenings(q: Pos)
    requires q == Pos(2, 3) || q == Pos(3, 2) || q == Pos(4, 5) || q == Pos(5, 4)
    ensures exists j :: 0 <= j < |Directions| && Bracket(Initial(), q, Directions[j], Black, 1)
  {
    if q == Pos(2, 3) {
      SingleBracket(Initial(), q, Directions[6], Black, Pos(3, 3), Pos(4, 3));
    } else if q == Pos(3, 2) {
      SingleBracket(Initial(), q, Directions[4], Black, Pos(3, 3), Pos(3, 4));
    } else if q == Pos(4, 5) {
      SingleBracket(Initial(), q, Directions[3], Black, Pos(4, 4), Pos(4, 3));
    } else if q == Pos(5, 4) {
      SingleBracket(Initial(), q, Directions[1], Black, Pos(4, 4), Pos(3, 4));
    }
  }

  /** The cells where BLACK may open. */
  lemma InitialLegalBlack(q: Pos)
    requires InBounds(q)
    ensures IsValidMove(Initial(), q, Black) <==>
              q == Pos(2, 3) || q == Pos(3, 2) || q == Pos(4, 5) || q == Pos(5, 4)
  {
    ValidMoveIff(Initial(), q, Black);
    if IsValidMove(Initial(), q, Black) {
      var j, k :| 0 <= j < |Directions| && Bracket(Initial(), q, Directions[j], Black, k);
      InitialBlackCaptures(q, j, k);
    }
    if q == Pos(2, 3) || q == Pos(3, 2) || q == Pos(4, 5) || q == Pos(5, 4) {
      InitialBlackOpenings(q);
    }
  }

  /** Each of the four opening cells of WHITE captures along one direction. */
  lemma InitialWhiteOpenings(q: Pos)
    requires q == Pos(2, 4) || q == Pos(3, 5) || q == Pos(4, 2) || q == Pos(5, 3)
    ensures exists j :: 0 <= j < |Directions| && Bracket(Initial(), q, Directions[j], White, 1)
  {
    if q == Pos(2, 4) {
      SingleBracket(Initial(), q, Directions[6], White, Pos(3, 4), Pos(4, 4));
    } else if q == Pos(3, 5) {
      SingleBracket(Initial(), q, Directions[3], White, Pos(3, 4), Pos(3, 3));
    } else if q == Pos(4, 2) {
      SingleBracket(Initial(), q, Directions[4], White, Pos(4, 3), Pos(4, 4));
    } else if q == Pos(5, 3) {
      SingleBracket(Initial(), q, Directions[1], White, Pos(4, 3), Pos(3, 3));
    }
  }

  /** The cells where WHITE may open. */
  lemma InitialLegalWhite(q: Pos)
    requires InBounds(q)
    ensures IsValidMove(Initial(), q, White) <==>
              q == Pos(2, 4) || q == Pos(3, 5) || q == Pos(4, 2) || q == Pos(5, 3)
  {
    ValidMoveIff(Initial(), q, White);
    if IsValidMove(Initial(), q, White) {
      var j, k :| 0 <= j < |Directions| && Bracket(Initial(), q, Directions[j], White, k);
      InitialWhiteCaptures(q, j, k);
    }
    if q == Pos(2, 4) || q == Pos(3, 5) || q == Pos(4, 2) || q == Pos(5, 3) {
      InitialWhiteOpenings(q);
    }
  }

  /** On the opening position BLACK may play exactly (2,3), (3,2), (4,5) and
      (5,4), listed in that row-major order. */
  lemma InitialMovesBlack()
    ensures ValidMoves(Initial(), Black) == [Pos(2, 3), Pos(3, 2), Pos(4, 5), Pos(5, 4)]
  {
    var t := [Pos(2, 3), Pos(3, 2), Pos(4, 5), Pos(5, 4)];
    forall q | InBounds(q)
      ensures q in t <==> IsValidMove(Initial(), q, Black)
    {
      InitialLegalBlack(q);
    }
    ValidMovesDetermined(Initial(), Black, t);
  }

  /** On the opening position WHITE may play exactly (2,4), (3,5), (4,2) and
      (5,3), listed in that row-major order. */
  lemma InitialMovesWhite()
    ensures ValidMoves(Initial(), White) == [Pos(2, 4), Pos(3, 5), Pos(4, 2), Pos(5, 3)]
  {
    var t := [Pos(2, 4), Pos(3, 5), Pos(4, 2), Pos(5, 3)];
    forall q | InBounds(q)
      ensures q in t <==> IsValidMove(Initial(), q, White)
    {
      InitialLegalWhite(q);
    }
    ValidMovesDetermined(Initial(), White, t);
  }

  /** The only capture of BLACK's opening at (2,3) is the single stone straight below it. */
  lemma OpeningBracket(j: int, k: int)
    requires 0 <= j < |Directions| && Bracket(Initial(), Pos(2, 3), Directions[j], Black, k)
    ensures Directions[j] == Dir(1, 0) && k == 1
  {
    var d := Directions[j];
    BracketShape(Initial(), Pos(2, 3), d, Black, k);
    InitialCell(At(Pos(2, 3), d, 1));
    InitialCell(At(Pos(2, 3), d, 2));
  }

  /** BLACK opening at (2,3) flips exactly the WHITE stone at (3,3). */
  lemma OpeningFlanked(q: Pos)
    requires InBounds(q)
    ensures Flanked(Initial(), Pos(2, 3), Black, q) <==> q == Pos(3, 3)
  {
    var b := Initial();
    var p := Pos(2, 3);
    if Flanked(b, p, Black, q) {
      var j :| 0 <= j < |Directions| && FlankedAlong(b, p, Directions[j], Black, q);
      var k, m :| 1 <= m <= k && Bracket(b, p, Directions[j], Black, k) && q == At(p, Directions[j], m);
      OpeningBracket(j, k);
    }
    if q == Pos(3, 3) {
      OpeningCaptures();
    }
  }

  /** BLACK's opening at (2,3) closes the WHITE stone at (3,3) with the BLACK one at (4,3). */
  lemma OpeningCaptures()
    ensures Bracket(Initial(), Pos(2, 3), Directions[6], Black, 1)
    ensures FlankedAlong(Initial(), Pos(2, 3), Directions[6], Black, Pos(3, 3))
  {
    SingleBracket(Initial(), Pos(2, 3), Directions[6], Black, Pos(3, 3), Pos(4, 3));
    assert Pos(3, 3) == At(Pos(2, 3), Directions[6], 1);
  }

  /** BLACK opening at (2,3) turns exactly (2,3) and (3,3) BLACK. */
  lemma OpeningMoveBoard()
    ensures MakeMove(Initial(), Pos(2, 3), Black)
         == Place(Place(Initial(), Pos(2, 3), Black), Pos(3, 3), Black)
  {
    var b := Initial();
    var r := MakeMove(b, Pos(2, 3), Black);
    var b2 := Place(Place(b, Pos(2, 3), Black), Pos(3, 3), Black);
    MakeMoveFlipsExactly(b, Pos(2, 3), Black);
    forall q | InBounds(q)
      ensures Get(r, q) == Get(b2, q)
    {
      if q != Pos(2, 3) {
        OpeningFlanked(q);
      }
    }
    BoardExt(r, b2);
  }

  /** After BLACK opens at (2,3): (2,3) and (3,3) are BLACK, every other cell
      is as in the opening position, and the counts are 4 BLACK to 1 WHITE. */
  lemma OpeningMove()
    ensures MakeMove(Initial(), Pos(2, 3), Black)
         == Place(Place(Initial(), Pos(2, 3), Black), Pos(3, 3), Black)
    ensures Count(MakeMove(Initial(), Pos(2, 3), Black), Black) == 4
    ensures Count(MakeMove(Initial(), Pos(2, 3), Black), White) == 1
  {
    var b := Initial();
    var b1 := Place(b, Pos(2, 3), Black);
    OpeningMoveBoard();
    InitialCounts();
    CountPlace(b, Pos(2, 3), Black, Black);
    CountPlace(b, Pos(2, 3), Black, White);
    CountPlace(b1, Pos(3, 3), Black, Black);
    CountPlace(b1, Pos(3, 3), Black, White);
  }

  /** The opening position is not over: both colours can move. */
  lemma InitialNotOver()
    ensures Outcome(Initial()) == None
  {
    InitialMovesBlack();
  }
}
