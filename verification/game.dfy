/** The game around the engine: turns alternate by negation, the game ends
    when neither colour can move, and the verdict compares stone counts.
    One click of the human (BLACK) is followed by one reply of the opponent. */
module Game {
  import opened Geometry
  import opened Boards
  import opened Legality
  import opened Moves

  datatype Option<T> = None | Some(value: T)

  /** The end-of-game banner, from the point of view of the human (BLACK). */
  datatype Verdict = Win | Loss | Draw

  /** Neither colour has a legal move left. */
  predicate GameOver(b: Board)
  {
    ValidMoves(b, Black) == [] && ValidMoves(b, White) == []
  }

  function Judge(black: nat, white: nat): Verdict {
    if black > white then Win
    else if black < white then Loss
    else Draw
  }

  /** The end-of-game check: no verdict while some colour can still move;
      otherwise a win, loss or draw for BLACK by comparing the stone counts. */
  function Outcome(b: Board): (r: Option<Verdict>)
    ensures r.Some? <==>
              forall q :: InBounds(q) ==> !IsValidMove(b, q, Black) && !IsValidMove(b, q, White)
    ensures r == Some(Win) <==> r.Some? && Count(b, Black) > Count(b, White)
    ensures r == Some(Loss) <==> r.Some? && Count(b, Black) < Count(b, White)
    ensures r == Some(Draw) <==> r.Some? && Count(b, Black) == Count(b, White)
  {
    var black := ValidMoves(b, Black);
    var white := ValidMoves(b, White);
    assert |black| > 0 ==> black[0] in black;
    assert |white| > 0 ==> white[0] in white;
    if GameOver(b) then Some(Judge(Count(b, Black), Count(b, White))) else None
  }

  /** A board with no EMPTY cell is over: no cell is a legal move for either
      colour, and every one of the 64 cells is a stone. */
  lemma FullBoardIsOver(b: Board)
    requires Count(b, Empty) == 0
    ensures Outcome(b).Some?
    ensures Count(b, Black) + Count(b, White) == Size * Size
  {
    CountZero(b, Empty);
    CountPartition(b);
  }

  /** A board with 32 BLACK and 32 WHITE stones is full and reports a draw. */
  lemma EvenFullBoardIsDraw(b: Board)
    requires Count(b, Black) == 32 && Count(b, White) == 32
    ensures Outcome(b) == Some(Draw)
  {
    CountPartition(b);
    FullBoardIsOver(b);
  }

  /** What persists between clicks: the board and the colour to move. */
  datatype Session = Session(board: Board, turn: Player)

  /** One click on the legal cell `p`: the player to move plays there, the
      turn passes, and if the other colour has a legal move it plays the
      `pick`-th one (modulo the number of legal moves) and the turn passes
      back. */
  function Click(s: Session, p: Pos, pick: nat): (r: Session)
    requires InBounds(p) && IsValidMove(s.board, p, s.turn)
    ensures r.turn == s.turn <==>
              exists q :: InBounds(q) && IsValidMove(MakeMove(s.board, p, s.turn), q, Opponent(s.turn))
    ensures r.turn != s.turn ==>
              r.turn == Opponent(s.turn) && r.board == MakeMove(s.board, p, s.turn)
    ensures r.turn == s.turn ==>
              exists q :: InBounds(q) && IsValidMove(MakeMove(s.board, p, s.turn), q, Opponent(s.turn))
                          && r.board == MakeMove(MakeMove(s.board, p, s.turn), q, Opponent(s.turn))
  {
    var b1 := MakeMove(s.board, p, s.turn);
    var t1 := Opponent(s.turn);
    var replies := ValidMoves(b1, t1);
    if |replies| > 0 then
      var m := replies[pick % |replies|];
      assert m in replies;
      Session(MakeMove(b1, m, t1), Opponent(t1))
    else
      Session(b1, t1)
  }

  /** Each click fills one cell, or two when the opponent replies. */
  lemma ClickFillsCells(s: Session, p: Pos, pick: nat)
    requires InBounds(p) && IsValidMove(s.board, p, s.turn)
    ensures Count(Click(s, p, pick).board, Empty) ==
              Count(s.board, Empty) - (if Click(s, p, pick).turn == s.turn then 2 else 1)
  {
    var b1 := MakeMove(s.board, p, s.turn);
    MakeMoveAddsOneStone(s.board, p, s.turn);
    var r := Click(s, p, pick);
    if r.turn == s.turn {
      var q :| InBounds(q) && IsValidMove(b1, q, Opponent(s.turn))
               && r.board == MakeMove(b1, q, Opponent(s.turn));
      MakeMoveAddsOneStone(b1, q, Opponent(s.turn));
    }
  }
}
