/** Applying a move (`make_move`): the target takes the player's stone and
    every opponent run closed by one of the player's own stones is flipped.
    The engine does not check legality first, so the operation is total. */
module Moves {
  import opened Geometry
  import opened Boards
  import opened Legality

  /** The first `k` cells of the ray from `p` along `d`, nearest first. */
  function Segment(p: Pos, d: Step, k: nat): seq<Pos> {
    if k == 0 then [] else Segment(p, d, k - 1) + [At(p, d, k)]
  }

  lemma {:induction false} SegmentCells(p: Pos, d: Step, k: nat)
    ensures |Segment(p, d, k)| == k
    ensures forall i :: 0 <= i < k ==> Segment(p, d, k)[i] == At(p, d, i + 1)
  {
    if k > 0 {
      SegmentCells(p, d, k - 1);
    }
  }

  /** One direction of `make_move`: the walk at step `k`, with `run` the
      opponent stones collected so far (`stones_to_flip`). It yields the run
      when one of `player`'s stones closes it, and nothing when it ends at
      EMPTY or at the edge. */
  function FlipsAlong(b: Board, p: Pos, d: Step, player: Player, k: nat, run: seq<Pos>): (r: seq<Pos>)
    requires InBounds(p)
    ensures forall q :: q in r ==> q in run || (InBounds(q) && Get(b, q) == Opponent(player))
    decreases Size - k, p  // as for `ValidAlong`
  {
    var q := At(p, d, k);
    if !InBounds(q) then []
    else if Get(b, q) == Opponent(player) then
      RayLeavesBoard(p, d, k);
      FlipsAlong(b, p, d, player, k + 1, run + [q])
    else if Get(b, q) == player then run
    else []
  }

  /** The loop `for fx, fy in stones_to_flip: board[fx][fy] = v`. */
  function PlaceAll(b: Board, qs: seq<Pos>, v: int): (r: Board)
    requires IsCell(v)
    requires forall q :: q in qs ==> InBounds(q)
    ensures forall q :: InBounds(q) ==> Get(r, q) == (if q in qs then v else Get(b, q))
    decreases |qs|
  {
    if qs == [] then b else PlaceAll(Place(b, qs[0], v), qs[1..], v)
  }

  /** The direction loop of `make_move` over `DIRECTIONS[i..]`, each direction
      walking and flipping on the board as the earlier directions left it. */
  function Sweep(c: Board, p: Pos, player: Player, i: nat): Board
    requires InBounds(p) && i <= |Directions|
    decreases |Directions| - i
  {
    if i == |Directions| then c
    else
      var f := FlipsAlong(c, p, Directions[i], player, 1, []);
      Sweep(PlaceAll(c, f, player), p, player, i + 1)
  }

  /** `make_move` as written: place the stone, then flip direction by direction in place. */
  function MakeMoveAsWritten(b: Board, p: Pos, player: Player): Board
    requires InBounds(p)
  {
    Sweep(Place(b, p, player), p, player, 0)
  }

  /** The stones flipped along `DIRECTIONS[i..]`, each direction judged on the board `b`. */
  function Flips(b: Board, p: Pos, player: Player, i: nat): (r: seq<Pos>)
    requires InBounds(p) && i <= |Directions|
    ensures forall q :: q in r ==> InBounds(q) && Get(b, q) == Opponent(player)
    decreases |Directions| - i
  {
    if i == |Directions| then []
    else FlipsAlong(b, p, Directions[i], player, 1, []) + Flips(b, p, player, i + 1)
  }

  /** `make_move` with every direction judged on the board before the move:
      the target becomes `player`, and so does every stone that some
      direction flips. Only opponent stones and the target ever change. */
  function MakeMove(b: Board, p: Pos, player: Player): (r: Board)
    requires InBounds(p)
    ensures Get(r, p) == player
    ensures forall q :: InBounds(q) && Get(r, q) != Get(b, q) ==>
              Get(r, q) == player && (q == p || Get(b, q) == Opponent(player))
  {
    PlaceAll(Place(b, p, player), Flips(b, p, player, 0), player)
  }

  /** `q` is the `m`-th of `k` opponent stones closed by `player` along `d`. */
  ghost predicate FlankedAlong(b: Board, p: Pos, d: Step, player: Player, q: Pos)
  {
    exists k, m :: 1 <= m <= k && Bracket(b, p, d, player, k) && q == At(p, d, m)
  }

  /** `q` lies inside a closed opponent run along one of the eight directions. */
  ghost predicate Flanked(b: Board, p: Pos, player: Player, q: Pos)
  {
    exists j :: 0 <= j < |Directions| && FlankedAlong(b, p, Directions[j], player, q)
  }

  /** The walk steps over an opponent stone, adding it to the run. */
  lemma FlipsAlongPass(b: Board, p: Pos, d: Step, player: Player, k: nat, run: seq<Pos>)
    requires InBounds(p)
    requires InBounds(At(p, d, k)) && Get(b, At(p, d, k)) == Opponent(player)
    ensures k + 1 <= Size
    ensures FlipsAlong(b, p, d, player, k, run) == FlipsAlong(b, p, d, player, k + 1, run + [At(p, d, k)])
  {
    RayLeavesBoard(p, d, k);
  }

  /** The walk stops at a cell that is not an opponent stone: it yields the
      run on one of `player`'s stones and nothing elsewhere. */
  lemma FlipsAlongStop(b: Board, p: Pos, d: Step, player: Player, k: nat, run: seq<Pos>)
    requires InBounds(p)
    requires !(InBounds(At(p, d, k)) && Get(b, At(p, d, k)) == Opponent(player))
    ensures FlipsAlong(b, p, d, player, k, run) ==
              if InBounds(At(p, d, k)) && Get(b, At(p, d, k)) == player then run else []
  {
  }

  /** Along a segment, stepping over an opponent stone extends the run to the next segment. */
  lemma FlipsAlongExtend(b: Board, p: Pos, d: Step, player: Player, j: nat)
    requires InBounds(p) && 1 <= j
    requires InBounds(At(p, d, j)) && Get(b, At(p, d, j)) == Opponent(player)
    ensures j + 1 <= Size
    ensures FlipsAlong(b, p, d, player, j, Segment(p, d, j - 1)) == FlipsAlong(b, p, d, player, j + 1, Segment(p, d, j))
  {
    FlipsAlongPass(b, p, d, player, j, Segment(p, d, j - 1));
  }

  /** The walk that has collected the whole run stops on the closing stone and yields the run. */
  lemma FlipsAlongEnd(b: Board, p: Pos, d: Step, player: Player, k: int)
    requires InBounds(p)
    requires Bracket(b, p, d, player, k)
    ensures FlipsAlong(b, p, d, player, k + 1, Segment(p, d, k)) == Segment(p, d, k)
  {
    FlipsAlongStop(b, p, d, player, k + 1, Segment(p, d, k));
  }

  lemma {:induction false} FlipsAlongClosed(b: Board, p: Pos, d: Step, player: Player, k: int, j: nat)
    requires InBounds(p)
    requires Bracket(b, p, d, player, k) && 1 <= j <= k + 1
    ensures FlipsAlong(b, p, d, player, j, Segment(p, d, j - 1)) == Segment(p, d, k)
    decreases k + 1 - j
  {
    if j <= k {
      FlipsAlongExtend(b, p, d, player, j);
      FlipsAlongClosed(b, p, d, player, k, j + 1);
    } else {
      FlipsAlongEnd(b, p, d, player, k);
    }
  }

  /** A walk of `make_move` that flips something is a successful walk of
      `is_valid_move` from the same step, with `found` set once a stone is collected. */
  lemma {:induction false} FlipsAlongValid(b: Board, p: Pos, d: Step, player: Player, k: nat, run: seq<Pos>)
    requires InBounds(p)
    requires FlipsAlong(b, p, d, player, k, run) != []
    ensures ValidAlong(b, p, d, player, k, run != [])
    decreases Size - k
  {
    var q := At(p, d, k);
    if InBounds(q) && Get(b, q) == Opponent(player) {
      RayLeavesBoard(p, d, k);
      FlipsAlongValid(b, p, d, player, k + 1, run + [q]);
    }
  }

  /** One direction of `make_move` flips exactly the closed run: the `k`
      opponent stones of a bracket, or nothing at all when the run ends at
      EMPTY or at the edge (no partial flips). */
  lemma DirectionFlips(b: Board, p: Pos, d: Step, player: Player)
    requires InBounds(p)
    ensures forall k :: Bracket(b, p, d, player, k) ==>
              FlipsAlong(b, p, d, player, 1, []) == Segment(p, d, k)
    ensures (forall k :: !Bracket(b, p, d, player, k)) ==> FlipsAlong(b, p, d, player, 1, []) == []
  {
    if k :| Bracket(b, p, d, player, k) {
      FlipsAlongClosed(b, p, d, player, k, 1);
      forall k' | Bracket(b, p, d, player, k')
        ensures FlipsAlong(b, p, d, player, 1, []) == Segment(p, d, k')
      {
        BracketUnique(b, p, d, player, k, k');
      }
    } else if FlipsAlong(b, p, d, player, 1, []) != [] {
      FlipsAlongValid(b, p, d, player, 1, []);
      var k := ValidAlongSound(b, p, d, player, 1);
      assert false;
    }
  }

  /** A direction of `make_move` flips something exactly when the same
      direction makes `is_valid_move` succeed. */
  lemma DirectionFlipsIffLegal(b: Board, p: Pos, d: Step, player: Player)
    requires InBounds(p)
    ensures FlipsAlong(b, p, d, player, 1, []) != [] <==> ValidAlong(b, p, d, player, 1, false)
  {
    DirectionFlips(b, p, d, player);
    DirectionLegalIff(b, p, d, player);
  }

  /** The cells of a segment are the first `k` cells of the ray. */
  lemma InSegment(p: Pos, d: Step, k: nat, q: Pos)
    ensures q in Segment(p, d, k) <==> exists m :: 1 <= m <= k && q == At(p, d, m)
  {
    var s := Segment(p, d, k);
    SegmentCells(p, d, k);
    if q in s {
      var i :| 0 <= i < |s| && s[i] == q;
      assert 1 <= i + 1 <= k && q == At(p, d, i + 1);
    }
    if m :| 1 <= m <= k && q == At(p, d, m) {
      assert s[m - 1] == q;
    }
  }

  /** A cell is flipped by direction `d` exactly when it lies inside the closed run along `d`. */
  lemma InFlipsAlongIff(b: Board, p: Pos, d: Step, player: Player, q: Pos)
    requires InBounds(p)
    ensures q in FlipsAlong(b, p, d, player, 1, []) <==> FlankedAlong(b, p, d, player, q)
  {
    DirectionFlips(b, p, d, player);
    if k :| Bracket(b, p, d, player, k) {
      InSegment(p, d, k, q);
      if FlankedAlong(b, p, d, player, q) {
        var k', m :| 1 <= m <= k' && Bracket(b, p, d, player, k') && q == At(p, d, m);
        BracketUnique(b, p, d, player, k, k');
      }
    }
  }

  /** `q` lies inside a closed opponent run along one of `Directions[i..]`. */
  ghost predicate FlankedFrom(b: Board, p: Pos, player: Player, i: nat, q: Pos)
  {
    exists j :: i <= j < |Directions| && FlankedAlong(b, p, Directions[j], player, q)
  }

  lemma InFlipsStep(b: Board, p: Pos, player: Player, i: nat, q: Pos)
    requires InBounds(p) && i < |Directions|
    ensures q in Flips(b, p, player, i) <==>
              q in FlipsAlong(b, p, Directions[i], player, 1, []) || q in Flips(b, p, player, i + 1)
  {
  }

  lemma {:induction false} InFlipsIff(b: Board, p: Pos, player: Player, i: nat, q: Pos)
    requires InBounds(p) && i <= |Directions|
    ensures q in Flips(b, p, player, i) <==> FlankedFrom(b, p, player, i, q)
    decreases |Directions| - i
  {
    if i < |Directions| {
      InFlipsIff(b, p, player, i + 1, q);
      InFlipsExtend(b, p, player, i, q);
    } else {
      assert Flips(b, p, player, i) == [];
      assert !FlankedFrom(b, p, player, i, q);
    }
  }

  /** One round of the direction loop keeps membership in the flips and flanking in step. */
  lemma InFlipsExtend(b: Board, p: Pos, player: Player, i: nat, q: Pos)
    requires InBounds(p) && i < |Directions|
    requires q in Flips(b, p, player, i + 1) <==> FlankedFrom(b, p, player, i + 1, q)
    ensures q in Flips(b, p, player, i) <==> FlankedFrom(b, p, player, i, q)
  {
    InFlipsStep(b, p, player, i, q);
    InFlipsAlongIff(b, p, Directions[i], player, q);
    FlankedFromStep(b, p, player, i, q);
  }

  lemma FlankedFromStep(b: Board, p: Pos, player: Player, i: nat, q: Pos)
    requires i < |Directions|
    ensures FlankedFrom(b, p, player, i, q) <==>
              FlankedAlong(b, p, Directions[i], player, q) || FlankedFrom(b, p, player, i + 1, q)
  {
    if FlankedFrom(b, p, player, i, q) {
      var j :| i <= j < |Directions| && FlankedAlong(b, p, Directions[j], player, q);
      if j > i {
        assert i + 1 <= j < |Directions| && FlankedAlong(b, p, Directions[j], player, q);
      }
    }
  }

  /** The new value of one cell other than the target. */
  lemma MakeMoveCell(b: Board, p: Pos, player: Player, q: Pos)
    requires InBounds(p) && InBounds(q) && q != p
    ensures Get(MakeMove(b, p, player), q) == (if Flanked(b, p, player, q) then player else Get(b, q))
  {
    InFlipsIff(b, p, player, 0, q);
  }

  /** `make_move` changes a cell other than the target exactly when the cell
      lies inside an opponent run closed by one of the player's stones, and
      then turns it into the player's colour. */
  lemma MakeMoveFlipsExactly(b: Board, p: Pos, player: Player)
    requires InBounds(p)
    ensures forall q :: InBounds(q) && q != p ==>
              Get(MakeMove(b, p, player), q) == (if Flanked(b, p, player, q) then player else Get(b, q))
    ensures forall q :: InBounds(q) && q != p ==>
              (Get(MakeMove(b, p, player), q) != Get(b, q) <==> Flanked(b, p, player, q))
  {
    forall q | InBounds(q) && q != p
      ensures Get(MakeMove(b, p, player), q) == (if Flanked(b, p, player, q) then player else Get(b, q))
    {
      MakeMoveCell(b, p, player, q);
    }
  }

  /** A cell of a ray with no closed run lies on no closed run at all. */
  lemma OffBracketNotFlanked(b: Board, p: Pos, d: Step, player: Player, m: int)
    requires 1 <= m
    requires forall k :: !Bracket(b, p, d, player, k)
    ensures !Flanked(b, p, player, At(p, d, m))
  {
    if Flanked(b, p, player, At(p, d, m)) {
      var j :| 0 <= j < |Directions| && FlankedAlong(b, p, Directions[j], player, At(p, d, m));
      var k, m' :| 1 <= m' <= k && Bracket(b, p, Directions[j], player, k)
                   && At(p, d, m) == At(p, Directions[j], m');
      RaysDisjoint(p, d, m, Directions[j], m');
      assert false;
    }
  }

  /** No partial flips: along a direction with no closed run, `make_move`
      leaves every cell of the ray as it was. */
  lemma NoPartialFlips(b: Board, p: Pos, d: Step, player: Player)
    requires InBounds(p)
    requires forall k :: !Bracket(b, p, d, player, k)
    ensures forall m :: 1 <= m && InBounds(At(p, d, m)) ==>
              Get(MakeMove(b, p, player), At(p, d, m)) == Get(b, At(p, d, m))
  {
    forall m | 1 <= m && InBounds(At(p, d, m))
      ensures Get(MakeMove(b, p, player), At(p, d, m)) == Get(b, At(p, d, m))
    {
      RayAvoidsOrigin(p, d, m);
      MakeMoveCell(b, p, player, At(p, d, m));
      OffBracketNotFlanked(b, p, d, player, m);
    }
  }

  /** The engine does not re-check legality: where no direction closes a run
      (an illegal cell, EMPTY or not), `make_move` only writes the target. */
  lemma MakeMoveWithoutCapture(b: Board, p: Pos, player: Player)
    requires InBounds(p)
    requires forall j, k :: 0 <= j < |Directions| ==> !Bracket(b, p, Directions[j], player, k)
    ensures MakeMove(b, p, player) == Place(b, p, player)
  {
    var r := MakeMove(b, p, player);
    MakeMoveFlipsExactly(b, p, player);
    forall q | InBounds(q) && q != p
      ensures !Flanked(b, p, player, q)
    {
      if Flanked(b, p, player, q) {
        assert false;
      }
    }
    BoardExt(r, Place(b, p, player));
  }

  /** `c` and `b` hold the same stones all along the ray from `p` in direction `d`. */
  ghost predicate AgreeOnRay(c: Board, b: Board, p: Pos, d: Step)
  {
    forall i :: 1 <= i && InBounds(At(p, d, i)) ==> Get(c, At(p, d, i)) == Get(b, At(p, d, i))
  }

  /** Whether a direction holds a closed run depends only on the cells of its own ray. */
  lemma BracketFrame(c: Board, b: Board, p: Pos, d: Step, player: Player, k: int)
    requires AgreeOnRay(c, b, p, d)
    requires Bracket(b, p, d, player, k)
    ensures Bracket(c, p, d, player, k)
  {
  }

  /** The walk of one direction reads only the cells of its own ray. */
  lemma FlipsAlongFrame(c: Board, b: Board, p: Pos, d: Step, player: Player)
    requires InBounds(p)
    requires AgreeOnRay(c, b, p, d)
    ensures FlipsAlong(c, p, d, player, 1, []) == FlipsAlong(b, p, d, player, 1, [])
  {
    DirectionFlips(c, p, d, player);
    DirectionFlips(b, p, d, player);
    if k :| Bracket(b, p, d, player, k) {
      BracketFrame(c, b, p, d, player, k);
    } else if k :| Bracket(c, p, d, player, k) {
      BracketFrame(b, c, p, d, player, k);
    }
  }

  /** The flips of direction `d`, judged on `b`, lie on the ray along `d`. */
  lemma FlipsOnRay(b: Board, p: Pos, d: Step, player: Player, q: Pos)
    requires InBounds(p)
    requires q in FlipsAlong(b, p, d, player, 1, [])
    ensures exists m :: 1 <= m && q == At(p, d, m)
  {
    InFlipsAlongIff(b, p, d, player, q);
  }

  lemma PlaceAllConcat(c: Board, f: seq<Pos>, g: seq<Pos>, v: int)
    requires IsCell(v)
    requires forall q :: q in f ==> InBounds(q)
    requires forall q :: q in g ==> InBounds(q)
    ensures PlaceAll(PlaceAll(c, f, v), g, v) == PlaceAll(c, f + g, v)
  {
    BoardExt(PlaceAll(PlaceAll(c, f, v), g, v), PlaceAll(c, f + g, v));
  }

  /** Flipping the run of direction `Directions[i]` leaves every other ray alone. */
  lemma FlipsKeepOtherRays(c: Board, b: Board, p: Pos, player: Player, i: int, j: int)
    requires InBounds(p)
    requires 0 <= i < |Directions| && 0 <= j < |Directions| && i != j
    requires AgreeOnRay(c, b, p, Directions[j])
    ensures AgreeOnRay(PlaceAll(c, FlipsAlong(b, p, Directions[i], player, 1, []), player), b, p, Directions[j])
  {
    var d := Directions[i];
    var f := FlipsAlong(b, p, d, player, 1, []);
    var c' := PlaceAll(c, f, player);
    forall m | 1 <= m && InBounds(At(p, Directions[j], m))
      ensures Get(c', At(p, Directions[j], m)) == Get(b, At(p, Directions[j], m))
    {
      if At(p, Directions[j], m) in f {
        FlipsOnRay(b, p, d, player, At(p, Directions[j], m));
        var m' :| 1 <= m' && At(p, Directions[j], m) == At(p, d, m');
        RaysDisjoint(p, Directions[j], m, d, m');
        DirectionsDistinct(i, j);
        assert false;
      }
    }
  }

  /** Flipping the run of direction `Directions[i]` leaves the later rays alone. */
  lemma FlipsKeepLaterRays(c: Board, b: Board, p: Pos, player: Player, i: int)
    requires InBounds(p) && 0 <= i < |Directions|
    requires forall j :: i <= j < |Directions| ==> AgreeOnRay(c, b, p, Directions[j])
    ensures forall j :: i + 1 <= j < |Directions| ==>
              AgreeOnRay(PlaceAll(c, FlipsAlong(b, p, Directions[i], player, 1, []), player), b, p, Directions[j])
  {
    forall j | i + 1 <= j < |Directions|
      ensures AgreeOnRay(PlaceAll(c, FlipsAlong(b, p, Directions[i], player, 1, []), player), b, p, Directions[j])
    {
      FlipsKeepOtherRays(c, b, p, player, i, j);
    }
  }

  /** One round of the direction loop: if the rest of the loop, started on the
      board after flipping `Directions[i]`, agrees with the simultaneous form,
      so does the loop started at `i`. */
  lemma SweepStep(c: Board, b: Board, p: Pos, player: Player, i: nat)
    requires InBounds(p) && i < |Directions|
    requires AgreeOnRay(c, b, p, Directions[i])
    requires var c' := PlaceAll(c, FlipsAlong(b, p, Directions[i], player, 1, []), player);
             Sweep(c', p, player, i + 1) == PlaceAll(c', Flips(b, p, player, i + 1), player)
    ensures Sweep(c, p, player, i) == PlaceAll(c, Flips(b, p, player, i), player)
  {
    var f := FlipsAlong(b, p, Directions[i], player, 1, []);
    FlipsAlongFrame(c, b, p, Directions[i], player);
    PlaceAllConcat(c, f, Flips(b, p, player, i + 1), player);
  }

  lemma {:induction false} SweepMatchesSimultaneous(c: Board, b: Board, p: Pos, player: Player, i: nat)
    requires InBounds(p) && i <= |Directions|
    requires forall j :: i <= j < |Directions| ==> AgreeOnRay(c, b, p, Directions[j])
    ensures Sweep(c, p, player, i) == PlaceAll(c, Flips(b, p, player, i), player)
    decreases |Directions| - i
  {
    if i < |Directions| {
      var c' := PlaceAll(c, FlipsAlong(b, p, Directions[i], player, 1, []), player);
      FlipsKeepLaterRays(c, b, p, player, i);
      SweepMatchesSimultaneous(c', b, p, player, i + 1);
      SweepStep(c, b, p, player, i);
    }
  }

  /** Flipping direction by direction on the board being mutated, as the
      engine does, gives the same board as judging every direction on the
      board before the move: the eight rays are disjoint and miss the target. */
  lemma MakeMoveMatchesSource(b: Board, p: Pos, player: Player)
    requires InBounds(p)
    ensures MakeMoveAsWritten(b, p, player) == MakeMove(b, p, player)
  {
    var c := Place(b, p, player);
    forall j | 0 <= j < |Directions|
      ensures AgreeOnRay(c, b, p, Directions[j])
    {
      forall m | 1 <= m && InBounds(At(p, Directions[j], m))
        ensures Get(c, At(p, Directions[j], m)) == Get(b, At(p, Directions[j], m))
      {
        RayAvoidsOrigin(p, Directions[j], m);
      }
    }
    SweepMatchesSimultaneous(c, b, p, player, 0);
  }

  /** Placing on an EMPTY target fills exactly one cell: no cell is emptied,
      so the number of stones on the board rises by exactly one. */
  lemma MakeMoveAddsOneStone(b: Board, p: Pos, player: Player)
    requires InBounds(p) && Get(b, p) == Empty
    ensures Count(MakeMove(b, p, player), Empty) == Count(b, Empty) - 1
    ensures Count(MakeMove(b, p, player), Black) + Count(MakeMove(b, p, player), White)
         == Count(b, Black) + Count(b, White) + 1
  {
    var r := MakeMove(b, p, player);
    CountOneDiff(b, r, Empty, p);
    CountPartition(b);
    CountPartition(r);
  }

  /** A legal move flips at least one opponent stone: the opponent loses
      stones and the player gains the target and at least one flipped stone. */
  lemma LegalMoveCaptures(b: Board, p: Pos, player: Player)
    requires InBounds(p) && IsValidMove(b, p, player)
    ensures Count(MakeMove(b, p, player), Opponent(player)) < Count(b, Opponent(player))
    ensures Count(MakeMove(b, p, player), player) >= Count(b, player) + 2
  {
    var r := MakeMove(b, p, player);
    ValidMoveIff(b, p, player);
    var j, k :| 0 <= j < |Directions| && Bracket(b, p, Directions[j], player, k);
    var w := At(p, Directions[j], 1);
    assert FlankedAlong(b, p, Directions[j], player, w);
    RayAvoidsOrigin(p, Directions[j], 1);
    MakeMoveFlipsExactly(b, p, player);
    assert Get(r, w) == player && Get(b, w) == Opponent(player);
    CountMonotone(b, r, Opponent(player));
    MakeMoveAddsOneStone(b, p, player);
    CountPartition(b);
    CountPartition(r);
  }
}
