/** Move legality (`is_valid_move`) and the list of legal cells
    (`get_valid_moves`), with the ray characterisation they implement. */
module Legality {
  import opened Geometry
  import opened Boards

  /** The reference description of one capturing direction: the `k >= 1` cells
      after `p` along `d` hold opponent stones and the next cell holds one of
      `player`'s, all on the board. */
  predicate Bracket(b: Board, p: Pos, d: Step, player: Player, k: int)
  {
    && 1 <= k
    && (forall i :: 1 <= i <= k ==> InBounds(At(p, d, i)) && Get(b, At(p, d, i)) == Opponent(player))
    && InBounds(At(p, d, k + 1)) && Get(b, At(p, d, k + 1)) == player
  }

  /** The cells before step `j` of the ray all hold opponent stones. */
  predicate OpponentPrefix(b: Board, p: Pos, d: Step, player: Player, j: int)
  {
    forall i :: 1 <= i < j ==> InBounds(At(p, d, i)) && Get(b, At(p, d, i)) == Opponent(player)
  }

  /** One direction of `is_valid_move`: the walk at step `k` of the ray, where
      `found` records that an opponent stone has been passed. */
  function ValidAlong(b: Board, p: Pos, d: Step, player: Player, k: nat, found: bool): bool
    requires InBounds(p)
    decreases Size - k, p  // `p` stops the verifier unfolding the walk for a concrete `k` alone
  {
    var q := At(p, d, k);
    if !InBounds(q) then false
    else if Get(b, q) == Opponent(player) then
      RayLeavesBoard(p, d, k);
      ValidAlong(b, p, d, player, k + 1, true)
    else if Get(b, q) == player then found
    else false
  }

  /** The loop over `DIRECTIONS[i..]`: true as soon as one direction succeeds. */
  function AnyDirection(b: Board, p: Pos, player: Player, i: nat): bool
    requires InBounds(p) && i <= |Directions|
    decreases |Directions| - i
  {
    if i == |Directions| then false
    else if ValidAlong(b, p, Directions[i], player, 1, false) then true
    else AnyDirection(b, p, player, i + 1)
  }

  /** `is_valid_move`: the target is EMPTY and some direction captures. */
  predicate IsValidMove(b: Board, p: Pos, player: Player)
    requires InBounds(p)
  {
    Get(b, p) == Empty && AnyDirection(b, p, player, 0)
  }

  /** Passing an opponent stone moves the walk one step on, with `found` set. */
  lemma ValidAlongStep(b: Board, p: Pos, d: Step, player: Player, k: nat, found: bool)
    requires InBounds(p)
    requires InBounds(At(p, d, k)) && Get(b, At(p, d, k)) == Opponent(player)
    ensures k + 1 <= Size
    ensures ValidAlong(b, p, d, player, k, found) == ValidAlong(b, p, d, player, k + 1, true)
  {
    RayLeavesBoard(p, d, k);
  }

  /** An opponent stone at step `j` extends an opponent prefix by one. */
  lemma OpponentPrefixStep(b: Board, p: Pos, d: Step, player: Player, j: int)
    requires OpponentPrefix(b, p, d, player, j)
    requires InBounds(At(p, d, j)) && Get(b, At(p, d, j)) == Opponent(player)
    ensures OpponentPrefix(b, p, d, player, j + 1)
  {
  }

  /** An opponent prefix of at least one stone followed by one of `player`'s is a closed run. */
  lemma PrefixCloses(b: Board, p: Pos, d: Step, player: Player, j: int)
    requires 2 <= j && OpponentPrefix(b, p, d, player, j)
    requires InBounds(At(p, d, j)) && Get(b, At(p, d, j)) == player
    ensures Bracket(b, p, d, player, j - 1)
  {
  }

  /** A closed opponent run along one direction has only one possible length. */
  lemma BracketUnique(b: Board, p: Pos, d: Step, player: Player, k1: int, k2: int)
    requires Bracket(b, p, d, player, k1) && Bracket(b, p, d, player, k2)
    ensures k1 == k2
  {
  }

  lemma {:induction false} ValidAlongClosed(b: Board, p: Pos, d: Step, player: Player, k: int, j: nat)
    requires InBounds(p)
    requires Bracket(b, p, d, player, k) && 1 <= j <= k + 1
    ensures ValidAlong(b, p, d, player, j, j >= 2)
    decreases k + 1 - j
  {
    if j <= k {
      ValidAlongClosed(b, p, d, player, k, j + 1);
    }
  }

  /** A successful walk from step `j`, over an opponent prefix, ends in a closed run. */
  lemma {:induction false} ValidAlongSound(b: Board, p: Pos, d: Step, player: Player, j: nat) returns (k: int)
    requires InBounds(p) && 1 <= j
    requires OpponentPrefix(b, p, d, player, j)
    requires ValidAlong(b, p, d, player, j, j >= 2)
    ensures Bracket(b, p, d, player, k)
    decreases Size - j
  {
    var q := At(p, d, j);
    if Get(b, q) == Opponent(player) {
      RayLeavesBoard(p, d, j);
      ValidAlongStep(b, p, d, player, j, j >= 2);
      OpponentPrefixStep(b, p, d, player, j);
      k := ValidAlongSound(b, p, d, player, j + 1);
    } else {
      PrefixCloses(b, p, d, player, j);
      k := j - 1;
    }
  }

  /** One direction of `is_valid_move` succeeds exactly when that direction
      holds a closed run of `k >= 1` opponent stones; a run ending at EMPTY,
      at the edge, or with no opponent stone at all does not count. */
  lemma DirectionLegalIff(b: Board, p: Pos, d: Step, player: Player)
    requires InBounds(p)
    ensures ValidAlong(b, p, d, player, 1, false) <==> exists k :: Bracket(b, p, d, player, k)
  {
    if k :| Bracket(b, p, d, player, k) {
      ValidAlongClosed(b, p, d, player, k, 1);
    }
    if ValidAlong(b, p, d, player, 1, false) {
      var k := ValidAlongSound(b, p, d, player, 1);
    }
  }

  lemma {:induction false} AnyDirectionIff(b: Board, p: Pos, player: Player, i: nat)
    requires InBounds(p) && i <= |Directions|
    ensures AnyDirection(b, p, player, i) <==>
              exists j, k :: i <= j < |Directions| && Bracket(b, p, Directions[j], player, k)
    decreases |Directions| - i
  {
    if i < |Directions| {
      var d := Directions[i];
      AnyDirectionIff(b, p, player, i + 1);
      if ValidAlong(b, p, d, player, 1, false) {
        var k := ValidAlongSound(b, p, d, player, 1);
        assert i <= i < |Directions| && Bracket(b, p, Directions[i], player, k);
      } else if j, k :| i <= j < |Directions| && Bracket(b, p, Directions[j], player, k) {
        if j == i {
          ValidAlongClosed(b, p, d, player, k, 1);
          assert false;
        }
        assert i + 1 <= j < |Directions| && Bracket(b, p, Directions[j], player, k);
      }
    }
  }

  /** `is_valid_move` holds exactly when the target is EMPTY and some
      direction closes a run of at least one opponent stone with one of the
      player's own; in particular it is false on every occupied cell. */
  lemma ValidMoveIff(b: Board, p: Pos, player: Player)
    requires InBounds(p)
    ensures IsValidMove(b, p, player) <==>
              Get(b, p) == Empty &&
              exists j, k :: 0 <= j < |Directions| && Bracket(b, p, Directions[j], player, k)
  {
    AnyDirectionIff(b, p, player, 0);
  }

  /** The row-major list comprehension of `get_valid_moves`, from index `n` on. */
  function ValidMovesFrom(b: Board, player: Player, n: int): (r: seq<Pos>)
    requires 0 <= n <= Size * Size
    ensures forall q :: q in r <==> InBounds(q) && Index(q) >= n && IsValidMove(b, q, player)
    ensures forall i, j :: 0 <= i < j < |r| ==> Index(r[i]) < Index(r[j])
    ensures forall i :: 0 <= i < |r| ==> n <= Index(r[i])
    decreases Size * Size - n
  {
    if n == Size * Size then
      assert forall q :: InBounds(q) ==> Index(q) < Size * Size by {
        forall q | InBounds(q) ensures Index(q) < Size * Size { IndexOfCell(q); }
      }
      []
    else
      var q := CellOf(n);
      var rest := ValidMovesFrom(b, player, n + 1);
      assert forall q' :: InBounds(q') && Index(q') >= n && q' != q ==> Index(q') >= n + 1 by {
        forall q' | InBounds(q') && Index(q') >= n && q' != q ensures Index(q') >= n + 1 {
          IndexOfCell(q');
        }
      }
      if IsValidMove(b, q, player) then [q] + rest else rest
  }

  /** `get_valid_moves`: every legal cell, each once, in row-major order. */
  function ValidMoves(b: Board, player: Player): (r: seq<Pos>)
    ensures forall q :: q in r <==> InBounds(q) && IsValidMove(b, q, player)
    ensures forall i, j :: 0 <= i < j < |r| ==> Index(r[i]) < Index(r[j])
  {
    assert forall q :: InBounds(q) ==> Index(q) >= 0 by {
      forall q | InBounds(q) ensures Index(q) >= 0 { IndexOfCell(q); }
    }
    ValidMovesFrom(b, player, 0)
  }

  /** The legal-move list has no duplicates. */
  lemma ValidMovesDistinct(b: Board, player: Player)
    ensures forall i, j :: 0 <= i < j < |ValidMoves(b, player)| ==>
              ValidMoves(b, player)[i] != ValidMoves(b, player)[j]
  {
  }

  /** In a list strictly increasing in row-major order, the tail holds every
      element except the head. */
  lemma RowMajorTail(s: seq<Pos>)
    requires |s| > 0
    requires forall i, j :: 0 <= i < j < |s| ==> Index(s[i]) < Index(s[j])
    ensures forall q :: q in s[1..] <==> q in s && q != s[0]
  {
    forall q | q in s[1..]
      ensures q != s[0]
    {
      var a :| 0 <= a < |s[1..]| && s[1..][a] == q;
      assert Index(s[0]) < Index(s[a + 1]);
    }
    forall q | q in s && q != s[0]
      ensures q in s[1..]
    {
      var c :| 0 <= c < |s| && s[c] == q;
      assert s[1..][c - 1] == q;
    }
  }

  /** A list strictly increasing in row-major order is fixed by its elements. */
  lemma {:induction false} RowMajorUnique(s: seq<Pos>, t: seq<Pos>)
    requires forall i, j :: 0 <= i < j < |s| ==> Index(s[i]) < Index(s[j])
    requires forall i, j :: 0 <= i < j < |t| ==> Index(t[i]) < Index(t[j])
    requires forall q :: q in s <==> q in t
    ensures s == t
    decreases |s|
  {
    if |s| > 0 && |t| > 0 {
      assert s[0] in t && t[0] in s;
      var i :| 0 <= i < |t| && t[i] == s[0];
      var i' :| 0 <= i' < |s| && s[i'] == t[0];
      if i != 0 {
        assert false;
      }
      RowMajorTail(s);
      RowMajorTail(t);
      RowMajorUnique(s[1..], t[1..]);
      assert s == [s[0]] + s[1..] && t == [t[0]] + t[1..];
    } else if |s| > 0 {
      HeadIsMember(s);
      assert false;
    } else if |t| > 0 {
      HeadIsMember(t);
      assert false;
    }
  }

  lemma HeadIsMember(s: seq<Pos>)
    requires |s| > 0
    ensures s[0] in s
  {
  }

  /** `get_valid_moves` is the only row-major list of exactly the legal cells:
      any such list equals it. */
  lemma ValidMovesDetermined(b: Board, player: Player, t: seq<Pos>)
    requires forall i, j :: 0 <= i < j < |t| ==> Index(t[i]) < Index(t[j])
    requires forall q :: q in t <==> InBounds(q) && IsValidMove(b, q, player)
    ensures ValidMoves(b, player) == t
  {
    RowMajorUnique(ValidMoves(b, player), t);
  }
}
