/**
 Concrete games on the classic 3 x 3 board, derived from the general
 properties of `Step` rather than by unfolding the line enumeration.
 */
module Scenarios {
  import opened Coords
  import opened Lines
  import opened Game

  /** With fewer than `order` marks for each player, no line is complete. */
  lemma FewMarksNoWin(order: nat, dims: nat, board: seq<Player>, xs: set<int>, os: set<int>)
    requires order >= 1 && |board| == Pow(order, dims)
    requires Marks(board, X) <= xs && |xs| < order
    requires Marks(board, O) <= os && |os| < order
    ensures !SomeLineOwnedBy(order, dims, board, X) && !SomeLineOwnedBy(order, dims, board, O)
  {
    SubsetCardinality(Marks(board, X), xs);
    SubsetCardinality(Marks(board, O), os);
    if SomeLineOwnedBy(order, dims, board, X) {
      OwnedNeedsMarks(order, dims, board, X);
    }
    if SomeLineOwnedBy(order, dims, board, O) {
      OwnedNeedsMarks(order, dims, board, O);
    }
  }

  /** A line on the list that one player fills is a line that player owns. */
  lemma OwnedLine(order: nat, dims: nat, board: seq<Player>, line: seq<seq<int>>, p: Player)
    requires line in GetLines(dims, order) && OwnedBy(order, board, line, p)
    ensures SomeLineOwnedBy(order, dims, board, p)
  {
    var lines := GetLines(dims, order);
    var m :| 0 <= m < |lines| && lines[m] == line;
  }

  /**
   A legal move by the player whose turn it is, onto a free cell, that leaves
   each player short of a line and some cell free: the game goes on with the
   updated board and the other player to move.
   */
  lemma ShortMove(g: Game, player: Player, move: int, next: seq<Player>, xs: set<int>, os: set<int>)
    requires WellFormed(g) && g.turn == Mover(player) && (player == X || player == O)
    requires 0 <= move < |g.board| && g.board[move] == Empty && g.board[move := player] == next
    requires Marks(next, X) <= xs && |xs| < g.order && Marks(next, O) <= os && |os| < g.order && HasEmpty(next)
    ensures Step(g, player, move)
      == Success(StepResult(Game(g.order, g.dims, next, Mover(Negate(player))), Observation(next), Continue))
  {
    var r := Step(g, player, move);
    assert r.Success?;
    StepOutcome(g, player, move);
    FewMarksNoWin(g.order, g.dims, next, xs, os);
    assert r.value.observation == Observation(next);
  }

  /** A legal move onto a free cell that completes a line for the mover wins. */
  lemma WinningMove(g: Game, player: Player, move: int, next: seq<Player>, line: seq<seq<int>>)
    requires WellFormed(g) && g.turn == Mover(player) && (player == X || player == O)
    requires 0 <= move < |g.board| && g.board[move] == Empty && g.board[move := player] == next
    requires line in GetLines(g.dims, g.order) && OwnedBy(g.order, next, line, player)
    ensures Step(g, player, move)
      == Success(StepResult(Game(g.order, g.dims, next, Mover(Negate(player))), Observation(next), Win))
  {
    OwnedLine(g.order, g.dims, next, line, player);
    var r := Step(g, player, move);
    assert r.Success?;
    StepOutcome(g, player, move);
    assert r.value.observation == Observation(next);
  }

  // The boards of the game below, row-major: cells 0, 1, 2 are the top row.
  // The lemmas about this game take the game, board or board size as a
  // parameter that `requires` pins to one value, instead of having no
  // parameters: with literal arguments the verifier unfolds `Step` and
  // `GetLines` on constants, which makes these proofs far more expensive.
  const E := Empty
  const B1: seq<Player> := [X, E, E, E, E, E, E, E, E]
  const B2: seq<Player> := [X, E, E, O, E, E, E, E, E]
  const B3: seq<Player> := [X, X, E, O, E, E, E, E, E]
  const B4: seq<Player> := [X, X, E, O, O, E, E, E, E]
  const B5: seq<Player> := [X, X, X, O, O, E, E, E, E]

  /** Each board of the game is the previous one with one more mark, and nobody has three marks before the last. */
  lemma BoardFacts()
    ensures B1[3 := O] == B2 && B2[1 := X] == B3 && B3[4 := O] == B4 && B4[2 := X] == B5
    ensures Marks(B2, X) <= {0} && Marks(B2, O) <= {3} && B2[8] == Empty
    ensures Marks(B3, X) <= {0, 1} && Marks(B3, O) <= {3} && B3[8] == Empty
    ensures Marks(B4, X) <= {0, 1} && Marks(B4, O) <= {3, 4} && B4[8] == Empty
  {
  }

  lemma FirstMove(g: Game)
    requires New(3, 2) == Success(g)
    ensures Step(g, X, 0) == Success(StepResult(Game(3, 2, B1, Mover(O)), Observation(B1), Continue))
  {
    FirstMoveContinues(g, X, 0);
    assert |g.board| == 9;
    assert g.board[0 := X] == B1;
  }

  lemma SecondMove(g: Game)
    requires g == Game(3, 2, B1, Mover(O))
    ensures Step(g, O, 3) == Success(StepResult(Game(3, 2, B2, Mover(X)), Observation(B2), Continue))
  {
    BoardFacts();
    ShortMove(g, O, 3, B2, {0}, {3});
  }

  lemma ThirdMove(g: Game)
    requires g == Game(3, 2, B2, Mover(X))
    ensures Step(g, X, 1) == Success(StepResult(Game(3, 2, B3, Mover(O)), Observation(B3), Continue))
  {
    BoardFacts();
    ShortMove(g, X, 1, B3, {0, 1}, {3});
  }

  lemma FourthMove(g: Game)
    requires g == Game(3, 2, B3, Mover(O))
    ensures Step(g, O, 4) == Success(StepResult(Game(3, 2, B4, Mover(X)), Observation(B4), Continue))
  {
    BoardFacts();
    ShortMove(g, O, 4, B4, {0, 1}, {3, 4});
  }

  /** Row-major position of the cell at column t of the top row. */
  lemma TopRowPosition(t: int)
    ensures Encode(3, [0, t]) == t
  {
    assert [0, t][..1] == [0];
    assert [0][..0] == [];
  }

  /** The top row, walked from (0, 0) one column at a time, is one of the enumerated lines. */
  lemma TopRowEnumerated(n: nat, k: nat, s: seq<int>, v: seq<int>)
    requires n == 2 && k == 3 && s == [0, 0] && v == [0, 1]
    ensures Walk(s, v, k) in GetLines(n, k)
    ensures forall t :: 0 <= t < k ==> Walk(s, v, k)[t] == [0, t]
  {
    var w := Walk(s, v, k);
    forall t | 0 <= t < k
      ensures w[t] == [0, t] && ValidCoord(k, n, w[t])
    {
      assert w[t][0] == 0 && w[t][1] == t;
    }
    assert v[0] == 0 && v[1] == 1;
    assert CanonicalStep(v);
    WalksAreLines(n, k, s, v);
  }

  /** Every cell of the top row of B5 holds an X. */
  lemma TopRowFilled(order: nat, b: seq<Player>, line: seq<seq<int>>)
    requires order == 3 && b == B5 && |line| == 3
    requires forall t :: 0 <= t < 3 ==> line[t] == [0, t]
    ensures OwnedBy(order, b, line, X)
  {
    forall t | 0 <= t < 3
      ensures 0 <= Encode(order, line[t]) < |b| && b[Encode(order, line[t])] == X
    {
      TopRowPosition(t);
    }
  }

  /** The top row of an order-k square board, from column 0 to column k - 1. */
  function TopRow(k: nat): seq<seq<int>>
  {
    Walk([0, 0], [0, 1], k)
  }

  /** On the 3 x 3 board the top row is one of the enumerated lines, and B5 fills it with X. */
  lemma TopRowOwnedByX(order: nat, dims: nat)
    requires order == 3 && dims == 2
    ensures TopRow(order) in GetLines(dims, order) && OwnedBy(order, B5, TopRow(order), X)
  {
    var s, v := [0, 0], [0, 1];
    TopRowEnumerated(dims, order, s, v);
    TopRowFilled(order, B5, Walk(s, v, order));
  }

  /** X completing the top row is a win: reward 1, done, and the turn indicator still passes to O. */
  lemma TopRowCompleted(g: Game)
    requires g == Game(3, 2, B4, Mover(X))
    ensures Step(g, X, 2) == Success(StepResult(Game(3, 2, B5, Mover(O)), Observation(B5), Win))
  {
    BoardFacts();
    TopRowOwnedByX(g.order, g.dims);
    WinningMove(g, X, 2, B5, TopRow(g.order));
  }

  /**
   On the 3 x 3 board, X plays 0, O plays 3, X plays 1, O plays 4 and X plays
   2: the first four moves continue with reward 0, and the fifth completes
   the top row, so X wins with reward 1 and the game is done.
   */
  lemma TopRowWin()
    ensures New(3, 2).Success?
    ensures var g0 := New(3, 2).value;
      var r1 := Step(g0, X, 0);
      r1.Success? && r1.value.outcome == Continue &&
      var r2 := Step(r1.value.game, O, 3);
      r2.Success? && r2.value.outcome == Continue &&
      var r3 := Step(r2.value.game, X, 1);
      r3.Success? && r3.value.outcome == Continue &&
      var r4 := Step(r3.value.game, O, 4);
      r4.Success? && r4.value.outcome == Continue &&
      var r5 := Step(r4.value.game, X, 2);
      && r5.Success? && r5.value.outcome == Win
      && RewardTenths(r5.value.outcome) == 10 && Done(r5.value.outcome)
      && r5.value.game.turn == Mover(O)
  {
    var g0 := New(3, 2).value;
    FirstMove(g0);
    SecondMove(Game(3, 2, B1, Mover(O)));
    ThirdMove(Game(3, 2, B2, Mover(X)));
    FourthMove(Game(3, 2, B3, Mover(O)));
    TopRowCompleted(Game(3, 2, B4, Mover(X)));
  }
}
