/**
 The turn state machine of the N-dimensional tic-tac-toe environment: board
 construction and reset, and `step`, which validates a move, writes one cell,
 looks for a completed line and reports win, draw or continue.
 */
module Game {
  import opened Coords
  import opened Lines

  /** The player tags, which double as cell contents: X = -1, O = +1, Empty = 0. */
  datatype Player = X | O | Empty

  function Value(p: Player): int
  {
    match p
    case X => -1
    case O => 1
    case Empty => 0
  }

  /** `Player(p.value * -1)`: X and O trade places. */
  function Negate(p: Player): (r: Player)
    ensures Value(r) == -Value(p)
  {
    match p
    case X => O
    case O => X
    case Empty => Empty
  }

  /** Whose move it is; nobody is bound until the first move of a game. */
  datatype Turn = Undetermined | Mover(p: Player)

  datatype Error = ConfigError | InvalidMove | InvalidPlayer | WrongTurn | Occupied

  datatype Result<T> = Success(value: T) | Failure(error: Error)

  /** Reward 1 and done, reward 0.3 and done, or reward 0 and not done. */
  datatype Outcome = Win | Draw | Continue

  /** The reward in tenths, so that 0.3 stays exact. */
  function RewardTenths(o: Outcome): nat
  {
    match o
    case Win => 10
    case Draw => 3
    case Continue => 0
  }

  function Done(o: Outcome): bool
  {
    o != Continue
  }

  /** An environment: the board flattened row-major, and the turn indicator. */
  datatype Game = Game(order: nat, dims: nat, board: seq<Player>, turn: Turn)

  /** What `step` returns besides the new state: the flattened board and the outcome; `game.turn` is `info['turn']`. */
  datatype StepResult = StepResult(game: Game, observation: seq<int>, outcome: Outcome)

  /** The shape construction fixes, and a turn that names a real player once bound. */
  predicate WellFormed(g: Game)
  {
    && g.order >= 3
    && g.dims >= 2
    && |g.board| == Pow(g.order, g.dims)
    && (g.turn.Mover? ==> g.turn.p != Empty)
  }

  predicate AllEmpty(board: seq<Player>)
  {
    forall i :: 0 <= i < |board| ==> board[i] == Empty
  }

  /** Some cell is still free (`board[board == 0]` is not empty). */
  predicate HasEmpty(board: seq<Player>)
  {
    exists i :: 0 <= i < |board| && board[i] == Empty
  }

  /** The board as the caller sees it: one number per cell. */
  function Observation(board: seq<Player>): seq<int>
  {
    seq(|board|, i requires 0 <= i < |board| => Value(board[i]))
  }

  function EmptyBoard(order: nat, dims: nat): seq<Player>
  {
    seq(Pow(order, dims), _ => Empty)
  }

  /**
   Construction: order at least 3 and at least 2 dimensions, an empty board,
   nobody to move yet. Without arguments the board is the 3 x 3 x 3 cube.
   */
  function New(order: int := 3, dims: int := 3): (r: Result<Game>)
    ensures r.Success? <==> order >= 3 && dims >= 2
    ensures r.Failure? ==> r.error == ConfigError
    ensures r.Success? ==> Invariant(r.value) && r.value.turn == Undetermined && AllEmpty(r.value.board)
    ensures r.Success? ==> r.value.order == order && r.value.dims == dims
  {
    if order < 3 || dims < 2 then Failure(ConfigError)
    else Success(Game(order, dims, EmptyBoard(order, dims), Undetermined))
  }

  /** The default environment: order 3, three axes, 27 empty cells and nobody to move. */
  lemma DefaultGame()
    ensures New().Success?
    ensures New().value.order == 3 && New().value.dims == 3
    ensures |New().value.board| == 27 && AllEmpty(New().value.board)
    ensures New().value.turn == Undetermined
  {
  }

  /** `reset`: a fresh empty board of order^dims cells, nobody to move, and an all-zero observation. */
  function Reset(g: Game): (r: (Game, seq<int>))
    ensures r.0.order == g.order && r.0.dims == g.dims
    ensures |r.0.board| == Pow(g.order, g.dims) && AllEmpty(r.0.board)
    ensures r.0.turn == Undetermined
    ensures |r.1| == Pow(g.order, g.dims) && forall i :: 0 <= i < |r.1| ==> r.1[i] == 0
  {
    var board := EmptyBoard(g.order, g.dims);
    (Game(g.order, g.dims, board, Undetermined), Observation(board))
  }

  // ---------------------------------------------------------------------------
  // Lines on a board

  /** Every cell of the line lies on the board (its row-major position is an index of it). */
  predicate LineFits(order: nat, board: seq<Player>, line: seq<seq<int>>)
  {
    forall t :: 0 <= t < |line| ==> 0 <= Encode(order, line[t]) < |board|
  }

  /** Sum of the cell values along a line. */
  function LineSum(order: nat, board: seq<Player>, line: seq<seq<int>>): int
    requires LineFits(order, board, line)
  {
    if line == [] then 0
    else Value(board[Encode(order, line[0])]) + LineSum(order, board, line[1..])
  }

  lemma LinesFit(order: nat, dims: nat, board: seq<Player>)
    requires |board| == Pow(order, dims)
    ensures forall m :: 0 <= m < |GetLines(dims, order)| ==> LineFits(order, board, GetLines(dims, order)[m])
  {
    var lines := GetLines(dims, order);
    forall m, t | 0 <= m < |lines| && 0 <= t < |lines[m]|
      ensures 0 <= Encode(order, lines[m][t]) < |board|
    {
      assert ValidCoord(order, dims, lines[m][t]);
      EncodeBound(order, lines[m][t]);
    }
  }

  /** A line sum that only a completed line reaches: plus or minus the order. */
  predicate WinningSum(order: int, sum: int)
  {
    sum == order || sum == -order
  }

  /** The win test of `step`: some line sums to order or to -order. */
  predicate AnyWon(order: nat, dims: nat, board: seq<Player>)
    requires |board| == Pow(order, dims)
  {
    LinesFit(order, dims, board);
    var lines := GetLines(dims, order);
    exists m :: 0 <= m < |lines| && WinningSum(order, LineSum(order, board, lines[m]))
  }

  /** Every cell of the line holds `p`. */
  predicate OwnedBy(order: nat, board: seq<Player>, line: seq<seq<int>>, p: Player)
  {
    forall t :: 0 <= t < |line| ==> 0 <= Encode(order, line[t]) < |board| && board[Encode(order, line[t])] == p
  }

  /** Some winning line is entirely `p`'s. */
  predicate SomeLineOwnedBy(order: nat, dims: nat, board: seq<Player>, p: Player)
  {
    var lines := GetLines(dims, order);
    exists m :: 0 <= m < |lines| && OwnedBy(order, board, lines[m], p)
  }

  /** Cells hold -1, 0 or +1, so a line's sum reaches +length exactly when it is all O, and -length exactly when it is all X. */
  lemma {:induction false} SumExtremes(order: nat, board: seq<Player>, line: seq<seq<int>>)
    requires LineFits(order, board, line)
    ensures -|line| <= LineSum(order, board, line) <= |line|
    ensures LineSum(order, board, line) == |line| <==> OwnedBy(order, board, line, O)
    ensures LineSum(order, board, line) == -|line| <==> OwnedBy(order, board, line, X)
  {
    if line != [] {
      SumExtremes(order, board, line[1..]);
      var first := board[Encode(order, line[0])];
      assert OwnedBy(order, board, line, O) <==> first == O && OwnedBy(order, board, line[1..], O) by {
        if first == O && OwnedBy(order, board, line[1..], O) {
          forall t | 0 <= t < |line|
            ensures board[Encode(order, line[t])] == O
          {
            if t > 0 {
              assert line[t] == line[1..][t - 1];
            }
          }
        }
      }
      assert OwnedBy(order, board, line, X) <==> first == X && OwnedBy(order, board, line[1..], X) by {
        if first == X && OwnedBy(order, board, line[1..], X) {
          forall t | 0 <= t < |line|
            ensures board[Encode(order, line[t])] == X
          {
            if t > 0 {
              assert line[t] == line[1..][t - 1];
            }
          }
        }
      }
    }
  }

  /**
   Summing against plus or minus the order detects exactly the lines that one
   player fills: the numeric win test of `step` agrees with "some line is all X
   or all O".
   */
  lemma WinIffLineOwned(order: nat, dims: nat, board: seq<Player>)
    requires |board| == Pow(order, dims)
    ensures AnyWon(order, dims, board) <==> SomeLineOwnedBy(order, dims, board, X) || SomeLineOwnedBy(order, dims, board, O)
  {
    var lines := GetLines(dims, order);
    LinesFit(order, dims, board);
    forall m | 0 <= m < |lines|
      ensures WinningSum(order, LineSum(order, board, lines[m]))
          <==> OwnedBy(order, board, lines[m], X) || OwnedBy(order, board, lines[m], O)
    {
      assert |lines[m]| == order;
      SumExtremes(order, board, lines[m]);
    }
  }

  // ---------------------------------------------------------------------------
  // The step

  /**
   `step((player, move))` checks, in this order: the move lies in
   [0, order^dims), the player is X or O, and (once somebody has moved) it is
   that player's turn; a first move binds the turn to whoever makes it. The
   move is decoded to a coordinate whose row-major position is the flat cell
   written; that cell must be empty. The turn passes to the other player
   whatever the outcome.
   */
  function Step(g: Game, player: Player, move: int): (r: Result<StepResult>)
    requires WellFormed(g)
    ensures !(0 <= move < |g.board|) ==> r == Failure(InvalidMove)
    ensures 0 <= move < |g.board| && player != X && player != O ==> r == Failure(InvalidPlayer)
    ensures 0 <= move < |g.board| && (player == X || player == O) && g.turn.Mover? && g.turn.p != player
        ==> r == Failure(WrongTurn)
    ensures 0 <= move < |g.board| && (player == X || player == O) && (g.turn == Undetermined || g.turn.p == player)
        ==> (r.Failure? <==> g.board[move] != Empty) && (r.Failure? ==> r.error == Occupied)
    ensures r.Success? ==>
      && 0 <= move < |g.board|
      && r.value.game.order == g.order && r.value.game.dims == g.dims
      && r.value.game.board == g.board[move := player]
      && r.value.game.turn == Mover(Negate(player))
      && Negate(player) != player && Negate(player) != Empty
      && |r.value.observation| == |g.board|
      && (forall i :: 0 <= i < |g.board| ==> r.value.observation[i] == Value(r.value.game.board[i]))
  {
    if !(0 <= move < Pow(g.order, g.dims)) then Failure(InvalidMove)
    else if player != X && player != O then Failure(InvalidPlayer)
    else
      var mover := if g.turn.Undetermined? then player else g.turn.p;
      if mover != player then Failure(WrongTurn)
      else
        EncodeDecode(g.order, g.dims, move);
        var idx := Encode(g.order, Decode(g.order, g.dims, move));
        if g.board[idx] != Empty then Failure(Occupied)
        else
          var board := g.board[idx := player];
          var outcome :=
            if AnyWon(g.order, g.dims, board) then Win
            else if !HasEmpty(board) then Draw
            else Continue;
          Success(StepResult(Game(g.order, g.dims, board, Mover(Negate(mover))), Observation(board), outcome))
  }

  /**
   The outcome of an accepted move: Win exactly when some line of the new
   board is all X or all O (reward 1, done); otherwise Draw when no cell is
   left empty (reward 0.3, done); otherwise Continue (reward 0, not done).
   */
  lemma StepOutcome(g: Game, player: Player, move: int)
    requires WellFormed(g) && Step(g, player, move).Success?
    ensures var s := Step(g, player, move).value;
      var b := s.game.board;
      var owned := SomeLineOwnedBy(g.order, g.dims, b, X) || SomeLineOwnedBy(g.order, g.dims, b, O);
      && (s.outcome == Win <==> owned)
      && (s.outcome == Draw <==> !owned && !HasEmpty(b))
      && (s.outcome == Continue <==> !owned && HasEmpty(b))
      && (RewardTenths(s.outcome) == 10 <==> owned)
      && (Done(s.outcome) <==> owned || !HasEmpty(b))
  {
    var b := g.board[move := player];
    WinIffLineOwned(g.order, g.dims, b);
  }

  /**
   A line `p` owns after cell `idx` is set to `v`, but did not own before,
   runs through `idx`, and then `p` is `v`.
   */
  lemma NewlyOwned(order: nat, dims: nat, board: seq<Player>, idx: int, v: Player, p: Player)
    requires 0 <= idx < |board|
    requires SomeLineOwnedBy(order, dims, board[idx := v], p)
    requires !SomeLineOwnedBy(order, dims, board, p)
    ensures p == v
    ensures var lines := GetLines(dims, order);
      exists m :: 0 <= m < |lines| && OwnedBy(order, board[idx := v], lines[m], p)
        && exists t :: 0 <= t < |lines[m]| && Encode(order, lines[m][t]) == idx
  {
    var lines := GetLines(dims, order);
    var m :| 0 <= m < |lines| && OwnedBy(order, board[idx := v], lines[m], p);
    assert !OwnedBy(order, board, lines[m], p);
    var t :| 0 <= t < |lines[m]|
      && !(0 <= Encode(order, lines[m][t]) < |board| && board[Encode(order, lines[m][t])] == p);
    assert Encode(order, lines[m][t]) == idx;
  }

  /**
   When the board held no completed line before the move, a reported win is
   the mover's own: some line through the cell just written is entirely the
   mover's.
   */
  lemma WinIsByMover(g: Game, player: Player, move: int)
    requires WellFormed(g) && Step(g, player, move).Success?
    requires !SomeLineOwnedBy(g.order, g.dims, g.board, X) && !SomeLineOwnedBy(g.order, g.dims, g.board, O)
    requires Step(g, player, move).value.outcome == Win
    ensures var lines := GetLines(g.dims, g.order);
      exists m :: 0 <= m < |lines| && OwnedBy(g.order, g.board[move := player], lines[m], player)
        && exists t :: 0 <= t < |lines[m]| && Encode(g.order, lines[m][t]) == move
  {
    var b := g.board[move := player];
    StepOutcome(g, player, move);
    if SomeLineOwnedBy(g.order, g.dims, b, X) {
      NewlyOwned(g.order, g.dims, g.board, move, player, X);
    } else {
      NewlyOwned(g.order, g.dims, g.board, move, player, O);
    }
  }

  // ---------------------------------------------------------------------------
  // The turn invariant

  /** The turn is unbound only on an all-empty board: after construction or `reset`. */
  predicate Invariant(g: Game)
  {
    WellFormed(g) && (g.turn == Undetermined ==> AllEmpty(g.board))
  }

  /** A reset environment satisfies the invariant. */
  lemma ResetInvariant(g: Game)
    requires g.order >= 3 && g.dims >= 2
    ensures Invariant(Reset(g).0)
  {
  }

  /**
   An accepted move keeps the invariant, binds the turn to the opponent of
   the player who moved (even after a terminal result), never overwrites a
   marked cell, and changes no cell but the one moved on.
   */
  lemma StepInvariant(g: Game, player: Player, move: int)
    requires Invariant(g) && Step(g, player, move).Success?
    ensures var g' := Step(g, player, move).value.game;
      && Invariant(g')
      && g'.turn.Mover? && g'.turn.p != player
      && (forall i :: 0 <= i < |g.board| && g.board[i] != Empty ==> g'.board[i] == g.board[i])
      && (forall i :: 0 <= i < |g.board| && i != move ==> g'.board[i] == g.board[i])
      && g'.board[move] == player
  {
  }

  /**
   The first move of a game never hits an occupied cell, so binding the turn
   before the occupancy check (as `step` does) never leaves a bound turn
   behind a rejected move.
   */
  lemma FirstMoveAccepted(g: Game, player: Player, move: int)
    requires Invariant(g) && g.turn == Undetermined
    requires 0 <= move < |g.board| && (player == X || player == O)
    ensures Step(g, player, move).Success?
  {
  }

  // ---------------------------------------------------------------------------
  // Counting marks

  /** The cells holding `p`. */
  function Marks(board: seq<Player>, p: Player): set<int>
  {
    set i | 0 <= i < |board| && board[i] == p
  }

  /** The row-major positions of a line's cells. */
  function Positions(order: nat, line: seq<seq<int>>): seq<int>
  {
    seq(|line|, t requires 0 <= t < |line| => Encode(order, line[t]))
  }

  lemma {:induction false} DistinctCardinality(s: seq<int>)
    requires Distinct(s)
    ensures |set x | x in s| == |s|
  {
    if s != [] {
      assert Distinct(s[1..]);
      DistinctCardinality(s[1..]);
      assert (set x | x in s) == {s[0]} + (set x | x in s[1..]);
    }
  }

  lemma SubsetCardinality(a: set<int>, b: set<int>)
    requires a <= b
    ensures |a| <= |b|
  {
    assert b == a + (b - a);
  }

  /** A line needs `order` distinct cells, so owning one takes at least `order` marks. */
  lemma OwnedNeedsMarks(order: nat, dims: nat, board: seq<Player>, p: Player)
    requires order >= 1 && |board| == Pow(order, dims)
    requires SomeLineOwnedBy(order, dims, board, p)
    ensures |Marks(board, p)| >= order
  {
    var lines := GetLines(dims, order);
    var m :| 0 <= m < |lines| && OwnedBy(order, board, lines[m], p);
    var line := lines[m];
    LineCellsDistinct(dims, order, line);
    var pos := Positions(order, line);
    forall a, b | 0 <= a < b < |pos|
      ensures pos[a] != pos[b]
    {
      if pos[a] == pos[b] {
        EncodeInjective(order, line[a], line[b]);
      }
    }
    DistinctCardinality(pos);
    SubsetCardinality((set x | x in pos), Marks(board, p));
  }

  /**
   On a board where neither player has `order` marks there is no win: the
   first move of a game (after construction or `reset`) always continues,
   with reward 0.
   */
  lemma FirstMoveContinues(g: Game, player: Player, move: int)
    requires Invariant(g) && g.turn == Undetermined
    requires 0 <= move < |g.board| && (player == X || player == O)
    ensures Step(g, player, move).Success?
    ensures Step(g, player, move).value.outcome == Continue
  {
    var b := g.board[move := player];
    StepOutcome(g, player, move);
    assert Marks(b, X) <= {move} && Marks(b, O) <= {move};
    SubsetCardinality(Marks(b, X), {move});
    SubsetCardinality(Marks(b, O), {move});
    if SomeLineOwnedBy(g.order, g.dims, b, X) {
      OwnedNeedsMarks(g.order, g.dims, b, X);
    }
    if SomeLineOwnedBy(g.order, g.dims, b, O) {
      OwnedNeedsMarks(g.order, g.dims, b, O);
    }
    PowMonotone(g.order, g.dims);
    var other := if move == 0 then 1 else 0;
    assert b[other] == Empty;
  }
}
