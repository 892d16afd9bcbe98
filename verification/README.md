# N-dimensional tic-tac-toe, modelled in Dafny

This project models the game engine of `n-tictactoe`, a gym environment for
tic-tac-toe on an order-N, D-dimensional hypercube board. Three parts of
`gym_ntictactoe/envs/n_tictactoe.py` are modelled, and their properties are
proved.

- **Line enumeration** (`get_lines`, module `Lines`). The source stacks k + 2
  index rows: forward `0..k-1`, backward `k-1..0`, and one constant row per
  index. It broadcasts one row per axis and masks the result. The model
  restates this as an explicit list:
  - `Choices` lists every pick of one row per axis, in the broadcast's
    row-major order.
  - `Canonical` is the mask: some axis runs forward, and every axis before it
    is constant.
  - `LineOf` gives the k cells a pick indexes.
  - `GetLines` is the masked list of lines, in the order `board[index][mask]`
    produces them.
- **Move decoding** (module `Coords`). `Decode` takes base-order digits least
  significant first, pads them with zeros to D axes, and reverses them. `Encode`
  is the row-major position that `board.flatten()` uses.
- **The environment** (module `Game`):
  - `New` models the constructor and `Reset` models `reset`.
  - `Step` validates a `(player, move)` action in the source's order, writes
    one cell and runs the win test. The win test sums every line against
    ±order, using X = -1, O = +1, Empty = 0. `Step` then passes the turn to
    the other player and reports Win, Draw or Continue.
  - The turn indicator is a separate `Turn = Undetermined | Mover(p)`. It is
    not the `Empty` player tag the source reuses for that purpose.
- **Scenarios** (module `Scenarios`): the classic 3 x 3 game in which X
  completes the top row.

The board is a flat `seq<Player>` of length order^dims, indexed by `Encode`.
Rewards are an `Outcome`: Win is reward 1, Draw is 0.3 and Continue is 0.
`RewardTenths` gives each reward in tenths, so 0.3 stays exact. The source
raises `AssertionError` on bad input. Each of those assertions is a `Failure`
value here:
- `ConfigError` for a bad order or dimension count;
- `InvalidMove` for a move out of range;
- `InvalidPlayer` for a player that is neither X nor O;
- `WrongTurn` for a move out of turn;
- `Occupied` for a move onto a marked cell.

`Step` requires `WellFormed`. This is the shape the constructor establishes
and nothing else changes: order >= 3, dims >= 2, a board of order^dims cells,
and a bound turn that names X or O.

Two behaviours of the code a reader might not expect:
- The code has no guard against moves after a win or a draw. Further moves are
  processed, and the win test looks at every line of the board. So once a line
  is complete, every later accepted move reports Win again, whoever makes it.
  `WinIsByMover` states the mover's win under the condition that no line was
  complete before the move.
- One might expect a failed call to change nothing. The code, however, binds
  `whos_move` to the caller (lines 104-105) before the occupancy check (line
  125), so a rejected first move could leave the turn bound. The model returns
  no state on failure. `FirstMoveAccepted` proves that this difference cannot
  be observed: the turn is unbound only on an all-empty board, so a first move
  that passes the earlier checks is always accepted.

## Model

| member | source | states |
|---|---|---|
| Coords.Digits | gym_ntictactoe/envs/n_tictactoe.py:110-114 | the extracted digits are each in [0, order), and there are none exactly when the move is 0 |
| Coords.Decode | gym_ntictactoe/envs/n_tictactoe.py:110-121 | an in-range move decodes to a coordinate with exactly `dims` components, each in [0, order) |
| Coords.EncodeDecode | gym_ntictactoe/envs/n_tictactoe.py:110-121 | re-encoding a decoded move row-major gives the move back, so the cell `step` writes is flat cell `move` of the observation |
| Coords.DecodeEncode | gym_ntictactoe/envs/n_tictactoe.py:110-121 | every coordinate of the board is the decoding of its row-major position, which lies in [0, order^dims) |
| Coords.DecodeInjective | gym_ntictactoe/envs/n_tictactoe.py:110-121 | distinct in-range moves decode to distinct coordinates |
| Coords.EncodeBound | gym_ntictactoe/envs/n_tictactoe.py:152 | the row-major position of a coordinate with components in [0, order) lies in [0, order^dims) |
| Coords.EncodeInjective | gym_ntictactoe/envs/n_tictactoe.py:152 | distinct coordinates have distinct row-major positions in the flattened board |
| Lines.GetLines | gym_ntictactoe/envs/n_tictactoe.py:18-42 | every enumerated line has exactly k cells, each inside [0, k)^n |
| Lines.ChoicesShape | gym_ntictactoe/envs/n_tictactoe.py:24-31 | the broadcast picks are exactly the per-axis choices of forward, backward or constant row i < k; each appears once, and there are (k + 2)^n of them |
| Lines.KeptMembers | gym_ntictactoe/envs/n_tictactoe.py:36-41 | the mask keeps exactly the picks whose first forward axis has only constant axes before it, and keeps distinct picks distinct |
| Lines.CanonicalIffFirstMovingForward | gym_ntictactoe/envs/n_tictactoe.py:33-41 | a pick passes the mask exactly when its first non-constant axis runs forward |
| Lines.KeptCount | gym_ntictactoe/envs/n_tictactoe.py:36-41 | the mask keeps ((k + 2)^n - k^n) / 2 picks |
| Lines.LineCount | gym_ntictactoe/envs/n_tictactoe.py:18-42 | there are ((k + 2)^n - k^n) / 2 lines |
| Lines.LineCountInstances | gym_ntictactoe/envs/n_tictactoe.py:18-42 | 8 lines on the 3 x 3 board and 49 on the 3 x 3 x 3 cube |
| Lines.LineOfIsWalk | gym_ntictactoe/envs/n_tictactoe.py:24-31 | the cells a kept pick indexes are the walk from its first cell along one step in {-1, 0, +1}^n whose first non-zero component is +1 |
| Lines.LinesAreWalks | gym_ntictactoe/envs/n_tictactoe.py:24-31 | every line is a walk of k cells along one fixed step in {-1, 0, +1}^n whose first non-zero component is +1, so consecutive cells differ by that step |
| Lines.WalksAreLines | gym_ntictactoe/envs/n_tictactoe.py:24-41 | conversely, every walk of k cells along such a step that stays on the board is an enumerated line |
| Lines.LineOfInjective | gym_ntictactoe/envs/n_tictactoe.py:24-31 | for k >= 2 the cells a pick indexes determine the pick |
| Lines.LinesDistinct | gym_ntictactoe/envs/n_tictactoe.py:36-41 | for k >= 2 no line is listed twice |
| Lines.LineCellsDistinct | gym_ntictactoe/envs/n_tictactoe.py:24-31 | the k cells of every line are pairwise distinct |
| Lines.ReverseLineOf | gym_ntictactoe/envs/n_tictactoe.py:24-25 | swapping the forward and backward rows of a pick traverses the same cells in reverse |
| Lines.FlipCanonical | gym_ntictactoe/envs/n_tictactoe.py:36-41 | if some axis moves, exactly one of a pick and its reversal passes the mask |
| Lines.LineOfEnumeratedIff | gym_ntictactoe/envs/n_tictactoe.py:36-42 | for k >= 2, the cells of a valid pick are an enumerated line exactly when the pick passes the mask |
| Lines.EachLineOnce | gym_ntictactoe/envs/n_tictactoe.py:36-42 | every straight line through the board appears in exactly one of its two traversal directions |
| Lines.NoReversedDuplicates | gym_ntictactoe/envs/n_tictactoe.py:36-42 | the reversal of an enumerated line is never enumerated |
| Game.Negate | gym_ntictactoe/envs/n_tictactoe.py:136 | toggling the turn negates the player's value, so X and O trade places |
| Game.New | gym_ntictactoe/envs/n_tictactoe.py:54-68 | construction succeeds exactly when order >= 3 and dims >= 2, and otherwise fails with a configuration error; a new game has an empty board of order^dims cells and no player bound to move |
| Game.DefaultGame | gym_ntictactoe/envs/n_tictactoe.py:54-68 | called without arguments, the constructor builds the order-3, three-axis game: 27 empty cells and nobody to move |
| Game.Reset | gym_ntictactoe/envs/n_tictactoe.py:70-76 | reset keeps order and dims, empties all order^dims cells, unbinds the turn, and returns an all-zero observation of order^dims values |
| Game.Step | gym_ntictactoe/envs/n_tictactoe.py:78-152 | rejects an out-of-range move, then a player other than X or O, then a bound turn that is not the player's, then an occupied cell; otherwise sets flat cell `move` to the player and changes no other cell, passes the turn to the opponent, and returns the new board's values as the observation |
| Game.SumExtremes | gym_ntictactoe/envs/n_tictactoe.py:134 | a line's sum lies in [-length, length]; it equals +length exactly when every cell is O and -length exactly when every cell is X |
| Game.WinIffLineOwned | gym_ntictactoe/envs/n_tictactoe.py:131-134 | the ±order sum test reports a win exactly when some enumerated line is entirely X or entirely O |
| Game.StepOutcome | gym_ntictactoe/envs/n_tictactoe.py:131-148 | an accepted move is Win (reward 1, done) exactly when some line is all one player's; Draw (reward 0.3, done) exactly when there is no such line and no empty cell; Continue (reward 0, not done) otherwise |
| Game.NewlyOwned | gym_ntictactoe/envs/n_tictactoe.py:129-134 | a line that becomes complete when one cell is written runs through that cell and belongs to the value written |
| Game.WinIsByMover | gym_ntictactoe/envs/n_tictactoe.py:129-142 | if no line was complete before the move, a Win means a line through the cell just played is entirely the mover's |
| Game.ResetInvariant | gym_ntictactoe/envs/n_tictactoe.py:70-76 | after reset, the turn is unbound only with an all-empty board |
| Game.StepInvariant | gym_ntictactoe/envs/n_tictactoe.py:104-137 | an accepted move keeps that invariant; it binds the turn to the player who did not move, even after a terminal result; it never overwrites a marked cell and changes no cell but the one played |
| Game.FirstMoveAccepted | gym_ntictactoe/envs/n_tictactoe.py:104-129 | with the turn unbound, an in-range move by X or O is always accepted, because the turn is bound only on an all-empty board |
| Game.OwnedNeedsMarks | gym_ntictactoe/envs/n_tictactoe.py:131-134 | owning a line takes at least `order` cells marked by that player |
| Game.FirstMoveContinues | gym_ntictactoe/envs/n_tictactoe.py:131-148 | the first move after construction or reset is accepted and continues the game with reward 0 |
| Scenarios.FewMarksNoWin | gym_ntictactoe/envs/n_tictactoe.py:131-134 | with fewer than `order` marks for each player, no line is complete |
| Scenarios.ShortMove | gym_ntictactoe/envs/n_tictactoe.py:78-148 | a legal move onto a free cell by the player to move, leaving both players short of `order` marks and some cell free, yields the updated board, the other player to move, the matching observation and Continue |
| Scenarios.WinningMove | gym_ntictactoe/envs/n_tictactoe.py:78-140 | a legal move onto a free cell that fills an enumerated line for the mover yields the updated board, the other player to move and Win |
| Scenarios.TopRowEnumerated | gym_ntictactoe/envs/n_tictactoe.py:20-41 | on the 3 x 3 board, the walk from (0, 0) along the last axis is an enumerated line whose cells are (0, 0), (0, 1), (0, 2) |
| Scenarios.TopRowOwnedByX | gym_ntictactoe/envs/n_tictactoe.py:131-134 | on the 3 x 3 board with X on cells 0, 1, 2, the top row is an enumerated line entirely X's |
| Scenarios.FirstMove | gym_ntictactoe/envs/n_tictactoe.py:78-152 | X opening on cell 0 of a new 3 x 3 game is accepted, continues, and passes the turn to O |
| Scenarios.SecondMove | gym_ntictactoe/envs/n_tictactoe.py:78-152 | O then playing cell 3 is accepted, continues, and passes the turn to X |
| Scenarios.ThirdMove | gym_ntictactoe/envs/n_tictactoe.py:78-152 | X then playing cell 1 is accepted and continues |
| Scenarios.FourthMove | gym_ntictactoe/envs/n_tictactoe.py:78-152 | O then playing cell 4 is accepted and continues |
| Scenarios.TopRowCompleted | gym_ntictactoe/envs/n_tictactoe.py:131-148 | X then playing cell 2 completes the top row: Win, and the turn passes to O |
| Scenarios.TopRowWin | gym_ntictactoe/envs/n_tictactoe.py:78-152 | the whole game X 0, O 3, X 1, O 4, X 2 from a new 3 x 3 board: four moves continue with reward 0, and the fifth wins with reward 1 and ends the game |

## Left out

- The gym plumbing is not modelled: the `gym.Env` base class, `metadata`, `seed`, `close`, and `spaces.Discrete`. The action space appears only as the bound order^dims that `Step` checks.
- `render` is not modelled. It only formats the board for `print`.
- The numpy mechanics are not modelled: `product_slices`, `np.newaxis` broadcasting, advanced indexing, `squeeze` and `flatten`. The model restates them as the explicit enumeration `Choices`/`Kept`/`LineOf` and as the flat row-major board.
- The `uint8` dtype of the board built by the constructor (line 61) is not modelled. Writing X (-1) into it would wrap to 255. The model keeps signed cell values, as `reset` does with its zeros, so `New` behaves like construction followed by `reset`.
- The shape assertions on the action tuple (lines 79-90) are not modelled, and neither is the coercion `Player(player)` of a raw integer (lines 96-97). An action is a typed `(Player, int)` pair, so a player value outside {-1, 0, 1} cannot be expressed.
- Rewards are not modelled as floating point. They are the tagged `Outcome`, with the reward counted in tenths.
- The `last_move`/`last_reward` bookkeeping is not modelled. Only `render` reads it.
- Game.Step: returns no state on failure, while the source keeps a turn it bound before a later assertion failed. `Game.FirstMoveAccepted` shows that such a failure cannot happen from a reachable state.
