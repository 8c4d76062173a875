# Othello engine in Dafny

A model of the board engine of a small single-player Othello (Reversi) app,
`othello_app.py`, with proofs about it. The app keeps an 8x8 board of cells
EMPTY (0), BLACK (1) and WHITE (-1). It opens with the standard centre
diagonal. It decides legality by walking the eight compass directions from
a cell, lists the legal cells, applies a move by flipping every closed run
of opponent stones, and ends the game when neither colour can move. The
human plays BLACK; after each human click a random opponent replies.

Modules follow the program's structure:

- `Geometry`: `BOARD_SIZE`, the `DIRECTIONS` list (entries of type `Step`, a non-null compass step), rays from a cell (`At`), the row-major order of cells.
- `Boards`: the cell values, the board (an 8x8 `seq<seq<int>>` of cell values) and `initialize_board`.
  - It also holds the single-cell write `board[r][c] = v` (`Place`) and stone counts (`np.sum(board == v)`).
- `Legality`: `is_valid_move` (`ValidAlong` per direction, `AnyDirection` over the list, `IsValidMove`) and `get_valid_moves` (`ValidMoves`).
  - The reference description of a capture is `Bracket`: `k >= 1` opponent stones closed by one of the player's own.
- `Moves`: `make_move`.
  - `MakeMoveAsWritten` follows the source: it places the stone, then flips direction by direction, each walk reading the board the earlier directions left.
  - `MakeMove` judges all eight directions on the board before the move. `MakeMoveMatchesSource` proves the two equal.
  - `Flanked` is the reference description of the cells a move captures.
- `Game`: the end-of-game check and verdict (`Outcome`), and one click of the human followed by the opponent's reply (`Click`).
- `Scenarios`: concrete facts about the opening position and the first move.

`get_valid_moves` is sometimes described as returning a set of cells. The
code builds a list in row-major order, and the model follows the code:
`ValidMoves` is that list, and `ValidMovesDetermined` shows it is the only
strictly row-major list of the legal cells.

## Model

| member | source | states |
|---|---|---|
| Geometry.CellOf | othello_app.py:46 | The cell at row-major position `n` of the comprehension `for i … for j …` is on the board and has index `n`. |
| Geometry.IndexOfCell | othello_app.py:46 | Every on-board cell has exactly one row-major position, between 0 and 63. |
| Geometry.RayLeavesBoard | othello_app.py:31 | A walk from an on-board cell leaves the 8x8 board in fewer than 8 steps, so every `while` loop ends. |
| Geometry.RayAvoidsOrigin | othello_app.py:29 | No walk revisits the cell it starts from: each direction is a non-null step. |
| Geometry.RaysDisjoint | othello_app.py:20-22 | Two of the eight rays from one cell never share a cell, and a ray never meets the same cell at two distances. |
| Geometry.DirectionsDistinct | othello_app.py:20-22 | `DIRECTIONS` lists each direction once. |
| Geometry.DirectionsComplete | othello_app.py:20-22 | `DIRECTIONS` lists every non-null compass step, so a `Step` is exactly one of its eight entries. |
| Boards.Place | othello_app.py:13 | The write `board[r][c] = v` sets that cell to `v` and leaves every other cell unchanged. |
| Boards.Zeros | othello_app.py:11 | `np.zeros` gives a board with every cell EMPTY. |
| Boards.Initial | othello_app.py:10-17 | The opening board has WHITE at (3,3) and (4,4), BLACK at (3,4) and (4,3), and EMPTY everywhere else. |
| Boards.InitialAsWritten | othello_app.py:10-17 | The opening board equals the four writes into the zero board, in the source's order, with `mid = 8 // 2`. |
| Boards.CountPartition | othello_app.py:108-109 | Every cell is EMPTY, BLACK or WHITE, so the three counts add up to 64. |
| Boards.CountZero | othello_app.py:108-109 | A count is zero exactly when no cell holds that value. |
| Boards.CountOneDiff | othello_app.py:108-109 | Two boards that differ in at most one cell have counts that differ only by what that cell holds. |
| Boards.CountPlace | othello_app.py:108-109 | A write moves one cell from the count of its old value to the count of its new value. |
| Boards.CountMonotone | othello_app.py:108-109 | A board whose `v` cells are among another's has no more `v` cells, and strictly fewer if one is lost. |
| Legality.ValidAlongClosed | othello_app.py:28-41 | Along a direction holding `k >= 1` opponent stones closed by a player stone, the walk returns true. |
| Legality.ValidAlongSound | othello_app.py:28-41 | A walk that returns true has passed `k >= 1` opponent stones and stopped on a player stone. |
| Legality.DirectionLegalIff | othello_app.py:28-41 | One direction makes `is_valid_move` succeed iff it holds a closed opponent run. A run ending at EMPTY or at the edge does not count, and neither does a run with no opponent stone. |
| Legality.AnyDirectionIff | othello_app.py:28-42 | The loop over `DIRECTIONS[i:]` returns true iff one of those directions holds a closed opponent run. |
| Legality.ValidMoveIff | othello_app.py:25-42 | `is_valid_move` holds iff the target is EMPTY and some direction closes a run of opponent stones; it is false on every occupied cell. |
| Legality.ValidMovesFrom | othello_app.py:46 | The comprehension from position `n` on lists exactly the legal cells at or after `n`, in strictly increasing row-major order. |
| Legality.ValidMoves | othello_app.py:45-46 | `get_valid_moves` lists exactly the legal cells, in strictly increasing row-major order. |
| Legality.ValidMovesDistinct | othello_app.py:46 | `get_valid_moves` lists no cell twice. |
| Legality.ValidMovesDetermined | othello_app.py:45-46 | Any strictly row-major list of exactly the legal cells equals `get_valid_moves`. |
| Moves.FlipsAlong | othello_app.py:52-62 | One direction's walk yields only stones already collected or opponent stones. |
| Moves.PlaceAll | othello_app.py:58-59 | The loop `for fx, fy in stones_to_flip` turns exactly the listed cells to the player and leaves the rest alone. |
| Moves.Flips | othello_app.py:51-64 | All cells flipped along the eight directions are opponent stones of the board before the move. |
| Moves.MakeMove | othello_app.py:49-65 | After the move the target holds the player. Any other cell that changed was an opponent stone and became the player's, so no cell becomes EMPTY. |
| Moves.FlipsAlongClosed | othello_app.py:53-60 | Along a direction holding a closed run of `k` opponent stones, the walk collects exactly those `k` cells, nearest first. |
| Moves.FlipsAlongValid | othello_app.py:54-62 | A walk of `make_move` that flips something is a walk of `is_valid_move` that succeeds. |
| Moves.DirectionFlips | othello_app.py:53-62 | A direction flips exactly its closed run, or nothing when the run ends at EMPTY or the edge. |
| Moves.DirectionFlipsIffLegal | othello_app.py:54-62 | A direction of `make_move` flips something iff the same direction makes `is_valid_move` succeed. |
| Moves.InFlipsAlongIff | othello_app.py:53-62 | A cell is flipped along a direction iff it lies inside that direction's closed opponent run. |
| Moves.InFlipsIff | othello_app.py:51-64 | A cell is flipped by the loop over `DIRECTIONS[i:]` iff it lies inside a closed run along one of them. |
| Moves.MakeMoveCell | othello_app.py:49-65 | Every cell but the target ends as the player's colour if some closed run contains it, and keeps its value otherwise. |
| Moves.MakeMoveFlipsExactly | othello_app.py:49-65 | `make_move` changes a cell other than the target iff the cell is inside a closed run; changed cells take the player's colour. |
| Moves.NoPartialFlips | othello_app.py:53-62 | Along a direction with no closed run, no cell of the ray changes: a tentative run that ends at EMPTY or the edge is discarded. |
| Moves.MakeMoveWithoutCapture | othello_app.py:49-65 | Where no direction closes a run (an illegal cell, occupied or not), `make_move` only writes the target and flips nothing. |
| Moves.FlipsAlongFrame | othello_app.py:54-57 | One direction's walk reads only the cells of its own ray. |
| Moves.FlipsKeepOtherRays | othello_app.py:58-59 | Flipping one direction's run leaves every other ray from the target unchanged. |
| Moves.SweepMatchesSimultaneous | othello_app.py:51-64 | The in-place loop from direction `i` on gives the same board as flipping all remaining runs judged on the pre-move board. |
| Moves.MakeMoveMatchesSource | othello_app.py:49-65 | Sequential in-place flipping, as written, equals simultaneous flipping: `MakeMoveAsWritten == MakeMove`. |
| Moves.MakeMoveAddsOneStone | othello_app.py:49-50 | A move onto an EMPTY cell lowers the EMPTY count by exactly one and raises the stone count by exactly one. |
| Moves.LegalMoveCaptures | othello_app.py:49-65 | A legal move strictly lowers the opponent's count and raises the player's count by at least two. |
| Game.Outcome | othello_app.py:107-115 | A verdict exists iff neither colour has a legal cell. It is a win, loss or draw for BLACK as BLACK's count is greater than, less than or equal to WHITE's. |
| Game.FullBoardIsOver | othello_app.py:107-109 | A board with no EMPTY cell is over, and its BLACK and WHITE counts add up to 64. |
| Game.EvenFullBoardIsDraw | othello_app.py:107-115 | A board with 32 BLACK and 32 WHITE stones is over and reports a draw. |
| Game.Click | othello_app.py:89-99 | A click on a legal cell plays it and passes the turn. If the opponent then has a legal move, it plays one and the turn comes back; otherwise the board stays as after the click. |
| Game.ClickFillsCells | othello_app.py:91-99 | A click fills two EMPTY cells when the opponent replies and one when it cannot. |
| Scenarios.InitialCounts | othello_app.py:10-17 | The opening board has 2 BLACK, 2 WHITE and 60 EMPTY cells. |
| Scenarios.InitialLegalBlack | othello_app.py:25-42 | On the opening board BLACK may play exactly (2,3), (3,2), (4,5) and (5,4). |
| Scenarios.InitialLegalWhite | othello_app.py:25-42 | On the opening board WHITE may play exactly (2,4), (3,5), (4,2) and (5,3). |
| Scenarios.InitialMovesBlack | othello_app.py:45-46 | `get_valid_moves(initial, BLACK)` is `[(2,3), (3,2), (4,5), (5,4)]`. |
| Scenarios.InitialMovesWhite | othello_app.py:45-46 | `get_valid_moves(initial, WHITE)` is `[(2,4), (3,5), (4,2), (5,3)]`. |
| Scenarios.OpeningFlanked | othello_app.py:49-65 | BLACK playing (2,3) on the opening board captures exactly (3,3). |
| Scenarios.OpeningMove | othello_app.py:49-65 | After BLACK plays (2,3), cells (2,3) and (3,3) are BLACK and all others are as before; the counts are BLACK 4, WHITE 1. |
| Scenarios.InitialNotOver | othello_app.py:107 | The opening position reports no verdict. |

## Left out

- The Streamlit page is not modelled: the title, the turn indicator, cell labels and button layout in `render_board`, and the result banners' text. These are display only; `Outcome` models which banner is chosen.
- `render_board` keeps drawing the remaining cells after a click, from the mutated board. Which buttons that partial redraw offers is display behaviour and is left out.
- Session persistence and the reset button are not modelled. `Session` holds only the board and the colour to move.
- The opponent's random choice is not modelled. `np.random.randint` is replaced by a `pick` parameter that selects `replies[pick % |replies|]`. Uniformity is not modelled.
- Game.Click: states that the reply is some legal move of the opponent, not which one, because the source draws it at random.
- Pass handling is not modelled, and neither does the source have any. When the colour to move has no legal cell but the other colour has one, no button is offered and the game stalls. `Click` requires a legal cell, as the button guard on line 89 does.
- The numpy integer dtype is not modelled. Cells are mathematical integers restricted to -1, 0 and 1, and no arithmetic in the engine can overflow.
- Coordinates outside the board are not modelled: every operation requires an on-board target. The source only ever passes loop indices 0..7, and Python's negative indexing never comes into play.
