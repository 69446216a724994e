# Tic-tac-toe engine: board, minimax search and turn logic

This project is a Dafny model of the game engine of a pygame tic-tac-toe program
(`main.py`). A human (mark 1) plays against the computer (mark 2) on a 3x3 board
whose cells hold 0 when empty. The model has three modules:

- `Board` (`board.dfy`) holds the cell and grid types, the eight winning lines and the
  two read-only checks. `CheckWin` tests rows, then columns, then both diagonals.
  `IsBoardFull` stops at the first empty cell. Both are loops over an `array2`,
  proved equal to the predicates `Wins` and `IsFull` on the value view `Cells(a)`
  (nine cells, row-major).
- `Search` (`search.dfy`) holds minimax and the choice of the computer's move.
  - `MinimaxScore` is the pure meaning of `minimax`. Its terminal checks come in
    the source's order: a computer line scores `10 - depth`, else a human line
    scores `depth - 10`, else a full board scores 0. Otherwise it folds max or min
    over the children in row-major order.
  - The method `Minimax` is the source's place/recurse/undo search on an array. It
    is proved to return `MinimaxScore` and to leave the array exactly as it was.
  - `Scan`/`BestChoice` is the scan of `best_move`, which keeps a new candidate
    only on a strictly greater score.
- `Game` (`game.dfy`) holds the event loop's state `(board, game_over, winner)`.
  - The class `Session` owns the authoritative board. Its methods are
    `mark_square`, `available_square`, `best_move` and `restart_game`, plus the
    mouse-click branch (`Click`) and the key-press branch (`KeyPress`) of the loop.
  - Each state-changing method is proved against a pure description of its new
    state: `MarkSquare` against a sequence update, `BestMove` against
    `AfterBestMove`, `RestartGame` against `EmptyGrid`, `ComputerTurn` against
    `ComputerReply`, `Click` against `HumanTurn` and `KeyPress` against `KeyStep`.
  - The invariant `Consistent` is shown to hold initially and to be preserved by
    every click and key press; the constructor establishes it and `Click` and
    `KeyPress` promise to keep it. While the game is open, nobody has a line, the board
    is not full and both sides have placed equally many marks. A finished game
    shows exactly the winner's line, or a full board for a tie.

The `±float('inf')` starting scores of `minimax` and `best_move` are modelled as
`None` of an `Option`, and so is the `(-1, -1)` "no move" position. This is sound
because a board that is not terminal has an empty cell, so some child score always
replaces the sentinel (`Fold`'s postcondition). Cells are the integers 0..2 instead
of numpy floats.

Two behaviours of the code are kept as written:
- `mark_square` overwrites whatever the cell holds; it does not reject an occupied
  cell. Every caller checks that the cell is empty first (main.py:206, 169), so the
  overwrite never happens in play.
- There is no error result for asking the computer to move on a finished board.
  `best_move` returns false when no cell is empty, and the loop simply does not
  ask it once the game is over.

## Model

| member | source | states |
|---|---|---|
| `Board.CheckWin` | main.py:114-132 | true exactly when one of the eight lines (3 rows, 3 columns, main diagonal, anti-diagonal `[i][2-i]`) is entirely `player` |
| `Board.LoneLineWins` | main.py:114-132 | each of the eight lines, filled by one player on an otherwise empty board, is a win for that player and not for the other |
| `Board.PlaceKeepsNoWin` | main.py:114-132 | placing a mark other than `p` never gives `p` a line it did not already have |
| `Board.IsBoardFull` | main.py:105-112 | true exactly when no cell is 0; when false, some cell is empty |
| `Board.FullIffNoEmpties` | main.py:105-112 | a board is full exactly when its count of empty cells is zero |
| `Board.PlaceDecreasesEmpties` | main.py:146-148 | a placement on an empty cell leaves exactly one empty cell fewer, which is why the recursion terminates |
| `Board.CountUpdate` | main.py:147-149 | overwriting one cell moves exactly one unit of count from the old value to the new one, and leaves every other count as it was |
| `Board.CopyBoard` | main.py:170 | the deep copy is a fresh array with the same nine cells |
| `Search.Better` | main.py:150 | the running best after a child: the child's score when nothing was kept yet (the infinite sentinel), otherwise the max (maximizing) or min (minimizing) of the two |
| `Search.MinimaxScore` | main.py:134-161 | the value `minimax` computes: computer line `10 - depth`, else human line `depth - 10`, else full board 0, else the `Fold` of max (computer to move) or min (human to move) over the children in row-major order |
| `Search.FoldExtremum` | main.py:142-161 | the running best from cell `i` on bounds every later child score and the starting value, and equals the starting value or one of those child scores |
| `Search.Fold` | main.py:142-161 | the running best stays at the infinite sentinel only if no cell from here on is empty; on a non-terminal board it is always a real score |
| `Search.MinimaxIsExtremumOfChildren` | main.py:142-161 | on a board that is not terminal, minimax is the maximum (computer to move) or minimum (human to move) of the child scores: no child beats it and some child attains it |
| `Search.MinimaxBounds` | main.py:134-161 | when `depth` plus the number of empty cells is at most 10, the score lies in `[depth - 10, 10 - depth]` |
| `Search.Minimax` | main.py:134-161 | returns `MinimaxScore` (computer line `10 - depth`, else human line `depth - 10`, else full board 0, else max/min over children), and the board is restored cell for cell after the place/undo search |
| `Search.Scan` | main.py:164-176 | the scan of `best_move`: a scored cell replaces the kept candidate only when its score is strictly greater than the kept one, the first scored cell replaces the infinite sentinel |
| `Search.BestChoice` | main.py:164-176 | the computer's choice: the scan over the per-cell scores `minimax(temp, 0, False)` in row-major order, starting with no candidate |
| `Search.ScanNone` | main.py:163-177 | the scan ends with no candidate exactly when nothing was kept and no later cell has a score |
| `Search.ScanMaximum` | main.py:167-175 | the scan's result is a scored cell carrying its own score. It is the kept candidate, or a later cell with a strictly greater score. No scanned cell scores more |
| `Search.ScanFirst` | main.py:167-175 | every scored cell scanned before the result scores strictly less, because of the strict `>` |
| `Search.BestChoiceIsFirstMaximum` | main.py:163-180 | no move exactly on a full board. Otherwise the choice is an empty cell with the greatest score, and every earlier empty cell scores strictly less (first maximum in row-major order) |
| `Search.BestChoiceUnique` | main.py:163-180 | any empty cell that has the greatest score and beats every earlier empty cell is the cell chosen |
| `Game.AfterBestMove` | main.py:177-180 | the board after `best_move`: 2 written on the chosen cell, or the board unchanged when there is no choice |
| `Game.ComputerReply` | main.py:216-223 | the state after the computer's reply: unchanged when no move is found; otherwise a computer line gives game over with winner 2, else a full board gives game over with winner 0, else the game stays open |
| `Game.HumanTurn` | main.py:202-223 | the state after a click: unchanged unless the game is open, the cell in bounds and empty; then mark 1, a human line gives winner 1, else a full board gives winner 0, else `ComputerReply` |
| `Game.KeyStep` | main.py:226-238 | the state after a key: SPACE on a finished game and R on an open one give the initial state; any other key changes nothing |
| `Game.Consistent` | main.py:189-238 | the loop invariant: an open game has winner 0, no line, a non-full board and equal mark counts; a finished game has exactly the winner's line, or for winner 0 a full board and no line; the human is never more than one mark ahead |
| `Game.AfterBestMoveEffect` | main.py:163-180 | `best_move` moves exactly when the board is not full. It then writes 2 into one previously empty cell (the chosen one) and leaves every other cell unchanged. On a full board the board is unchanged |
| `Game.ClickEffect` | main.py:202-223 | a click changes the state exactly when the game is open, the cell is in bounds and it is empty. A taken click puts 1 on that cell and adds one computer mark exactly when the human neither won nor filled the board. Every other cell is unchanged or was empty and now holds 2 |
| `Game.ClickKeepsConsistent` | main.py:202-223 | a click preserves the loop invariant. Winner 1 means a human line and no computer line. Winner 2 means the reverse. Winner 0 on a finished game means a full board with no line. An open game has no line, no full board and equal mark counts |
| `Game.InitialIsConsistent` | main.py:189-191 | the starting state (empty board, game open, winner 0) satisfies the loop invariant |
| `Game.KeyKeepsConsistent` | main.py:226-238 | key presses keep the loop invariant. A key press that changes anything (SPACE on a finished game, R on an open one) leaves an all-empty board, the game open and winner 0 |
| `Game.CompletingTopRowWins` | main.py:206-211 | with `[1, 1, 0]` on the top row of an open game, clicking (0, 2) ends the game with winner 1 |
| `Game.Session.constructor` | main.py:189-191 | program start: every cell empty, the game open, winner 0 |
| `Game.Session.MarkSquare` | main.py:99-100 | the cell now holds `player`; every other cell is unchanged |
| `Game.Session.AvailableSquare` | main.py:102-103 | true exactly when the cell is empty, and then the board is not full |
| `Game.Session.BestMove` | main.py:163-180 | returns true exactly when the board had an empty cell. The new board is the old one with 2 written on the first cell of greatest `minimax` score (`AfterBestMove`) |
| `Game.Session.RestartGame` | main.py:182-184 | the board is a fresh all-empty array |
| `Game.Session.ComputerTurn` | main.py:216-223 | the state after the computer's reply equals `ComputerReply`: move, then a computer line gives winner 2, else a full board gives winner 0 |
| `Game.Session.Click` | main.py:202-223 | the state after a click equals `HumanTurn`: guard, human mark, human line gives winner 1, else a full board gives winner 0, else the computer replies |
| `Game.Session.KeyPress` | main.py:226-238 | the state after a key equals `KeyStep`. The loop is told to quit exactly on ESC after the game is over |

## Left out

- Rendering and window handling are not modelled: lines, figures, text, colours, fonts, `screen`, `clock.tick`, `display.update`, `pygame.quit`/`sys.exit` (main.py:1-97, 240-264). They are presentation with no state of the engine.
- The pixel-to-cell conversion `event.pos // SQUARE_SIZE` (main.py:203-204) is not modelled. `Click` receives the cell row (`mouseY`) and column (`mouseX`) directly, and it keeps the bounds check of main.py:206.
- The window-close event and the `running` flag (main.py:192-199) are not modelled. ESC on a finished game appears only as the `quit` result of `KeyPress`.
- numpy float storage is replaced by integer cells 0..2. The `±float('inf')` sentinels are replaced by `Option`, as described above.
- The optional `check_board=None` parameter of `check_win`/`is_board_full`, which defaults to the global board, is not modelled. Every call in the model passes its board explicitly.
- The game's `player` variable is never reassigned, so the model uses the constant 1 (`HUMAN`).
- The claim that the computer never loses is not stated. It would need a game-tree argument the code does not make. The model also does not compute which cell the engine picks on the empty board, because that evaluates the whole game tree.
- `Search.MinimaxBounds`: proved only when `depth` plus the number of empty cells is at most 10. `best_move` calls `minimax` at depth 0 with at most 8 empty cells, so that covers every call the game makes.
- `Game.Session.MarkSquare`: requires an in-bounds cell. The Python code would also accept negative indices, but every caller passes a checked cell.
