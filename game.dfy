/** The game session: the authoritative board, the `game_over` flag and the
    `winner`, updated by the event loop's mouse-click and key-press handling,
    with `mark_square`, `available_square`, `best_move` and `restart_game`. */
module Game {
  import opened Wrappers
  import opened Board
  import opened Search

  /** The state the event loop keeps between events. `winner` is 1 or 2 for a
      won game and 0 for a tie (and while the game is open). */
  datatype GameState = GameState(grid: Grid, gameOver: bool, winner: Cell)

  /** The keys the loop reacts to; every other key is ignored. */
  datatype Key = Space | R | Escape | OtherKey

  /** The state at program start and after a restart. */
  const Initial := GameState(EmptyGrid, false, EMPTY)

  /** The board after `best_move`: the computer's mark on the chosen cell, or
      the board unchanged when there is no empty cell. */
  function AfterBestMove(g: Grid): Grid {
    var choice := BestChoice(g);
    if choice.None? then g
    else
      BestChoiceIsFirstMaximum(g);
      g[CellOf(choice.value) := COMPUTER]
  }

  /** The computer's reply once the human's move has neither won nor filled
      the board: move, then check its line, then check for a full board. */
  function ComputerReply(s: GameState): GameState {
    if BestChoice(s.grid).None? then s
    else
      var g := AfterBestMove(s.grid);
      if Wins(g, COMPUTER) then GameState(g, true, COMPUTER)
      else if IsFull(g) then GameState(g, true, EMPTY)
      else GameState(g, s.gameOver, s.winner)
  }

  /** A click, already turned into a cell: taken only while the game is open,
      in bounds and on an empty cell; then the human's line is checked, then
      a full board, and only then does the computer reply. */
  function HumanTurn(s: GameState, row: int, col: int): GameState {
    if s.gameOver || !(0 <= col < SIZE && 0 <= row < SIZE) || s.grid[3 * row + col] != EMPTY then s
    else
      var g := s.grid[3 * row + col := HUMAN];
      if Wins(g, HUMAN) then GameState(g, true, HUMAN)
      else if IsFull(g) then GameState(g, true, EMPTY)
      else ComputerReply(GameState(g, s.gameOver, s.winner))
  }

  /** A key press: SPACE restarts a finished game, R restarts an open one;
      anything else changes nothing. */
  function KeyStep(s: GameState, key: Key): GameState {
    if s.gameOver then (if key == Space then Initial else s)
    else (if key == R then Initial else s)
  }

  /** The states the loop can be in: while open nobody has a line, the board
      has an empty cell and both players have placed equally many marks; a
      finished game has exactly the winner's line, or for a tie a full board
      and no line; the human is never more than one mark ahead. */
  predicate Consistent(s: GameState) {
    var lead := CountOf(s.grid, HUMAN) - CountOf(s.grid, COMPUTER);
    0 <= lead <= 1 &&
    if !s.gameOver then
      s.winner == EMPTY && lead == 0 &&
      !Wins(s.grid, HUMAN) && !Wins(s.grid, COMPUTER) && !IsFull(s.grid)
    else
      (s.winner == HUMAN && Wins(s.grid, HUMAN) && !Wins(s.grid, COMPUTER)) ||
      (s.winner == COMPUTER && Wins(s.grid, COMPUTER) && !Wins(s.grid, HUMAN)) ||
      (s.winner == EMPTY && IsFull(s.grid) && !Wins(s.grid, HUMAN) && !Wins(s.grid, COMPUTER))
  }

  /** The computer's move writes its mark into one cell that was empty and
      leaves every other cell as it was; it moves exactly when the board is
      not full. */
  lemma AfterBestMoveEffect(g: Grid)
    ensures BestChoice(g).Some? <==> !IsFull(g)
    ensures !IsFull(g) ==>
      var k := CellOf(BestChoice(g).value);
      k < 9 && g[k] == EMPTY && AfterBestMove(g) == g[k := COMPUTER]
    ensures IsFull(g) ==> AfterBestMove(g) == g
  {
    BestChoiceIsFirstMaximum(g);
  }

  /** A click that is not taken changes nothing; a click that is taken puts
      the human's mark on the clicked cell, adds at most one computer mark on
      a previously empty cell (exactly when the human's move neither won nor
      filled the board) and leaves every other cell alone. */
  lemma {:induction false} ClickEffect(s: GameState, row: int, col: int)
    ensures var t := HumanTurn(s, row, col);
      var taken := !s.gameOver && 0 <= row < SIZE && 0 <= col < SIZE && s.grid[3 * row + col] == EMPTY;
      (t == s <==> !taken) &&
      (taken ==>
        var i := 3 * row + col;
        var g := s.grid[i := HUMAN];
        var replied := !Wins(g, HUMAN) && !IsFull(g);
        t.grid[i] == HUMAN &&
        CountOf(t.grid, HUMAN) == CountOf(s.grid, HUMAN) + 1 &&
        CountOf(t.grid, COMPUTER) == CountOf(s.grid, COMPUTER) + (if replied then 1 else 0) &&
        (forall j :: 0 <= j < 9 && j != i ==>
           t.grid[j] == s.grid[j] || (s.grid[j] == EMPTY && t.grid[j] == COMPUTER)))
  {
    var t := HumanTurn(s, row, col);
    if !s.gameOver && 0 <= row < SIZE && 0 <= col < SIZE && s.grid[3 * row + col] == EMPTY {
      var i := 3 * row + col;
      var g := s.grid[i := HUMAN];
      CountUpdate(s.grid, i, HUMAN);
      if !Wins(g, HUMAN) && !IsFull(g) {
        AfterBestMoveEffect(g);
        var k := CellOf(BestChoice(g).value);
        CountUpdate(g, k, COMPUTER);
      }
      assert t.grid[i] == HUMAN;
    }
  }

  /** Every click keeps the loop's state consistent. */
  lemma {:induction false} ClickKeepsConsistent(s: GameState, row: int, col: int)
    requires Consistent(s)
    ensures Consistent(HumanTurn(s, row, col))
  {
    if !s.gameOver && 0 <= row < SIZE && 0 <= col < SIZE && s.grid[3 * row + col] == EMPTY {
      var i := 3 * row + col;
      var g := s.grid[i := HUMAN];
      CountUpdate(s.grid, i, HUMAN);
      PlaceKeepsNoWin(s.grid, i, HUMAN, COMPUTER);
      if !Wins(g, HUMAN) && !IsFull(g) {
        AfterBestMoveEffect(g);
        var k := CellOf(BestChoice(g).value);
        CountUpdate(g, k, COMPUTER);
        PlaceKeepsNoWin(g, k, COMPUTER, HUMAN);
      }
    }
  }

  /** The loop starts consistent: an empty board has no line and is not full. */
  lemma InitialIsConsistent()
    ensures Consistent(Initial)
  {
    assert !IsFull(EmptyGrid) by { assert EmptyGrid[0] == EMPTY; }
    CountZero(EmptyGrid, HUMAN);
    CountZero(EmptyGrid, COMPUTER);
    assert !Wins(EmptyGrid, HUMAN) && !Wins(EmptyGrid, COMPUTER) by {
      forall l, p | l in Lines && p != EMPTY ensures !LineOf(EmptyGrid, p, l) {
      }
    }
  }

  /** Key presses keep the loop's state consistent; a restart leaves every
      cell empty, the game open and no winner. */
  lemma KeyKeepsConsistent(s: GameState, key: Key)
    requires Consistent(s)
    ensures Consistent(KeyStep(s, key))
    ensures KeyStep(s, key) != s ==>
      KeyStep(s, key).grid == EmptyGrid && !KeyStep(s, key).gameOver && KeyStep(s, key).winner == EMPTY
  {
    InitialIsConsistent();
  }

  /** Completing a row: with the human holding two cells of the top row and
      the third empty, clicking it wins the game for the human. */
  lemma CompletingTopRowWins(s: GameState)
    requires Consistent(s) && !s.gameOver
    requires s.grid[0] == HUMAN && s.grid[1] == HUMAN && s.grid[2] == EMPTY
    ensures HumanTurn(s, 0, 2).gameOver && HumanTurn(s, 0, 2).winner == HUMAN
  {
    assert LineOf(s.grid[2 := HUMAN], HUMAN, Lines[0]);
  }

  /** The game session as the event loop holds it. */
  class Session {
    var board: array2<Cell>
    var gameOver: bool
    var winner: Cell

    ghost predicate Valid()
      reads this
    {
      board.Length0 == SIZE && board.Length1 == SIZE
    }

    /** The session's state as a value. */
    ghost function State(): GameState
      reads this, board
      requires Valid()
    {
      GameState(Cells(board), gameOver, winner)
    }

    /** Program start: an all-zero board, the game open, no winner. */
    constructor ()
      ensures Valid() && fresh(board)
      ensures State() == Initial
      ensures Consistent(State())
    {
      InitialIsConsistent();
      board := new Cell[SIZE, SIZE]((_, _) => EMPTY);
      gameOver := false;
      winner := EMPTY;
    }

    /** `mark_square`: write `player` into the cell, whatever it held. */
    method MarkSquare(row: int, col: int, player: Cell)
      requires Valid() && 0 <= row < SIZE && 0 <= col < SIZE
      modifies board
      ensures Cells(board) == old(Cells(board))[3 * row + col := player]
    {
      board[row, col] := player;
    }

    /** `available_square`: the cell is empty; an available cell means the
        board is not full. */
    predicate AvailableSquare(row: int, col: int)
      reads this, board
      requires Valid() && 0 <= row < SIZE && 0 <= col < SIZE
      ensures AvailableSquare(row, col) <==> Cells(board)[3 * row + col] == EMPTY
      ensures AvailableSquare(row, col) ==> !IsFull(Cells(board))
    {
      board[row, col] == EMPTY
    }

    /** `best_move`: score every empty cell on a private copy of the board, in
        row-major order, keep the first strictly greatest score, and write
        the computer's mark there; report whether a move was made. */
    method BestMove() returns (moved: bool)
      requires Valid()
      modifies board
      ensures moved <==> !IsFull(old(Cells(board)))
      ensures Cells(board) == AfterBestMove(old(Cells(board)))
    {
      ghost var g := Cells(board);
      ghost var scores := MoveScores(g);
      var best: Option<Candidate> := None;
      for row := 0 to SIZE
        invariant Cells(board) == g
        invariant Scan(scores, 3 * row, best) == BestChoice(g)
      {
        for col := 0 to SIZE
          invariant Cells(board) == g
          invariant Scan(scores, 3 * row + col, best) == BestChoice(g)
        {
          ghost var i := 3 * row + col;
          RowMajor(i);
          if board[row, col] == EMPTY {
            var temp := CopyBoard(board);
            temp[row, col] := COMPUTER;
            assert Cells(temp) == g[i := COMPUTER];
            var score := Minimax(temp, 0, false);
            if best.None? || score > best.value.score {
              best := Some(Candidate(row, col, score));
            }
          }
        }
      }
      AfterBestMoveEffect(g);
      BestChoiceIsFirstMaximum(g);
      if best.Some? {
        MarkSquare(best.value.row, best.value.col, COMPUTER);
        return true;
      }
      return false;
    }

    /** `restart_game`: a fresh all-zero board. */
    method RestartGame()
      requires Valid()
      modifies this
      ensures Valid() && fresh(board)
      ensures Cells(board) == EmptyGrid && gameOver == old(gameOver) && winner == old(winner)
    {
      board := new Cell[SIZE, SIZE]((_, _) => EMPTY);
    }

    /** The computer's half of a click: `best_move`, then the computer's line,
        then a full board. */
    method ComputerTurn()
      requires Valid()
      modifies this, board
      ensures Valid() && board == old(board)
      ensures State() == ComputerReply(old(State()))
    {
      AfterBestMoveEffect(Cells(board));
      var moved := BestMove();
      if moved {
        var computerWon := CheckWin(COMPUTER, board);
        if computerWon {
          gameOver := true;
          winner := COMPUTER;
        } else {
          var full := IsBoardFull(board);
          if full {
            gameOver := true;
            winner := EMPTY;
          }
        }
      }
    }

    /** The mouse-click branch of the event loop, for a click on (`row`, `col`). */
    method Click(row: int, col: int)
      requires Valid()
      modifies this, board
      ensures Valid() && board == old(board)
      ensures State() == HumanTurn(old(State()), row, col)
      ensures old(Consistent(State())) ==> Consistent(State())
    {
      ghost var before := State();
      if Consistent(before) {
        ClickKeepsConsistent(before, row, col);
      }
      if !gameOver {
        if 0 <= col < SIZE && 0 <= row < SIZE && AvailableSquare(row, col) {
          MarkSquare(row, col, HUMAN);
          var humanWon := CheckWin(HUMAN, board);
          if humanWon {
            gameOver := true;
            winner := HUMAN;
          } else {
            var full := IsBoardFull(board);
            if full {
              gameOver := true;
              winner := EMPTY;
            } else {
              ComputerTurn();
            }
          }
        }
      }
    }

    /** The key-press branch of the event loop; `quit` reports ESC on a
        finished game, which ends the loop. */
    method KeyPress(key: Key) returns (quit: bool)
      requires Valid()
      modifies this
      ensures Valid()
      ensures State() == KeyStep(old(State()), key)
      ensures quit <==> old(gameOver) && key == Escape
      ensures old(Consistent(State())) ==> Consistent(State())
    {
      ghost var before := State();
      if Consistent(before) {
        KeyKeepsConsistent(before, key);
      }
      quit := false;
      if gameOver {
        if key == Space {
          RestartGame();
          gameOver := false;
          winner := EMPTY;
        } else if key == Escape {
          quit := true;
        }
      } else {
        if key == R {
          RestartGame();
          gameOver := false;
          winner := EMPTY;
        }
      }
    }
  }
}
