/** Optional values. `None` stands for the "no value yet" sentinels of the game
    engine: the +/- infinity starting score of a search and the (-1, -1)
    "no move found" position. */
module Wrappers {
  datatype Option<T> = None | Some(value: T)
}

/** The 3x3 board: cell values, the value view of a grid, the eight winning
    lines, and the read-only checks `check_win` and `is_board_full`. */
module Board {

  const EMPTY := 0
  const HUMAN := 1
  const COMPUTER := 2
  const SIZE := 3

  /** A cell holds 0 (empty), 1 (the human's mark) or 2 (the computer's mark). */
  type Cell = c: int | 0 <= c <= 2

  /** A board as a value: nine cells in row-major order, cell (row, col) at
      index 3 * row + col. */
  type Grid = g: seq<Cell> | |g| == 9 witness [0, 0, 0, 0, 0, 0, 0, 0, 0]

  const EmptyGrid: Grid := [0, 0, 0, 0, 0, 0, 0, 0, 0]

  /** The eight winning lines as triples of cell indices: three rows, three
      columns, the main diagonal and the anti-diagonal (row i, column 2 - i). */
  const Lines: seq<(nat, nat, nat)> :=
    [RowLine(0), RowLine(1), RowLine(2),
     ColumnLine(0), ColumnLine(1), ColumnLine(2),
     (0, 4, 8), (2, 4, 6)]

  function RowLine(r: nat): (nat, nat, nat) { (3 * r, 3 * r + 1, 3 * r + 2) }

  function ColumnLine(c: nat): (nat, nat, nat) { (c, c + 3, c + 6) }

  predicate LineOf(g: Grid, p: int, l: (nat, nat, nat))
    requires l.0 < 9 && l.1 < 9 && l.2 < 9
  {
    g[l.0] == p && g[l.1] == p && g[l.2] == p
  }

  /** `p` has won `g`: one of the eight lines holds `p` in all three cells. */
  predicate Wins(g: Grid, p: int) {
    exists l :: l in Lines && LineOf(g, p, l)
  }

  /** No cell of `g` is empty. */
  predicate IsFull(g: Grid) {
    forall i :: 0 <= i < 9 ==> g[i] != EMPTY
  }

  /** The number of cells of `s` that hold `v`. */
  function CountOf(s: seq<Cell>, v: int): (n: nat)
    ensures n <= |s|
  {
    if s == [] then 0 else (if s[0] == v then 1 else 0) + CountOf(s[1..], v)
  }

  /** Writing `w` over a cell holding `v != w` removes one `v` and adds one `w`;
      every other count stays. */
  lemma {:induction false} CountUpdate(s: seq<Cell>, i: nat, w: Cell)
    requires i < |s|
    ensures forall v ::
              CountOf(s[i := w], v) ==
              CountOf(s, v) - (if s[i] == v then 1 else 0) + (if w == v then 1 else 0)
  {
    if i > 0 {
      CountUpdate(s[1..], i - 1, w);
      assert s[i := w][1..] == s[1..][i - 1 := w];
    }
  }

  /** A value is absent from `s` exactly when it is counted zero times. */
  lemma {:induction false} CountZero(s: seq<Cell>, v: int)
    ensures CountOf(s, v) == 0 <==> forall i :: 0 <= i < |s| ==> s[i] != v
  {
    if s != [] {
      CountZero(s[1..], v);
      assert forall i :: 1 <= i < |s| ==> s[i] == s[1..][i - 1];
    }
  }

  /** A board is full exactly when it has no empty cell left to count. */
  lemma FullIffNoEmpties(g: Grid)
    ensures IsFull(g) <==> CountOf(g, EMPTY) == 0
  {
    CountZero(g, EMPTY);
  }

  /** Placing a mark on an empty cell leaves one empty cell fewer. */
  lemma PlaceDecreasesEmpties(g: Grid, i: nat, p: Cell)
    requires i < 9 && g[i] == EMPTY && p != EMPTY
    ensures CountOf(g[i := p], EMPTY) == CountOf(g, EMPTY) - 1
  {
    CountUpdate(g, i, p);
  }

  /** Each of the eight lines, filled with `p` on an otherwise empty board, is a
      win for `p` and for no other player. */
  lemma {:induction false} LoneLineWins(k: nat, p: Cell, q: Cell)
    requires k < 8 && p != EMPTY && q != EMPTY && q != p
    ensures var l := Lines[k];
      var g: Grid := seq(9, i => if i == l.0 || i == l.1 || i == l.2 then p else EMPTY);
      Wins(g, p) && !Wins(g, q)
  {
    var l := Lines[k];
    var g: Grid := seq(9, i => if i == l.0 || i == l.1 || i == l.2 then p else EMPTY);
    assert LineOf(g, p, l);
    assert forall i :: 0 <= i < 9 ==> g[i] != q;
  }

  /** When no row, no column and neither diagonal is entirely `p`, `p` has not
      won. */
  lemma NoLineNoWin(g: Grid, p: int)
    requires forall r :: 0 <= r < SIZE ==> !LineOf(g, p, RowLine(r))
    requires forall c :: 0 <= c < SIZE ==> !LineOf(g, p, ColumnLine(c))
    requires !LineOf(g, p, Lines[6]) && !LineOf(g, p, Lines[7])
    ensures !Wins(g, p)
  {
  }

  /** Placing a mark other than `p` cannot give `p` a line it did not have. */
  lemma PlaceKeepsNoWin(g: Grid, i: nat, m: Cell, p: int)
    requires i < 9 && m != p && !Wins(g, p)
    ensures !Wins(g[i := m], p)
  {
  }

  /** The value view of a 3x3 array: its cells in row-major order. */
  ghost function Cells(a: array2<Cell>): (g: Grid)
    requires a.Length0 == SIZE && a.Length1 == SIZE
    reads a
    ensures forall r, c :: 0 <= r < SIZE && 0 <= c < SIZE ==> g[3 * r + c] == a[r, c]
  {
    [a[0, 0], a[0, 1], a[0, 2],
     a[1, 0], a[1, 1], a[1, 2],
     a[2, 0], a[2, 1], a[2, 2]]
  }

  /** The win test of the game: rows first, then columns, then the two
      diagonals, returning at the first line that is entirely `player`. */
  method CheckWin(player: int, a: array2<Cell>) returns (won: bool)
    requires a.Length0 == SIZE && a.Length1 == SIZE
    ensures won == Wins(Cells(a), player)
  {
    ghost var g := Cells(a);
    for row := 0 to SIZE
      invariant forall r :: 0 <= r < row ==> !LineOf(g, player, RowLine(r))
    {
      if forall col | 0 <= col < SIZE :: a[row, col] == player {
        assert LineOf(g, player, Lines[row]);
        return true;
      }
    }
    for col := 0 to SIZE
      invariant forall r :: 0 <= r < SIZE ==> !LineOf(g, player, RowLine(r))
      invariant forall c :: 0 <= c < col ==> !LineOf(g, player, ColumnLine(c))
    {
      if forall row | 0 <= row < SIZE :: a[row, col] == player {
        assert LineOf(g, player, Lines[3 + col]);
        return true;
      }
    }
    if forall i | 0 <= i < SIZE :: a[i, i] == player {
      assert LineOf(g, player, Lines[6]);
      return true;
    }
    if forall i, j | 0 <= i < SIZE && j == SIZE - 1 - i :: a[i, j] == player {
      assert LineOf(g, player, Lines[7]);
      return true;
    }
    assert !LineOf(g, player, Lines[7]);
    NoLineNoWin(g, player);
    return false;
  }

  /** The fullness test of the game: scans the cells in row-major order and
      answers false at the first empty one. */
  method IsBoardFull(a: array2<Cell>) returns (full: bool)
    requires a.Length0 == SIZE && a.Length1 == SIZE
    ensures full == IsFull(Cells(a))
    ensures !full ==> exists r, c :: 0 <= r < SIZE && 0 <= c < SIZE && a[r, c] == EMPTY
  {
    for row := 0 to SIZE
      invariant forall r, c :: 0 <= r < row && 0 <= c < SIZE ==> a[r, c] != EMPTY
    {
      for col := 0 to SIZE
        invariant forall r, c :: 0 <= r < row && 0 <= c < SIZE ==> a[r, c] != EMPTY
        invariant forall c :: 0 <= c < col ==> a[row, c] != EMPTY
      {
        if a[row, col] == EMPTY {
          return false;
        }
      }
    }
    return true;
  }

  /** The deep copy the search makes of the board: a fresh array with the same
      cells. */
  method CopyBoard(a: array2<Cell>) returns (b: array2<Cell>)
    requires a.Length0 == SIZE && a.Length1 == SIZE
    ensures fresh(b) && b.Length0 == SIZE && b.Length1 == SIZE
    ensures Cells(b) == Cells(a)
  {
    b := new Cell[SIZE, SIZE];
    for row := 0 to SIZE
      invariant forall r, c :: 0 <= r < row && 0 <= c < SIZE ==> b[r, c] == a[r, c]
    {
      for col := 0 to SIZE
        invariant forall r, c :: 0 <= r < row && 0 <= c < SIZE ==> b[r, c] == a[r, c]
        invariant forall c :: 0 <= c < col ==> b[row, c] == a[row, c]
      {
        b[row, col] := a[row, col];
      }
    }
  }
}
