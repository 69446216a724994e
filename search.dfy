/** The exhaustive minimax search (`minimax`) and the choice of the computer's
    move among the empty cells (`best_move`'s scan). */
module Search {
  import opened Wrappers
  import opened Board

  /** The mark placed by the side to move: the computer when maximizing, the
      human otherwise. */
  function Mover(maximizing: bool): (p: Cell)
    ensures p != EMPTY
  {
    if maximizing then COMPUTER else HUMAN
  }

  /** The score minimax gives `g`, `depth` plies into a search, with the
      computer to move when `maximizing`. The terminal checks come in a fixed
      order: a computer line first, then a human line, then a full board. */
  function MinimaxScore(g: Grid, depth: int, maximizing: bool): int
    decreases CountOf(g, EMPTY), 1, 0
  {
    if Wins(g, COMPUTER) then 10 - depth
    else if Wins(g, HUMAN) then depth - 10
    else if IsFull(g) then 0
    else
      var best := Fold(g, depth, maximizing, 0, None);
      assert best.Some? by { assert !IsFull(g); }
      best.value
  }

  /** The score of the child reached by the mover taking the empty cell `i`. */
  function ChildScore(g: Grid, depth: int, maximizing: bool, i: nat): int
    requires i < 9 && g[i] == EMPTY
    decreases CountOf(g, EMPTY), 0, 0
  {
    PlaceDecreasesEmpties(g, i, Mover(maximizing));
    MinimaxScore(g[i := Mover(maximizing)], depth + 1, !maximizing)
  }

  /** The running best of the search loop from cell `i` on, starting from
      `acc` (`None` is the infinite starting score): the maximum of the child
      scores when maximizing, the minimum otherwise. */
  function Fold(g: Grid, depth: int, maximizing: bool, i: nat, acc: Option<int>): (r: Option<int>)
    requires i <= 9
    decreases CountOf(g, EMPTY), 0, 9 - i
    ensures r.None? <==> acc.None? && forall j :: i <= j < 9 ==> g[j] != EMPTY
  {
    if i == 9 then acc
    else if g[i] == EMPTY then
      var s := ChildScore(g, depth, maximizing, i);
      Fold(g, depth, maximizing, i + 1, Some(Better(maximizing, acc, s)))
    else Fold(g, depth, maximizing, i + 1, acc)
  }

  /** `max(best_score, score)` when maximizing, `min` otherwise, with `None`
      as the infinite starting score. */
  function Better(maximizing: bool, acc: Option<int>, s: int): (r: int)
    ensures acc.None? ==> r == s
    ensures acc.Some? ==> r == acc.value || r == s
    ensures maximizing && acc.Some? ==> r >= acc.value && r >= s
    ensures !maximizing && acc.Some? ==> r <= acc.value && r <= s
  {
    if acc.None? then s
    else if maximizing then (if acc.value >= s then acc.value else s)
    else (if acc.value <= s then acc.value else s)
  }

  /** What the loop's running best amounts to: it bounds every child score
      from cell `i` on and the starting value, and is one of them. */
  lemma {:induction false} FoldExtremum(g: Grid, depth: int, maximizing: bool, i: nat, acc: Option<int>)
    requires i <= 9
    decreases 9 - i
    ensures var r := Fold(g, depth, maximizing, i, acc);
      r.Some? ==>
        (forall j :: i <= j < 9 && g[j] == EMPTY ==>
           if maximizing then ChildScore(g, depth, maximizing, j) <= r.value
           else ChildScore(g, depth, maximizing, j) >= r.value) &&
        (acc.Some? ==> if maximizing then acc.value <= r.value else acc.value >= r.value) &&
        ((acc.Some? && r.value == acc.value) ||
         exists j :: i <= j < 9 && g[j] == EMPTY && r.value == ChildScore(g, depth, maximizing, j))
  {
    if i < 9 {
      if g[i] == EMPTY {
        FoldExtremum(g, depth, maximizing, i + 1, Some(Better(maximizing, acc, ChildScore(g, depth, maximizing, i))));
      } else {
        FoldExtremum(g, depth, maximizing, i + 1, acc);
      }
    }
  }

  /** On a board nobody has won that still has an empty cell, minimax is the
      maximum (computer to move) or the minimum (human to move) of the scores
      of the children: no child beats it and some child reaches it. */
  lemma MinimaxIsExtremumOfChildren(g: Grid, depth: int, maximizing: bool)
    requires !Wins(g, COMPUTER) && !Wins(g, HUMAN) && !IsFull(g)
    ensures forall j :: 0 <= j < 9 && g[j] == EMPTY ==>
      if maximizing then ChildScore(g, depth, maximizing, j) <= MinimaxScore(g, depth, maximizing)
      else ChildScore(g, depth, maximizing, j) >= MinimaxScore(g, depth, maximizing)
    ensures exists j ::
              0 <= j < 9 && g[j] == EMPTY &&
              MinimaxScore(g, depth, maximizing) == ChildScore(g, depth, maximizing, j)
  {
    FoldExtremum(g, depth, maximizing, 0, None);
  }

  /** With at most ten plies between `depth` and the end of the game, the
      score lies in [depth - 10, 10 - depth]: every leaf lies deeper than
      `depth` but no deeper than ten plies, and max/min keep the bounds. */
  lemma {:induction false} MinimaxBounds(g: Grid, depth: int, maximizing: bool)
    requires depth + CountOf(g, EMPTY) <= 10
    decreases CountOf(g, EMPTY)
    ensures depth - 10 <= MinimaxScore(g, depth, maximizing) <= 10 - depth
  {
    if !Wins(g, COMPUTER) && !Wins(g, HUMAN) && !IsFull(g) {
      MinimaxIsExtremumOfChildren(g, depth, maximizing);
      var j :| 0 <= j < 9 && g[j] == EMPTY &&
        MinimaxScore(g, depth, maximizing) == ChildScore(g, depth, maximizing, j);
      PlaceDecreasesEmpties(g, j, Mover(maximizing));
      MinimaxBounds(g[j := Mover(maximizing)], depth + 1, !maximizing);
    }
  }

  /** The minimax search as the game runs it: place the mover's mark on each
      empty cell in row-major order, recurse, and reset the cell to empty
      before the next candidate. The board comes back exactly as it was. */
  method Minimax(a: array2<Cell>, depth: int, maximizing: bool) returns (score: int)
    requires a.Length0 == SIZE && a.Length1 == SIZE
    modifies a
    decreases CountOf(Cells(a), EMPTY)
    ensures Cells(a) == old(Cells(a))
    ensures score == MinimaxScore(old(Cells(a)), depth, maximizing)
  {
    var computerWon := CheckWin(COMPUTER, a);
    if computerWon {
      return 10 - depth;
    }
    var humanWon := CheckWin(HUMAN, a);
    if humanWon {
      return depth - 10;
    }
    var full := IsBoardFull(a);
    if full {
      return 0;
    }
    ghost var g := Cells(a);
    var mover := if maximizing then COMPUTER else HUMAN;
    var bestScore: Option<int> := None;
    for row := 0 to SIZE
      invariant Cells(a) == g
      invariant Fold(g, depth, maximizing, 3 * row, bestScore) == Fold(g, depth, maximizing, 0, None)
    {
      for col := 0 to SIZE
        invariant Cells(a) == g
        invariant Fold(g, depth, maximizing, 3 * row + col, bestScore) == Fold(g, depth, maximizing, 0, None)
      {
        if a[row, col] == EMPTY {
          a[row, col] := mover;
          assert Cells(a) == g[3 * row + col := mover];
          PlaceDecreasesEmpties(g, 3 * row + col, mover);
          var s := Minimax(a, depth + 1, !maximizing);
          a[row, col] := EMPTY;
          assert Cells(a) == g;
          bestScore := Some(Better(maximizing, bestScore, s));
        }
      }
    }
    return bestScore.value;
  }

  /** A candidate computer move: the cell and the score minimax gave it. */
  datatype Candidate = Candidate(row: nat, col: nat, score: int)

  /** The score of the computer taking the empty cell `i`: minimax from the
      human's turn at depth 0, as `best_move` asks it. */
  function MoveScore(g: Grid, i: nat): int
    requires i < 9 && g[i] == EMPTY
  {
    MinimaxScore(g[i := COMPUTER], 0, false)
  }

  /** What `best_move` computes per cell in row-major order: the score of an
      empty cell, nothing for an occupied one. */
  function MoveScores(g: Grid): (s: seq<Option<int>>)
    ensures |s| == 9
    ensures forall i :: 0 <= i < 9 ==> s[i] == if g[i] == EMPTY then Some(MoveScore(g, i)) else None
  {
    seq(9, i requires 0 <= i < 9 => if g[i] == EMPTY then Some(MoveScore(g, i)) else None)
  }

  /** The scan of `best_move` from cell `i` on: a candidate replaces the one
      kept so far only when its score is strictly greater. */
  function Scan(scores: seq<Option<int>>, i: nat, best: Option<Candidate>): Option<Candidate>
    requires i <= |scores|
    decreases |scores| - i
  {
    if i == |scores| then best
    else if scores[i].Some? && (best.None? || scores[i].value > best.value.score) then
      Scan(scores, i + 1, Some(Candidate(i / 3, i % 3, scores[i].value)))
    else Scan(scores, i + 1, best)
  }

  /** The computer's choice on `g`. */
  function BestChoice(g: Grid): Option<Candidate> {
    Scan(MoveScores(g), 0, None)
  }

  /** The cell a candidate names, as a row-major index. */
  function CellOf(c: Candidate): nat {
    3 * c.row + c.col
  }

  /** Row `i / 3` and column `i % 3` name the cell of row-major index `i`. */
  lemma RowMajor(i: nat)
    ensures 3 * (i / 3) + i % 3 == i && i % 3 < SIZE
  {
  }

  /** A kept candidate names a scored cell and carries its score. */
  predicate Scored(scores: seq<Option<int>>, c: Candidate) {
    c.col < SIZE && CellOf(c) < |scores| && scores[CellOf(c)] == Some(c.score)
  }

  /** The scan from `i` on finds nothing exactly when nothing was kept and no
      cell from `i` on is scored. */
  lemma {:induction false} ScanNone(scores: seq<Option<int>>, i: nat, best: Option<Candidate>)
    requires i <= |scores|
    decreases |scores| - i
    ensures Scan(scores, i, best).None? <==> best.None? && forall j :: i <= j < |scores| ==> scores[j].None?
  {
    if i < |scores| {
      if scores[i].Some? && (best.None? || scores[i].value > best.value.score) {
        ScanNone(scores, i + 1, Some(Candidate(i / 3, i % 3, scores[i].value)));
      } else {
        ScanNone(scores, i + 1, best);
      }
    }
  }

  /** The scan from `i` on keeps a greatest score: the result is the kept
      candidate, or a later scored cell whose score is strictly greater than
      the kept one, and no cell from `i` on scores more. */
  lemma {:induction false} ScanMaximum(scores: seq<Option<int>>, i: nat, best: Option<Candidate>)
    requires i <= |scores|
    requires best.Some? ==> Scored(scores, best.value) && CellOf(best.value) < i
    requires Scan(scores, i, best).Some?
    decreases |scores| - i
    ensures var c := Scan(scores, i, best).value;
      Scored(scores, c) &&
      ((best.Some? && c == best.value) ||
       (i <= CellOf(c) && (best.Some? ==> best.value.score < c.score))) &&
      (forall j :: i <= j < |scores| && scores[j].Some? ==> scores[j].value <= c.score)
  {
    if i < |scores| {
      if scores[i].Some? && (best.None? || scores[i].value > best.value.score) {
        RowMajor(i);
        ScanMaximum(scores, i + 1, Some(Candidate(i / 3, i % 3, scores[i].value)));
      } else {
        ScanMaximum(scores, i + 1, best);
      }
    }
  }

  /** The scan from `i` on keeps the first greatest score it meets: every
      scored cell from `i` on before the result scores strictly less. */
  lemma {:induction false} ScanFirst(scores: seq<Option<int>>, i: nat, best: Option<Candidate>)
    requires i <= |scores|
    requires best.Some? ==> Scored(scores, best.value) && CellOf(best.value) < i
    requires Scan(scores, i, best).Some?
    decreases |scores| - i
    ensures var c := Scan(scores, i, best).value;
      forall j :: i <= j < CellOf(c) && j < |scores| && scores[j].Some? ==> scores[j].value < c.score
  {
    if i < |scores| {
      if scores[i].Some? && (best.None? || scores[i].value > best.value.score) {
        RowMajor(i);
        ScanFirst(scores, i + 1, Some(Candidate(i / 3, i % 3, scores[i].value)));
        ScanMaximum(scores, i + 1, Some(Candidate(i / 3, i % 3, scores[i].value)));
      } else {
        ScanFirst(scores, i + 1, best);
        ScanMaximum(scores, i + 1, best);
      }
    }
  }

  /** A candidate `best_move` may pick: an empty cell of the board with the
      score the search gives it. */
  predicate WellScored(g: Grid, c: Candidate) {
    c.row < SIZE && c.col < SIZE && g[CellOf(c)] == EMPTY && c.score == MoveScore(g, CellOf(c))
  }

  /** `best_move` finds no move exactly on a full board; otherwise it picks an
      empty cell whose score is the greatest, and the first such cell in
      row-major order. */
  lemma BestChoiceIsFirstMaximum(g: Grid)
    ensures BestChoice(g).None? <==> IsFull(g)
    ensures BestChoice(g).Some? ==>
      var c := BestChoice(g).value;
      WellScored(g, c) &&
      (forall j :: 0 <= j < 9 && g[j] == EMPTY ==> MoveScore(g, j) <= c.score) &&
      (forall j :: 0 <= j < CellOf(c) && g[j] == EMPTY ==> MoveScore(g, j) < c.score)
  {
    var scores := MoveScores(g);
    ScanNone(scores, 0, None);
    if BestChoice(g).Some? {
      ScanMaximum(scores, 0, None);
      ScanFirst(scores, 0, None);
      var c := BestChoice(g).value;
      assert scores[CellOf(c)] == Some(c.score);
      forall j | 0 <= j < 9 && g[j] == EMPTY
        ensures MoveScore(g, j) <= c.score
        ensures j < CellOf(c) ==> MoveScore(g, j) < c.score
      {
        assert scores[j] == Some(MoveScore(g, j));
      }
    }
  }

  /** The first-maximum description pins the choice down: any empty cell whose
      score is the greatest and beats every earlier empty cell is the one
      `best_move` picks. */
  lemma BestChoiceUnique(g: Grid, k: nat)
    requires k < 9 && g[k] == EMPTY
    requires forall j :: 0 <= j < 9 && g[j] == EMPTY ==> MoveScore(g, j) <= MoveScore(g, k)
    requires forall j :: 0 <= j < k && g[j] == EMPTY ==> MoveScore(g, j) < MoveScore(g, k)
    ensures BestChoice(g).Some? && CellOf(BestChoice(g).value) == k
  {
    BestChoiceIsFirstMaximum(g);
  }
}
