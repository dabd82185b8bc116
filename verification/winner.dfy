/** `checkWinner`: classifies a board as won by a mark, drawn, or still in
    progress, by scanning eight fixed lines in a fixed order. */
module Winner {
  import opened Text
  import opened Grid

  /** `null` is `InProgress`, `'draw'` is `Draw`, a mark string is `Win`. */
  datatype Outcome = InProgress | Draw | Win(winner: Mark)

  datatype Line = Line(a: Index, b: Index, c: Index)

  /** The winning triples in the order the source lists them: rows,
      columns, then the two diagonals. */
  const Lines: seq<Line> := [
    Line(0, 1, 2), Line(3, 4, 5), Line(6, 7, 8),
    Line(0, 3, 6), Line(1, 4, 7), Line(2, 5, 8),
    Line(0, 4, 8), Line(2, 4, 6)
  ]

  /** The line's first cell is filled and the other two hold the same
      value as it. */
  predicate Completed(board: Board, l: Line) {
    board[l.a] != Empty && board[l.a] == board[l.b] && board[l.a] == board[l.c]
  }

  /** All three cells of `l` hold `m`. */
  predicate LineOf(board: Board, l: Line, m: Mark) {
    board[l.a] == Filled(m) && board[l.b] == Filled(m) && board[l.c] == Filled(m)
  }

  /** Some listed line is entirely `m`. */
  predicate HasLine(board: Board, m: Mark) {
    exists k :: 0 <= k < |Lines| && LineOf(board, Lines[k], m)
  }

  predicate NoLine(board: Board) {
    forall k :: 0 <= k < |Lines| ==> !Completed(board, Lines[k])
  }

  /** The mark of the first completed line at position `k` or later. */
  function WinnerFrom(board: Board, k: nat): (r: Option<Mark>)
    requires k <= |Lines|
    ensures r.Some? ==> exists j :: k <= j < |Lines| && LineOf(board, Lines[j], r.value)
                          && forall i :: k <= i < j ==> !Completed(board, Lines[i])
    ensures r.None? ==> forall j :: k <= j < |Lines| ==> !Completed(board, Lines[j])
    decreases |Lines| - k
  {
    if k == |Lines| then None
    else
      var l := Lines[k];
      if Completed(board, l) then Some(board[l.a].mark)
      else WinnerFrom(board, k + 1)
  }

  /** The mark of the first completed line in list order; otherwise a draw
      on a full board, and a game still in progress when a cell is empty. */
  function CheckWinner(board: Board): (r: Outcome)
    ensures r.Win? <==> !NoLine(board)
    ensures r.Win? ==> exists k :: 0 <= k < |Lines| && LineOf(board, Lines[k], r.winner)
                        && forall i :: 0 <= i < k ==> !Completed(board, Lines[i])
    ensures r == Draw <==> NoLine(board) && Full(board)
    ensures r == InProgress <==> NoLine(board) && !Full(board)
  {
    match WinnerFrom(board, 0)
    case Some(m) => Win(m)
    case None => if Full(board) then Draw else InProgress
  }

  /** A completed line belongs to exactly one mark. */
  lemma CompletedIsLineOf(board: Board, l: Line)
    ensures Completed(board, l) <==> LineOf(board, l, X) || LineOf(board, l, O)
  {
    match board[l.a]
    case Empty =>
    case Filled(m) => assert m == X || m == O;
  }

  /** A board with no completed line has no line for either mark. */
  lemma NoLineMeansNoWinner(board: Board)
    requires NoLine(board)
    ensures !HasLine(board, X) && !HasLine(board, O)
  {
  }

  /** Filling an empty cell with `m` creates no line for the other mark. */
  lemma {:induction false} PlaceKeepsOtherLines(board: Board, i: Index, m: Mark)
    requires board[i] == Empty
    ensures HasLine(Place(board, i, m), Other(m)) ==> HasLine(board, Other(m))
  {
    var after := Place(board, i, m);
    if HasLine(after, Other(m)) {
      var k :| 0 <= k < |Lines| && LineOf(after, Lines[k], Other(m));
      var l := Lines[k];
      assert l.a != i && l.b != i && l.c != i;
      assert LineOf(board, l, Other(m));
    }
  }

  /** The board `[X,O,X, O,X,O, _,_,X]` is won by X along the diagonal 0-4-8. */
  lemma DiagonalExample()
    ensures CheckWinner([Filled(X), Filled(O), Filled(X),
                         Filled(O), Filled(X), Filled(O),
                         Empty, Empty, Filled(X)]) == Win(X)
  {
  }
}
