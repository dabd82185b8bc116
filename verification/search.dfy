/** `minimax`: exhaustive adversarial search in which O maximises and X
    minimises. A won or drawn board scores `10 - depth` (O won),
    `depth - 10` (X won) or `0` (draw); any other board is scored by trying
    every empty cell in ascending order and keeping the first strictly
    better child. */
module Search {
  import opened Grid
  import opened Winner

  /** The source's `{ score }` for a terminal board and `{ index, score }`
      for a chosen move. */
  datatype Eval = Leaf(score: int) | Choice(index: Index, score: int)

  /** `a` is strictly preferred to `c` by the side `p`. */
  predicate Better(p: Mark, a: int, c: int) {
    if p == O then a > c else a < c
  }

  /** The scores a search from `depth` over a board with `e` empty cells can
      produce: a draw, an O win between `depth` and `depth + e` plies away,
      or an X win in the same window. */
  predicate InRange(s: int, depth: int, e: int) {
    || s == 0
    || 10 - depth - e <= s <= 10 - depth
    || depth - 10 <= s <= depth - 10 + e
  }

  /** Position `k` holds the first extremum (for `p`) of `s[..n]`: nothing
      before `n` beats it and everything before it is strictly worse. */
  predicate FirstBest(p: Mark, s: seq<int>, k: int, n: int) {
    && 0 <= k < n <= |s|
    && (forall j :: 0 <= j < n ==> !Better(p, s[j], s[k]))
    && (forall j :: 0 <= j < k ==> Better(p, s[k], s[j]))
  }

  /** The selection loop, resumed at position `n` with the best position
      so far: a later score replaces the best only when it is strictly
      better for `p`. */
  function FoldBest(p: Mark, s: seq<int>, n: nat, best: nat): (r: nat)
    requires best < |s| && best <= n <= |s|
    requires n > 0 ==> FirstBest(p, s, best, n)
    ensures FirstBest(p, s, r, |s|)
    decreases |s| - n
  {
    if n == |s| then best
    else FoldBest(p, s, n + 1, if Better(p, s[n], s[best]) then n else best)
  }

  /** There is only one first extremum. */
  lemma FirstBestUnique(p: Mark, s: seq<int>, k1: int, k2: int, n: int)
    requires FirstBest(p, s, k1, n) && FirstBest(p, s, k2, n)
    ensures k1 == k2
  {
    assert !Better(p, s[k2], s[k1]);
    assert !Better(p, s[k1], s[k2]);
  }

  /** Scores of the moves in `moves`, each the search value of the board
      with `p` placed there and the other side to move one ply deeper. */
  function ChildScores(b: Board, p: Mark, depth: int, moves: seq<Index>): (scores: seq<int>)
    requires forall k :: 0 <= k < |moves| ==> b[moves[k]] == Empty
    ensures |scores| == |moves|
    ensures forall k :: 0 <= k < |scores| ==> InRange(scores[k], depth + 1, EmptyCount(b) - 1)
    decreases EmptyCount(b), 0, |moves|
  {
    if |moves| == 0 then []
    else [Minimax(Place(b, moves[0], p), Other(p), depth + 1).score]
         + ChildScores(b, p, depth, moves[1..])
  }

  /** The search. Terminal boards are scored by depth; on every other board
      the result is a move onto an empty cell with a score in range. */
  function Minimax(b: Board, p: Mark, depth: int): (r: Eval)
    ensures InRange(r.score, depth, EmptyCount(b))
    ensures r.Choice? <==> CheckWinner(b) == InProgress
    ensures r.Choice? ==> b[r.index] == Empty
    ensures CheckWinner(b) == Win(O) ==> r.score == 10 - depth
    ensures CheckWinner(b) == Win(X) ==> r.score == depth - 10
    ensures CheckWinner(b) == Draw ==> r.score == 0
    decreases EmptyCount(b), 1
  {
    match CheckWinner(b)
    case Win(O) => Leaf(10 - depth)
    case Win(X) => Leaf(depth - 10)
    case Draw => Leaf(0)
    case InProgress =>
      var moves := Avail(b);
      var scores := ChildScores(b, p, depth, moves);
      var k := FoldBest(p, scores, 0, 0);
      Choice(moves[k], scores[k])
  }

  /** The search value of placing `p` on the empty cell `i`. */
  function ChildScore(b: Board, p: Mark, depth: int, i: Index): int
    requires b[i] == Empty
  {
    Minimax(Place(b, i, p), Other(p), depth + 1).score
  }

  lemma {:induction false} ChildScoresAt(b: Board, p: Mark, depth: int, moves: seq<Index>, k: nat)
    requires forall j :: 0 <= j < |moves| ==> b[moves[j]] == Empty
    requires k < |moves|
    ensures ChildScores(b, p, depth, moves)[k] == ChildScore(b, p, depth, moves[k])
    decreases k
  {
    if k > 0 {
      ChildScoresAt(b, p, depth, moves[1..], k - 1);
    }
  }

  /** In a strictly ascending list, a smaller element sits earlier. */
  lemma AscendingPositions(s: seq<Index>, q: nat, k: nat)
    requires forall j, j' :: 0 <= j < j' < |s| ==> s[j] < s[j']
    requires q < |s| && k < |s| && s[q] < s[k]
    ensures q < k
  {
    assert q != k;
  }

  /** On an undecided board the search picks an empty cell whose child score
      is the best for the side to move (maximum for O, minimum for X), and
      every empty cell with a lower index is strictly worse. */
  lemma MinimaxPicksFirstBest(b: Board, p: Mark, depth: int)
    requires CheckWinner(b) == InProgress
    ensures Minimax(b, p, depth).Choice?
    ensures var r := Minimax(b, p, depth);
      && b[r.index] == Empty
      && r.score == ChildScore(b, p, depth, r.index)
      && (forall j: Index :: b[j] == Empty ==> !Better(p, ChildScore(b, p, depth, j), r.score))
      && (forall j: Index :: j < r.index && b[j] == Empty ==> Better(p, r.score, ChildScore(b, p, depth, j)))
  {
    var r := Minimax(b, p, depth);
    var moves := Avail(b);
    var scores := ChildScores(b, p, depth, moves);
    var k := FoldBest(p, scores, 0, 0);
    assert r == Choice(moves[k], scores[k]);
    ChildScoresAt(b, p, depth, moves, k);
    forall j: Index | b[j] == Empty
      ensures !Better(p, ChildScore(b, p, depth, j), r.score)
      ensures j < r.index ==> Better(p, r.score, ChildScore(b, p, depth, j))
    {
      var q :| 0 <= q < |moves| && moves[q] == j;
      ChildScoresAt(b, p, depth, moves, q);
      if j < r.index {
        AscendingPositions(moves, q, k);
      }
    }
  }

  /** A search started at depth 0 on any board scores within [-10, 10]. */
  lemma ScoreBounds(b: Board, p: Mark)
    ensures -10 <= Minimax(b, p, 0).score <= 10
  {
    assert EmptyCount(b) <= 9;
  }

  /** The selection loop of the source: start from the first score and
      replace it by every strictly better one (greater for O, smaller for
      X), which leaves the first extremum. */
  method PickBest(player: Mark, scores: seq<int>) returns (best: nat)
    requires |scores| > 0
    ensures FirstBest(player, scores, best, |scores|)
  {
    best := 0;
    var j := 0;
    while j < |scores|
      invariant 0 <= best <= j <= |scores|
      invariant best < |scores|
      invariant j > 0 ==> FirstBest(player, scores, best, j)
    {
      if player == O {
        if scores[j] > scores[best] {
          best := j;
        }
      } else {
        if scores[j] < scores[best] {
          best := j;
        }
      }
      j := j + 1;
    }
  }

  /** Scores gathered move by move, and the first best among them, give
      the same move as the functional search. */
  lemma SelectionAgrees(b: Board, p: Mark, depth: int, scores: seq<int>, best: nat)
    requires CheckWinner(b) == InProgress
    requires |scores| == |Avail(b)|
    requires forall k :: 0 <= k < |scores| ==> scores[k] == ChildScore(b, p, depth, Avail(b)[k])
    requires FirstBest(p, scores, best, |scores|)
    ensures Minimax(b, p, depth) == Choice(Avail(b)[best], scores[best])
  {
    var avail := Avail(b);
    forall k | 0 <= k < |avail|
      ensures ChildScores(b, p, depth, avail)[k] == scores[k]
    {
      ChildScoresAt(b, p, depth, avail, k);
    }
    assert scores == ChildScores(b, p, depth, avail);
    FirstBestUnique(p, scores, best, FoldBest(p, scores, 0, 0), |scores|);
  }

  /** The source's search as written: each empty cell is filled with `p`
      on the shared board, searched, and emptied again before the next one;
      then the first strictly better score wins. It computes exactly
      `Minimax` and hands the board back as it received it. */
  method MinimaxInPlace(board: Board, player: Mark, depth: int) returns (r: Eval, restored: Board)
    ensures r == Minimax(board, player, depth)
    ensures restored == board
    decreases EmptyCount(board), 2
  {
    var b := board;
    match CheckWinner(b) {
      case Win(O) => return Leaf(10 - depth), b;
      case Win(X) => return Leaf(depth - 10), b;
      case Draw => return Leaf(0), b;
      case InProgress =>
    }
    var avail := Avail(b);
    var scores;
    scores, b := ScoreMoves(b, player, depth, avail);
    var best := PickBest(player, scores);
    SelectionAgrees(board, player, depth, scores, best);
    r := Choice(avail[best], scores[best]);
    restored := b;
  }

  /** Emptying the cell just filled gives the board back. */
  lemma UndoPlace(b: Board, i: Index, m: Mark)
    requires b[i] == Empty
    ensures Place(b, i, m)[i := Empty] == b
  {
    assert forall k: Index :: Place(b, i, m)[i := Empty][k] == b[k];
  }

  /** The source's loop over the available cells, on the shared
      board. Each recorded score is the child's search value and the board
      ends as it started. */
  method ScoreMoves(board: Board, player: Mark, depth: int, avail: seq<Index>)
    returns (scores: seq<int>, restored: Board)
    requires forall k :: 0 <= k < |avail| ==> board[avail[k]] == Empty
    ensures |scores| == |avail|
    ensures forall k :: 0 <= k < |avail| ==> scores[k] == ChildScore(board, player, depth, avail[k])
    ensures restored == board
    decreases EmptyCount(board), 1
  {
    var b := board;
    scores := [];
    var i := 0;
    while i < |avail|
      invariant 0 <= i <= |avail|
      invariant b == board
      invariant |scores| == i
      invariant forall k :: 0 <= k < i ==> scores[k] == ChildScore(board, player, depth, avail[k])
    {
      var score;
      score, b := TryMove(b, player, depth, avail[i]);
      scores := scores + [score];
      i := i + 1;
    }
    restored := b;
  }

  /** One iteration of that loop: write the player's mark into the cell,
      search one ply deeper, then empty the cell again. */
  method TryMove(board: Board, player: Mark, depth: int, index: Index)
    returns (score: int, restored: Board)
    requires board[index] == Empty
    ensures score == ChildScore(board, player, depth, index)
    ensures restored == board
    decreases EmptyCount(board), 0
  {
    var b := Place(board, index, player);
    var nextPlayer := Other(player);
    var result, after := MinimaxInPlace(b, nextPlayer, depth + 1);
    score := result.score;
    b := after[index := Empty];
    UndoPlace(board, index, player);
    restored := b;
  }
}
