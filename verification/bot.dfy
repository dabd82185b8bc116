/** `chooseBotMove`: with probability `difficulty / 10` (clamped to
    [0, 1]) the bot plays the search's move for O, otherwise a uniformly
    random empty cell. The two `Math.random()` draws are inputs here. */
module Bot {
  import opened Grid
  import opened Winner
  import opened Search

  /** The `Math.random()` values one call can consume: `pickRoll` decides
      between the best and a random move, `indexRoll` picks the random
      cell. Each lies in [0, 1), as `Math.random()` promises. */
  datatype Oracle = Oracle(pickRoll: real, indexRoll: real)

  predicate ValidOracle(o: Oracle) {
    0.0 <= o.pickRoll < 1.0 && 0.0 <= o.indexRoll < 1.0
  }

  /** The chance of playing the search's move: a tenth of the difficulty,
      clamped to [0, 1]. */
  function ProbBest(difficulty: int): (r: real)
    ensures 0.0 <= r <= 1.0
    ensures 0 <= difficulty <= 10 ==> r * 10.0 == difficulty as real
    ensures difficulty >= 10 ==> r == 1.0
    ensures difficulty <= 0 ==> r == 0.0
  {
    var q := difficulty as real / 10.0;
    var capped := if q < 1.0 then q else 1.0;
    if capped > 0.0 then capped else 0.0
  }

  /** A roll in [0, 1) scaled to `n` and rounded down: a position in
      [0, n). */
  function RandomPosition(roll: real, n: nat): (k: nat)
    requires 0.0 <= roll < 1.0 && n > 0
    ensures k < n
    ensures k as real <= roll * n as real < k as real + 1.0
  {
    var x := roll * n as real;
    assert 0.0 <= x < n as real by {
      assert (1.0 - roll) * n as real > 0.0;
    }
    x.Floor
  }

  /** The empty cell the index roll selects among the available moves. */
  function RandomCell(b: Board, o: Oracle): (r: Index)
    requires ValidOracle(o) && !Full(b)
    ensures b[r] == Empty
  {
    Avail(b)[RandomPosition(o.indexRoll, |Avail(b)|)]
  }

  /** Every position can be drawn: the roll `k / n` selects position `k`. */
  lemma RandomPositionHits(k: nat, n: nat)
    requires k < n
    ensures 0.0 <= k as real / n as real < 1.0
    ensures RandomPosition(k as real / n as real, n) == k
  {
  }

  /** Every empty cell is the random move for some index roll. */
  lemma RandomCellReaches(b: Board, i: Index)
    requires b[i] == Empty
    ensures exists o :: ValidOracle(o) && RandomCell(b, o) == i
  {
    var avail := Avail(b);
    var q :| 0 <= q < |avail| && avail[q] == i;
    RandomPositionHits(q, |avail|);
    var o := Oracle(0.0, q as real / |avail| as real);
    assert RandomCell(b, o) == i;
  }

  /** `-1` when no cell is empty; otherwise either the search's move for O
      or the empty cell the index roll selects. */
  function ChooseBotMove(b: Board, difficulty: int, o: Oracle): (r: int)
    requires ValidOracle(o)
    ensures r == -1 <==> Full(b)
    ensures r != -1 ==> 0 <= r < 9 && b[r] == Empty
    ensures !Full(b) && CheckWinner(b) == InProgress && o.pickRoll < ProbBest(difficulty)
            ==> r == Minimax(b, O, 0).index
    ensures !Full(b) && o.pickRoll >= ProbBest(difficulty) ==> r == RandomCell(b, o)
    ensures !Full(b) && CheckWinner(b) != InProgress ==> r == RandomCell(b, o)
  {
    var avail := Avail(b);
    if |avail| == 0 then -1
    else
      var pickBest := o.pickRoll < ProbBest(difficulty);
      if !pickBest then avail[RandomPosition(o.indexRoll, |avail|)]
      else match Minimax(b, O, 0)
        case Choice(index, _) => index
        case Leaf(_) => avail[RandomPosition(o.indexRoll, |avail|)]
  }

  /** At difficulty 10 or above the bot always plays the search's move on an
      undecided board, whatever the random draws. */
  lemma MaxDifficultyIsOptimal(b: Board, difficulty: int, o: Oracle)
    requires ValidOracle(o) && difficulty >= 10
    requires CheckWinner(b) == InProgress
    ensures ChooseBotMove(b, difficulty, o) == Minimax(b, O, 0).index
  {
  }

  /** For a difficulty the game accepts, ten times the pick roll is
      compared with the difficulty: below it the search's move is played on
      an undecided board, at or above it the index roll's cell. */
  lemma DifficultyThreshold(b: Board, difficulty: int, o: Oracle)
    requires ValidOracle(o) && 1 <= difficulty <= 10 && !Full(b)
    ensures o.pickRoll * 10.0 < difficulty as real && CheckWinner(b) == InProgress
            ==> ChooseBotMove(b, difficulty, o) == Minimax(b, O, 0).index
    ensures o.pickRoll * 10.0 >= difficulty as real
            ==> ChooseBotMove(b, difficulty, o) == RandomCell(b, o)
  {
    var p := ProbBest(difficulty);
    assert o.pickRoll < p <==> o.pickRoll * 10.0 < p * 10.0;
  }
}
