/** The 3x3 tic-tac-toe board of `Commands/TicTacToe.js`: nine cells in
    row-major order, each empty or holding the mark X (the player) or O
    (the bot), together with the cell counts, the list of empty cells and
    the button ids that `makeBoard` gives the cells. */
module Grid {
  import opened Text

  datatype Mark = X | O

  /** `null` in the source is `Empty`; the strings "X" and "O" are `Filled`. */
  datatype Cell = Empty | Filled(mark: Mark)

  type Index = i: int | 0 <= i < 9

  type Board = b: seq<Cell> | |b| == 9
    witness [Empty, Empty, Empty, Empty, Empty, Empty, Empty, Empty, Empty]

  const EmptyBoard: Board := [Empty, Empty, Empty, Empty, Empty, Empty, Empty, Empty, Empty]

  /** The side that moves after `m`. */
  function Other(m: Mark): (r: Mark)
    ensures r != m
  {
    if m == O then X else O
  }

  /** Number of occurrences of `c` in `s`. */
  function Count(s: seq<Cell>, c: Cell): (n: nat)
    ensures n <= |s|
  {
    if |s| == 0 then 0
    else (if s[0] == c then 1 else 0) + Count(s[1..], c)
  }

  lemma {:induction false} CountUpdate(s: seq<Cell>, i: nat, c: Cell, x: Cell)
    requires i < |s|
    ensures Count(s[i := c], x)
            == Count(s, x) - (if s[i] == x then 1 else 0) + (if c == x then 1 else 0)
  {
    if i == 0 {
      assert s[i := c][1..] == s[1..];
    } else {
      CountUpdate(s[1..], i - 1, c, x);
      assert s[i := c][1..] == s[1..][i - 1 := c];
    }
  }

  /** A count is zero exactly when the value does not occur. */
  lemma {:induction false} CountZero(s: seq<Cell>, c: Cell)
    ensures Count(s, c) == 0 <==> forall i :: 0 <= i < |s| ==> s[i] != c
  {
    if |s| > 0 {
      CountZero(s[1..], c);
      assert forall i :: 1 <= i < |s| ==> s[i] == s[1..][i - 1];
    }
  }

  function EmptyCount(b: Board): nat {
    Count(b, Empty)
  }

  function MarkCount(b: Board, m: Mark): nat {
    Count(b, Filled(m))
  }

  /** Every cell holds a mark. */
  predicate Full(b: Board) {
    forall i: Index :: b[i] != Empty
  }

  /** Mark `m` written into the empty cell `i`: one empty cell fewer, one
      more `m`, the other mark's count unchanged. */
  function Place(b: Board, i: Index, m: Mark): (r: Board)
    requires b[i] == Empty
    ensures r[i] == Filled(m)
    ensures forall j: Index :: j != i ==> r[j] == b[j]
    ensures EmptyCount(r) == EmptyCount(b) - 1
    ensures MarkCount(r, m) == MarkCount(b, m) + 1
    ensures MarkCount(r, Other(m)) == MarkCount(b, Other(m))
  {
    CountUpdate(b, i, Filled(m), Empty);
    CountUpdate(b, i, Filled(m), Filled(m));
    CountUpdate(b, i, Filled(m), Filled(Other(m)));
    b[i := Filled(m)]
  }

  /** Ascending indices of the empty cells at position `k` or later. */
  function AvailFrom(b: Board, k: nat): (r: seq<Index>)
    requires k <= 9
    ensures forall j :: 0 <= j < |r| ==> k <= r[j] && b[r[j]] == Empty
    ensures forall i: Index :: k <= i && b[i] == Empty ==> i in r
    ensures forall j, j' :: 0 <= j < j' < |r| ==> r[j] < r[j']
    decreases 9 - k
  {
    if k == 9 then []
    else if b[k] == Empty then [k as Index] + AvailFrom(b, k + 1)
    else AvailFrom(b, k + 1)
  }

  /** The available moves: the empty cells, each once, in ascending
      order. */
  function Avail(b: Board): (r: seq<Index>)
    ensures forall j :: 0 <= j < |r| ==> b[r[j]] == Empty
    ensures forall i: Index :: b[i] == Empty ==> i in r
    ensures forall j, j' :: 0 <= j < j' < |r| ==> r[j] < r[j']
    ensures |r| == 0 <==> Full(b)
  {
    var r := AvailFrom(b, 0);
    assert !Full(b) ==> |r| > 0 by {
      if !Full(b) {
        var i: Index :| b[i] == Empty;
        assert i in r;
      }
    }
    r
  }

  /** One board button: its custom id and whether it is disabled. */
  datatype Button = Button(id: string, disabled: bool)

  /** The custom id of cell `i`: the prefix, an underscore, and the cell's
      index in decimal. */
  function ButtonId(prefix: string, i: Index): string {
    prefix + "_" + Decimal(i)
  }

  /** The id and disabled flag of the nine buttons `makeBoard` renders, in
      row-major order (row `i / 3`, column `i % 3`); labels and styles are
      presentation only. */
  function MakeBoard(b: Board, prefix: string, disabled: bool): (r: seq<Button>)
    ensures |r| == 9
    ensures disabled ==> forall i :: 0 <= i < 9 ==> r[i].disabled
  {
    seq(9, i requires 0 <= i < 9 => Button(ButtonId(prefix, i), disabled || b[i] != Empty))
  }

  /** Every cell's button id starts with the game prefix and its last
      `_`-separated piece reads back as the cell's index. */
  lemma ButtonIdRoundTrip(prefix: string, i: Index)
    ensures StartsWith(ButtonId(prefix, i), prefix + "_")
    ensures ParseNumber(LastSegment(ButtonId(prefix, i), '_')) == Some(i as nat)
  {
    var id := ButtonId(prefix, i);
    assert id[..|prefix + "_"|] == prefix + "_";
    assert id[..|id| - 1] == prefix + "_";
    assert LastSegment(prefix + "_", '_') == [];
    assert LastSegment(id, '_') == Decimal(i);
    ParseDecimal(i);
  }
}
