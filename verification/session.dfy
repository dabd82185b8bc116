/** One tic-tac-toe game as driven by the `execute` command and its button
    collector: the difficulty check that starts a game, the handling of one
    button click as a pure step, and the collector's timeout. */
module Session {
  import opened Text
  import opened Grid
  import opened Winner
  import opened Search
  import opened Bot

  /** `Playing` while the collector delivers clicks; `Finished` once a click
      ended the game and stopped the collector; `TimedOut` once the 120 s
      collector expired. */
  datatype Status = Playing | Finished(outcome: Outcome) | TimedOut

  /** The state the `collect` callback closes over. */
  datatype Game = Game(board: Board, user: string, prefix: string, difficulty: int, status: Status)

  /** The ephemeral rejections of the handler, `Closed` for a click a stopped
      collector no longer delivers, and the two kinds of board update. */
  datatype Reply =
    | Closed
    | NotYourGame
    | InvalidButton
    | InvalidCell
    | CellTaken
    | YourMove(bot: int)
    | GameOver(outcome: Outcome)

  datatype StepResult = StepResult(game: Game, reply: Reply)

  predicate Accepted(r: Reply) {
    r.YourMove? || r.GameOver?
  }

  const DefaultDifficulty: int := 5

  datatype StartResult = InvalidDifficulty | Started(game: Game)

  /** The `difficulty` option, or 5 when it is absent. */
  function DifficultyOf(difficulty: Option<int>): int {
    match difficulty
    case Some(d) => d
    case None => DefaultDifficulty
  }

  /** `execute`: a difficulty outside 1..10 is refused; otherwise an empty
      board is bound to the invoking user under the prefix `ttt_<id>`. */
  function Start(interactionId: string, user: string, difficulty: Option<int>): (r: StartResult)
    ensures r.InvalidDifficulty? <==> difficulty.Some? && (difficulty.value < 1 || difficulty.value > 10)
    ensures r.Started? ==> && r.game.board == EmptyBoard
                           && r.game.status == Playing
                           && r.game.user == user
                           && r.game.prefix == "ttt_" + interactionId
                           && 1 <= r.game.difficulty <= 10
    ensures r.Started? && difficulty.None? ==> r.game.difficulty == DefaultDifficulty
    ensures r.Started? && difficulty.Some? ==> r.game.difficulty == difficulty.value
  {
    var d := DifficultyOf(difficulty);
    if d < 1 || d > 10 then InvalidDifficulty
    else Started(Game(EmptyBoard, user, "ttt_" + interactionId, d, Playing))
  }

  /** The cell a custom id names: its last `_`-separated piece read as a
      number, when that number is an index from 0 to 8. */
  function CellOf(customId: string): (r: Option<Index>)
    ensures r.Some? ==> ParseNumber(LastSegment(customId, '_')) == Some(r.value as nat)
    ensures r.None? <==> ParseNumber(LastSegment(customId, '_')).None?
                         || ParseNumber(LastSegment(customId, '_')).value > 8
  {
    match ParseNumber(LastSegment(customId, '_'))
    case Some(n) => if n <= 8 then Some(n as Index) else None
    case None => None
  }

  /** The id of every rendered button names that button's own cell. */
  lemma CellOfButtonId(prefix: string, i: Index)
    ensures CellOf(ButtonId(prefix, i)) == Some(i)
  {
    ButtonIdRoundTrip(prefix, i);
  }

  /** The `collect` callback as written, on one click by `requester` on
      the button `customId`: the checks in the source's order, then X's
      move, and the bot's move only if X's move did not end the game. It has
      no check that the game is still being played. */
  function Handle(g: Game, requester: string, customId: string, o: Oracle): (r: StepResult)
    requires ValidOracle(o)
    ensures !Accepted(r.reply) ==> r.game == g
    ensures Accepted(r.reply) ==> requester == g.user
    ensures r.game.user == g.user && r.game.prefix == g.prefix && r.game.difficulty == g.difficulty
    ensures r.reply.GameOver? ==> && r.game.status == Finished(r.reply.outcome)
                                  && r.reply.outcome == CheckWinner(r.game.board)
                                  && r.reply.outcome != InProgress
    ensures r.reply.YourMove? ==> && r.game.status == Playing
                                  && CheckWinner(r.game.board) == InProgress
                                  && 0 <= r.reply.bot < 9
                                  && r.game.board[r.reply.bot] == Filled(O)
  {
    if requester != g.user then StepResult(g, NotYourGame)
    else if !StartsWith(customId, g.prefix + "_") then StepResult(g, InvalidButton)
    else
      var index := ParseNumber(LastSegment(customId, '_'));
      if index.None? || index.value > 8 then StepResult(g, InvalidCell)
      else if g.board[index.value] != Empty then StepResult(g, CellTaken)
      else PlayMove(g, index.value, o)
  }

  /** One click on the game as the handler evidently intends it: a click
      that reaches a game no longer being played is answered `Closed` and
      changes nothing; any other click is handled as above. */
  function Step(g: Game, requester: string, customId: string, o: Oracle): (r: StepResult)
    requires ValidOracle(o)
    ensures !Accepted(r.reply) ==> r.game == g
    ensures Accepted(r.reply) ==> g.status == Playing && requester == g.user
    ensures g.status != Playing ==> r.reply == Closed
    ensures r.game.user == g.user && r.game.prefix == g.prefix && r.game.difficulty == g.difficulty
    ensures r.reply.GameOver? ==> && r.game.status == Finished(r.reply.outcome)
                                  && r.reply.outcome == CheckWinner(r.game.board)
                                  && r.reply.outcome != InProgress
    ensures r.reply.YourMove? ==> && r.game.status == Playing
                                  && CheckWinner(r.game.board) == InProgress
                                  && 0 <= r.reply.bot < 9
                                  && r.game.board[r.reply.bot] == Filled(O)
  {
    if g.status != Playing then StepResult(g, Closed)
    else Handle(g, requester, customId, o)
  }

  /** The accepted part of the callback: X on the clicked cell, the outcome
      checked, and only if the game goes on, the bot's O and a second check. */
  function PlayMove(g: Game, n: Index, o: Oracle): (r: StepResult)
    requires ValidOracle(o) && g.board[n] == Empty
    ensures Accepted(r.reply)
    ensures r.game.user == g.user && r.game.prefix == g.prefix && r.game.difficulty == g.difficulty
    ensures r.reply.GameOver? ==> && r.game.status == Finished(r.reply.outcome)
                                  && r.reply.outcome == CheckWinner(r.game.board)
                                  && r.reply.outcome != InProgress
    ensures r.reply.YourMove? ==> && r.game.status == Playing
                                  && CheckWinner(r.game.board) == InProgress
                                  && 0 <= r.reply.bot < 9
                                  && r.game.board[r.reply.bot] == Filled(O)
    ensures CheckWinner(Place(g.board, n, X)) != InProgress ==> r.game.board == Place(g.board, n, X)
    ensures CheckWinner(Place(g.board, n, X)) == InProgress ==>
              r.game.board == Place(Place(g.board, n, X),
                                    ChooseBotMove(Place(g.board, n, X), g.difficulty, o), O)
  {
    var afterX := Place(g.board, n, X);
    var result := CheckWinner(afterX);
    if result != InProgress then
      StepResult(g.(board := afterX, status := Finished(result)), GameOver(result))
    else
      var botIndex := ChooseBotMove(afterX, g.difficulty, o);
      var afterO := if botIndex >= 0 then Place(afterX, botIndex, O) else afterX;
      var result' := CheckWinner(afterO);
      if result' != InProgress then
        StepResult(g.(board := afterO, status := Finished(result')), GameOver(result'))
      else
        StepResult(g.(board := afterO, status := Playing), YourMove(botIndex))
  }

  /** The rejections come in the source's order, each for exactly its own
      reason, and none of them touches the game. */
  lemma StepValidation(g: Game, requester: string, customId: string, o: Oracle)
    requires ValidOracle(o) && g.status == Playing
    ensures var r := Step(g, requester, customId, o);
      && (r.reply == NotYourGame <==> requester != g.user)
      && (r.reply == InvalidButton <==>
            requester == g.user && !StartsWith(customId, g.prefix + "_"))
      && (r.reply == InvalidCell <==>
            requester == g.user && StartsWith(customId, g.prefix + "_") && CellOf(customId).None?)
      && (r.reply == CellTaken <==>
            && requester == g.user && StartsWith(customId, g.prefix + "_")
            && CellOf(customId).Some? && g.board[CellOf(customId).value] != Empty)
      && (Accepted(r.reply) <==>
            && requester == g.user && StartsWith(customId, g.prefix + "_")
            && CellOf(customId).Some? && g.board[CellOf(customId).value] == Empty)
  {
  }

  /** An accepted click places X on the chosen cell. If that decides the
      game the bot does not move; otherwise one O goes on the cell the bot
      chooses at the game's difficulty. */
  lemma StepPlacesMoves(g: Game, customId: string, o: Oracle, n: Index)
    requires ValidOracle(o) && g.status == Playing
    requires StartsWith(customId, g.prefix + "_") && CellOf(customId) == Some(n)
    requires g.board[n] == Empty
    ensures var r := Step(g, g.user, customId, o);
      var afterX := Place(g.board, n, X);
      && Accepted(r.reply)
      && r.game.board[n] == Filled(X)
      && (CheckWinner(afterX) != InProgress ==>
            r.game.board == afterX && r.reply == GameOver(CheckWinner(afterX)))
      && (CheckWinner(afterX) == InProgress ==>
            r.game.board == Place(afterX, ChooseBotMove(afterX, g.difficulty, o), O))
  {
  }

  /** In a game, the pick roll against the game's difficulty decides the
      bot's answer to an undecided move: below a tenth of the difficulty the
      O goes on the search's cell, otherwise on the index roll's cell. At
      difficulty 10 that is always the search's cell. */
  lemma GameBotMove(g: Game, n: Index, o: Oracle)
    requires ValidOracle(o) && 1 <= g.difficulty <= 10 && g.board[n] == Empty
    requires CheckWinner(Place(g.board, n, X)) == InProgress
    ensures var r := PlayMove(g, n, o);
      var afterX := Place(g.board, n, X);
      && (o.pickRoll * 10.0 < g.difficulty as real ==>
            r.game.board == Place(afterX, Minimax(afterX, O, 0).index, O))
      && (o.pickRoll * 10.0 >= g.difficulty as real ==>
            r.game.board == Place(afterX, RandomCell(afterX, o), O))
      && (g.difficulty == 10 ==>
            r.game.board == Place(afterX, Minimax(afterX, O, 0).index, O))
  {
  }

  /** The bookkeeping every game state keeps: X moves first, so X has as
      many marks as O or one more; the two marks never both own a line; a
      game still being played is undecided with equal counts; a finished
      game records the board's outcome. */
  predicate Valid(g: Game) {
    var xs := MarkCount(g.board, X);
    var os := MarkCount(g.board, O);
    && (xs == os || xs == os + 1)
    && !(HasLine(g.board, X) && HasLine(g.board, O))
    && (g.status == Playing ==> xs == os && CheckWinner(g.board) == InProgress)
    && (g.status.Finished? ==> g.status.outcome == CheckWinner(g.board) && g.status.outcome != InProgress)
  }

  lemma EmptyBoardFacts()
    ensures MarkCount(EmptyBoard, X) == 0 && MarkCount(EmptyBoard, O) == 0
    ensures CheckWinner(EmptyBoard) == InProgress
  {
    CountZero(EmptyBoard, Filled(X));
    CountZero(EmptyBoard, Filled(O));
    assert EmptyBoard[0] == Empty;
  }

  /** Every started game is valid. */
  lemma StartIsValid(interactionId: string, user: string, difficulty: Option<int>)
    ensures var r := Start(interactionId, user, difficulty);
      r.Started? ==> Valid(r.game)
  {
    EmptyBoardFacts();
    NoLineMeansNoWinner(EmptyBoard);
  }

  /** Every click keeps a valid game valid. */
  lemma StepPreservesValid(g: Game, requester: string, customId: string, o: Oracle)
    requires ValidOracle(o) && Valid(g)
    ensures Valid(Step(g, requester, customId, o).game)
  {
    var r := Step(g, requester, customId, o);
    if Accepted(r.reply) {
      var n := CellOf(customId).value;
      StepValidation(g, requester, customId, o);
      StepPlacesMoves(g, customId, o, n);
      NoLineMeansNoWinner(g.board);
      var afterX := Place(g.board, n, X);
      PlaceKeepsOtherLines(g.board, n, X);
      if CheckWinner(afterX) == InProgress {
        var j := ChooseBotMove(afterX, g.difficulty, o);
        NoLineMeansNoWinner(afterX);
        PlaceKeepsOtherLines(afterX, j, O);
      }
    }
  }

  /** The board just after O completed the middle column: X on 0, 3 and 5,
      O on 1, 4 and 7, cells 2, 6 and 8 empty. */
  const LateBoard: Board := [Filled(X), Filled(O), Empty,
                             Filled(X), Filled(O), Filled(X),
                             Empty, Filled(O), Empty]

  /** The board after X also takes cell 6. */
  const LateBoardAfter: Board := [Filled(X), Filled(O), Empty,
                                  Filled(X), Filled(O), Filled(X),
                                  Filled(X), Filled(O), Empty]

  /** Each mark occupies three cells of `LateBoard`. */
  lemma LateBoardCounts()
    ensures MarkCount(LateBoard, X) == 3 && MarkCount(LateBoard, O) == 3
  {
  }

  /** O has won `LateBoard` through the middle column, the first complete
      line in the list. */
  lemma LateBoardWinner()
    ensures CheckWinner(LateBoard) == Win(O) && HasLine(LateBoard, O)
  {
  }

  /** X owns no line of `LateBoard`. */
  lemma LateBoardNoX()
    ensures !HasLine(LateBoard, X)
  {
  }

  /** X's click on cell 6 completes its column, reported first. */
  lemma LateBoardAfterFacts()
    ensures Place(LateBoard, 6, X) == LateBoardAfter
    ensures CheckWinner(LateBoardAfter) == Win(X)
    ensures HasLine(LateBoardAfter, X) && HasLine(LateBoardAfter, O)
  {
    assert LineOf(LateBoardAfter, Lines[3], X);
    assert LineOf(LateBoardAfter, Lines[4], O);
  }

  /** As written, the collector stops only after the final board update
      has been sent, and the handler has no check of its own. A click on
      cell 6 that arrives in that window is handled on the decided board.
      It completes X's column 0-3-6, which comes before O's 1-4-7 in the
      list, so the game is reported as won by X. The board then holds a
      line of each mark. */
  lemma LateClickAsWritten(user: string, prefix: string, difficulty: int, o: Oracle)
    requires ValidOracle(o)
    ensures var g := Game(LateBoard, user, prefix, difficulty, Finished(Win(O)));
      var r := Handle(g, user, ButtonId(prefix, 6), o);
      && Valid(g)
      && r.reply == GameOver(Win(X))
      && HasLine(r.game.board, X) && HasLine(r.game.board, O)
      && !Valid(r.game)
  {
    var g := Game(LateBoard, user, prefix, difficulty, Finished(Win(O)));
    var id := ButtonId(prefix, 6);
    LateBoardCounts();
    LateBoardWinner();
    LateBoardNoX();
    LateBoardAfterFacts();
    ButtonIdRoundTrip(prefix, 6);
    assert Handle(g, user, id, o) == PlayMove(g, 6, o);
    assert PlayMove(g, 6, o).game.board == LateBoardAfter;
  }

  /** With the guard, the same click is refused and the game stays as it
      was. */
  lemma LateClickClosed(user: string, prefix: string, difficulty: int, o: Oracle)
    requires ValidOracle(o)
    ensures var g := Game(LateBoard, user, prefix, difficulty, Finished(Win(O)));
      Step(g, user, ButtonId(prefix, 6), o) == StepResult(g, Closed)
  {
  }

  /** The collector's `end` event with reason `time`: a game still being
      played is over, anything else stays as it is. */
  function Expire(g: Game): (r: Game)
    ensures r.board == g.board && r.user == g.user && r.prefix == g.prefix
    ensures g.status == Playing ==> r == g.(status := TimedOut)
    ensures g.status != Playing ==> r == g
  {
    if g.status == Playing then g.(status := TimedOut) else g
  }

  /** Expiring twice is expiring once, and a timed-out game takes no more
      moves. */
  lemma ExpireIdempotent(g: Game, requester: string, customId: string, o: Oracle)
    requires ValidOracle(o)
    ensures Expire(Expire(g)) == Expire(g)
    ensures Step(Expire(g), requester, customId, o).game == Expire(g)
  {
  }

  lemma ExpirePreservesValid(g: Game)
    requires Valid(g)
    ensures Valid(Expire(g))
  {
  }

  /** A click by the player on a button of the rendered board is accepted
      exactly when that button is enabled, and then marks its own cell. */
  lemma ClickRenderedButton(g: Game, i: Index, o: Oracle)
    requires ValidOracle(o) && g.status == Playing
    ensures var button := MakeBoard(g.board, g.prefix, false)[i];
      var r := Step(g, g.user, button.id, o);
      && (Accepted(r.reply) <==> !button.disabled)
      && (!button.disabled ==> r.game.board[i] == Filled(X))
      && (button.disabled ==> r.reply == CellTaken)
  {
    var button := MakeBoard(g.board, g.prefix, false)[i];
    assert button.id == ButtonId(g.prefix, i);
    ButtonIdRoundTrip(g.prefix, i);
    CellOfButtonId(g.prefix, i);
    StepValidation(g, g.user, button.id, o);
    if !button.disabled {
      StepPlacesMoves(g, button.id, o, i);
    }
  }
}
