# Tic-tac-toe engine and poll tally of a Discord bot, in Dafny

This project models the two pieces of logic in the bot's commands that are
not Discord plumbing.

- **Tic-tac-toe** (`Commands/TicTacToe.js`). A human plays X against a bot playing O.
  - `checkWinner` classifies a board by scanning eight fixed lines.
  - `minimax` is an exhaustive search in which O maximises and X minimises. It scores a decided board `10 - depth`, `depth - 10` or `0`.
  - `chooseBotMove` plays the search's move with probability `difficulty / 10` and a random empty cell otherwise.
  - The button collector's `collect` callback checks the clicker, the button id, the cell index and the cell. It then places X, and places O only if X's move did not end the game.
  - `execute` refuses a difficulty outside 1..10.
- **Poll** (`Commands/Poll.js`).
  - `buildBar` renders option 1's rounded share of 16 squares.
  - The vote rule refuses a user who already voted and otherwise appends the user to the clicked option's list.

Modules, one per component:

| module | file | models |
|---|---|---|
| `Text` | text.dfy | `startsWith`, `endsWith`, `split('_').pop()`, `Number()` on button-id suffixes |
| `Grid` | grid.dfy | cells, the 9-cell board, cell counts, the list of empty cells, `makeBoard`'s ids and disabled flags |
| `Winner` | winner.dfy | `checkWinner` |
| `Search` | search.dfy | `minimax`, both as a pure function and as the source's mutate-and-undo loop |
| `Bot` | bot.dfy | `chooseBotMove`, with the `Math.random()` draws as an `Oracle` argument |
| `Session` | session.dfy | the difficulty check of `execute`, the `collect` callback as written (`Handle`) and with a game-over guard (`Step`), the collector timeout |
| `Poll` | poll.dfy | `buildBar`, the vote rule, and one whole click on the poll message |

The in-place search is the method `Search.MinimaxInPlace`, with its loop in `Search.ScoreMoves` and one iteration in `Search.TryMove`. It fills each empty cell, searches, and empties the cell again, and then keeps the first strictly better score. It is proved to compute the same result as the functional `Search.Minimax` and to hand back its board unchanged.

Other modelling choices:
- `Math.random()` becomes two inputs in [0, 1). One decides between the best move and a random move; the other picks the random cell.
- `Math.round` on `count1 / total * 16` is computed on exact rationals. It is proved equal to the integer formula `(32 * count1 + total) / (2 * total)`.
- The handler has no "game over" check of its own. It relies on `collector.stop()`, which runs only after the awaited final board update. A click delivered in that window is handled on the decided board (see "## Findings"). `Session.Handle` is the handler as written. `Session.Step` adds the evidently intended guard: a click on a game that is not being played is answered `Closed` and changes nothing. The rest of the model uses `Step`.

## Model

| member | source | states |
|---|---|---|
| `Text.LastSegment` | Commands/TicTacToe.js:159 | the last piece of `split('_')` is a suffix without `_`, and is either the whole id or preceded by `_` |
| `Text.ParseNumber` | Commands/TicTacToe.js:159 | `Number()` of the suffix is NaN exactly when a non-digit occurs; the empty suffix reads as 0 |
| `Text.Decimal` | Commands/TicTacToe.js:22 | the index written into a button id is a non-empty string of decimal digits, a single digit below ten |
| `Text.ParseDecimal` | Commands/TicTacToe.js:22 | `Number()` of the decimal numeral of any natural number gives that number back |
| `Grid.Place` | Commands/TicTacToe.js:174 | writing a mark on an empty cell sets only that cell, removes one empty cell, adds one of that mark and leaves the other mark's count alone |
| `Grid.Avail` | Commands/TicTacToe.js:65-67 | the available moves are exactly the empty cells, each once, in ascending order, and none exist only on a full board |
| `Grid.AvailFrom` | Commands/TicTacToe.js:96-98 | the empty cells from a position on, ascending and complete |
| `Grid.CountZero` | Commands/TicTacToe.js:49 | a cell value has count zero exactly when no cell holds it (the `every` test) |
| `Grid.MakeBoard` | Commands/TicTacToe.js:9-31 | nine buttons, one per cell in row-major order; the final render after a game ends (`disabled` set) disables every button; what the ids and the per-cell flags of the playing render mean is stated by `Session.ClickRenderedButton`: a click on one is accepted iff it is enabled, and then marks its own cell |
| `Grid.ButtonIdRoundTrip` | Commands/TicTacToe.js:22 | every button id `makeBoard` writes passes the handler's prefix test, and its last `_` piece parses back to the cell index |
| `Winner.WinnerFrom` | Commands/TicTacToe.js:44-48 | the scan returns the mark of the first completed line from a position on, or reports that no later line is complete |
| `Winner.CheckWinner` | Commands/TicTacToe.js:33-51 | it reports a win iff some listed line is complete, and the winner is the owner of the first such line; it reports a draw iff no line is complete and the board is full; it reports in progress iff no line is complete and a cell is empty |
| `Winner.CompletedIsLineOf` | Commands/TicTacToe.js:45 | a line passes the truthiness-and-equality test exactly when all three cells hold X or all three hold O |
| `Winner.PlaceKeepsOtherLines` | Commands/TicTacToe.js:174 | placing a mark never completes a line of the other mark |
| `Winner.DiagonalExample` | Commands/TicTacToe.js:41 | the board X,O,X / O,X,O / _,_,X is won by X through the 0-4-8 diagonal |
| `Search.FoldBest` | Commands/TicTacToe.js:82-91 | the best-so-far loop ends on the first extremum of the scores: the maximum for O, the minimum for X, at its earliest position |
| `Search.FirstBestUnique` | Commands/TicTacToe.js:82-91 | a list of scores has exactly one first extremum |
| `Search.ChildScores` | Commands/TicTacToe.js:71-80 | one score per available move, each within the score window one ply deeper |
| `Search.Minimax` | Commands/TicTacToe.js:53-93 | an O win scores `10 - depth`, an X win `depth - 10`, a draw 0; a move is returned exactly on undecided boards, onto an empty cell; every score is 0 or a win score reachable within the remaining empty cells |
| `Search.ChildScoresAt` | Commands/TicTacToe.js:71-78 | the k-th gathered score is the search value of playing the k-th available cell |
| `Search.MinimaxPicksFirstBest` | Commands/TicTacToe.js:65-92 | on an undecided board the chosen cell is empty, carries its child's score, no empty cell is better for the side to move, and every empty cell with a lower index is strictly worse |
| `Search.ScoreBounds` | Commands/TicTacToe.js:53-63 | a search started at depth 0 scores within [-10, 10] |
| `Search.PickBest` | Commands/TicTacToe.js:82-91 | the two selection loops (`>` for O, `<` for X) return the first extremum |
| `Search.SelectionAgrees` | Commands/TicTacToe.js:65-92 | scores gathered cell by cell and their first extremum yield exactly the functional search's move |
| `Search.MinimaxInPlace` | Commands/TicTacToe.js:53-93 | the mutate-search-undo loop computes the same result as the functional search and leaves the board as it found it |
| `Search.ScoreMoves` | Commands/TicTacToe.js:71-80 | the loop over the available cells records, per cell, the search value of playing it, and ends with the board it started from |
| `Search.TryMove` | Commands/TicTacToe.js:72-79 | one place-search-undo iteration yields the child's search value and restores the board |
| `Search.UndoPlace` | Commands/TicTacToe.js:79 | writing `null` back into the cell just filled gives the original board |
| `Bot.ProbBest` | Commands/TicTacToe.js:102 | the probability is clamped to [0, 1]: `difficulty / 10` inside 0..10, 1 above, 0 below |
| `Bot.RandomPosition` | Commands/TicTacToe.js:106 | the position is the roll times the list length rounded down, so it is a valid position in the list of available cells |
| `Bot.RandomPositionHits` | Commands/TicTacToe.js:106 | every position below the length is drawn by some roll in [0, 1), namely position / length |
| `Bot.RandomCell` | Commands/TicTacToe.js:106 | the cell the index roll selects is one of the empty cells |
| `Bot.RandomCellReaches` | Commands/TicTacToe.js:106 | every empty cell is the random move for some valid roll |
| `Bot.ChooseBotMove` | Commands/TicTacToe.js:95-114 | it returns -1 exactly on a full board and otherwise an empty cell, whichever draw is taken; when the pick roll is below the probability on an undecided board, it returns the search's move for O; when the pick roll is not below it, or the board is already decided, it returns the cell the index roll selects |
| `Bot.MaxDifficultyIsOptimal` | Commands/TicTacToe.js:102-111 | at difficulty 10 the bot always plays the search's move on an undecided board |
| `Bot.DifficultyThreshold` | Commands/TicTacToe.js:102-106 | for a difficulty in 1..10, a pick roll whose tenfold is below the difficulty plays the search's move on an undecided board, and any other pick roll plays the index roll's cell |
| `Session.Start` | Commands/TicTacToe.js:116-128 | a difficulty outside 1..10 is refused; otherwise the game starts on an empty board, bound to the invoking user, with prefix `ttt_<id>`, and with the requested difficulty, or 5 when none is given |
| `Session.CellOf` | Commands/TicTacToe.js:159-160 | a custom id names a cell exactly when `Number()` of its last `_` piece is not NaN and at most 8, and the cell is that number |
| `Session.CellOfButtonId` | Commands/TicTacToe.js:22 | the id of every rendered button names that button's own cell |
| `Session.Handle` | Commands/TicTacToe.js:143-202 | the handler as written: a rejected click changes nothing; only the game's user can move; a finished game records the board's outcome; a continuing game is undecided and shows the bot's O |
| `Session.Step` | Commands/TicTacToe.js:143-202 | the handler with the game-over guard: a click on a game that is not being played is refused as closed; otherwise as `Session.Handle` | a rejected click changes nothing; only the game's user can move on a game being played; a finished game records the board's outcome; a continuing game is undecided and shows the bot's O |
| `Session.PlayMove` | Commands/TicTacToe.js:174-197 | after X's move the reply is a board update; a decided board ends the game with its outcome and no O; on an undecided one the O goes on the cell `chooseBotMove` picks at the game's difficulty, and the game goes on unless that decides it |
| `Session.StepValidation` | Commands/TicTacToe.js:145-172 | the four rejections (wrong user, foreign button, bad index, taken cell) come in the source's order, each exactly for its reason, and the click is accepted iff all four checks pass |
| `Session.StepPlacesMoves` | Commands/TicTacToe.js:174-197 | an accepted click puts X on its cell; if that decides the game no O is placed, otherwise one O goes on the cell the bot chooses at the game's difficulty |
| `Session.GameBotMove` | Commands/TicTacToe.js:186-187 | in a game of difficulty 1..10, a pick roll below a tenth of the difficulty puts the O on the search's cell and any other roll on the index roll's cell; at difficulty 10 the O always goes on the search's cell |
| `Session.StartIsValid` | Commands/TicTacToe.js:125 | a new game has equal mark counts, no line and an undecided board |
| `Session.StepPreservesValid` | Commands/TicTacToe.js:174-197 | across clicks, X has as many marks as O or one more, the two marks never both own a line, and a game being played has equal counts and is undecided |
| `Session.Expire` | Commands/TicTacToe.js:216-225 | the timeout changes a game still being played only in its status, which becomes timed out, and leaves any other game untouched |
| `Session.ExpireIdempotent` | Commands/TicTacToe.js:138-141 | a second timeout changes nothing and a timed-out game takes no more moves |
| `Session.ExpirePreservesValid` | Commands/TicTacToe.js:216-225 | timing out keeps the game state valid |
| `Session.ClickRenderedButton` | Commands/TicTacToe.js:152-187 | a click by the player on a rendered button is accepted iff the button is enabled, and then marks that cell X; a disabled button's click is refused as taken |
| `Session.LateClickAsWritten` | Commands/TicTacToe.js:174-183 | as written, a click on cell 6 of a board O has just won through 1-4-7 is handled: X completes 0-3-6, X is reported as the winner, and the board holds a line of each mark |
| `Session.LateClickClosed` | Commands/TicTacToe.js:174-183 | with the guard, the same click is refused as closed and the game is unchanged |
| `Poll.GreenCountIsShare` | Commands/Poll.js:36-37 | `Math.round(count1 / total * 16)` equals `(32 count1 + total) / (2 total)` and never exceeds 16; no votes give 8 |
| `Poll.BuildBar` | Commands/Poll.js:34-41 | the bar always has 16 squares, and square i is green exactly when i is below option 1's rounded share |
| `Poll.GreenPrefixCount` | Commands/Poll.js:40 | a bar that is green exactly on its first g squares has g green squares |
| `Poll.BarExtremes` | Commands/Poll.js:35-39 | with no votes the bar is 8 green, 8 red; with only option 1 votes it is all green; with only option 2 votes all red |
| `Poll.RecordVote` | Commands/Poll.js:116-129 | a user already in either list is refused; otherwise the user is appended to exactly the clicked option's list (option 1 iff the id ends with `_1`) and the other list is untouched |
| `Poll.RecordVoteKeepsWellFormed` | Commands/Poll.js:114-132 | an accepted vote keeps the lists duplicate-free and disjoint, raises exactly one count by one, and a later vote by the same user is refused |
| `Poll.ClickAsWritten` | Commands/Poll.js:91-153 | a click on a message without an embed is refused; an accepted click leaves an embed without the `votes_json` field |
| `Poll.DoubleVoteAsWritten` | Commands/Poll.js:135-151 | as written, the same user's second click on a fresh poll is accepted again |
| `Poll.Click` | Commands/Poll.js:102-153 | with the vote lists written back, an accepted click stores lists that contain the user and hold one vote more |
| `Poll.ClickRejectsRepeat` | Commands/Poll.js:116-124 | with the vote lists written back, a user not yet listed is accepted, the stored lists stay well formed, and a second click by the same user is refused and changes nothing |

## Findings

| source | as written | input that shows it | evidently intended | confidence | as-written member | corrected member |
|---|---|---|---|---|---|---|
| Commands/TicTacToe.js:176-183 | the handler checks nothing about the game being over and calls `collector.stop()` only after `await btnInt.update(...)`; a click delivered in that window is handled on the decided board | O has just completed 1-4-7 with X on 0, 3 and 5; the player clicks cell 6 before the final update arrives | the click is ignored once the game is over | medium, not executed | `Session.Handle`, `Session.LateClickAsWritten` | `Session.Step`, `Session.LateClickClosed`, `Session.StepPreservesValid` |
| Commands/Poll.js:135-151 | `setFields` rebuilds the embed with only the two vote fields and the results field, so `votes_json` is dropped; the next click finds no stored votes and starts from two empty lists | a fresh poll; user `u` clicks the `_1` button twice | the second click is refused with "You already voted in this poll." | high, not executed | `Poll.ClickAsWritten`, `Poll.DoubleVoteAsWritten` | `Poll.Click`, `Poll.ClickRejectsRepeat` |

## Left out

- Discord I/O and rendering are not modelled: `reply`, `update`, `edit`, `fetchReply`, button labels and styles, embed text, and the "You voted for" message. For `makeBoard`, only the button ids and the disabled flags are modelled.
- Collectors and timers are abstracted. The 120 s game timeout is `Session.Expire`, and the 24 h poll collector is not modelled. When the timer fires is not modelled. Interleaving of clicks with the awaited updates is modelled only through the late click of "## Findings": a click either reaches a game still being played or one already decided.
- The `catch` paths are not modelled. They handle failures of the Discord calls, which are not modelled.
- Randomness: `Math.random()` values are inputs.
- Bot.ProbBest: is the exact tenth of the difficulty, whereas the source compares `Math.random()` with the double nearest to `difficulty / 10`. For difficulties 3, 6 and 7 that double lies just below the tenth; for 1, 2, 4, 8 and 9 just above it; 5 and 10 are exact. A roll in the gap between the two values (for difficulty 3, a roll of 0.29999999999999998889…) takes the other branch in the source than in the model. The gap is about 10^-17 wide.
- Bot.ChooseBotMove: states which cell is played for given random draws: the search's move, or the available cell at the index roll's scaled and rounded-down position, any of which some roll selects. It does not state that the random choice is uniform, or that the best move is taken with probability `difficulty / 10`, because probabilities are not modelled.
- JSON persistence: `JSON.parse` and `JSON.stringify` of `votes_json` are foreign calls. The field is modelled as an optional vote-list value that is absent when missing or unparsable. Parsing back what was written is taken to give the same lists.
- Text.ParseNumber: models `Number()` only on the empty string and plain decimal digit strings. Whitespace, signs, decimal points, exponents and hex are read as NaN, whereas JavaScript accepts some of them. A negative index is therefore refused as NaN rather than by the `index < 0` test; the reply is the same. Non-integer suffixes such as `4.5`, which JavaScript would let through, cannot come from ids that `makeBoard` writes.
- Poll.GreenCountIsShare: uses exact rational division in place of the double-precision `count1 / total`. The two agree whenever the total is far below 2^48, because every rounding boundary `(2k+1)/32` is exactly representable. This argument is not proved.
- The `typeof difficulty !== 'number'` test: the option is an `Option<int>`, and an absent value defaults to 5.
- Two concrete game outcomes are not proved: that difficulty 10 never loses, and that the bot answers a corner opening with the centre. Both need the whole game tree to be evaluated, which is far beyond what the verifier can unfold.
- `index.js`, `Commands/UserInfo.js`, `Commands/Ping.js` and `Commands/Purge.js` are not part of this model. They are registration, member lookup, latency and bulk-delete wrappers.
