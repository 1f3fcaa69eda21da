# Tic-tac-toe engine of the Discord bot, in Dafny

This project models the tic-tac-toe engine of `discord_bot.js` and proves properties of it. It
also models the two pure helpers of the timer command, `parseDuration` and `formatTime`.

**The engine.** It keeps four global variables:
- `gameBoard`, a 3×3 grid of `' '`, `'X'` and `'O'`;
- `currentPlayer`;
- `isSinglePlayer`;
- `botDifficulty`.

A button press writes the current mark into a cell. In single-player mode the bot then replies
with an `'O'`. `checkWin` then announces a win or a draw and resets the game.

The bot has three levels:
- easy plays a random empty cell;
- medium tosses a coin between a random cell and `makeStrategicMove` (win, else block, else random);
- hard runs an exhaustive `minimax` that tries marks on the board and undoes them in place.

**Modules.**
- `Board` (board.dfy) holds the read-only predicates over a board as pure functions:
  `checkPotentialWin`, `isDraw`, the line scan of `checkWin`, and the row-major `emptyCells`
  list. A board is the 3×3 grid flattened row by row: cell (row, col) is index `3 * row + col`.
- `Search` (search.dfy) specifies what the bot plays, as functions of the board:
  - `Score` is the minimax value;
  - `BestMove` is the cell `makeBestMove` picks;
  - `StrategicChoice` is the cell `makeStrategicMove` picks;
  - `BotChoice` and `BotReply` are the dispatch of `makeBotMove`.
- `Game` (game.dfy) is the imperative part. The class `Game.Game` holds the four globals, with
  the board in an `array<char>` of nine cells. Its methods mirror the source: nested loops,
  marks tried and undone in place, a fresh array on reset. Each method is proved to compute the
  matching `Search` function. The handler of a button press (`Collect`) is proved equal to the
  pure step `Press`, and the lemmas about `Press` state the turn discipline.
- `Timer` (timer.dfy) holds `parseDuration` and `formatTime`.
- `Wrappers` (wrappers.dfy) holds `Option`, which stands for JavaScript's `null`.

**Randomness.** Each call to `Math.random()` is a real parameter `roll` with `0 <= roll < 1`:
- `coinRoll` is the draw that medium compares with 0.5;
- `pickRoll` is the draw that picks `emptyCells[Math.floor(roll * emptyCells.length)]`.

**Behaviours of the code the model keeps:**
- The bot replies before `checkWin` runs, so it replies even after X has completed a line. The
  announcement names the first complete line in scan order, which can be O's. The lemma
  `Game.BotRepliesAfterHumanWin` exhibits this: X completes the bottom row, the hard bot then
  completes the top row, and O is announced as the winner.
- When X fills the last empty cell against a bot of a recognised difficulty, `makeBotMove`
  reads a field of `undefined` and throws. Nothing after it runs: `currentPlayer` stays `'O'`
  and the draw is never announced. The model has the outcome `BotFault` for this
  (`Game.BotFaultsOnLastCell`). `makeBotMove` and its helpers require an empty cell.
- An unrecognised difficulty makes no bot move at all. This includes null, which
  `options.getString('difficulty')` returns when the option is omitted: JavaScript applies the
  default `'easy'` of `newGame` only to `undefined`. The turn still goes back to X.
- A finished game is reset on the spot, with the mode and difficulty kept, and play goes on in
  the same message, so a game never stays finished. The engine is one global game.
- Tie-break of `makeBestMove`: it takes the first cell, in row-major order, whose score is
  maximal, because it replaces its choice only on a strictly greater score.
- A block writes the bot's mark `'O'` into the cell where X would win.

## Model

| member | source | states |
|---|---|---|
| `Board.CheckPotentialWinIff` | discord_bot.js:678-686 | `checkPotentialWin(p)` (row i and column i for each i, then both diagonals) is true exactly when one of the 8 lines holds p in all three cells |
| `Board.IsDrawIff` | discord_bot.js:688-695 | `isDraw()` is true exactly when no cell is `' '` |
| `Board.WinnerIsLine` | discord_bot.js:528-549 | the mark `checkWin` announces (first line in scan order with three equal non-empty cells) is not a space and has a line; when it announces none, no mark has a line |
| `Board.EmptyCellsSpec` | discord_bot.js:567-574 | the `emptyCells` list holds every empty cell exactly once, in increasing row-major order, and is empty exactly when the board is full |
| `Board.MarkShrinksEmpty` | discord_bot.js:652-655 | writing a mark into an empty cell removes exactly one cell from `emptyCells`; this is the measure on which `minimax` terminates |
| `Search.ScoreRange` | discord_bot.js:643-676 | every value `minimax` returns is -1, 0 or 1: the `±Infinity` starting values never escape |
| `Search.ScoreIsBestReply` | discord_bot.js:649-675 | on a board with no line and an empty cell, the value is at least (O to move) or at most (X to move) the value of every move, and some move attains it |
| `Search.BestMove` | discord_bot.js:624-641 | the cell `makeBestMove` picks is empty, its `minimax(…, false)` score is maximal, and every earlier empty cell scores strictly less (strict `>` tie-break) |
| `Search.BestMoveAchievesScore` | discord_bot.js:624-641 | on a board that is not terminal, the chosen cell's score is the board's minimax value for O |
| `Search.RandomIndex` | discord_bot.js:577 | `Math.floor(roll * n)` for `0 <= roll < 1` and `n > 0` is an index below n |
| `Search.RandomCell` | discord_bot.js:577-578 | `emptyCells[Math.floor(Math.random() * emptyCells.length)]` is an empty cell |
| `Search.FirstCompletingEmptyCells` | discord_bot.js:601-618 | a try-and-undo loop over `emptyCells` stops at the least empty cell where the tried mark completes a line, and finds nothing exactly when no empty cell completes one |
| `Search.StrategicChoiceSpec` | discord_bot.js:591-622 | `makeStrategicMove` marks an empty cell: the first where O wins if there is one, else the first where X would win (a block), else the drawn random cell |
| `Search.BotReplySpec` | discord_bot.js:566-589 | with "easy", "medium" or "hard" the bot turns exactly one empty cell into `'O'` and changes nothing else; with any other difficulty, null included, the board is unchanged |
| `Game.PressTurnDiscipline` | discord_bot.js:477-499 | occupied cell: nothing changes; the state stays valid and mode and difficulty never change; a win or draw resets to an empty board with X to move; two-player: an ongoing press writes the mark and toggles the turn; single-player: the turn is X after every press the bot does not fail on; the bot fails exactly when the difficulty is recognised and X filled the last cell |
| `Game.PressAddsOneMarkEach` | discord_bot.js:483-490 | single-player with a recognised difficulty: an ongoing press writes X into the pressed cell and O into exactly one other empty cell, one mark more of each |
| `Game.BotRepliesAfterHumanWin` | discord_bot.js:486-497 | the bot replies before `checkWin`: after X completes the bottom row, the hard bot completes the top row and O is announced the winner |
| `Game.BotFaultsOnLastCell` | discord_bot.js:486-488 | when X fills the last cell of a drawn game against the easy bot, the press ends in the bot's fault with O to move and the full board unannounced |
| `Game.Game.constructor` | discord_bot.js:399-408 | the initial globals: empty board, X to move, two-player, difficulty "easy" |
| `Game.Game.NewGame` | discord_bot.js:410-418 | a fresh empty board, X to move, and the given mode and difficulty |
| `Game.Game.ResetGame` | discord_bot.js:557-564 | a fresh empty board and X to move; mode and difficulty unchanged |
| `Game.Game.FindEmptyCells` | discord_bot.js:567-574 | the nested loops return exactly the row-major `emptyCells` list of the board |
| `Game.Game.Minimax` | discord_bot.js:643-676 | returns `Score` of the board and leaves the board exactly as it found it; recursion decreases the number of empty cells |
| `Game.Game.MakeBestMove` | discord_bot.js:624-641 | with an empty cell, the board afterwards is the old board with `'O'` at `BestMove` of the old board, every trial undone |
| `Game.Game.MakeStrategicMove` | discord_bot.js:591-622 | with an empty cell, the board afterwards is the old board with `'O'` at `StrategicChoice` of the old board, every trial undone |
| `Game.Game.MakeBotMove` | discord_bot.js:566-589 | the board afterwards is `BotReply` of the old board for the difficulty and the two draws |
| `Game.Game.CheckWin` | discord_bot.js:528-555 | announces the first complete line in scan order and resets, else announces a draw on a full board and resets, else changes nothing |
| `Game.Game.Collect` | discord_bot.js:477-499 | the globals and the outcome after a press are exactly `Press` of the globals before it; the state stays valid |
| `Timer.MatchSound` | discord_bot.js:171-174 | when `^(\d+h)?(\d+m)?(\d+s)?$` matches, its groups are digit strings that write out the whole input in order |
| `Timer.MatchComposed` | discord_bot.js:171-174 | every string made of an optional hours, minutes and seconds group, in that order, matches and gives back those groups |
| `Timer.ParseDurationSpec` | discord_bot.js:170-182 | `parseDuration` returns a number exactly for such strings, and that number is 3600·h + 60·m + s; the empty string gives 0 |
| `Timer.Decimal` | discord_bot.js:188 | the numeral a template literal prints for a whole number below 10^21 is a non-empty digit string whose value is the number |
| `Timer.Hms` | discord_bot.js:184-189 | `formatTime`'s h, m, s satisfy 3600·h + 60·m + s = seconds with m, s < 60 |
| `Timer.FormatTimeIsNotParsed` | discord_bot.js:170-189 | `parseDuration(formatTime(n))` is null for every n: the spaces `formatTime` writes are outside the pattern, so the two do not round-trip |

## Left out

- Discord plumbing: the client, command registration, `interactionCreate` dispatch, embeds, buttons, `getBoardString`, `getRowComponents` and `login`. They are I/O and UI. `Outcome` stands for the message each press ends with.
- The dispatch of `/tictactoe` (discord_bot.js:749-756) is not modelled. `NewGame` takes the arguments it would pass: `(false, "easy")` for `new`, and `(true, difficulty)` for `bot`.
- The 60-second collector timeout is a platform timer.
- Interleaving: the handler awaits `button.deferUpdate()` and `gameMessage.edit(...)`. A second press can run between those awaits in the source. The model runs each press to completion.
- The collector does not check who presses: anyone may press for either mark. Presses are modelled without a presser.
- `Math.random()` is an input, not a distribution; the 50% coin is not a verifiable property. `Math.floor(roll * n)` uses the exact real product, not the floating-point one.
- `minimax`'s `depth` argument is never read and is not modelled. Its two loops (maximising with `'O'` and `Math.max`, minimising with `'X'` and `Math.min`) are one loop here, with the mark and the combining function chosen by `maximizing`.
- Timer.DigitsValue: it is exact, whereas `parseInt` loses precision above 2^53.
- Timer.Decimal: it prints every natural number in plain digits. The source interpolates JavaScript doubles, which are inexact above 2^53 and print in exponent notation from 10^21 on ("1e+21"). `formatTime` can receive such values, because `parseDuration` accepts any run of digits.
- Timer.Hms: it takes non-negative whole seconds only. Every caller passes such a value.
- The timer lifecycle (`setInterval`, `updateTimer`, the start/pause/stop/restart buttons), equation solving, plotting, Wikipedia, lyrics, article summaries and notes are not part of this model.
- Whether hard difficulty can lose is not proved. That is a statement about every play sequence of the whole game tree, not about one engine operation, and enumerating that tree is out of the verifier's reach.
- The code keeps one global game: there is no per-conversation game, no expiry and no error for a finished game or an out-of-range cell. Button ids are always "row col" with row and col in 0..2.
