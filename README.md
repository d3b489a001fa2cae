# Place-value and Wordle grid games, modelled in Dafny

Two classroom games share one engine. In both, the players drag values into the rows of a grid.
The top row is a header of column labels.
A facilitator sets a secret answer. "Check" queues one feedback symbol for each filled cell of the most recent row with values:

- '✓' (`Tick`): the value is right for that column;
- '○' (`Ring`): the value is elsewhere in the answer;
- '✗' (`Cross`): the value is not in the answer.

The symbols are then revealed one at a time.
When the reveal ends, the win is reported if every column got '✓'.
The '✓' values are then copied into a newly appended row.

- **The Wordle grid game** (`WordleGame`, `src/WordleGridGame.jsx`) plays with letters, numbers or both, under ordinal headers ("1st", "2nd", ...).
- **The place-value number game** (`NumberGame`, `src/GridNumberGame.jsx`) plays with the digits 0-9 under place-value headers ("M", "hth", "tth", "th", "h", "t", "o", ...). It refuses to place a number that another column of the same row already holds.

Files:

- `grid_core.dfy` (module `GridCore`) holds what the two components implement identically, generic in the cell value type:
  - the cell, row and queue-entry types;
  - the answer checker;
  - the row searches and the winner check;
  - row growth and carry-forward;
  - cell updates and the duplicate scan.
- `wordle_game.dfy` and `number_game.dfy` each hold one component as a `Game` class.
  - The class fields are the component's state variables.
  - Each event handler is a method, proved against the `GridCore` functions and keeping the invariant `Valid()`.
  - Each file also holds the mode-specific palettes, headers and answer parsing, with their lemmas.

The grid is a `seq<Row<T>>`. Row 0 is a `Header` and every other row is a `Guess` of `numColumns` cells.
Row and column indices are those of the components.
Warning messages, celebrations and the winning row are not state in the model. A handler returns them:

- `CheckOutcome` for the warnings of check;
- `Option<nat>` for the winner;
- a `bool` for accepted settings, an accepted answer, or a placed number.

The answer checker has no duplicate budget. A repeated guess value can get '○' more than once, even if the answer holds that value only once (`WordleGame.RepeatedGuessGetsRingTwice`).

Behaviour that the model keeps and proves:

- In mixed mode the palette's digits are numbers, but the parsed answer's digits are characters. So for a mixed answer containing a digit, the reveal never reports a win (`WordleGame.MixedDigitAnswerUnwinnable`). A row can still win through `dropItem`'s winner check if a player drags '✓' onto every cell of a full row.
- The number game accepts an answer with a repeated digit, but every row is kept duplicate-free. So for such an answer the reveal never reports a win (`NumberGame.RepeatedDigitAnswerUnwinnable`). As in the Wordle game, dragging '✓' onto every cell of a full row still wins through `dropItem`.
- Carry-forward appends a row at the end of the grid whenever some row shows a symbol and the grid is shorter than maxRows. It does so even after a win, and even when an empty row was already appended below the checked row. That empty row stays blank between the guesses.
- The Wordle component's `generateHeaders` reads the mode from the current state, not from its argument. Its two label lists are identical, so the headers do not depend on the mode.
- Against the answer HAPPY, the guess HAPEE gets '✓' '✓' '✓' '✗' '✗' (`WordleGame.HappyHapeeFeedback`): a guess letter is judged only against the answer's column and the answer's letter set.

## Model

| member | source | states |
|---|---|---|
| GridCore.IsRowComplete | src/WordleGridGame.jsx:165-167 | a complete non-empty row counts as a row with values; an incomplete row has an empty cell |
| GridCore.RowWins | src/WordleGridGame.jsx:217-220 | a winning row is a complete row; a non-empty winning row has values and symbols; a complete row that does not win has a cell without '✓' |
| GridCore.Feedback | src/WordleGridGame.jsx:338-352 | at most one entry per cell, none for an empty row; its meaning is stated by FeedbackSound, FeedbackAscending, FeedbackCovers and FeedbackFull |
| GridCore.FeedbackFull | src/WordleGridGame.jsx:338-352 | a complete row's queue has exactly one entry per column, the i-th judging column i |
| GridCore.Classify | src/WordleGridGame.jsx:341-350 | '✓' exactly when the value equals the answer at that column, '○' exactly when it differs there but occurs somewhere in the answer, '✗' exactly when it occurs nowhere in the answer |
| GridCore.FeedbackSound | src/WordleGridGame.jsx:338-352 | every queued entry is about the checked row and a filled column of it, carries the classification of that column's value, and is flagged correct exactly when it is '✓' |
| GridCore.FeedbackAscending | src/WordleGridGame.jsx:338-352 | the queue lists its columns in strictly increasing order, so the reveal goes left to right |
| GridCore.FeedbackCovers | src/WordleGridGame.jsx:338-352 | a column has a queue entry if and only if its cell holds a value |
| GridCore.FeedbackNonEmpty | src/WordleGridGame.jsx:338-352 | a row with at least one filled cell yields a non-empty queue whose first entry is for that row |
| GridCore.RowQueueFits | src/WordleGridGame.jsx:338-352 | the queue built for any non-header row addresses only existing rows and columns of the grid it was built from |
| GridCore.BuildFeedback | src/WordleGridGame.jsx:335-352 | the column loop of check builds exactly the feedback queue of the row |
| GridCore.CountCorrectAppend | src/WordleGridGame.jsx:279 | the count of correct entries is additive over concatenating two queues |
| GridCore.CountCorrectAll | src/WordleGridGame.jsx:279 | a queue whose entries are all flagged correct counts every entry |
| GridCore.CountCorrectNone | src/WordleGridGame.jsx:279 | a queue with no entry flagged correct counts zero |
| GridCore.CountCorrectIsMatchCount | src/WordleGridGame.jsx:279 | the number of correct entries of a row's queue equals the number of columns whose value equals the answer there |
| GridCore.MatchCountFull | src/WordleGridGame.jsx:279 | the match count never exceeds the row width and reaches it exactly when every cell holds the answer's value for its column |
| GridCore.FeedbackWinIff | src/WordleGridGame.jsx:279-281 | the reveal reports a win (correct count equal to the column count) if and only if the checked row is complete and equals the answer column by column |
| GridCore.LastRowWhere | src/WordleGridGame.jsx:318-324 | the result is the highest non-header row below the bound that satisfies the test, or none when no such row exists |
| GridCore.FindLastRow | src/WordleGridGame.jsx:318-324 | the downward search loop finds exactly that row |
| GridCore.WinningRowFrom | src/WordleGridGame.jsx:214-234 | the result is the lowest row from the start index that is complete and all '✓', or none when there is none |
| GridCore.FindWinner | src/WordleGridGame.jsx:214-234 | the winner-check loop from row 1 finds exactly that row |
| GridCore.AddRowIfComplete | src/WordleGridGame.jsx:170-180 | the grid gains one empty row of numColumns cells exactly when its last row is complete and it is shorter than maxRows; the existing rows are untouched and the grid never grows past maxRows |
| GridCore.CarryForward | src/WordleGridGame.jsx:183-211 | one row is appended exactly when some non-header row shows a symbol and the grid is below maxRows; the new row shows no symbol and holds, in each column, the value of the last symbol-bearing row exactly where that cell was '✓' and filled; the existing rows are untouched |
| GridCore.CarryRow | src/WordleGridGame.jsx:196-207 | the carried row has the checked row's width, no symbols, and in each column the checked row's value exactly where that cell was '✓' and filled |
| GridCore.CopyCorrect | src/WordleGridGame.jsx:196-207 | the copy loop builds exactly the carried row |
| GridCore.CarryForwardContents | src/WordleGridGame.jsx:183-211 | carry-forward keeps the grid well formed and places only values already on it |
| GridCore.UpdateCell | src/WordleGridGame.jsx:459-465 | one cell is replaced and every other row and cell stays the same |
| GridCore.UpdateCellKeepsShape | src/WordleGridGame.jsx:436-456 | writing a palette value or a symbol into a non-header cell keeps the grid well formed and its values from the palette |
| GridCore.Reveal | src/WordleGridGame.jsx:266-269 | a reveal step sets the addressed cell's symbol, keeps its value, and leaves every other cell and row alone |
| GridCore.RevealKeepsShape | src/WordleGridGame.jsx:266-269 | a reveal step keeps the grid well formed, its header, and its values from the palette |
| GridCore.StripSymbols | src/WordleGridGame.jsx:472-474 | the header and any header row are kept; every other row keeps its width and values and loses every symbol |
| GridCore.StripSymbolsMeaning | src/WordleGridGame.jsx:471-476 | clearing symbols keeps the header and every value, leaves no symbol, so no row wins and carry-forward has nothing to copy, and doing it twice equals doing it once |
| GridCore.FindDuplicate | src/GridNumberGame.jsx:390-399 | the scan reports a duplicate exactly when a column other than the target already holds the number |
| GridCore.PlacementKeepsNoDuplicates | src/GridNumberGame.jsx:388-409 | placing a number no other column holds keeps a duplicate-free row duplicate-free |
| GridCore.ClearingKeepsNoDuplicates | src/GridNumberGame.jsx:422-428 | clearing a cell keeps a duplicate-free row duplicate-free |
| GridCore.CarryRowNoDuplicates | src/GridNumberGame.jsx:158-167 | the row carried from a duplicate-free row is duplicate-free |
| GridCore.QueueOutlivesReset | src/WordleGridGame.jsx:467-469 | a check targeting row 2 or below queues an entry for that row, and after the two-row reset that entry addresses a row that no longer exists |
| WordleGame.GenerateHeaders | src/WordleGridGame.jsx:35-39 | the headers are the first min(columns, 10) English ordinals "1st", "2nd", ... |
| WordleGame.ResetRows | src/WordleGridGame.jsx:56-64 | the reset grid is the header row and one row of numColumns empty cells |
| WordleGame.GeneratePalette | src/WordleGridGame.jsx:42-53 | the palette holds exactly the numbers 0-9 in numbers mode, the letters A-Z in letters mode and in any unrecognised mode, and both in mixed mode |
| WordleGame.ValidateAnswer | src/WordleGridGame.jsx:86-99 | an input is accepted exactly when it has numColumns characters, all digits in numbers mode, all ASCII letters in letters mode, all letters or digits in mixed mode; nothing is accepted in an unrecognised mode |
| WordleGame.ParseAnswer | src/WordleGridGame.jsx:102-112 | the answer has one value per input character: the digit's number in numbers mode (which prints back as the character), otherwise the upper-cased character |
| WordleGame.ParsedAnswerPlaceable | src/WordleGridGame.jsx:102-112 | in letters and numbers mode every value of an accepted answer is on the palette |
| WordleGame.MixedDigitAnswerUnwinnable | src/WordleGridGame.jsx:102-112 | in mixed mode, an accepted answer with a digit never yields a win on a row of palette values |
| WordleGame.RepeatedGuessGetsRingTwice | src/WordleGridGame.jsx:341-350 | answer PLANT, guess PAPER: '✓', '○', '○', '✗', '✗' |
| WordleGame.HappyHapeeFeedback | src/WordleGridGame.jsx:341-350 | answer HAPPY, guess HAPEE: '✓', '✓', '✓', '✗', '✗', with three correct entries |
| WordleGame.Game.constructor | src/WordleGridGame.jsx:5-32 | five columns, six rows, letters mode, the reset grid, no answer, idle reveal |
| WordleGame.Game.ApplyGridSettings | src/WordleGridGame.jsx:67-83 | settings with 3-10 columns and 3-12 rows are applied and clear the answer, the queue and the grid; other settings change nothing |
| WordleGame.Game.SetAnswer | src/WordleGridGame.jsx:237-260 | a validated input is parsed and stored as the answer; a rejected input leaves the answer as it was |
| WordleGame.Game.CheckAndAddNewRow | src/WordleGridGame.jsx:170-180 | the grid becomes AddRowIfComplete of the old grid, and the invariant holds |
| WordleGame.Game.AutoPopulateCorrectContent | src/WordleGridGame.jsx:183-211 | the grid becomes CarryForward of the old grid, and the invariant holds |
| WordleGame.Game.CheckAnswer | src/WordleGridGame.jsx:304-356 | a missing answer, a running reveal and a grid without values each give their warning and change nothing; otherwise the queue becomes the feedback of the highest row with values and the index restarts at 0 |
| WordleGame.Game.RevealNextSymbol | src/WordleGridGame.jsx:263-301 | an idle queue changes nothing; otherwise the next entry's symbol is shown; after the last entry, the win is reported for that row exactly when the correct count equals numColumns, the '✓' values are carried forward and the queue is emptied |
| WordleGame.Game.DropItem | src/WordleGridGame.jsx:436-456 | a value fills the cell and may append a row; a symbol is set on the cell; the result is the lowest winning row |
| WordleGame.Game.ClearCell | src/WordleGridGame.jsx:459-465 | row 0 is untouched; any other cell becomes empty and nothing else changes |
| WordleGame.Game.ClearSymbols | src/WordleGridGame.jsx:471-476 | the grid becomes StripSymbols of the old grid, and the invariant holds |
| WordleGame.Game.ClearGrid | src/WordleGridGame.jsx:478-484 | the reset grid and an empty queue with index 0 |
| WordleGame.Game.ClearContentAsWritten | src/WordleGridGame.jsx:467-469 | the reset grid, with the reveal queue kept as it was |
| WordleGame.Game.ClearContent | src/WordleGridGame.jsx:467-469 | the reset grid and an empty queue, so the invariant holds |
| NumberGame.GenerateHeaders | src/GridNumberGame.jsx:37-40 | the headers are the first min(columns, 10) place-value labels |
| NumberGame.ResetRows | src/GridNumberGame.jsx:43-51 | the reset grid is the header row and one row of numColumns empty cells |
| NumberGame.InitialHeaders | src/GridNumberGame.jsx:12-19 | the seven-column starting header runs M, hth, tth, th, h, t, o |
| NumberGame.Digits | src/GridNumberGame.jsx:705 | the palette holds exactly the numbers 0-9 |
| NumberGame.AnswerInputOk | src/GridNumberGame.jsx:198 | an accepted input has numColumns digits, each parsed value is on the palette; a wrong length or a non-digit is refused |
| NumberGame.ParseDigits | src/GridNumberGame.jsx:199 | one number 0-9 per input digit, which prints back as that digit |
| NumberGame.CarryForwardKeepsDistinct | src/GridNumberGame.jsx:140-171 | carry-forward keeps every row duplicate-free |
| NumberGame.AddRowKeepsDistinct | src/GridNumberGame.jsx:127-137 | appending the empty row keeps every row duplicate-free |
| NumberGame.RepeatedDigitAnswerUnwinnable | src/GridNumberGame.jsx:197-208 | an answer with a repeated digit is accepted, yet no duplicate-free row can reveal a win against it |
| NumberGame.ReversedGuessFeedback | src/GridNumberGame.jsx:290-304 | answer 123, guess 321: '○', '✓', '○', with one correct entry |
| NumberGame.Game.constructor | src/GridNumberGame.jsx:8-34 | seven columns, eight rows, the reset grid, no answer, idle reveal |
| NumberGame.Game.ApplyGridSettings | src/GridNumberGame.jsx:54-69 | settings with 3-10 columns and 3-12 rows are applied and clear the answer, the queue and the grid; other settings change nothing |
| NumberGame.Game.SetAnswer | src/GridNumberGame.jsx:197-208 | an input of exactly numColumns digits is stored as its digits; any other input leaves the answer as it was |
| NumberGame.Game.CheckAndAddNewRow | src/GridNumberGame.jsx:127-137 | the grid becomes AddRowIfComplete of the old grid, and the invariant (rows duplicate-free included) holds |
| NumberGame.Game.AutoPopulateCorrectNumbers | src/GridNumberGame.jsx:140-171 | the grid becomes CarryForward of the old grid, and the invariant holds |
| NumberGame.Game.CheckNumbers | src/GridNumberGame.jsx:254-308 | a missing answer, a running reveal and a grid without numbers each give their warning and change nothing; otherwise the queue becomes the feedback of the highest row with numbers and the index restarts at 0 |
| NumberGame.Game.RevealNextSymbol | src/GridNumberGame.jsx:211-251 | an idle queue changes nothing; otherwise the next entry's symbol is shown; after the last entry, the win is reported for that row exactly when the correct count equals numColumns, the '✓' numbers are carried forward and the queue is emptied |
| NumberGame.Game.DropItem | src/GridNumberGame.jsx:388-419 | a number another column of the row holds is refused with nothing changed; otherwise a number fills the cell and may append a row, a symbol is set on the cell, and the result is the lowest winning row |
| NumberGame.Game.ClearCell | src/GridNumberGame.jsx:422-428 | row 0 is untouched; any other cell becomes empty and nothing else changes |
| NumberGame.Game.ClearSymbols | src/GridNumberGame.jsx:434-439 | the grid becomes StripSymbols of the old grid, and the invariant holds |
| NumberGame.Game.ClearGrid | src/GridNumberGame.jsx:441-447 | the reset grid and an empty queue with index 0 |
| NumberGame.Game.ClearNumbersAsWritten | src/GridNumberGame.jsx:430-432 | the reset grid, with the reveal queue kept as it was |
| NumberGame.Game.ClearNumbers | src/GridNumberGame.jsx:430-432 | the reset grid and an empty queue, so the invariant holds |

## Left out

- Rendering, drag-and-drop and touch plumbing (drag previews, `handleDrop`'s event handling, hit-testing), audio, and warning and celebration display are left out. What the model keeps is the handler's effect on the state, and the warning or winner it reports as a result.
- Timers are collapsed into one step. A reveal tick is one `RevealNextSymbol` call. The delayed win signal (500 ms), carry-forward and queue clearing (1000 ms) happen at once in the call that reveals the last entry. So the model does not capture events that arrive between the last reveal and the delayed carry-forward.
- The Wordle settings modal writes `numColumns`, `maxRows` and `gameMode` directly as the inputs change, before "apply" is pressed. The model only changes them through `ApplyGridSettings`, whose bounds check it models.
- `NaN` from `parseInt` is out of range in `ApplyGridSettings`, which changes nothing in that case. The model's integer arguments cover every case the bounds check distinguishes.
- Cells are never `null` in the model. The components' `cell &&` guards and the null-cell repair in `dropItem` never fire on a grid built by these handlers.
- WordleGame.ParseAnswer: upper-cases only ASCII letters, because validation admits only ASCII letters and digits. Full Unicode `toUpperCase` is not modelled.
- The answer text fields' own live editing (truncation, upper-casing as typed) belongs to the input widgets and is not modelled. `SetAnswer` takes the final string.
- `src/App.js` (the page that hosts the two components) is not part of this model.

## Findings

| source | as written | input that shows it | evidently intended | confidence | as-written member | corrected member |
|---|---|---|---|---|---|---|
| src/WordleGridGame.jsx:467-469 | "clear content" rebuilds the two-row grid but leaves the reveal queue and its index as they were | check a row 2 or below (queue non-empty), then press "clear content" before the reveal ends: the next reveal indexes a row the grid no longer has (which would throw a TypeError), and every later check is refused as "wait for current reveal" until "clear grid", new settings, or the grid grows back to that row | clearing the grid drops the pending reveal, as "clear grid" does | medium, not executed | WordleGame.Game.ClearContentAsWritten | WordleGame.Game.ClearContent |
| src/GridNumberGame.jsx:430-432 | "clear numbers" rebuilds the two-row grid but leaves the reveal queue and its index as they were | check a row 2 or below, then press "clear numbers" before the reveal ends: the next reveal indexes a row the grid no longer has, and checks are refused until "clear grid", new settings, or the grid grows back to that row | clearing the grid drops the pending reveal, as "clear grid" does | medium, not executed | NumberGame.Game.ClearNumbersAsWritten | NumberGame.Game.ClearNumbers |

`GridCore.QueueOutlivesReset` proves the discrepancy for both rows. The as-written members ensure only `Shape()`, the invariant without its queue-fits part, because `Valid()` does not hold after them.
