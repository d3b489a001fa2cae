/*
 * The place-value number game: digits 0-9 under place-value headers, no
 * repeated digit within a row, a facilitator-set digit answer and a
 * sequential reveal of the feedback symbols for the most recent row.
 */
module NumberGame {
  import opened GridCore

  /** The place-value labels of generateHeaders, millions down to ones and back out. */
  const PlaceLabels: seq<string> := ["M", "hth", "tth", "th", "h", "t", "o", "tth", "hth", "M"]

  /** generateHeaders: the first `columns` labels (JavaScript's slice stops at the end of the list). */
  function GenerateHeaders(columns: nat): (headers: seq<string>)
    ensures |headers| == Min(columns, 10)
    ensures forall i :: 0 <= i < |headers| ==> headers[i] == PlaceLabels[i]
  {
    PlaceLabels[..Min(columns, 10)]
  }

  /** resetGrid: a header row with the place labels and one empty row of `columns` cells. */
  function ResetRows(columns: nat): (g: seq<Row<int>>)
    ensures |g| == 2 && WellFormed(g, columns)
    ensures g[0] == Header(GenerateHeaders(columns))
    ensures !RowHasContent(g[1]) && !RowHasSymbol(g[1])
  {
    FreshGrid(GenerateHeaders(columns), columns)
  }

  /** The seven-column starting grid is the reset grid: its header runs from millions to ones. */
  lemma InitialHeaders()
    ensures ResetRows(7)[0] == Header(["M", "hth", "tth", "th", "h", "t", "o"])
  {
  }

  /** The number palette, 0 to 9. */
  function Digits(): (p: seq<int>)
    ensures forall v :: v in p <==> 0 <= v <= 9
  {
    assert forall v :: v in DigitList() <==> 0 <= v <= 9 by {
      forall v { DigitListSpan(v); }
    }
    DigitList()
  }

  function DigitList(): (p: seq<int>)
    ensures |p| == 10 && forall i :: 0 <= i < 10 ==> p[i] == i
  {
    seq(10, i requires 0 <= i < 10 => i)
  }

  lemma DigitListSpan(v: int)
    ensures v in DigitList() <==> 0 <= v <= 9
  {
    if 0 <= v <= 9 {
      assert DigitList()[v] == v;
    }
  }

  /** handleSetAnswer's test: exactly numColumns characters, all of them digits. */
  predicate AnswerInputOk(input: string, numColumns: nat)
    ensures AnswerInputOk(input, numColumns) ==>
      && |input| == numColumns && (forall i :: 0 <= i < |input| ==> IsAsciiDigit(input[i]))
      && forall i :: 0 <= i < numColumns ==> ParseDigits(input)[i] in Digits()
    ensures |input| != numColumns ==> !AnswerInputOk(input, numColumns)
    ensures (exists i :: 0 <= i < |input| && !IsAsciiDigit(input[i])) ==> !AnswerInputOk(input, numColumns)
  {
    |input| == numColumns && |input| > 0 && forall i :: 0 <= i < |input| ==> IsAsciiDigit(input[i])
  }

  /** `split('').map(Number)` on a string of digits. */
  function ParseDigits(input: string): (answer: seq<int>)
    requires forall i :: 0 <= i < |input| ==> IsAsciiDigit(input[i])
    ensures |answer| == |input|
    ensures forall i :: 0 <= i < |input| ==> 0 <= answer[i] <= 9 && DigitChar(answer[i]) == input[i]
  {
    assert forall i :: 0 <= i < |input| && IsAsciiDigit(input[i]) ==> DigitChar(input[i] as int - '0' as int) == input[i];
    seq(|input|, i requires 0 <= i < |input| => input[i] as int - '0' as int)
  }

  /** Every row below the header holds each number at most once. */
  ghost predicate RowsDistinct(grid: seq<Row<int>>)
  {
    forall r :: 1 <= r < |grid| && grid[r].Guess? ==> NoDuplicates(grid[r].cells)
  }

  /** A row with the same values in the same columns is as duplicate-free as the original. */
  lemma SameContentsNoDuplicates(a: seq<Cell<int>>, b: seq<Cell<int>>)
    requires NoDuplicates(a) && |a| == |b|
    requires forall c :: 0 <= c < |a| ==> b[c].content == a[c].content
    ensures NoDuplicates(b)
  {
  }

  /** Appending a row carried from a duplicate-free grid keeps every row duplicate-free. */
  lemma {:induction false} CarryForwardKeepsDistinct(grid: seq<Row<int>>, maxRows: nat, numColumns: nat)
    requires WellFormed(grid, numColumns) && RowsDistinct(grid)
    ensures RowsDistinct(CarryForward(grid, maxRows))
  {
    var g := CarryForward(grid, maxRows);
    if |g| == |grid| + 1 {
      var k := LastRowWhere(grid, RowHasSymbol, |grid|).value;
      assert g[|grid|] == Guess(CarryRow(grid[k].cells));
      CarryRowNoDuplicates(grid[k].cells);
      forall r | 1 <= r < |g| && g[r].Guess? ensures NoDuplicates(g[r].cells) {
        if r < |grid| {
          assert g[r] == g[..|grid|][r];
        }
      }
    } else {
      assert g == g[..|grid|];
    }
  }

  /** Appending an empty row keeps every row duplicate-free. */
  lemma AddRowKeepsDistinct(grid: seq<Row<int>>, maxRows: nat, numColumns: nat)
    requires WellFormed(grid, numColumns) && RowsDistinct(grid) && |grid| >= 2
    ensures RowsDistinct(AddRowIfComplete(grid, maxRows, numColumns))
  {
    var g := AddRowIfComplete(grid, maxRows, numColumns);
    forall r | 1 <= r < |g| && g[r].Guess? ensures NoDuplicates(g[r].cells) {
      if r < |grid| {
        assert g[r] == g[..|grid|][r];
      }
    }
  }

  /**
   * A row can only show '✓' in every column if it holds the answer, and no
   * duplicate-free row holds an answer with a repeated digit; handleSetAnswer
   * accepts such answers, and the reveal never reports a win for them.
   */
  lemma RepeatedDigitAnswerUnwinnable(rowIndex: nat, cells: seq<Cell<int>>, answer: seq<int>, i: nat, j: nat)
    requires |cells| == |answer| && NoDuplicates(cells)
    requires i < j < |answer| && answer[i] == answer[j]
    ensures CountCorrect(Feedback(rowIndex, cells, answer)) < |answer|
  {
    FeedbackWinIff(rowIndex, cells, answer);
    CountCorrectIsMatchCount(rowIndex, cells, answer);
    MatchCountFull(cells, answer);
    assert cells[i].content != Some(answer[i]) || cells[j].content != Some(answer[j]);
  }

  /** Against the answer 123 the guess 321 gets '○', '✓', '○'. */
  lemma ReversedGuessFeedback()
    ensures var guess := [Cell(Some(3), None), Cell(Some(2), None), Cell(Some(1), None)];
      var f := Feedback(1, guess, ParseDigits("123"));
      |f| == 3 && f[0].symbol == Ring && f[1].symbol == Tick && f[2].symbol == Ring
      && CountCorrect(f) == 1
  {
    var answer := ParseDigits("123");
    assert answer == [1, 2, 3];
    var guess := [Cell(Some(3), None), Cell(Some(2), None), Cell(Some(1), None)];
    assert guess[..2][..1] == guess[..1] && guess[..1][..0] == [] && guess[..3] == guess;
    var j0, j1, j2 := Judge(1, 0, 3, answer), Judge(1, 1, 2, answer), Judge(1, 2, 1, answer);
    assert Feedback(1, guess[..1], answer) == [j0];
    assert Feedback(1, guess[..2], answer) == [j0, j1];
    var f := Feedback(1, guess, answer);
    assert f == [j0, j1, j2];
    assert answer[2] == 3 && answer[0] == 1;
    assert [j0, j1, j2][..2] == [j0, j1] && [j0, j1][..1] == [j0] && [j0][..0] == [];
    assert CountCorrect([j0]) == 0;
    assert CountCorrect([j0, j1]) == 1;
  }

  class Game {
    var numColumns: nat
    var maxRows: nat
    var grid: seq<Row<int>>
    var correctAnswer: seq<int>
    var hasCorrectAnswer: bool
    var pendingSymbols: seq<Entry>
    var currentSymbolIndex: nat

    /**
     * The configuration is in range, the grid is a header over rows of
     * numColumns cells, never longer than maxRows and never shorter than two
     * rows, every placed value is a digit, no row repeats a digit, a set
     * answer has numColumns digits, and the reveal index is in the queue.
     */
    ghost predicate Shape()
      reads this
    {
      && 3 <= numColumns <= 10 && 3 <= maxRows <= 12
      && WellFormed(grid, numColumns)
      && grid[0] == Header(GenerateHeaders(numColumns))
      && 2 <= |grid| <= maxRows
      && ContentsFrom(grid, Digits())
      && RowsDistinct(grid)
      && (hasCorrectAnswer ==> |correctAnswer| == numColumns)
      && QueueIndexOk(pendingSymbols, currentSymbolIndex)
    }

    /** Shape, and every queued reveal addresses a cell that exists. */
    ghost predicate Valid()
      reads this
    {
      Shape() && QueueFits(pendingSymbols, |grid|, numColumns)
    }

    /** The initial state: seven columns, eight rows, no answer, idle queue. */
    constructor ()
      ensures Valid()
      ensures numColumns == 7 && maxRows == 8
      ensures grid == ResetRows(7)
      ensures correctAnswer == [] && !hasCorrectAnswer
      ensures pendingSymbols == [] && currentSymbolIndex == 0
    {
      numColumns, maxRows := 7, 8;
      grid := ResetRows(7);
      correctAnswer, hasCorrectAnswer := [], false;
      pendingSymbols, currentSymbolIndex := [], 0;
    }

    /** applyGridSettings: in-range settings reset everything; others change nothing. */
    method ApplyGridSettings(newColumns: int, newMaxRows: int) returns (applied: bool)
      requires Valid()
      modifies this
      ensures Valid()
      ensures applied <==> SettingsInRange(newColumns, newMaxRows)
      ensures applied ==>
        && numColumns == newColumns && maxRows == newMaxRows
        && !hasCorrectAnswer && correctAnswer == []
        && pendingSymbols == [] && currentSymbolIndex == 0
        && grid == ResetRows(newColumns)
      ensures !applied ==> unchanged(this)
    {
      if SettingsInRange(newColumns, newMaxRows) {
        numColumns, maxRows := newColumns, newMaxRows;
        hasCorrectAnswer, correctAnswer := false, [];
        pendingSymbols, currentSymbolIndex := [], 0;
        grid := ResetRows(newColumns);
        applied := true;
      } else {
        applied := false;
      }
    }

    /** handleSetAnswer: store the digits when the input is numColumns digits. */
    method SetAnswer(answerInput: string) returns (accepted: bool)
      requires Valid()
      modifies this`correctAnswer, this`hasCorrectAnswer
      ensures Valid()
      ensures accepted <==> AnswerInputOk(answerInput, numColumns)
      ensures accepted ==> hasCorrectAnswer && correctAnswer == ParseDigits(answerInput)
      ensures !accepted ==> hasCorrectAnswer == old(hasCorrectAnswer) && correctAnswer == old(correctAnswer)
    {
      if AnswerInputOk(answerInput, numColumns) {
        correctAnswer := ParseDigits(answerInput);
        hasCorrectAnswer := true;
        accepted := true;
      } else {
        accepted := false;
      }
    }

    /** checkAndAddNewRow on the current grid. */
    method CheckAndAddNewRow()
      requires Valid()
      modifies this`grid
      ensures Valid()
      ensures grid == AddRowIfComplete(old(grid), maxRows, numColumns)
    {
      AddRowKeepsDistinct(grid, maxRows, numColumns);
      var lastRow := grid[|grid| - 1];
      if IsRowComplete(lastRow.cells) && |grid| < maxRows {
        grid := grid + [Guess(EmptyRow(numColumns))];
      }
    }

    /** autoPopulateCorrectNumbers on the current grid. */
    method AutoPopulateCorrectNumbers()
      requires Valid()
      modifies this`grid
      ensures Valid()
      ensures grid == CarryForward(old(grid), maxRows)
    {
      CarryForwardContents(grid, maxRows, Digits(), numColumns);
      CarryForwardKeepsDistinct(grid, maxRows, numColumns);
      var lastRowIndex := FindLastRow(grid, RowHasSymbol);
      if lastRowIndex.None? {
        return;
      }
      if |grid| < maxRows {
        var newRow := CopyCorrect(grid[lastRowIndex.value].cells);
        grid := grid + [Guess(newRow)];
      }
    }

    /**
     * checkNumbers: warn (and change nothing) without an answer, while a
     * reveal is queued, or when no row has numbers; otherwise queue the
     * feedback of the highest row with numbers and restart the index.
     */
    method CheckNumbers() returns (outcome: CheckOutcome)
      requires Valid()
      modifies this`pendingSymbols, this`currentSymbolIndex
      ensures Valid()
      ensures !hasCorrectAnswer ==> outcome == NoAnswer
      ensures hasCorrectAnswer && old(pendingSymbols) != [] ==> outcome == RevealPending
      ensures hasCorrectAnswer && old(pendingSymbols) == [] ==>
        match LastRowWhere(grid, RowHasContent, |grid|)
        case None => outcome == NothingToCheck
        case Some(k) =>
          && outcome == Queued(k)
          && pendingSymbols == Feedback(k, grid[k].cells, correctAnswer)
          && currentSymbolIndex == 0
      ensures !outcome.Queued? ==> pendingSymbols == old(pendingSymbols) && currentSymbolIndex == old(currentSymbolIndex)
    {
      if !hasCorrectAnswer {
        return NoAnswer;
      }
      if |pendingSymbols| > 0 {
        return RevealPending;
      }
      var targetRowIndex := FindLastRow(grid, RowHasContent);
      if targetRowIndex.None? {
        return NothingToCheck;
      }
      var k := targetRowIndex.value;
      var symbols := BuildFeedback(k, grid[k].cells, correctAnswer);
      FeedbackSound(k, grid[k].cells, correctAnswer);
      FeedbackCovers(k, grid[k].cells, correctAnswer);
      pendingSymbols, currentSymbolIndex := symbols, 0;
      outcome := Queued(k);
    }

    /**
     * revealNextSymbol: write the next queued symbol into its cell and
     * advance the index by one. After the last entry the reveal completes:
     * a win is reported for that entry's row when numColumns entries were
     * '✓', the '✓' numbers are carried into a new row, and the queue
     * becomes idle.
     */
    method RevealNextSymbol() returns (winner: Option<nat>)
      requires Valid()
      modifies this`grid, this`pendingSymbols, this`currentSymbolIndex
      ensures Valid()
      ensures old(currentSymbolIndex) >= |old(pendingSymbols)| ==> unchanged(this) && winner == None
      ensures old(currentSymbolIndex) < |old(pendingSymbols)| ==>
        var e := old(pendingSymbols)[old(currentSymbolIndex)];
        var marked := Reveal(old(grid), e);
        if old(currentSymbolIndex) + 1 < |old(pendingSymbols)| then
          && grid == marked && winner == None
          && pendingSymbols == old(pendingSymbols) && currentSymbolIndex == old(currentSymbolIndex) + 1
        else
          && winner == (if CountCorrect(old(pendingSymbols)) == numColumns then Some(e.rowIndex) else None)
          && grid == CarryForward(marked, maxRows)
          && pendingSymbols == [] && currentSymbolIndex == 0
    {
      winner := None;
      if currentSymbolIndex >= |pendingSymbols| {
        return;
      }
      var symbolData := pendingSymbols[currentSymbolIndex];
      RevealKeepsShape(grid, symbolData, numColumns, Digits());
      var marked := Reveal(grid, symbolData);
      SameContentsNoDuplicates(grid[symbolData.rowIndex].cells, marked[symbolData.rowIndex].cells);
      grid := marked;
      var nextIndex := currentSymbolIndex + 1;
      if nextIndex < |pendingSymbols| {
        currentSymbolIndex := nextIndex;
        return;
      }
      // the last entry: the delayed win signal and carry-forward, taken as one step
      var correctCount := CountCorrect(pendingSymbols);
      if correctCount == numColumns {
        winner := Some(symbolData.rowIndex);
      }
      pendingSymbols, currentSymbolIndex := [], 0;
      AutoPopulateCorrectNumbers();
    }

    /**
     * dropItem (row 0 is refused by the drop handlers): a number that another
     * column of the row already holds is refused and nothing changes;
     * otherwise a number fills the cell and may append a row, a symbol is
     * stamped on the cell, and the winner check reports the lowest winning row.
     */
    method DropItem(rowIndex: nat, colIndex: nat, item: Item<int>) returns (placed: bool, winner: Option<nat>)
      requires Valid()
      requires 1 <= rowIndex < |grid| && colIndex < numColumns
      requires item.ValueItem? ==> 0 <= item.value <= 9
      modifies this`grid
      ensures Valid()
      ensures !placed <==> item.ValueItem? && UsedElsewhere(old(grid)[rowIndex].cells, colIndex, item.value)
      ensures !placed ==> grid == old(grid) && winner == None
      ensures placed && item.ValueItem? ==>
        grid == AddRowIfComplete(UpdateCell(old(grid), rowIndex, colIndex,
                  Cell(Some(item.value), old(grid)[rowIndex].cells[colIndex].symbol)), maxRows, numColumns)
      ensures item.SymbolItem? ==>
        grid == UpdateCell(old(grid), rowIndex, colIndex,
                  Cell(old(grid)[rowIndex].cells[colIndex].content, Some(item.mark)))
      ensures placed ==> winner == WinningRowFrom(grid, 1)
    {
      var cell := grid[rowIndex].cells[colIndex];
      if item.ValueItem? {
        var duplicate := FindDuplicate(grid[rowIndex].cells, colIndex, item.value);
        if duplicate {
          return false, None;
        }
        var newCell := Cell(Some(item.value), cell.symbol);
        UpdateCellKeepsShape(grid, rowIndex, colIndex, newCell, numColumns, Digits());
        PlacementKeepsNoDuplicates(grid[rowIndex].cells, colIndex, item.value, cell.symbol);
        grid := UpdateCell(grid, rowIndex, colIndex, newCell);
        CheckAndAddNewRow();
      } else {
        var newCell := Cell(cell.content, Some(item.mark));
        UpdateCellKeepsShape(grid, rowIndex, colIndex, newCell, numColumns, Digits());
        SameContentsNoDuplicates(grid[rowIndex].cells, grid[rowIndex].cells[colIndex := newCell]);
        grid := UpdateCell(grid, rowIndex, colIndex, newCell);
      }
      placed := true;
      winner := FindWinner(grid);
    }

    /** clearCell: row 0 is left alone; any other cell becomes empty. */
    method ClearCell(rowIndex: nat, colIndex: nat)
      requires Valid()
      requires rowIndex < |grid| && colIndex < numColumns
      modifies this`grid
      ensures Valid()
      ensures rowIndex == 0 ==> grid == old(grid)
      ensures rowIndex >= 1 ==> grid == UpdateCell(old(grid), rowIndex, colIndex, Cell(None, None))
    {
      if rowIndex == 0 {
        return;
      }
      UpdateCellKeepsShape(grid, rowIndex, colIndex, Cell(None, None), numColumns, Digits());
      ClearingKeepsNoDuplicates(grid[rowIndex].cells, colIndex);
      grid := UpdateCell(grid, rowIndex, colIndex, Cell(None, None));
    }

    /** clearSymbols: every non-header symbol removed, every number kept. */
    method ClearSymbols()
      requires Valid()
      modifies this`grid
      ensures Valid()
      ensures grid == StripSymbols(old(grid))
    {
      StripSymbolsMeaning(grid, numColumns, maxRows);
      var g := StripSymbols(grid);
      forall r | 1 <= r < |g| ensures NoDuplicates(g[r].cells) {
        SameContentsNoDuplicates(grid[r].cells, g[r].cells);
      }
      assert ContentsFrom(g, Digits()) by {
        forall r, c | 1 <= r < |g| && g[r].Guess? && 0 <= c < |g[r].cells| && g[r].cells[c].content.Some?
          ensures g[r].cells[c].content.value in Digits()
        {
          assert g[r].cells[c].content == grid[r].cells[c].content;
        }
      }
      grid := g;
    }

    /** clearGrid: fresh grid and an idle queue. */
    method ClearGrid()
      requires Valid()
      modifies this`grid, this`pendingSymbols, this`currentSymbolIndex
      ensures Valid()
      ensures grid == ResetRows(numColumns)
      ensures pendingSymbols == [] && currentSymbolIndex == 0
    {
      grid := ResetRows(numColumns);
      pendingSymbols, currentSymbolIndex := [], 0;
    }

    /**
     * The "clear numbers" button as written: it rebuilds the grid and keeps
     * the reveal queue, whose entries may then address rows that are gone.
     */
    method ClearNumbersAsWritten()
      requires Valid()
      modifies this`grid
      ensures Shape()
      ensures grid == ResetRows(numColumns)
    {
      grid := ResetRows(numColumns);
    }

    /** The "clear numbers" button with the reveal queue dropped along with the rows it addresses. */
    method ClearNumbers()
      requires Valid()
      modifies this`grid, this`pendingSymbols, this`currentSymbolIndex
      ensures Valid()
      ensures grid == ResetRows(numColumns)
      ensures pendingSymbols == [] && currentSymbolIndex == 0
    {
      grid := ResetRows(numColumns);
      pendingSymbols, currentSymbolIndex := [], 0;
    }
  }
}
