/*
 * The Wordle-style game: letters, numbers or both, configurable width and
 * height, a facilitator-set answer, and a sequential reveal of the
 * feedback symbols for the most recent row.
 *
 * Palette digits are numbers while a parsed answer holds characters, so in
 * mixed mode a placed digit never equals an answer digit; the model keeps
 * that (see MixedDigitAnswerUnwinnable).
 */
module WordleGame {
  import opened GridCore

  /** A placeable value: a palette number or a one-character string. */
  datatype Value = Num(n: int) | Chr(c: char)

  /** The game mode; UnknownMode stands for any other mode string, which the `default` branches of WordleGridGame's `switch` statements handle. */
  datatype Mode = Letters | Numbers | Mixed | UnknownMode

  // ---------------------------------------------------------------------
  // Column headers
  // ---------------------------------------------------------------------

  /** The label list of generateHeaders (the numbers and letters lists are the same). */
  const OrdinalLabels: seq<string> := ["1st", "2nd", "3rd", "4th", "5th", "6th", "7th", "8th", "9th", "10th"]

  function NatToString(n: nat): string
  {
    if n < 10 then [DigitChar(n)] else NatToString(n / 10) + [DigitChar(n % 10)]
  }

  /** The English ordinal suffix of n. */
  function OrdinalSuffix(n: nat): string
  {
    if 11 <= n % 100 <= 13 then "th"
    else if n % 10 == 1 then "st"
    else if n % 10 == 2 then "nd"
    else if n % 10 == 3 then "rd"
    else "th"
  }

  /** The English ordinal of n, written in digits ("1st", "22nd", ...). */
  function Ordinal(n: nat): string
  {
    NatToString(n) + OrdinalSuffix(n)
  }

  lemma OrdinalLabelsAreOrdinals()
    ensures forall i :: 0 <= i < 10 ==> OrdinalLabels[i] == Ordinal(i + 1)
  {
    assert NatToString(10) == "10";
  }

  /** generateHeaders: the first `columns` labels (JavaScript's slice stops at the end of the list). */
  function GenerateHeaders(columns: nat): (headers: seq<string>)
    ensures |headers| == Min(columns, 10)
    ensures forall i :: 0 <= i < |headers| ==> headers[i] == Ordinal(i + 1)
  {
    OrdinalLabelsAreOrdinals();
    OrdinalLabels[..Min(columns, 10)]
  }

  /** resetGrid: a header row with the column labels and one empty row of `columns` cells. */
  function ResetRows(columns: nat): (g: seq<Row<Value>>)
    ensures |g| == 2 && WellFormed(g, columns)
    ensures g[0] == Header(GenerateHeaders(columns))
    ensures !RowHasContent(g[1]) && !RowHasSymbol(g[1])
  {
    FreshGrid(GenerateHeaders(columns), columns)
  }

  // ---------------------------------------------------------------------
  // Palette
  // ---------------------------------------------------------------------

  function DigitValues(): (p: seq<Value>)
    ensures |p| == 10 && forall i :: 0 <= i < 10 ==> p[i] == Num(i)
  {
    seq(10, i requires 0 <= i < 10 => Num(i))
  }

  function LetterValues(): (p: seq<Value>)
    ensures |p| == 26 && forall i :: 0 <= i < 26 ==> p[i] == Chr(('A' as int + i) as char)
  {
    seq(26, i requires 0 <= i < 26 => Chr(('A' as int + i) as char))
  }

  predicate IsDigitValue(v: Value)
  {
    v.Num? && 0 <= v.n <= 9
  }

  predicate IsUpperLetterValue(v: Value)
  {
    v.Chr? && 'A' <= v.c <= 'Z'
  }

  /** What each mode offers to drag: numbers 0-9, letters A-Z, or both. */
  predicate InPalette(mode: Mode, v: Value)
  {
    match mode
    case Numbers => IsDigitValue(v)
    case Mixed => IsDigitValue(v) || IsUpperLetterValue(v)
    case Letters => IsUpperLetterValue(v)
    case UnknownMode => IsUpperLetterValue(v)
  }

  lemma DigitValuesSpan(v: Value)
    ensures v in DigitValues() <==> IsDigitValue(v)
  {
    if IsDigitValue(v) {
      assert DigitValues()[v.n] == v;
    }
  }

  lemma LetterValuesSpan(v: Value)
    ensures v in LetterValues() <==> IsUpperLetterValue(v)
  {
    if IsUpperLetterValue(v) {
      var i := v.c as int - 'A' as int;
      assert LetterValues()[i] == v;
    }
  }

  /** generatePalette: the draggable values of a mode. */
  function GeneratePalette(mode: Mode): (palette: seq<Value>)
    ensures forall v :: v in palette <==> InPalette(mode, v)
  {
    assert forall v :: v in DigitValues() <==> IsDigitValue(v) by {
      forall v { DigitValuesSpan(v); }
    }
    assert forall v :: v in LetterValues() <==> IsUpperLetterValue(v) by {
      forall v { LetterValuesSpan(v); }
    }
    match mode
    case Numbers => DigitValues()
    case Letters => LetterValues()
    case Mixed => DigitValues() + LetterValues()
    case UnknownMode => LetterValues()
  }

  // ---------------------------------------------------------------------
  // Answer input
  // ---------------------------------------------------------------------

  predicate IsAsciiLetter(ch: char)
  {
    'A' <= ch <= 'Z' || 'a' <= ch <= 'z'
  }

  /** The character class of each mode's answer pattern; an unknown mode allows nothing. */
  predicate CharAllowed(mode: Mode, ch: char)
  {
    match mode
    case Numbers => IsAsciiDigit(ch)
    case Letters => IsAsciiLetter(ch)
    case Mixed => IsAsciiLetter(ch) || IsAsciiDigit(ch)
    case UnknownMode => false
  }

  /** `/^[...]+$/.test(input)`: a non-empty string whose characters all satisfy the class. */
  predicate AllChars(input: string, cls: char -> bool)
  {
    |input| > 0 && forall i :: 0 <= i < |input| ==> cls(input[i])
  }

  /** validateAnswer: exactly numColumns characters, all of the mode's class. */
  function ValidateAnswer(input: string, numColumns: nat, mode: Mode): (ok: bool)
    ensures ok <==> |input| == numColumns && |input| > 0 && forall i :: 0 <= i < |input| ==> CharAllowed(mode, input[i])
  {
    if |input| != numColumns then false
    else
      match mode
      case Numbers => AllChars(input, IsAsciiDigit)
      case Letters => AllChars(input, IsAsciiLetter)
      case Mixed => AllChars(input, ch => IsAsciiLetter(ch) || IsAsciiDigit(ch))
      case UnknownMode => assert |input| > 0 ==> !CharAllowed(mode, input[0]); false
  }

  /** toUpperCase on the ASCII letters the answer pattern admits. */
  function ToUpper(ch: char): char
  {
    if 'a' <= ch <= 'z' then (ch as int - 32) as char else ch
  }

  /**
   * parseAnswer: digit values in numbers mode (`Number` of each character),
   * upper-cased one-character strings otherwise. It is only called on an
   * input validateAnswer accepted, so in numbers mode every character is a digit.
   */
  function ParseAnswer(input: string, mode: Mode): (answer: seq<Value>)
    requires mode == Numbers ==> forall i :: 0 <= i < |input| ==> IsAsciiDigit(input[i])
    ensures |answer| == |input|
    ensures mode == Numbers ==> forall i :: 0 <= i < |input| ==>
      answer[i].Num? && 0 <= answer[i].n <= 9 && DigitChar(answer[i].n) == input[i]
    ensures mode != Numbers ==> forall i :: 0 <= i < |input| ==>
      answer[i] == Chr(ToUpper(input[i])) && !('a' <= answer[i].c <= 'z')
  {
    assert forall i :: 0 <= i < |input| && IsAsciiDigit(input[i]) ==> DigitChar(input[i] as int - '0' as int) == input[i];
    match mode
    case Numbers => seq(|input|, i requires 0 <= i < |input| => Num(input[i] as int - '0' as int))
    case _ => seq(|input|, i requires 0 <= i < |input| => Chr(ToUpper(input[i])))
  }

  /**
   * In letters and numbers mode every value of an accepted answer is on the
   * palette, so the answer can be placed and a winning row exists.
   */
  lemma ParsedAnswerPlaceable(input: string, numColumns: nat, mode: Mode)
    requires mode == Letters || mode == Numbers
    requires ValidateAnswer(input, numColumns, mode)
    ensures forall i :: 0 <= i < |input| ==> ParseAnswer(input, mode)[i] in GeneratePalette(mode)
  {
    var answer := ParseAnswer(input, mode);
    forall i | 0 <= i < |input| ensures InPalette(mode, answer[i]) {
      if mode == Letters {
        assert IsAsciiLetter(input[i]);
      }
    }
  }

  /**
   * Mixed mode: the palette's digits are numbers while the parsed answer's
   * digits are characters, so when the answer has a digit no row of palette
   * values gets a '✓' in every column and the reveal never reports a win.
   */
  lemma MixedDigitAnswerUnwinnable(input: string, numColumns: nat, rowIndex: nat, cells: seq<Cell<Value>>, c: nat)
    requires ValidateAnswer(input, numColumns, Mixed)
    requires c < |input| && IsAsciiDigit(input[c])
    requires |cells| == numColumns
    requires forall j :: 0 <= j < |cells| && cells[j].content.Some? ==> cells[j].content.value in GeneratePalette(Mixed)
    ensures CountCorrect(Feedback(rowIndex, cells, ParseAnswer(input, Mixed))) < numColumns
  {
    var answer := ParseAnswer(input, Mixed);
    FeedbackWinIff(rowIndex, cells, answer);
    CountCorrectIsMatchCount(rowIndex, cells, answer);
    MatchCountFull(cells, answer);
    assert answer[c] == Chr(input[c]);
    if cells[c].content.Some? {
      assert InPalette(Mixed, cells[c].content.value);
      assert cells[c].content.value != answer[c];
    }
  }

  /** A row spelling out a word, one value per cell, no symbols. */
  function Spelled(word: string): (cells: seq<Cell<Value>>)
    ensures |cells| == |word|
    ensures forall i :: 0 <= i < |word| ==> cells[i] == Cell(Some(Chr(word[i])), None)
  {
    seq(|word|, i requires 0 <= i < |word| => Cell(Some(Chr(word[i])), None))
  }

  /** A spelled-out row is complete, so its feedback judges every letter in turn. */
  lemma SpelledFeedback(rowIndex: nat, word: string, answer: seq<Value>)
    requires |word| <= |answer|
    ensures |Feedback(rowIndex, Spelled(word), answer)| == |word|
    ensures forall i :: 0 <= i < |word| ==>
      Feedback(rowIndex, Spelled(word), answer)[i] == Judge(rowIndex, i, Chr(word[i]), answer)
  {
    FeedbackFull(rowIndex, Spelled(word), answer);
  }

  /** The answers of the two worked examples below, as letters-mode parses them. */
  lemma ExampleAnswers()
    ensures ParseAnswer("PLANT", Letters) == [Chr('P'), Chr('L'), Chr('A'), Chr('N'), Chr('T')]
    ensures ParseAnswer("HAPPY", Letters) == [Chr('H'), Chr('A'), Chr('P'), Chr('P'), Chr('Y')]
  {
  }

  /**
   * No duplicate budget: against the answer "PLANT" the guess "PAPER" gets
   * '✓' for its first P and '○' for its second, though the answer has one P.
   */
  lemma RepeatedGuessGetsRingTwice()
    ensures var f := Feedback(1, Spelled("PAPER"), ParseAnswer("PLANT", Letters));
      |f| == 5 && f[0].symbol == Tick && f[1].symbol == Ring && f[2].symbol == Ring
      && f[3].symbol == Cross && f[4].symbol == Cross
  {
    ExampleAnswers();
    PaperAgainstPlant(ParseAnswer("PLANT", Letters));
  }

  /** The marks of "PAPER" against the spelled-out answer PLANT. */
  lemma PaperAgainstPlant(answer: seq<Value>)
    requires answer == [Chr('P'), Chr('L'), Chr('A'), Chr('N'), Chr('T')]
    ensures var f := Feedback(1, Spelled("PAPER"), answer);
      |f| == 5 && f[0].symbol == Tick && f[1].symbol == Ring && f[2].symbol == Ring
      && f[3].symbol == Cross && f[4].symbol == Cross
  {
    SpelledFeedback(1, "PAPER", answer);
    var f := Feedback(1, Spelled("PAPER"), answer);
    assert f[0] == Judge(1, 0, Chr('P'), answer) && Classify(Chr('P'), 0, answer) == Tick;
    assert f[1] == Judge(1, 1, Chr('A'), answer) && answer[1] != Chr('A') && Chr('A') in answer;
    assert f[2] == Judge(1, 2, Chr('P'), answer) && answer[2] != Chr('P') && Chr('P') in answer;
    assert f[3] == Judge(1, 3, Chr('E'), answer) && Chr('E') !in answer;
    assert f[4] == Judge(1, 4, Chr('R'), answer) && Chr('R') !in answer;
  }

  /**
   * Against the answer "HAPPY" the guess "HAPEE" gets '✓' for H, A and P
   * and '✗' for both E cells, three correct entries in all.
   */
  lemma HappyHapeeFeedback()
    ensures var f := Feedback(1, Spelled("HAPEE"), ParseAnswer("HAPPY", Letters));
      |f| == 5 && f[0].symbol == Tick && f[1].symbol == Tick && f[2].symbol == Tick
      && f[3].symbol == Cross && f[4].symbol == Cross && CountCorrect(f) == 3
  {
    ExampleAnswers();
    var answer := ParseAnswer("HAPPY", Letters);
    HapeeAgainstHappy(answer);
    var f := Feedback(1, Spelled("HAPEE"), answer);
    CountCorrectAll(f[..3]);
    CountCorrectNone(f[3..]);
    CountCorrectAppend(f[..3], f[3..]);
    assert f[..3] + f[3..] == f;
  }

  /** The marks and correct flags of "HAPEE" against the spelled-out answer HAPPY. */
  lemma HapeeAgainstHappy(answer: seq<Value>)
    requires answer == [Chr('H'), Chr('A'), Chr('P'), Chr('P'), Chr('Y')]
    ensures var f := Feedback(1, Spelled("HAPEE"), answer);
      && |f| == 5 && f[0].symbol == Tick && f[1].symbol == Tick && f[2].symbol == Tick
      && f[3].symbol == Cross && f[4].symbol == Cross
      && f[0].isCorrect && f[1].isCorrect && f[2].isCorrect
      && !f[3].isCorrect && !f[4].isCorrect
  {
    SpelledFeedback(1, "HAPEE", answer);
    var f := Feedback(1, Spelled("HAPEE"), answer);
    assert f[0] == Judge(1, 0, Chr('H'), answer) && Classify(Chr('H'), 0, answer) == Tick;
    assert f[1] == Judge(1, 1, Chr('A'), answer) && Classify(Chr('A'), 1, answer) == Tick;
    assert f[2] == Judge(1, 2, Chr('P'), answer) && Classify(Chr('P'), 2, answer) == Tick;
    assert f[3] == Judge(1, 3, Chr('E'), answer) && Chr('E') !in answer;
    assert f[4] == Judge(1, 4, Chr('E'), answer);
  }

  // ---------------------------------------------------------------------
  // The game state
  // ---------------------------------------------------------------------

  class Game {
    var numColumns: nat
    var maxRows: nat
    var gameMode: Mode
    var grid: seq<Row<Value>>
    var correctAnswer: seq<Value>
    var hasCorrectAnswer: bool
    var pendingSymbols: seq<Entry>
    var currentSymbolIndex: nat

    /**
     * The configuration is in range, the grid is a header of numColumns
     * labels over rows of numColumns cells, never longer than maxRows and
     * never shorter than two rows, every placed value is from the palette,
     * a set answer has numColumns values, and the reveal index is in the queue.
     */
    ghost predicate Shape()
      reads this
    {
      && 3 <= numColumns <= 10 && 3 <= maxRows <= 12
      && WellFormed(grid, numColumns)
      && grid[0] == Header(GenerateHeaders(numColumns))
      && 2 <= |grid| <= maxRows
      && ContentsFrom(grid, GeneratePalette(gameMode))
      && (hasCorrectAnswer ==> |correctAnswer| == numColumns)
      && QueueIndexOk(pendingSymbols, currentSymbolIndex)
    }

    /** Shape, and every queued reveal addresses a cell that exists. */
    ghost predicate Valid()
      reads this
    {
      Shape() && QueueFits(pendingSymbols, |grid|, numColumns)
    }

    /** The initial state: five columns, six rows, letters, no answer, idle queue. */
    constructor ()
      ensures Valid()
      ensures numColumns == 5 && maxRows == 6 && gameMode == Letters
      ensures grid == ResetRows(5)
      ensures correctAnswer == [] && !hasCorrectAnswer
      ensures pendingSymbols == [] && currentSymbolIndex == 0
    {
      numColumns, maxRows, gameMode := 5, 6, Letters;
      grid := ResetRows(5);
      correctAnswer, hasCorrectAnswer := [], false;
      pendingSymbols, currentSymbolIndex := [], 0;
    }

    /** applyGridSettings: in-range settings reset everything; others change nothing. */
    method ApplyGridSettings(newColumns: int, newMaxRows: int, newGameMode: Mode) returns (applied: bool)
      requires Valid()
      modifies this
      ensures Valid()
      ensures applied <==> SettingsInRange(newColumns, newMaxRows)
      ensures applied ==>
        && numColumns == newColumns && maxRows == newMaxRows && gameMode == newGameMode
        && !hasCorrectAnswer && correctAnswer == []
        && pendingSymbols == [] && currentSymbolIndex == 0
        && grid == ResetRows(newColumns)
      ensures !applied ==> unchanged(this)
    {
      if SettingsInRange(newColumns, newMaxRows) {
        numColumns, maxRows, gameMode := newColumns, newMaxRows, newGameMode;
        hasCorrectAnswer, correctAnswer := false, [];
        pendingSymbols, currentSymbolIndex := [], 0;
        grid := ResetRows(newColumns);
        applied := true;
      } else {
        applied := false;
      }
    }

    /** handleSetAnswer: store the parsed answer when validateAnswer accepts the input. */
    method SetAnswer(answerInput: string) returns (accepted: bool)
      requires Valid()
      modifies this`correctAnswer, this`hasCorrectAnswer
      ensures Valid()
      ensures accepted <==> ValidateAnswer(answerInput, numColumns, gameMode)
      ensures accepted ==> hasCorrectAnswer && correctAnswer == ParseAnswer(answerInput, gameMode)
      ensures !accepted ==> hasCorrectAnswer == old(hasCorrectAnswer) && correctAnswer == old(correctAnswer)
    {
      if ValidateAnswer(answerInput, numColumns, gameMode) {
        correctAnswer := ParseAnswer(answerInput, gameMode);
        hasCorrectAnswer := true;
        accepted := true;
      } else {
        accepted := false;
      }
    }

    /** checkAndAddNewRow on the current grid. */
    method CheckAndAddNewRow()
      requires Valid()
      modifies this`grid
      ensures Valid()
      ensures grid == AddRowIfComplete(old(grid), maxRows, numColumns)
    {
      var lastRow := grid[|grid| - 1];
      if IsRowComplete(lastRow.cells) && |grid| < maxRows {
        grid := grid + [Guess(EmptyRow(numColumns))];
      }
    }

    /** autoPopulateCorrectContent on the current grid. */
    method AutoPopulateCorrectContent()
      requires Valid()
      modifies this`grid
      ensures Valid()
      ensures grid == CarryForward(old(grid), maxRows)
    {
      CarryForwardContents(grid, maxRows, GeneratePalette(gameMode), numColumns);
      var lastRowIndex := FindLastRow(grid, RowHasSymbol);
      if lastRowIndex.None? {
        return;
      }
      if |grid| < maxRows {
        var newRow := CopyCorrect(grid[lastRowIndex.value].cells);
        grid := grid + [Guess(newRow)];
      }
    }

    /**
     * checkAnswer: warn (and change nothing) without an answer, while a
     * reveal is queued, or when no row has content; otherwise queue the
     * feedback of the highest row with content and restart the index.
     */
    method CheckAnswer() returns (outcome: CheckOutcome)
      requires Valid()
      modifies this`pendingSymbols, this`currentSymbolIndex
      ensures Valid()
      ensures !hasCorrectAnswer ==> outcome == NoAnswer
      ensures hasCorrectAnswer && old(pendingSymbols) != [] ==> outcome == RevealPending
      ensures hasCorrectAnswer && old(pendingSymbols) == [] ==>
        match LastRowWhere(grid, RowHasContent, |grid|)
        case None => outcome == NothingToCheck
        case Some(k) =>
          && outcome == Queued(k)
          && pendingSymbols == Feedback(k, grid[k].cells, correctAnswer)
          && currentSymbolIndex == 0
      ensures !outcome.Queued? ==> pendingSymbols == old(pendingSymbols) && currentSymbolIndex == old(currentSymbolIndex)
    {
      if !hasCorrectAnswer {
        return NoAnswer;
      }
      if |pendingSymbols| > 0 {
        return RevealPending;
      }
      var targetRowIndex := FindLastRow(grid, RowHasContent);
      if targetRowIndex.None? {
        return NothingToCheck;
      }
      var k := targetRowIndex.value;
      var symbols := BuildFeedback(k, grid[k].cells, correctAnswer);
      FeedbackSound(k, grid[k].cells, correctAnswer);
      FeedbackCovers(k, grid[k].cells, correctAnswer);
      pendingSymbols, currentSymbolIndex := symbols, 0;
      outcome := Queued(k);
    }

    /**
     * revealNextSymbol: write the next queued symbol into its cell and
     * advance the index by one. After the last entry the reveal completes:
     * a win is reported for that entry's row when every entry was '✓' and
     * there were numColumns of them, the '✓' values are carried into a new
     * row, and the queue becomes idle.
     */
    method RevealNextSymbol() returns (winner: Option<nat>)
      requires Valid()
      modifies this`grid, this`pendingSymbols, this`currentSymbolIndex
      ensures Valid()
      ensures old(currentSymbolIndex) >= |old(pendingSymbols)| ==> unchanged(this) && winner == None
      ensures old(currentSymbolIndex) < |old(pendingSymbols)| ==>
        var e := old(pendingSymbols)[old(currentSymbolIndex)];
        var marked := Reveal(old(grid), e);
        if old(currentSymbolIndex) + 1 < |old(pendingSymbols)| then
          && grid == marked && winner == None
          && pendingSymbols == old(pendingSymbols) && currentSymbolIndex == old(currentSymbolIndex) + 1
        else
          && winner == (if CountCorrect(old(pendingSymbols)) == numColumns then Some(e.rowIndex) else None)
          && grid == CarryForward(marked, maxRows)
          && pendingSymbols == [] && currentSymbolIndex == 0
    {
      winner := None;
      if currentSymbolIndex >= |pendingSymbols| {
        return;
      }
      var symbolData := pendingSymbols[currentSymbolIndex];
      grid := Reveal(grid, symbolData);
      var nextIndex := currentSymbolIndex + 1;
      if nextIndex < |pendingSymbols| {
        currentSymbolIndex := nextIndex;
        return;
      }
      // the last entry: the delayed win signal and carry-forward, taken as one step
      var correctCount := CountCorrect(pendingSymbols);
      if correctCount == numColumns {
        winner := Some(symbolData.rowIndex);
      }
      pendingSymbols, currentSymbolIndex := [], 0;
      AutoPopulateCorrectContent();
    }

    /**
     * dropItem (row 0 is refused by the drop handlers): a value fills the
     * cell and may append a row; a symbol is stamped on the cell. The winner
     * check then reports the lowest winning row.
     */
    method DropItem(rowIndex: nat, colIndex: nat, item: Item<Value>) returns (winner: Option<nat>)
      requires Valid()
      requires 1 <= rowIndex < |grid| && colIndex < numColumns
      requires item.ValueItem? ==> item.value in GeneratePalette(gameMode)
      modifies this`grid
      ensures Valid()
      ensures item.ValueItem? ==>
        grid == AddRowIfComplete(UpdateCell(old(grid), rowIndex, colIndex,
                  Cell(Some(item.value), old(grid)[rowIndex].cells[colIndex].symbol)), maxRows, numColumns)
      ensures item.SymbolItem? ==>
        grid == UpdateCell(old(grid), rowIndex, colIndex,
                  Cell(old(grid)[rowIndex].cells[colIndex].content, Some(item.mark)))
      ensures winner == WinningRowFrom(grid, 1)
    {
      var cell := grid[rowIndex].cells[colIndex];
      if item.ValueItem? {
        var newCell := Cell(Some(item.value), cell.symbol);
        UpdateCellKeepsShape(grid, rowIndex, colIndex, newCell, numColumns, GeneratePalette(gameMode));
        grid := UpdateCell(grid, rowIndex, colIndex, newCell);
        CheckAndAddNewRow();
      } else {
        var newCell := Cell(cell.content, Some(item.mark));
        UpdateCellKeepsShape(grid, rowIndex, colIndex, newCell, numColumns, GeneratePalette(gameMode));
        grid := UpdateCell(grid, rowIndex, colIndex, newCell);
      }
      winner := FindWinner(grid);
    }

    /** clearCell: row 0 is left alone; any other cell becomes empty. */
    method ClearCell(rowIndex: nat, colIndex: nat)
      requires Valid()
      requires rowIndex < |grid| && colIndex < numColumns
      modifies this`grid
      ensures Valid()
      ensures rowIndex == 0 ==> grid == old(grid)
      ensures rowIndex >= 1 ==> grid == UpdateCell(old(grid), rowIndex, colIndex, Cell(None, None))
    {
      if rowIndex == 0 {
        return;
      }
      UpdateCellKeepsShape(grid, rowIndex, colIndex, Cell(None, None), numColumns, GeneratePalette(gameMode));
      grid := UpdateCell(grid, rowIndex, colIndex, Cell(None, None));
    }

    /** clearSymbols: every non-header symbol removed, every value kept. */
    method ClearSymbols()
      requires Valid()
      modifies this`grid
      ensures Valid()
      ensures grid == StripSymbols(old(grid))
    {
      StripSymbolsMeaning(grid, numColumns, maxRows);
      var g := StripSymbols(grid);
      assert ContentsFrom(g, GeneratePalette(gameMode)) by {
        forall r, c | 1 <= r < |g| && g[r].Guess? && 0 <= c < |g[r].cells| && g[r].cells[c].content.Some?
          ensures g[r].cells[c].content.value in GeneratePalette(gameMode)
        {
          assert g[r].cells[c].content == grid[r].cells[c].content;
        }
      }
      grid := g;
    }

    /** clearGrid: fresh grid and an idle queue. */
    method ClearGrid()
      requires Valid()
      modifies this`grid, this`pendingSymbols, this`currentSymbolIndex
      ensures Valid()
      ensures grid == ResetRows(numColumns)
      ensures pendingSymbols == [] && currentSymbolIndex == 0
    {
      grid := ResetRows(numColumns);
      pendingSymbols, currentSymbolIndex := [], 0;
    }

    /**
     * The "clear content" button as written: it rebuilds the grid and keeps
     * the reveal queue, whose entries may then address rows that are gone.
     */
    method ClearContentAsWritten()
      requires Valid()
      modifies this`grid
      ensures Shape()
      ensures grid == ResetRows(numColumns)
    {
      grid := ResetRows(numColumns);
    }

    /** The "clear content" button with the reveal queue dropped along with the rows it addresses. */
    method ClearContent()
      requires Valid()
      modifies this`grid, this`pendingSymbols, this`currentSymbolIndex
      ensures Valid()
      ensures grid == ResetRows(numColumns)
      ensures pendingSymbols == [] && currentSymbolIndex == 0
    {
      grid := ResetRows(numColumns);
      pendingSymbols, currentSymbolIndex := [], 0;
    }
  }
}
