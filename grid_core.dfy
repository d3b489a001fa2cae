/*
 * The engine shared by the two grid games: cells, rows, the per-column
 * answer checker, the reveal queue entries, the row-search loops and the
 * carry-forward of correctly placed values into a new row.
 *
 * Both games keep the same grid shape: row 0 holds column labels, every
 * other row holds cells with a placed value (a letter/number) and a
 * feedback symbol. The games differ only in the value type, which is the
 * type parameter T here.
 */
module GridCore {

  datatype Option<T> = None | Some(value: T)

  /** The three feedback symbols: '✓' (right place), '○' (elsewhere in the answer), '✗' (absent). */
  datatype Mark = Tick | Ring | Cross

  /** A playing cell: the value placed in it and the symbol shown on it, each possibly empty (null). */
  datatype Cell<T> = Cell(content: Option<T>, symbol: Option<Mark>)

  /** Row 0 of a grid is a header of column labels; all other rows hold cells. */
  datatype Row<T> = Header(labels: seq<string>) | Guess(cells: seq<Cell<T>>)

  /** What a player drags onto a cell: a palette value or a feedback symbol. */
  datatype Item<T> = ValueItem(value: T) | SymbolItem(mark: Mark)

  /** One queued reveal: which cell gets which symbol, and whether that symbol is '✓'. */
  datatype Entry = Entry(rowIndex: nat, colIndex: nat, symbol: Mark, isCorrect: bool)

  /** The answer to a check request: one of the three warnings, or the row that was queued. */
  datatype CheckOutcome = NoAnswer | RevealPending | NothingToCheck | Queued(row: nat)

  function EmptyRow<T>(n: nat): (r: seq<Cell<T>>)
    ensures |r| == n
    ensures forall c :: 0 <= c < n ==> r[c] == Cell(None, None)
  {
    seq(n, _ => Cell(None, None))
  }

  /** The grid every reset builds: the header row and one empty row. */
  function FreshGrid<T>(headers: seq<string>, columns: nat): (g: seq<Row<T>>)
    ensures |g| == 2 && g[0] == Header(headers) && g[1] == Guess(EmptyRow(columns))
  {
    [Header(headers), Guess(EmptyRow(columns))]
  }

  /** Row 0 is the header; every other row is a row of exactly numColumns cells. */
  ghost predicate WellFormed<T>(grid: seq<Row<T>>, numColumns: nat)
  {
    && |grid| >= 1
    && grid[0].Header?
    && forall r :: 1 <= r < |grid| ==> grid[r].Guess? && |grid[r].cells| == numColumns
  }

  /** Every value placed in a non-header row is one of the palette's values. */
  ghost predicate ContentsFrom<T>(grid: seq<Row<T>>, palette: seq<T>)
  {
    forall r, c :: 1 <= r < |grid| && grid[r].Guess? && 0 <= c < |grid[r].cells| && grid[r].cells[c].content.Some?
      ==> grid[r].cells[c].content.value in palette
  }

  /** Every queued reveal addresses an existing non-header cell. */
  ghost predicate QueueFits(pending: seq<Entry>, rows: nat, numColumns: nat)
  {
    forall i :: 0 <= i < |pending| ==> 1 <= pending[i].rowIndex < rows && pending[i].colIndex < numColumns
  }

  /** The reveal index points into the queue, or the queue is idle (empty, index 0). */
  ghost predicate QueueIndexOk(pending: seq<Entry>, index: nat)
  {
    index < |pending| || (pending == [] && index == 0)
  }

  // ---------------------------------------------------------------------
  // Row predicates (the `every` / `some` tests of both components)
  // ---------------------------------------------------------------------

  /** isRowComplete: every cell holds a value. */
  predicate IsRowComplete<T>(cells: seq<Cell<T>>)
    ensures IsRowComplete(cells) && |cells| > 0 ==> RowHasContent(Guess(cells))
    ensures !IsRowComplete(cells) ==> exists c :: 0 <= c < |cells| && cells[c].content.None?
  {
    assert |cells| > 0 && cells[0].content.Some? ==> RowHasContent(Guess(cells));
    forall c :: 0 <= c < |cells| ==> cells[c].content.Some?
  }

  /** A non-header row in which some cell holds a value. */
  predicate RowHasContent<T>(row: Row<T>)
  {
    match row
    case Header(_) => false
    case Guess(cells) => exists c :: 0 <= c < |cells| && cells[c].content.Some?
  }

  /** A non-header row in which some cell shows a symbol. */
  predicate RowHasSymbol<T>(row: Row<T>)
  {
    match row
    case Header(_) => false
    case Guess(cells) => exists c :: 0 <= c < |cells| && cells[c].symbol.Some?
  }

  /** checkForWinner's test: every cell holds a value and shows '✓'. */
  predicate RowWins<T>(row: Row<T>)
    ensures RowWins(row) ==> row.Guess? && IsRowComplete(row.cells)
    ensures row.Guess? && RowWins(row) && |row.cells| > 0 ==> RowHasContent(row) && RowHasSymbol(row)
    ensures row.Guess? && IsRowComplete(row.cells) && !RowWins(row) ==>
      exists c :: 0 <= c < |row.cells| && row.cells[c].symbol != Some(Tick)
  {
    assert row.Guess? && |row.cells| > 0 && row.cells[0].content.Some? && row.cells[0].symbol.Some? ==>
      RowHasContent(row) && RowHasSymbol(row);
    && row.Guess?
    && (forall c :: 0 <= c < |row.cells| ==> row.cells[c].content.Some?)
    && (forall c :: 0 <= c < |row.cells| ==> row.cells[c].symbol == Some(Tick))
  }

  // ---------------------------------------------------------------------
  // The answer checker
  // ---------------------------------------------------------------------

  /**
   * The symbol for a guessed value in column col: '✓' when it equals the
   * answer there, '○' when it occurs anywhere in the answer, '✗' otherwise.
   * There is no per-value budget, so a repeated guess value may get '○' twice.
   */
  function Classify<T(==)>(guess: T, col: nat, answer: seq<T>): (m: Mark)
    requires col < |answer|
    ensures m == Tick <==> guess == answer[col]
    ensures m == Ring <==> guess != answer[col] && exists j :: 0 <= j < |answer| && answer[j] == guess
    ensures m == Cross <==> forall j :: 0 <= j < |answer| ==> answer[j] != guess
  {
    if guess == answer[col] then Tick
    else if guess in answer then Ring
    else Cross
  }

  /** The queue entry checkAnswer pushes for a filled column. */
  function Judge<T(==)>(rowIndex: nat, col: nat, guess: T, answer: seq<T>): Entry
    requires col < |answer|
  {
    var m := Classify(guess, col, answer);
    Entry(rowIndex, col, m, m == Tick)
  }

  /** The feedback queue for a row: one entry per filled column, in column order. */
  function Feedback<T(==)>(rowIndex: nat, cells: seq<Cell<T>>, answer: seq<T>): (fb: seq<Entry>)
    requires |cells| <= |answer|
    ensures |fb| <= |cells|
    ensures cells == [] ==> fb == []
  {
    if cells == [] then []
    else
      var k := |cells| - 1;
      Feedback(rowIndex, cells[..k], answer)
        + (if cells[k].content.Some? then [Judge(rowIndex, k, cells[k].content.value, answer)] else [])
  }

  /** The number of queue entries flagged isCorrect (`filter(s => s.isCorrect).length`). */
  function CountCorrect(pending: seq<Entry>): nat
  {
    if pending == [] then 0
    else CountCorrect(pending[..|pending| - 1]) + (if pending[|pending| - 1].isCorrect then 1 else 0)
  }

  /** The number of columns whose value equals the answer at that column. */
  function MatchCount<T(==)>(cells: seq<Cell<T>>, answer: seq<T>): nat
    requires |cells| <= |answer|
  {
    if cells == [] then 0
    else
      var k := |cells| - 1;
      MatchCount(cells[..k], answer) + (if cells[k].content == Some(answer[k]) then 1 else 0)
  }

  /** Each entry of the feedback queue is about the checked row and a filled column of it, and says what Classify says. */
  lemma {:induction false} FeedbackSound<T>(rowIndex: nat, cells: seq<Cell<T>>, answer: seq<T>)
    requires |cells| <= |answer|
    ensures forall i :: 0 <= i < |Feedback(rowIndex, cells, answer)| ==>
      var e := Feedback(rowIndex, cells, answer)[i];
      && e.rowIndex == rowIndex
      && e.colIndex < |cells|
      && cells[e.colIndex].content.Some?
      && e.symbol == Classify(cells[e.colIndex].content.value, e.colIndex, answer)
      && (e.isCorrect <==> e.symbol == Tick)
  {
    if cells != [] {
      var k := |cells| - 1;
      FeedbackSound(rowIndex, cells[..k], answer);
    }
  }

  /** A complete row's queue has one entry per column, the i-th judging column i. */
  lemma {:induction false} FeedbackFull<T>(rowIndex: nat, cells: seq<Cell<T>>, answer: seq<T>)
    requires |cells| <= |answer| && IsRowComplete(cells)
    ensures |Feedback(rowIndex, cells, answer)| == |cells|
    ensures forall i :: 0 <= i < |cells| ==>
      Feedback(rowIndex, cells, answer)[i] == Judge(rowIndex, i, cells[i].content.value, answer)
  {
    if cells != [] {
      var k := |cells| - 1;
      assert IsRowComplete(cells[..k]) by {
        forall c | 0 <= c < k ensures cells[..k][c].content.Some? {
          assert cells[..k][c] == cells[c];
        }
      }
      FeedbackFull(rowIndex, cells[..k], answer);
      forall i | 0 <= i < k
        ensures Feedback(rowIndex, cells, answer)[i] == Judge(rowIndex, i, cells[i].content.value, answer)
      {
        assert cells[..k][i] == cells[i];
      }
    }
  }

  /** The feedback queue lists columns in strictly ascending order. */
  lemma {:induction false} FeedbackAscending<T>(rowIndex: nat, cells: seq<Cell<T>>, answer: seq<T>)
    requires |cells| <= |answer|
    ensures forall i, j :: 0 <= i < j < |Feedback(rowIndex, cells, answer)| ==>
      Feedback(rowIndex, cells, answer)[i].colIndex < Feedback(rowIndex, cells, answer)[j].colIndex
  {
    if cells != [] {
      var k := |cells| - 1;
      FeedbackAscending(rowIndex, cells[..k], answer);
      FeedbackSound(rowIndex, cells[..k], answer);
    }
  }

  /** Some entry of the queue addresses column c. */
  ghost predicate HasEntryFor(pending: seq<Entry>, c: nat)
  {
    exists i :: 0 <= i < |pending| && pending[i].colIndex == c
  }

  /** Every filled column has an entry in the feedback queue; an empty column has none. */
  lemma {:induction false} FeedbackCovers<T>(rowIndex: nat, cells: seq<Cell<T>>, answer: seq<T>)
    requires |cells| <= |answer|
    ensures forall c :: 0 <= c < |cells| ==> (cells[c].content.Some? <==> HasEntryFor(Feedback(rowIndex, cells, answer), c))
  {
    if cells != [] {
      var k := |cells| - 1;
      var f := Feedback(rowIndex, cells[..k], answer);
      var fb := Feedback(rowIndex, cells, answer);
      FeedbackCovers(rowIndex, cells[..k], answer);
      FeedbackSound(rowIndex, cells[..k], answer);
      FeedbackSound(rowIndex, cells, answer);
      assert fb[..|f|] == f;
      forall c | 0 <= c < |cells|
        ensures cells[c].content.Some? <==> HasEntryFor(fb, c)
      {
        if cells[c].content.Some? {
          if c < k {
            assert cells[..k][c] == cells[c];
            assert HasEntryFor(f, c);
            var i :| 0 <= i < |f| && f[i].colIndex == c;
            assert fb[i] == f[i];
          } else {
            assert fb[|f|].colIndex == k;
          }
        }
        if HasEntryFor(fb, c) {
          var i :| 0 <= i < |fb| && fb[i].colIndex == c;
          assert cells[fb[i].colIndex].content.Some?;
        }
      }
    }
  }

  /** Counting the correct entries of two queues one after the other adds their counts. */
  lemma {:induction false} CountCorrectAppend(pending: seq<Entry>, tail: seq<Entry>)
    ensures CountCorrect(pending + tail) == CountCorrect(pending) + CountCorrect(tail)
    decreases |tail|
  {
    if tail == [] {
      assert pending + tail == pending;
    } else {
      var n := |tail| - 1;
      CountCorrectAppend(pending, tail[..n]);
      assert (pending + tail)[..|pending + tail| - 1] == pending + tail[..n];
      assert (pending + tail)[|pending + tail| - 1] == tail[n];
    }
  }

  /** A queue whose entries are all flagged correct counts all of them. */
  lemma {:induction false} CountCorrectAll(pending: seq<Entry>)
    requires forall i :: 0 <= i < |pending| ==> pending[i].isCorrect
    ensures CountCorrect(pending) == |pending|
  {
    if pending != [] {
      CountCorrectAll(pending[..|pending| - 1]);
    }
  }

  /** A queue with no entry flagged correct counts zero. */
  lemma {:induction false} CountCorrectNone(pending: seq<Entry>)
    requires forall i :: 0 <= i < |pending| ==> !pending[i].isCorrect
    ensures CountCorrect(pending) == 0
  {
    if pending != [] {
      CountCorrectNone(pending[..|pending| - 1]);
    }
  }

  /** The number of '✓' entries in a row's feedback is the number of columns that equal the answer. */
  lemma {:induction false} CountCorrectIsMatchCount<T>(rowIndex: nat, cells: seq<Cell<T>>, answer: seq<T>)
    requires |cells| <= |answer|
    ensures CountCorrect(Feedback(rowIndex, cells, answer)) == MatchCount(cells, answer)
  {
    if cells != [] {
      var k := |cells| - 1;
      CountCorrectIsMatchCount(rowIndex, cells[..k], answer);
      var tail := if cells[k].content.Some? then [Judge(rowIndex, k, cells[k].content.value, answer)] else [];
      CountCorrectAppend(Feedback(rowIndex, cells[..k], answer), tail);
      if cells[k].content.Some? {
        assert tail[..0] == [];
      }
    }
  }

  lemma {:induction false} MatchCountFull<T>(cells: seq<Cell<T>>, answer: seq<T>)
    requires |cells| <= |answer|
    ensures MatchCount(cells, answer) <= |cells|
    ensures MatchCount(cells, answer) == |cells| <==> forall c :: 0 <= c < |cells| ==> cells[c].content == Some(answer[c])
  {
    if cells != [] {
      var k := |cells| - 1;
      MatchCountFull(cells[..k], answer);
      assert forall c :: 0 <= c < k ==> cells[..k][c] == cells[c];
    }
  }

  /**
   * The reveal's win test: the feedback of a full-width row has as many
   * '✓' entries as there are columns exactly when every column holds the
   * answer's value at that column (so the row is complete and right).
   */
  lemma FeedbackWinIff<T>(rowIndex: nat, cells: seq<Cell<T>>, answer: seq<T>)
    requires |cells| == |answer|
    ensures CountCorrect(Feedback(rowIndex, cells, answer)) == |answer|
      <==> IsRowComplete(cells) && forall c :: 0 <= c < |cells| ==> cells[c].content.value == answer[c]
  {
    CountCorrectIsMatchCount(rowIndex, cells, answer);
    MatchCountFull(cells, answer);
  }

  /** checkAnswer's inner loop: push one entry per filled column, in column order. */
  method BuildFeedback<T(==)>(rowIndex: nat, cells: seq<Cell<T>>, answer: seq<T>) returns (symbols: seq<Entry>)
    requires |cells| <= |answer|
    ensures symbols == Feedback(rowIndex, cells, answer)
  {
    symbols := [];
    for colIndex := 0 to |cells|
      invariant symbols == Feedback(rowIndex, cells[..colIndex], answer)
    {
      assert cells[..colIndex + 1][..colIndex] == cells[..colIndex];
      var cell := cells[colIndex];
      if cell.content.Some? {
        var guessed := cell.content.value;
        var correct := answer[colIndex];
        if guessed == correct {
          symbols := symbols + [Entry(rowIndex, colIndex, Tick, true)];
        } else if guessed in answer {
          symbols := symbols + [Entry(rowIndex, colIndex, Ring, false)];
        } else {
          symbols := symbols + [Entry(rowIndex, colIndex, Cross, false)];
        }
      }
    }
    assert cells[..|cells|] == cells;
  }

  // ---------------------------------------------------------------------
  // Searching the grid
  // ---------------------------------------------------------------------

  /** The highest non-header row below hi that satisfies p, if any. */
  function LastRowWhere<T>(grid: seq<Row<T>>, p: Row<T> -> bool, hi: nat): (k: Option<nat>)
    requires hi <= |grid|
    ensures k.Some? ==> 1 <= k.value < hi && p(grid[k.value]) && forall j :: k.value < j < hi ==> !p(grid[j])
    ensures k.None? ==> forall j :: 1 <= j < hi ==> !p(grid[j])
    decreases hi
  {
    if hi <= 1 then None
    else if p(grid[hi - 1]) then Some(hi - 1)
    else LastRowWhere(grid, p, hi - 1)
  }

  /** The backwards `for (i = grid.length - 1; i >= 1; i--)` search of checkAnswer and autoPopulate. */
  method FindLastRow<T>(grid: seq<Row<T>>, p: Row<T> -> bool) returns (k: Option<nat>)
    ensures k == LastRowWhere(grid, p, |grid|)
  {
    var i := |grid| - 1;
    while i >= 1
      invariant 0 <= i + 1 <= |grid|
      invariant LastRowWhere(grid, p, |grid|) == LastRowWhere(grid, p, i + 1)
    {
      if p(grid[i]) {
        return Some(i);
      }
      i := i - 1;
    }
    return None;
  }

  /** The lowest row at or above lo that is a winning row, if any. */
  function WinningRowFrom<T>(grid: seq<Row<T>>, lo: nat): (w: Option<nat>)
    ensures w.Some? ==> lo <= w.value < |grid| && RowWins(grid[w.value]) && forall j :: lo <= j < w.value ==> !RowWins(grid[j])
    ensures w.None? ==> forall j :: lo <= j < |grid| ==> !RowWins(grid[j])
    decreases |grid| - lo
  {
    if lo >= |grid| then None
    else if RowWins(grid[lo]) then Some(lo)
    else WinningRowFrom(grid, lo + 1)
  }

  /** checkForWinner: scan rows 1, 2, ... and report the first winning one. */
  method FindWinner<T>(grid: seq<Row<T>>) returns (w: Option<nat>)
    ensures w == WinningRowFrom(grid, 1)
  {
    var rowIndex := 1;
    while rowIndex < |grid|
      invariant 1 <= rowIndex
      invariant WinningRowFrom(grid, 1) == WinningRowFrom(grid, rowIndex)
    {
      if RowWins(grid[rowIndex]) {
        return Some(rowIndex);
      }
      rowIndex := rowIndex + 1;
    }
    return None;
  }

  // ---------------------------------------------------------------------
  // Growing the grid
  // ---------------------------------------------------------------------

  /**
   * checkAndAddNewRow: append one empty row exactly when the last row is
   * complete and the grid is shorter than maxRows (which counts the header).
   */
  function AddRowIfComplete<T>(grid: seq<Row<T>>, maxRows: nat, numColumns: nat): (g: seq<Row<T>>)
    requires |grid| >= 1 && grid[|grid| - 1].Guess?
    ensures |g| == |grid| || |g| == |grid| + 1
    ensures g[..|grid|] == grid
    ensures |g| == |grid| + 1 <==> IsRowComplete(grid[|grid| - 1].cells) && |grid| < maxRows
    ensures |g| == |grid| + 1 ==> g[|grid|] == Guess(EmptyRow(numColumns))
    ensures |g| <= maxRows || g == grid
  {
    if IsRowComplete(grid[|grid| - 1].cells) && |grid| < maxRows then grid + [Guess(EmptyRow(numColumns))]
    else grid
  }

  /** The row autoPopulate builds from a checked row: its '✓' values in place, nothing else. */
  function CarryRow<T>(cells: seq<Cell<T>>): (r: seq<Cell<T>>)
    ensures |r| == |cells|
    ensures forall c :: 0 <= c < |cells| ==>
      && r[c].symbol == None
      && (r[c].content.Some? <==> cells[c].symbol == Some(Tick) && cells[c].content.Some?)
      && (r[c].content.Some? ==> r[c].content == cells[c].content)
  {
    seq(|cells|, c requires 0 <= c < |cells| =>
      Cell(if cells[c].symbol == Some(Tick) then cells[c].content else None, None))
  }

  /**
   * autoPopulate: when some non-header row shows a symbol and the grid is
   * below maxRows, append one row carrying the '✓' values of the last such
   * row; otherwise leave the grid as it is.
   */
  function CarryForward<T>(grid: seq<Row<T>>, maxRows: nat): (g: seq<Row<T>>)
    ensures |g| == |grid| || |g| == |grid| + 1
    ensures g[..|grid|] == grid
    ensures |g| == |grid| + 1 <==> (exists r :: 1 <= r < |grid| && RowHasSymbol(grid[r])) && |grid| < maxRows
    ensures |g| == |grid| + 1 ==>
      var k := LastRowWhere(grid, RowHasSymbol, |grid|).value;
      && grid[k].Guess?
      && g[|grid|].Guess? && |g[|grid|].cells| == |grid[k].cells|
      && forall c :: 0 <= c < |grid[k].cells| ==>
           && g[|grid|].cells[c].symbol == None
           && (g[|grid|].cells[c].content.Some? <==> grid[k].cells[c].symbol == Some(Tick) && grid[k].cells[c].content.Some?)
           && (g[|grid|].cells[c].content.Some? ==> g[|grid|].cells[c].content == grid[k].cells[c].content)
  {
    match LastRowWhere(grid, RowHasSymbol, |grid|)
    case None => grid
    case Some(k) => if |grid| < maxRows then grid + [Guess(CarryRow(grid[k].cells))] else grid
  }

  /** autoPopulate's copy loop: start from an empty row and copy each '✓' value across. */
  method CopyCorrect<T>(lastRow: seq<Cell<T>>) returns (newRow: seq<Cell<T>>)
    ensures newRow == CarryRow(lastRow)
  {
    newRow := EmptyRow(|lastRow|);
    for colIndex := 0 to |lastRow|
      invariant |newRow| == |lastRow|
      invariant forall c :: 0 <= c < colIndex ==> newRow[c] == CarryRow(lastRow)[c]
      invariant forall c :: colIndex <= c < |lastRow| ==> newRow[c] == Cell(None, None)
    {
      var cell := lastRow[colIndex];
      if cell.symbol == Some(Tick) && cell.content.Some? {
        newRow := newRow[colIndex := Cell(cell.content, newRow[colIndex].symbol)];
      }
    }
  }

  /** A carried row holds only values that the row it was carried from already held. */
  lemma CarryForwardContents<T>(grid: seq<Row<T>>, maxRows: nat, palette: seq<T>, numColumns: nat)
    requires WellFormed(grid, numColumns) && ContentsFrom(grid, palette)
    ensures WellFormed(CarryForward(grid, maxRows), numColumns)
    ensures ContentsFrom(CarryForward(grid, maxRows), palette)
  {
    var g := CarryForward(grid, maxRows);
    if |g| == |grid| + 1 {
      var k := LastRowWhere(grid, RowHasSymbol, |grid|).value;
      forall r | 1 <= r < |g| ensures g[r].Guess? && |g[r].cells| == numColumns {
        if r < |grid| { assert g[r] == g[..|grid|][r]; }
      }
      forall r, c | 1 <= r < |g| && g[r].Guess? && 0 <= c < |g[r].cells| && g[r].cells[c].content.Some?
        ensures g[r].cells[c].content.value in palette
      {
        if r < |grid| { assert g[r] == g[..|grid|][r]; }
      }
    } else {
      assert g == g[..|grid|];
    }
  }

  // ---------------------------------------------------------------------
  // Editing cells
  // ---------------------------------------------------------------------

  /** Replace one non-header cell; every other row and cell stays as it was. */
  function UpdateCell<T>(grid: seq<Row<T>>, r: nat, c: nat, cell: Cell<T>): (g: seq<Row<T>>)
    requires r < |grid| && grid[r].Guess? && c < |grid[r].cells|
    ensures |g| == |grid| && g[r] == Guess(grid[r].cells[c := cell])
    ensures forall i :: 0 <= i < |grid| && i != r ==> g[i] == grid[i]
  {
    grid[r := Guess(grid[r].cells[c := cell])]
  }

  /** One reveal step: the addressed cell shows the entry's symbol and keeps its value. */
  function Reveal<T>(grid: seq<Row<T>>, e: Entry): (g: seq<Row<T>>)
    requires e.rowIndex < |grid| && grid[e.rowIndex].Guess? && e.colIndex < |grid[e.rowIndex].cells|
    ensures |g| == |grid|
    ensures forall i :: 0 <= i < |grid| && i != e.rowIndex ==> g[i] == grid[i]
    ensures g[e.rowIndex].Guess? && |g[e.rowIndex].cells| == |grid[e.rowIndex].cells|
    ensures forall c :: 0 <= c < |grid[e.rowIndex].cells| && c != e.colIndex ==>
      g[e.rowIndex].cells[c] == grid[e.rowIndex].cells[c]
    ensures g[e.rowIndex].cells[e.colIndex].content == grid[e.rowIndex].cells[e.colIndex].content
    ensures g[e.rowIndex].cells[e.colIndex].symbol == Some(e.symbol)
  {
    var old_cell := grid[e.rowIndex].cells[e.colIndex];
    UpdateCell(grid, e.rowIndex, e.colIndex, Cell(old_cell.content, Some(e.symbol)))
  }

  lemma RevealKeepsShape<T>(grid: seq<Row<T>>, e: Entry, numColumns: nat, palette: seq<T>)
    requires WellFormed(grid, numColumns) && ContentsFrom(grid, palette)
    requires 1 <= e.rowIndex < |grid| && e.colIndex < numColumns
    ensures WellFormed(Reveal(grid, e), numColumns) && ContentsFrom(Reveal(grid, e), palette)
    ensures Reveal(grid, e)[0] == grid[0]
  {
    var old_cell := grid[e.rowIndex].cells[e.colIndex];
    UpdateCellKeepsShape(grid, e.rowIndex, e.colIndex, Cell(old_cell.content, Some(e.symbol)), numColumns, palette);
  }

  lemma UpdateCellKeepsShape<T>(grid: seq<Row<T>>, r: nat, c: nat, cell: Cell<T>, numColumns: nat, palette: seq<T>)
    requires WellFormed(grid, numColumns) && 1 <= r < |grid| && c < numColumns
    requires ContentsFrom(grid, palette)
    requires cell.content.Some? ==> cell.content.value in palette
    ensures WellFormed(UpdateCell(grid, r, c, cell), numColumns)
    ensures ContentsFrom(UpdateCell(grid, r, c, cell), palette)
  {
  }

  /** clearSymbols on one row: the header is kept, every cell keeps its value and loses its symbol. */
  function ClearRowSymbols<T>(row: Row<T>): Row<T>
  {
    match row
    case Header(_) => row
    case Guess(cells) => Guess(seq(|cells|, c requires 0 <= c < |cells| => Cell(cells[c].content, None)))
  }

  /** clearSymbols: map every non-header row through ClearRowSymbols. */
  function StripSymbols<T>(grid: seq<Row<T>>): (g: seq<Row<T>>)
    ensures |g| == |grid|
    ensures |grid| > 0 ==> g[0] == grid[0]
    ensures forall r :: 1 <= r < |grid| && grid[r].Header? ==> g[r] == grid[r]
    ensures forall r :: 1 <= r < |grid| && grid[r].Guess? ==>
      && g[r].Guess? && |g[r].cells| == |grid[r].cells|
      && forall c :: 0 <= c < |grid[r].cells| ==> g[r].cells[c].content == grid[r].cells[c].content && g[r].cells[c].symbol == None
  {
    seq(|grid|, r requires 0 <= r < |grid| => if r == 0 then grid[0] else ClearRowSymbols(grid[r]))
  }

  /**
   * After clearSymbols the header is unchanged, every value stays where it
   * was, no cell shows a symbol, so no row wins and there is nothing for
   * carry-forward to copy; doing it twice is the same as doing it once.
   */
  lemma StripSymbolsMeaning<T>(grid: seq<Row<T>>, numColumns: nat, maxRows: nat)
    requires WellFormed(grid, numColumns) && numColumns >= 1
    ensures var g := StripSymbols(grid);
      && WellFormed(g, numColumns)
      && g[0] == grid[0]
      && (forall r, c :: 1 <= r < |g| && 0 <= c < numColumns ==>
            g[r].cells[c].content == grid[r].cells[c].content && g[r].cells[c].symbol == None)
      && WinningRowFrom(g, 1) == None
      && LastRowWhere(g, RowHasSymbol, |g|) == None
      && CarryForward(g, maxRows) == g
      && StripSymbols(g) == g
  {
    var g := StripSymbols(grid);
    assert forall r :: 1 <= r < |g| ==> g[r] == ClearRowSymbols(grid[r]);
    forall r | 1 <= r < |g| ensures !RowWins(g[r]) && !RowHasSymbol(g[r]) {
      assert g[r].cells[0].symbol == None;
    }
    assert CarryForward(g, maxRows) == g;
    var gg := StripSymbols(g);
    forall r | 0 <= r < |g| ensures gg[r] == g[r] {
      if r >= 1 {
        assert ClearRowSymbols(g[r]).cells == g[r].cells;
      }
    }
  }

  /** No two cells of a row hold the same value (empty cells aside). */
  ghost predicate NoDuplicates<T>(cells: seq<Cell<T>>)
  {
    forall i, j :: 0 <= i < |cells| && 0 <= j < |cells| && i != j && cells[i].content.Some? ==> cells[i].content != cells[j].content
  }

  /** Another column of the row than col already holds v. */
  predicate UsedElsewhere<T(==)>(cells: seq<Cell<T>>, col: nat, v: T)
  {
    exists i :: 0 <= i < |cells| && i != col && cells[i].content == Some(v)
  }

  /** The duplicate scan of the number game's dropItem. */
  method FindDuplicate<T(==)>(cells: seq<Cell<T>>, col: nat, v: T) returns (found: bool)
    ensures found <==> UsedElsewhere(cells, col, v)
  {
    for i := 0 to |cells|
      invariant forall j :: 0 <= j < i && j != col ==> cells[j].content != Some(v)
    {
      if i != col && cells[i].content == Some(v) {
        return true;
      }
    }
    return false;
  }

  /** Placing a value that no other column holds keeps a duplicate-free row duplicate-free. */
  lemma PlacementKeepsNoDuplicates<T>(cells: seq<Cell<T>>, col: nat, v: T, symbol: Option<Mark>)
    requires col < |cells| && NoDuplicates(cells) && !UsedElsewhere(cells, col, v)
    ensures NoDuplicates(cells[col := Cell(Some(v), symbol)])
  {
  }

  /** Clearing a cell keeps a duplicate-free row duplicate-free. */
  lemma ClearingKeepsNoDuplicates<T>(cells: seq<Cell<T>>, col: nat)
    requires col < |cells| && NoDuplicates(cells)
    ensures NoDuplicates(cells[col := Cell(None, None)])
  {
  }

  /** The row carried forward from a duplicate-free row is duplicate-free. */
  lemma CarryRowNoDuplicates<T>(cells: seq<Cell<T>>)
    requires NoDuplicates(cells)
    ensures NoDuplicates(CarryRow(cells))
  {
  }

  // ---------------------------------------------------------------------
  // The reset that keeps the reveal queue
  // ---------------------------------------------------------------------

  /**
   * A check that targets row k >= 2 queues at least one entry for row k,
   * and once the grid is rebuilt as the two-row fresh grid that entry
   * addresses a row that no longer exists.
   */
  lemma QueueOutlivesReset<T>(grid: seq<Row<T>>, answer: seq<T>, headers: seq<string>, numColumns: nat)
    requires WellFormed(grid, numColumns) && numColumns <= |answer|
    requires LastRowWhere(grid, RowHasContent, |grid|).Some?
    requires LastRowWhere(grid, RowHasContent, |grid|).value >= 2
    ensures var k := LastRowWhere(grid, RowHasContent, |grid|).value;
      && QueueFits(Feedback(k, grid[k].cells, answer), |grid|, numColumns)
      && Feedback(k, grid[k].cells, answer) != []
      && !QueueFits(Feedback(k, grid[k].cells, answer), |FreshGrid<T>(headers, numColumns)|, numColumns)
  {
    var k := LastRowWhere(grid, RowHasContent, |grid|).value;
    assert 2 <= k < |grid| && RowHasContent(grid[k]);
    RowQueueFits(grid, k, answer, numColumns);
    FeedbackNonEmpty(k, grid[k].cells, answer);
  }

  /** The feedback queue for any non-header row k fits the grid it was built from. */
  lemma RowQueueFits<T>(grid: seq<Row<T>>, k: nat, answer: seq<T>, numColumns: nat)
    requires WellFormed(grid, numColumns) && numColumns <= |answer|
    requires 1 <= k < |grid|
    ensures QueueFits(Feedback(k, grid[k].cells, answer), |grid|, numColumns)
  {
    FeedbackSound(k, grid[k].cells, answer);
  }

  /** A row with at least one filled cell yields a non-empty feedback queue, led by an entry for that row. */
  lemma FeedbackNonEmpty<T>(rowIndex: nat, cells: seq<Cell<T>>, answer: seq<T>)
    requires |cells| <= |answer|
    requires exists c :: 0 <= c < |cells| && cells[c].content.Some?
    ensures Feedback(rowIndex, cells, answer) != []
    ensures Feedback(rowIndex, cells, answer)[0].rowIndex == rowIndex
  {
    FeedbackCovers(rowIndex, cells, answer);
    FeedbackSound(rowIndex, cells, answer);
    var c :| 0 <= c < |cells| && cells[c].content.Some?;
    assert HasEntryFor(Feedback(rowIndex, cells, answer), c);
  }

  // ---------------------------------------------------------------------
  // Shared helpers
  // ---------------------------------------------------------------------

  function Min(a: nat, b: nat): nat
  {
    if a <= b then a else b
  }

  predicate IsAsciiDigit(ch: char)
  {
    '0' <= ch <= '9'
  }

  /** The character that prints the digit d. */
  function DigitChar(d: nat): char
    requires d < 10
  {
    ('0' as int + d) as char
  }

  /** The bounds applyGridSettings accepts: 3-10 columns and 3-12 rows. */
  predicate SettingsInRange(newColumns: int, newMaxRows: int)
  {
    3 <= newColumns <= 10 && 3 <= newMaxRows <= 12
  }
}
