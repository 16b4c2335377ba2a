/**
 * The layout engine: it wraps batches of logical lines into the rows of a
 * fixed-width grid, grows the grid in steps of ROWS_STEP rows, and keeps
 * track of how many rows and columns hold laid-out content.
 */
module Layout {
  import opened Grid
  import opened Lines
  import opened RowCount
  import opened Placement

  class ModelLayout {
    var model: UiModel
    var rowsFilled: nat
    var colsFilled: nat

    ghost predicate Valid()
      reads this, model
    {
      && model.Valid()
      && model.columns > 0
      && model.rows >= ROWS_STEP && model.rows % ROWS_STEP == 0
      && rowsFilled <= model.rows
      && colsFilled <= model.columns
    }

    /** An engine over a grid of ROWS_STEP blank rows of the given width. */
    constructor (columns: nat)
      requires columns > 0
      ensures Valid() && fresh(model) && fresh(model.cells)
      ensures model.rows == ROWS_STEP && model.columns == columns
      ensures rowsFilled == 0 && colsFilled == 0
      ensures model.GetCursor() == (0, 0)
      ensures forall r, c :: 0 <= r < model.rows && 0 <= c < model.columns ==> model.cells[r, c] == Blank()
    {
      model := new UiModel(ROWS_STEP, columns);
      rowsFilled, colsFilled := 0, 0;
    }

    /**
     * What laying out lines from row off demands: every character lands inside
     * the grid as it is after the capacity check, and a growth can copy the
     * filled rows (rows_filled - 1 must not underflow, and the filled rows must
     * fit in the new grid).
     */
    ghost predicate CanLayout(off: nat, lines: seq<Line>)
      reads this, model
    {
      var need := off + Estimate(lines, model.columns);
      && model.columns > 0
      && off + Rows(lines, model.columns) <= Capacity(model.rows, need)
      && (need > model.rows ==> 0 < rowsFilled <= NewCapacity(need))
    }

    /** The state after lines have been laid out from row off, relative to the state before. */
    twostate predicate LaidOut(off: nat, lines: seq<Line>)
      requires old(Valid())
      reads this, model, model.cells
    {
      var cols := model.columns;
      var need := off + Estimate(lines, cols);
      && Placed(off, lines)
      && colsFilled == (if need == 1 then MaxCol(lines, |lines|, cols) + 1 else Max(old(colsFilled), MaxCol(lines, |lines|, cols) + 1))
    }

    /** LaidOut but for cols_filled: the grid, rows_filled, the cursor and every cell. */
    twostate predicate Placed(off: nat, lines: seq<Line>)
      requires old(Valid())
      reads this, model, model.cells
    {
      var cols := model.columns;
      var need := off + Estimate(lines, cols);
      var grew := need > old(model.rows);
      && model.Valid()
      && cols == old(model.columns) && cols > 0
      && model.rows == Capacity(old(model.rows), need)
      && model.rows >= old(model.rows)
      && (grew ==> fresh(model))
      && (!grew ==> model == old(model))
      && rowsFilled == need
      && model.GetCursor() == CursorAfter(old(model.GetCursor()), off, lines, |lines|, cols)
      && forall r, c :: 0 <= r < model.rows && 0 <= c < cols ==>
           model.cells[r, c] == BatchCell(
             if need <= old(model.rows) then old(model.cells[r, c]) else if r < old(rowsFilled) then old(model.cells[r, c]) else Blank(),
             r, c, off, lines, |lines|, cols)
    }

    /** Lays lines out below the rows already filled. */
    method LayoutAppend(lines: seq<Line>)
      requires Valid() && CanLayout(rowsFilled, lines)
      modifies this, model, model.cells
      ensures Valid() && LaidOut(old(rowsFilled), lines)
    {
      var rowsFilled := this.rowsFilled;
      LayoutReplace(rowsFilled, lines);
    }

    /** Lays lines out from the first row, replacing what was filled. */
    method Layout(lines: seq<Line>)
      requires Valid() && CanLayout(0, lines)
      modifies this, model, model.cells
      ensures Valid() && LaidOut(0, lines)
    {
      LayoutReplace(0, lines);
    }

    /** Puts the cursor on the last filled row (row 0 when none is), at column col. */
    method SetCursor(col: nat)
      requires Valid()
      modifies model
      ensures model.GetCursor() == (if rowsFilled > 0 then rowsFilled - 1 else 0, col)
    {
      var row := if rowsFilled > 0 then rowsFilled - 1 else 0;
      model.SetCursor(row, col);
    }

    /** (width, height) of the content: the width also covers the cell just right of the cursor. */
    function Size(): (r: (nat, nat))
      reads this, model
      ensures r.1 == rowsFilled
      ensures r.0 >= colsFilled && r.0 >= model.curCol + 1
      ensures r.0 == colsFilled || r.0 == model.curCol + 1
    {
      (Max(colsFilled, model.GetCursor().1 + 1), rowsFilled)
    }

    /**
     * Grows the grid when rows exceed its row count: the new grid has
     * NewCapacity(rows) rows and the same width, holds the filled rows, is
     * blank below them, and has the same cursor.
     */
    method CheckModelSize(rows: nat)
      requires Valid()
      requires rows > model.rows ==> 0 < rowsFilled <= NewCapacity(rows)
      modifies this`model
      ensures Valid()
      ensures model.columns == old(model.columns)
      ensures model.rows == Capacity(old(model.rows), rows)
      ensures rows <= old(model.rows) ==> model == old(model)
      ensures rows > old(model.rows) ==> fresh(model) && fresh(model.cells)
      ensures model.GetCursor() == old(model.GetCursor())
      ensures forall r, c :: 0 <= r < model.rows && 0 <= c < model.columns ==>
        model.cells[r, c] ==
          if rows <= old(model.rows) then old(model.cells[r, c])
          else if r < rowsFilled then old(model.cells[r, c])
          else Blank()
    {
      if rows > model.rows {
        var modelCols := model.columns;
        var modelRows := ((rows / (ROWS_STEP + 1)) + 1) * ROWS_STEP;
        var (curRow, curCol) := model.GetCursor();
        var m := new UiModel(modelRows, modelCols);
        model.CopyRows(m, rowsFilled - 1);
        m.SetCursor(curRow, curCol);
        model := m;
      }
    }

    /**
     * Writes the first character of c, without attributes, at the cursor; an
     * empty c, or a shifted insert, changes nothing.
     */
    method Insert(c: string, shift: bool)
      requires Valid()
      requires |c| > 0 && !shift ==> model.CursorInGrid()
      modifies model, model.cells
      ensures Valid() && rowsFilled == old(rowsFilled) && colsFilled == old(colsFilled)
      ensures |c| == 0 || shift ==> unchanged(model, model.cells)
      ensures |c| > 0 && !shift ==>
        && model.GetCursor() == AfterPut(old(model.curRow), old(model.curCol), model.columns)
        && model.cells[model.curRow, old(model.curCol)] == Cell(c[0], None)
        && forall r, col :: 0 <= r < model.rows && 0 <= col < model.columns && (r, col) != (model.curRow, old(model.curCol)) ==>
             model.cells[r, col] == old(model.cells[r, col])
    {
      if |c| == 0 {
        return;
      }
      if shift {
        // A shifted insert is not implemented.
      } else {
        model.Put(c[0], None);
      }
    }

    /**
     * The first half of layout_replace: counts the rows the lines are
     * estimated to need, grows the grid to hold off plus that many rows, and
     * records that count as rows_filled. Returns the estimate.
     */
    method Reserve(off: nat, lines: seq<Line>) returns (rows: nat)
      requires Valid() && CanLayout(off, lines)
      modifies this`model, this`rowsFilled
      ensures Valid()
      ensures rows == Estimate(lines, model.columns) && rowsFilled == off + rows
      ensures model.columns == old(model.columns)
      ensures model.rows == Capacity(old(model.rows), off + rows)
      ensures model.rows >= old(model.rows)
      ensures off + rows <= old(model.rows) ==> model == old(model)
      ensures off + rows > old(model.rows) ==> fresh(model) && fresh(model.cells)
      ensures model.GetCursor() == old(model.GetCursor())
      ensures StartRow(off, lines, |lines|, model.columns) <= model.rows
      ensures forall r, c :: 0 <= r < model.rows && 0 <= c < model.columns ==>
        model.cells[r, c] ==
          if off + rows <= old(model.rows) then old(model.cells[r, c])
          else if r < old(rowsFilled) then old(model.cells[r, c])
          else Blank()
    {
      var cols := model.columns;
      rows := CountLines(lines, cols);
      CheckModelSize(off + rows);
      assert off + rows <= StartRow(off, lines, |lines|, cols) <= model.rows by {
        EstimateAtMostRows(lines, cols);
        StartRowIs(off, lines, |lines|, cols);
        assert lines[..|lines|] == lines;
      }
      rowsFilled := off + rows;
    }

    /**
     * Lays out lines from row off: reserves their estimated rows (growing the
     * grid if needed), writes every logical line from column 0 of its first
     * row, and updates cols_filled.
     */
    method LayoutReplace(off: nat, lines: seq<Line>)
      requires Valid() && CanLayout(off, lines)
      modifies this, model, model.cells
      ensures Valid() && LaidOut(off, lines)
    {
      var maxColIdx := ReserveAndWrite(off, lines);
      if rowsFilled == 1 {
        colsFilled := maxColIdx + 1;
      } else {
        colsFilled := Max(colsFilled, maxColIdx + 1);
      }
    }

    /**
     * The body of layout_replace up to the cols_filled update: reserves the
     * rows and writes the batch. Returns the widest column written.
     */
    method ReserveAndWrite(off: nat, lines: seq<Line>) returns (maxColIdx: nat)
      requires Valid() && CanLayout(off, lines)
      modifies this, model, model.cells
      ensures Valid() && Placed(off, lines) && colsFilled == old(colsFilled)
      ensures maxColIdx == MaxCol(lines, |lines|, model.columns)
    {
      var rows := Reserve(off, lines);
      maxColIdx := WriteLines(model, off, lines);
      assert model.GetCursor() == CursorAfter(old(model.GetCursor()), off, lines, |lines|, model.columns);
      assert forall r, c :: 0 <= r < model.rows && 0 <= c < model.columns ==>
        model.cells[r, c] == BatchCell(
          if off + rows <= old(model.rows) then old(model.cells[r, c]) else if r < old(rowsFilled) then old(model.cells[r, c]) else Blank(),
          r, c, off, lines, |lines|, model.columns);
    }
  }

  /**
   * Writes a batch of logical lines from row off, each from column 0 of the
   * row after the previous one. Returns the widest column written.
   */
  method WriteLines(m: UiModel, off: nat, lines: seq<Line>) returns (maxColIdx: nat)
    requires m.Valid() && m.columns > 0 && StartRow(off, lines, |lines|, m.columns) <= m.rows
    modifies m, m.cells
    ensures maxColIdx == MaxCol(lines, |lines|, m.columns)
    ensures (m.curRow, m.curCol) == CursorAfter(old((m.curRow, m.curCol)), off, lines, |lines|, m.columns)
    ensures forall r, c :: 0 <= r < m.rows && 0 <= c < m.columns ==>
      m.cells[r, c] == BatchCell(old(m.cells[r, c]), r, c, off, lines, |lines|, m.columns)
  {
    var cols := m.columns;
    ghost var cur0 := (m.curRow, m.curCol);
    maxColIdx := 0;
    var colIdx: nat := 0;
    var rowIdx: nat := off;
    for i := 0 to |lines|
      modifies m, m.cells
      invariant rowIdx == StartRow(off, lines, i, cols) && colIdx == 0
      invariant maxColIdx == MaxCol(lines, i, cols)
      invariant (m.curRow, m.curCol) == CursorAfter(cur0, off, lines, i, cols)
      invariant forall r, c :: 0 <= r < m.rows && 0 <= c < cols ==>
        m.cells[r, c] == BatchCell(old(m.cells[r, c]), r, c, off, lines, i, cols)
    {
      rowIdx, colIdx, maxColIdx := WriteLineAt(m, off, lines, i, rowIdx, maxColIdx, cur0);
      rowIdx := rowIdx + 1;
      colIdx := 0;
    }
  }

  /**
   * Writes logical line i of a batch laid out from row off: it starts on
   * the row after the lines before it, and afterwards the widest column and
   * the cursor are those of the first i + 1 lines.
   */
  method WriteLineAt(m: UiModel, off: nat, lines: seq<Line>, i: nat, rowIdx: nat, maxColIdx: nat, ghost cur0: (nat, nat))
    returns (rowIdx': nat, colIdx': nat, maxColIdx': nat)
    requires m.Valid() && m.columns > 0 && i < |lines| && StartRow(off, lines, |lines|, m.columns) <= m.rows
    requires rowIdx == StartRow(off, lines, i, m.columns)
    requires maxColIdx == MaxCol(lines, i, m.columns)
    requires (m.curRow, m.curCol) == CursorAfter(cur0, off, lines, i, m.columns)
    modifies m, m.cells
    ensures rowIdx' + 1 == StartRow(off, lines, i + 1, m.columns)
    ensures maxColIdx' == MaxCol(lines, i + 1, m.columns)
    ensures (m.curRow, m.curCol) == CursorAfter(cur0, off, lines, i + 1, m.columns)
    ensures forall r, c :: 0 <= r < m.rows && 0 <= c < m.columns ==>
      m.cells[r, c] == LineCell(old(m.cells[r, c]), r - rowIdx, c, lines[i], m.columns)
  {
    LineStep(off, lines, i, m.columns);
    rowIdx', colIdx', maxColIdx' := WriteLine(m, rowIdx, maxColIdx, lines[i]);
  }

  /**
   * Writes one character at the loop's position (rowIdx, colIdx), first
   * wrapping to the next row once colIdx has reached the width; returns the
   * position after it and the widest column written.
   */
  method WriteChar(m: UiModel, rowIdx: nat, colIdx: nat, maxColIdx: nat, ch: char, attrs: Option<Attrs>)
    returns (rowIdx': nat, colIdx': nat, maxColIdx': nat)
    requires m.Valid() && m.columns > 0 && colIdx <= m.columns
    requires Wrap(Pos(rowIdx, colIdx), m.columns).row < m.rows
    modifies m, m.cells
    ensures var p := Wrap(Pos(rowIdx, colIdx), m.columns);
      && Pos(rowIdx', colIdx') == Pos(p.row, p.col + 1)
      && maxColIdx' == Max(maxColIdx, p.col)
      && (m.curRow, m.curCol) == AfterPut(p.row, p.col, m.columns)
      && forall r, c :: 0 <= r < m.rows && 0 <= c < m.columns ==>
           m.cells[r, c] == if (r, c) == (p.row, p.col) then Cell(ch, attrs) else old(m.cells[r, c])
  {
    rowIdx', colIdx' := rowIdx, colIdx;
    if colIdx' >= m.columns {
      colIdx' := 0;
      rowIdx' := rowIdx' + 1;
    }
    m.SetCursor(rowIdx', colIdx');
    m.Put(ch, attrs);
    maxColIdx' := maxColIdx;
    if maxColIdx' < colIdx' {
      maxColIdx' := colIdx';
    }
    colIdx' := colIdx' + 1;
  }

  /**
   * One step of the character loop of a line that started at row row0 on
   * column 0 and has written the cells w: the next character lands at
   * position |w| of the line, (row0 + |w| / w, |w| % w) for width w, and no
   * other cell changes.
   */
  method WriteCell(m: UiModel, row0: nat, rowIdx: nat, colIdx: nat, maxColIdx: nat, ch: char, attrs: Option<Attrs>,
                   ghost w: seq<Cell>, ghost n: nat, ghost widest: nat)
    returns (rowIdx': nat, colIdx': nat, maxColIdx': nat)
    requires m.Valid() && m.columns > 0
    requires Pos(rowIdx, colIdx) == Lin(row0, |w|, m.columns)
    requires |w| < n && row0 + RowsOf(n, m.columns) <= m.rows
    requires maxColIdx == Max(widest, LineMaxCol(|w|, m.columns))
    modifies m, m.cells
    ensures Pos(rowIdx', colIdx') == Lin(row0, |w| + 1, m.columns)
    ensures maxColIdx' == Max(widest, LineMaxCol(|w| + 1, m.columns))
    ensures colIdx' > 0 && (m.curRow, m.curCol) == AfterPut(rowIdx', colIdx' - 1, m.columns)
    ensures forall r, c :: 0 <= r < m.rows && 0 <= c < m.columns ==>
      m.cells[r, c] == if (r, c) == (row0 + |w| / m.columns, |w| % m.columns) then Cell(ch, attrs) else old(m.cells[r, c])
  {
    CharStep(row0, |w|, n, widest, m.columns);
    rowIdx', colIdx', maxColIdx' := WriteChar(m, rowIdx, colIdx, maxColIdx, ch, attrs);
  }

  /**
   * Writes the characters of one span with the given attributes. The line
   * being written started at row row0 on column 0, w holds the cells it has
   * written so far, n is its length and widest the widest column of the
   * lines before it.
   */
  method WriteChars(m: UiModel, row0: nat, rowIdx: nat, colIdx: nat, maxColIdx: nat,
                    attrs: Option<Attrs>, chars: seq<char>, ghost w: seq<Cell>, ghost n: nat, ghost widest: nat)
    returns (rowIdx': nat, colIdx': nat, maxColIdx': nat)
    requires m.Valid() && m.columns > 0
    requires Pos(rowIdx, colIdx) == Lin(row0, |w|, m.columns)
    requires |w| + |chars| <= n && row0 + RowsOf(n, m.columns) <= m.rows
    requires maxColIdx == Max(widest, LineMaxCol(|w|, m.columns))
    modifies m, m.cells
    ensures Pos(rowIdx', colIdx') == Lin(row0, |w| + |chars|, m.columns)
    ensures maxColIdx' == Max(widest, LineMaxCol(|w| + |chars|, m.columns))
    ensures |chars| == 0 ==> m.curRow == old(m.curRow) && m.curCol == old(m.curCol)
    ensures |chars| > 0 ==> colIdx' > 0 && (m.curRow, m.curCol) == AfterPut(rowIdx', colIdx' - 1, m.columns)
    ensures forall r, c :: 0 <= r < m.rows && 0 <= c < m.columns ==>
      m.cells[r, c] == Written(old(m.cells[r, c]), r - row0, c, w + SpanCells(attrs, chars), |w|, m.columns)
  {
    var cols := m.columns;
    rowIdx', colIdx', maxColIdx' := rowIdx, colIdx, maxColIdx;
    ghost var v := w;
    for k := 0 to |chars|
      modifies m, m.cells
      invariant v == w + SpanCells(attrs, chars[..k])
      invariant Pos(rowIdx', colIdx') == Lin(row0, |v|, cols)
      invariant maxColIdx' == Max(widest, LineMaxCol(|v|, cols))
      invariant k == 0 ==> m.curRow == old(m.curRow) && m.curCol == old(m.curCol)
      invariant k > 0 ==> colIdx' > 0 && (m.curRow, m.curCol) == AfterPut(rowIdx', colIdx' - 1, cols)
      invariant forall r, c :: 0 <= r < m.rows && 0 <= c < cols ==>
        m.cells[r, c] == Written(old(m.cells[r, c]), r - row0, c, v, |w|, cols)
    {
      ghost var x := Cell(chars[k], attrs);
      rowIdx', colIdx', maxColIdx' := WriteCell(m, row0, rowIdx', colIdx', maxColIdx', chars[k], attrs, v, n, widest);
      forall r, c | 0 <= r < m.rows && 0 <= c < cols
        ensures m.cells[r, c] == Written(old(m.cells[r, c]), r - row0, c, v + [x], |w|, cols)
      {
        WrittenWrite(old(m.cells[r, c]), r, row0, c, v, x, |w|, cols);
      }
      SpanCellsSnoc(attrs, chars, k);
      v := v + [x];
    }
    assert chars[..|chars|] == chars;
  }

  /**
   * Writes one span of a logical line: its characters, then a clear of the
   * rest of the row unless the column has reached the width.
   */
  method WriteSpan(m: UiModel, row0: nat, rowIdx: nat, colIdx: nat, maxColIdx: nat,
                   span: Span, ghost w: seq<Cell>, ghost n: nat, ghost widest: nat)
    returns (rowIdx': nat, colIdx': nat, maxColIdx': nat)
    requires m.Valid() && m.columns > 0
    requires Pos(rowIdx, colIdx) == Lin(row0, |w|, m.columns)
    requires |w| + |span.chars| <= n && row0 + RowsOf(n, m.columns) <= m.rows
    requires maxColIdx == Max(widest, LineMaxCol(|w|, m.columns))
    modifies m, m.cells
    ensures Pos(rowIdx', colIdx') == Lin(row0, |w| + |span.chars|, m.columns)
    ensures maxColIdx' == Max(widest, LineMaxCol(|w| + |span.chars|, m.columns))
    ensures |span.chars| == 0 ==> m.curRow == old(m.curRow) && m.curCol == old(m.curCol)
    ensures |span.chars| > 0 ==> colIdx' > 0 && (m.curRow, m.curCol) == AfterPut(rowIdx', colIdx' - 1, m.columns)
    ensures forall r, c :: 0 <= r < m.rows && 0 <= c < m.columns ==>
      m.cells[r, c] == SpanCell(old(m.cells[r, c]), r - row0, c, w + SpanCells(span.attrs, span.chars), |w|, m.columns)
  {
    var cols := m.columns;
    ghost var w' := w + SpanCells(span.attrs, span.chars);
    rowIdx', colIdx', maxColIdx' := WriteChars(m, row0, rowIdx, colIdx, maxColIdx, span.attrs, span.chars, w, n, widest);
    LinClear(row0, |w'|, cols);
    LinLastRow(row0, |w'|, n, cols);
    if colIdx' < cols {
      m.ClearRow(rowIdx', colIdx', cols - 1);
    }
  }

  /**
   * Writes one logical line from column 0 of row row0, span after span.
   * Returns the loop's row and column after the line and the widest column
   * written so far.
   */
  method WriteLine(m: UiModel, row0: nat, maxColIdx: nat, content: Line)
    returns (rowIdx: nat, colIdx: nat, maxColIdx': nat)
    requires m.Valid() && m.columns > 0
    requires row0 + RowsOf(LineLen(content), m.columns) <= m.rows
    modifies m, m.cells
    ensures Pos(rowIdx, colIdx) == Lin(row0, LineLen(content), m.columns)
    ensures maxColIdx' == Max(maxColIdx, LineMaxCol(LineLen(content), m.columns))
    ensures LineLen(content) == 0 ==> m.curRow == old(m.curRow) && m.curCol == old(m.curCol)
    ensures LineLen(content) > 0 ==> colIdx > 0 && (m.curRow, m.curCol) == AfterPut(rowIdx, colIdx - 1, m.columns)
    ensures forall r, c :: 0 <= r < m.rows && 0 <= c < m.columns ==>
      m.cells[r, c] == LineCell(old(m.cells[r, c]), r - row0, c, content, m.columns)
  {
    var cols := m.columns;
    ghost var n := LineLen(content);
    ghost var w: seq<Cell> := [];
    rowIdx, colIdx, maxColIdx' := row0, 0, maxColIdx;
    for j := 0 to |content|
      modifies m, m.cells
      invariant w == Flat(content[..j])
      invariant Pos(rowIdx, colIdx) == Lin(row0, |w|, cols)
      invariant maxColIdx' == Max(maxColIdx, LineMaxCol(|w|, cols))
      invariant |w| == 0 ==> m.curRow == old(m.curRow) && m.curCol == old(m.curCol)
      invariant |w| > 0 ==> colIdx > 0 && (m.curRow, m.curCol) == AfterPut(rowIdx, colIdx - 1, cols)
      invariant forall r, c :: 0 <= r < m.rows && 0 <= c < cols ==>
        m.cells[r, c] == OverlayCell(old(m.cells[r, c]), r - row0, c, w, ClearedTo(content[..j], cols), cols)
    {
      var span := content[j];
      ghost var e := ClearedTo(content[..j], cols);
      ghost var w' := w + SpanCells(span.attrs, span.chars);
      SpanStep(content, j, cols);
      rowIdx, colIdx, maxColIdx' := WriteSpan(m, row0, rowIdx, colIdx, maxColIdx', span, w, n, maxColIdx);
      forall r: nat, c: nat | r < m.rows && c < cols
        ensures m.cells[r, c] == OverlayCell(old(m.cells[r, c]), r - row0, c, w', ClearedTo(content[..j + 1], cols), cols)
      {
        SpanOverlay(old(m.cells[r, c]), r - row0, c, w, w', e, cols);
      }
      w := w';
    }
    assert content[..|content|] == content;
  }
}
