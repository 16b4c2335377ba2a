/**
 * Where the write loop of the layout engine puts each character, stated as
 * closed forms: the loop's (row, column) state, the content of every grid cell
 * after a batch has been laid out, the widest column written and where the
 * cursor is left.
 */
module Placement {
  import opened Grid
  import opened Lines
  import opened RowCount

  datatype Pos = Pos(row: nat, col: nat)

  // ---------------------------------------------------------------------------
  // Arithmetic on linear positions: position t of a block stands at row t / w,
  // column t % w.

  lemma DivMono(a: nat, b: nat, columns: nat)
    requires columns > 0 && a <= b
    ensures a / columns <= b / columns
  {
    MulLeDiv(a / columns, b, columns);
  }

  /** Linear order of positions is the lexicographic order of (row, column). */
  lemma LexOrder(t: nat, n: nat, columns: nat)
    requires columns > 0
    ensures t < n <==> t / columns < n / columns || (t / columns == n / columns && t % columns < n % columns)
  {
    var tq, nq := t / columns, n / columns;
    if tq < nq {
      MulMono(tq + 1, nq, columns);
    } else if tq > nq {
      MulMono(nq + 1, tq, columns);
    }
  }

  /**
   * The linear position of row q, column c of a block: q * columns + c,
   * written as a sum so that the cell functions below stay linear.
   */
  function Index(q: nat, c: nat, columns: nat): (i: nat)
  {
    if q == 0 then c else Index(q - 1, c, columns) + columns
  }

  lemma {:induction false} IndexIs(q: nat, c: nat, columns: nat)
    ensures Index(q, c, columns) == q * columns + c
  {
    if q > 0 {
      IndexIs(q - 1, c, columns);
    }
  }

  /** The end of the row that holds position n. */
  function RowEnd(n: nat, columns: nat): (end: nat)
    requires columns > 0
  {
    Index(n / columns + 1, 0, columns)
  }

  lemma RowEndIs(n: nat, columns: nat)
    requires columns > 0
    ensures RowEnd(n, columns) == (n / columns + 1) * columns
  {
    IndexIs(n / columns + 1, 0, columns);
  }

  /** Position q * w + c (c < w) lies before the end of n's row iff q is at most n's row. */
  lemma BeforeRowEnd(q: nat, c: nat, n: nat, columns: nat)
    requires columns > 0 && c < columns
    ensures q * columns + c < RowEnd(n, columns) <==> q <= n / columns
    ensures q * columns + c >= n && q * columns + c < RowEnd(n, columns) <==> q == n / columns && c >= n % columns
  {
    var t := q * columns + c;
    RowEndIs(n, columns);
    DivModUnique(t, q, c, columns);
    DivModUnique(RowEnd(n, columns), n / columns + 1, 0, columns);
    LexOrder(t, RowEnd(n, columns), columns);
    LexOrder(t, n, columns);
  }

  // ---------------------------------------------------------------------------
  // The (row_idx, col_idx) state of the write loop.

  /** The wrap check done before each character: wrap to the next row once the column reaches the width. */
  function Wrap(p: Pos, columns: nat): (w: Pos)
    ensures columns > 0 ==> w.col < columns
    ensures w == p <==> p.col < columns
    ensures w == p || w == Pos(p.row + 1, 0)
  {
    if p.col >= columns then Pos(p.row + 1, 0) else p
  }

  /**
   * The loop state after a characters of a line that started at row r on
   * column 0: a = 0 leaves the start, otherwise the column stands just right
   * of the last character, possibly equal to the width.
   */
  function Lin(r: nat, a: nat, columns: nat): (p: Pos)
    requires columns > 0
  {
    if a == 0 then Pos(r, 0) else Pos(r + (a - 1) / columns, (a - 1) % columns + 1)
  }

  /** Character a of a line starting at row r is written at (r + a / w, a % w), and the loop moves on to state a + 1. */
  lemma LinStep(r: nat, a: nat, columns: nat)
    requires columns > 0
    ensures Wrap(Lin(r, a, columns), columns) == Pos(r + a / columns, a % columns)
    ensures Lin(r, a + 1, columns) == Pos(r + a / columns, a % columns + 1)
  {
    if a > 0 {
      var b := a - 1;
      var q, c := b / columns, b % columns;
      assert a == q * columns + (c + 1);
      if c + 1 < columns {
        DivModUnique(a, q, c + 1, columns);
      } else {
        assert a == (q + 1) * columns + 0;
        DivModUnique(a, q + 1, 0, columns);
      }
    }
  }

  /** The column check after a span: the rest of the row is cleared unless the column has reached the width. */
  lemma LinClear(r: nat, a: nat, columns: nat)
    requires columns > 0
    ensures Lin(r, a, columns).col < columns <==> a == 0 || a % columns != 0
    ensures Lin(r, a, columns).col < columns ==> Lin(r, a, columns) == Pos(r + a / columns, a % columns)
  {
    LinStep(r, a, columns);
  }

  /**
   * For every state a <= n of a line of n characters, the loop stays on the
   * line's rows, and its column never exceeds the width.
   */
  lemma LinLastRow(r: nat, a: nat, n: nat, columns: nat)
    requires columns > 0 && a <= n
    ensures Lin(r, a, columns).row < r + RowsOf(n, columns)
    ensures Lin(r, a, columns).col <= columns
  {
    if a > 0 {
      DivMono(a - 1, n - 1, columns);
    }
  }

  // ---------------------------------------------------------------------------
  // Cells after layout.

  /**
   * A cell of the block rows of one logical line, at row offset q and column
   * c: positions before |w| hold the cells written so far, positions before e
   * were blanked by a clear, the rest keep their earlier content v.
   */
  function OverlayCell(v: Cell, q: int, c: nat, w: seq<Cell>, e: nat, columns: nat): (cell: Cell)
  {
    if q < 0 then v
    else
      var t := Index(q, c, columns);
      if t < |w| then w[t] else if t < e then Blank() else v
  }

  /** A cell after the cells w[from..] are written over content v (the cells before from are left alone). */
  function Written(v: Cell, q: int, c: nat, w: seq<Cell>, from: nat, columns: nat): (cell: Cell)
  {
    if q < 0 then v
    else
      var t := Index(q, c, columns);
      if from <= t < |w| then w[t] else v
  }

  /** Writing one more cell x, in a block starting at row row0, changes only the cell at x's position. */
  lemma WrittenWrite(v: Cell, r: nat, row0: nat, c: nat, w: seq<Cell>, x: Cell, from: nat, columns: nat)
    requires columns > 0 && c < columns && from <= |w|
    ensures Written(v, r - row0, c, w + [x], from, columns) ==
      if (r, c) == (row0 + |w| / columns, |w| % columns) then x else Written(v, r - row0, c, w, from, columns)
  {
    if r >= row0 {
      var q := r - row0;
      IndexIs(q, c, columns);
      DivModUnique(q * columns + c, q, c, columns);
    }
  }

  /** Writing the rest of w' over a block that holds its prefix w extends the block to w'. */
  lemma WrittenOverlay(v: Cell, q: int, c: nat, w: seq<Cell>, w': seq<Cell>, e: nat, columns: nat)
    requires w <= w'
    ensures Written(OverlayCell(v, q, c, w, e, columns), q, c, w', |w|, columns) == OverlayCell(v, q, c, w', e, columns)
  {
  }

  /**
   * A cell after one span is written: the cells w[from..] are written over v,
   * then the rest of the row of position |w| is blanked, unless |w| > 0 stands
   * at a row start (the column reached the width, so nothing is cleared).
   */
  function SpanCell(v: Cell, q: int, c: nat, w: seq<Cell>, from: nat, columns: nat): (cell: Cell)
    requires columns > 0
  {
    if (|w| == 0 || |w| % columns != 0) && q == |w| / columns && c >= |w| % columns then Blank()
    else Written(v, q, c, w, from, columns)
  }

  /** Writing a span over a line's block that holds w extends the block to w'. */
  lemma SpanOverlay(v: Cell, q: int, c: nat, w: seq<Cell>, w': seq<Cell>, e: nat, columns: nat)
    requires columns > 0 && c < columns && w <= w' && e <= RowEnd(|w'|, columns)
    ensures SpanCell(OverlayCell(v, q, c, w, e, columns), q, c, w', |w|, columns) ==
      OverlayCell(v, q, c, w', if |w'| > 0 && |w'| % columns == 0 then e else RowEnd(|w'|, columns), columns)
  {
    WrittenOverlay(v, q, c, w, w', e, columns);
    OverlayClear(v, q, c, w', e, columns);
  }

  /** A clear after n written cells blanks the rest of n's row and nothing else. */
  lemma OverlayClear(v: Cell, q: int, c: nat, w: seq<Cell>, e: nat, columns: nat)
    requires columns > 0 && c < columns && e <= RowEnd(|w|, columns)
    ensures OverlayCell(v, q, c, w, RowEnd(|w|, columns), columns) ==
      if q == |w| / columns && c >= |w| % columns then Blank() else OverlayCell(v, q, c, w, e, columns)
  {
    if q >= 0 {
      var t, n := Index(q, c, columns), |w|;
      assert t < RowEnd(n, columns) <==> q <= n / columns by {
        IndexIs(q, c, columns);
        BeforeRowEnd(q, c, n, columns);
      }
      assert t >= n && t < RowEnd(n, columns) <==> q == n / columns && c >= n % columns by {
        IndexIs(q, c, columns);
        BeforeRowEnd(q, c, n, columns);
      }
    }
  }

  /** Where the clears after the spans of a line reach: the end of the row of the last clear. */
  function ClearedTo(line: Line, columns: nat): (bound: nat)
    requires columns > 0
  {
    if line == [] then 0
    else
      var n := LineLen(line);
      if n > 0 && n % columns == 0 then ClearedTo(line[..|line| - 1], columns) else RowEnd(n, columns)
  }

  /** The rows of a line of n characters hold n positions and end no later than n's row. */
  lemma RowsOfBounds(n: nat, columns: nat)
    requires columns > 0
    ensures n <= RowsOf(n, columns) * columns <= RowEnd(n, columns)
    ensures n == 0 || n % columns != 0 ==> RowsOf(n, columns) * columns == RowEnd(n, columns)
    ensures n > 0 && n % columns == 0 ==> RowsOf(n, columns) * columns == n
  {
    if n == 0 {
      RowEndIs(n, columns);
    } else {
      var q, rm := (n - 1) / columns, (n - 1) % columns;
      assert n == q * columns + (rm + 1);
      assert RowsOf(n, columns) * columns == q * columns + columns;
      if rm + 1 < columns {
        DivModUnique(n, q, rm + 1, columns);
        assert RowEnd(n, columns) == q * columns + columns by {
          RowEndIs(n, columns);
        }
      } else {
        assert n == (q + 1) * columns + 0;
        DivModUnique(n, q + 1, 0, columns);
        assert RowEnd(n, columns) == q * columns + columns + columns by {
          RowEndIs(n, columns);
        }
      }
    }
  }

  lemma RowsOfMono(a: nat, b: nat, columns: nat)
    requires columns > 0 && a <= b
    ensures RowsOf(a, columns) <= RowsOf(b, columns)
  {
    if a > 0 {
      DivMono(a - 1, b - 1, columns);
    }
  }

  /** The clears of a line stay within the line's rows. */
  lemma {:induction false} ClearedToBound(line: Line, columns: nat)
    requires columns > 0
    ensures ClearedTo(line, columns) <= RowsOf(LineLen(line), columns) * columns
  {
    if line != [] {
      var init := line[..|line| - 1];
      var n := LineLen(line);
      if n > 0 && n % columns == 0 {
        ClearedToBound(init, columns);
        RowsOfMono(LineLen(init), n, columns);
        MulMono(RowsOf(LineLen(init), columns), RowsOf(n, columns), columns);
      } else {
        RowsOfBounds(n, columns);
      }
    }
  }

  /** A cell after one logical line is laid out in a block whose first row is q = 0. */
  function LineCell(v: Cell, q: int, c: nat, line: Line, columns: nat): (cell: Cell)
    requires columns > 0
  {
    OverlayCell(v, q, c, Flat(line), ClearedTo(line, columns), columns)
  }

  /** The row at which logical line i of a batch laid out from row off starts. */
  function StartRow(off: nat, lines: seq<Line>, i: nat, columns: nat): (row: nat)
    requires columns > 0 && i <= |lines|
  {
    if i == 0 then off else StartRow(off, lines, i - 1, columns) + RowsOf(LineLen(lines[i - 1]), columns)
  }

  /** Line i starts below the rows that the lines before it occupy. */
  lemma {:induction false} StartRowIs(off: nat, lines: seq<Line>, i: nat, columns: nat)
    requires columns > 0 && i <= |lines|
    ensures StartRow(off, lines, i, columns) == off + Rows(lines[..i], columns)
  {
    if i > 0 {
      StartRowIs(off, lines, i - 1, columns);
      assert lines[..i][..i - 1] == lines[..i - 1];
    }
  }

  /** Later lines start no earlier. */
  lemma {:induction false} StartRowMono(off: nat, lines: seq<Line>, i: nat, j: nat, columns: nat)
    requires columns > 0 && i <= j <= |lines|
    ensures StartRow(off, lines, i, columns) <= StartRow(off, lines, j, columns)
  {
    if i < j {
      StartRowMono(off, lines, i, j - 1, columns);
    }
  }

  /** The cell at (r, c), formerly v, after the first n lines of the batch are laid out from row off. */
  function BatchCell(v: Cell, r: nat, c: nat, off: nat, lines: seq<Line>, n: nat, columns: nat): (cell: Cell)
    requires columns > 0 && n <= |lines|
  {
    if n == 0 then v
    else LineCell(BatchCell(v, r, c, off, lines, n - 1, columns), r - StartRow(off, lines, n - 1, columns), c, lines[n - 1], columns)
  }

  /** What logical line i adds to a batch: its rows, its widest column, the cursor it leaves. */
  lemma LineStep(off: nat, lines: seq<Line>, i: nat, columns: nat)
    requires columns > 0 && i < |lines|
    ensures var row0, n := StartRow(off, lines, i, columns), LineLen(lines[i]);
      && row0 + RowsOf(n, columns) == Lin(row0, n, columns).row + 1
      && row0 + RowsOf(n, columns) <= StartRow(off, lines, |lines|, columns)
  {
    StartRowMono(off, lines, i + 1, |lines|, columns);
  }

  /** Position q * w + c with q below the line's row count lies within the line's rows. */
  lemma InBlock(q: nat, c: nat, n: nat, columns: nat)
    requires columns > 0 && c < columns && q < RowsOf(n, columns)
    ensures q * columns + c < RowsOf(n, columns) * columns
  {
    MulMono(q + 1, RowsOf(n, columns), columns);
  }

  /** A line leaves every cell outside its own rows as it was. */
  lemma LineCellOutside(v: Cell, q: int, c: nat, line: Line, columns: nat)
    requires columns > 0 && (q < 0 || q >= RowsOf(LineLen(line), columns))
    ensures LineCell(v, q, c, line, columns) == v
  {
    if q >= 0 {
      var n := LineLen(line);
      IndexIs(q, c, columns);
      MulMono(RowsOf(n, columns), q, columns);
      RowsOfBounds(n, columns);
      ClearedToBound(line, columns);
    }
  }

  /** Unless a line ends exactly on a row end, its last clear reaches the end of its rows. */
  lemma ClearedToCovers(line: Line, columns: nat)
    requires columns > 0 && line != []
    ensures var n := LineLen(line);
      n < RowsOf(n, columns) * columns ==> ClearedTo(line, columns) == RowsOf(n, columns) * columns
  {
    RowsOfBounds(LineLen(line), columns);
  }

  /** The cells of a line's own rows after it is laid out. */
  lemma LineCellInside(v: Cell, q: nat, c: nat, line: Line, columns: nat)
    requires columns > 0 && c < columns && q < RowsOf(LineLen(line), columns)
    ensures
      var t := Index(q, c, columns);
      LineCell(v, q, c, line, columns) ==
        if t < LineLen(line) then Flat(line)[t]
        else if |line| > 0 then Blank() else v
  {
    var n, t := LineLen(line), Index(q, c, columns);
    assert t < RowsOf(n, columns) * columns by {
      IndexIs(q, c, columns);
      InBlock(q, c, n, columns);
    }
    if line != [] && t >= n {
      ClearedToCovers(line, columns);
    }
  }

  /** Rows before the offset, and rows after the first n lines, keep their content. */
  lemma {:induction false} BatchOutside(v: Cell, r: nat, c: nat, off: nat, lines: seq<Line>, n: nat, columns: nat)
    requires columns > 0 && n <= |lines| && (r < off || r >= StartRow(off, lines, n, columns))
    ensures BatchCell(v, r, c, off, lines, n, columns) == v
  {
    if n > 0 {
      StartRowMono(off, lines, 0, n - 1, columns);
      BatchOutside(v, r, c, off, lines, n - 1, columns);
      LineCellOutside(v, r - StartRow(off, lines, n - 1, columns), c, lines[n - 1], columns);
    }
  }

  /** Lines after the first j of a batch leave the rows of the first j alone. */
  lemma {:induction false} BatchPrefix(v: Cell, r: nat, c: nat, off: nat, lines: seq<Line>, j: nat, n: nat, columns: nat)
    requires columns > 0 && j <= n <= |lines| && r < StartRow(off, lines, j, columns)
    ensures BatchCell(v, r, c, off, lines, n, columns) == BatchCell(v, r, c, off, lines, j, columns)
  {
    if j < n {
      StartRowMono(off, lines, j, n - 1, columns);
      BatchPrefix(v, r, c, off, lines, j, n - 1, columns);
      LineCellOutside(BatchCell(v, r, c, off, lines, n - 1, columns), r - StartRow(off, lines, n - 1, columns), c, lines[n - 1], columns);
    }
  }

  /**
   * Within the rows of logical line i, position t = Index(q, c) holds the
   * line's t-th cell when t is below the line length; past it the row is
   * blank if the line has a span, and keeps its content if it has none.
   */
  lemma BatchLine(v: Cell, off: nat, lines: seq<Line>, i: nat, q: nat, c: nat, columns: nat)
    requires columns > 0 && i < |lines| && c < columns
    requires q < RowsOf(LineLen(lines[i]), columns)
    ensures
      var t := Index(q, c, columns);
      BatchCell(v, StartRow(off, lines, i, columns) + q, c, off, lines, |lines|, columns) ==
        if t < LineLen(lines[i]) then Flat(lines[i])[t]
        else if |lines[i]| > 0 then Blank() else v
  {
    var r := StartRow(off, lines, i, columns) + q;
    BatchPrefix(v, r, c, off, lines, i + 1, |lines|, columns);
    BatchOutside(v, r, c, off, lines, i, columns);
    LineCellInside(v, q, c, lines[i], columns);
  }

  /** Character k of logical line i is written at (start row + k / w, k % w). */
  lemma CharPlacement(v: Cell, off: nat, lines: seq<Line>, i: nat, k: nat, columns: nat)
    requires columns > 0 && i < |lines| && k < LineLen(lines[i])
    ensures BatchCell(v, StartRow(off, lines, i, columns) + k / columns, k % columns, off, lines, |lines|, columns) == Flat(lines[i])[k]
  {
    var q, c := k / columns, k % columns;
    assert Index(q, c, columns) == k by {
      IndexIs(q, c, columns);
    }
    assert q < RowsOf(LineLen(lines[i]), columns) by {
      DivMono(k, LineLen(lines[i]) - 1, columns);
    }
    BatchLine(v, off, lines, i, q, c, columns);
  }

  /** Cell k of a line is character k - p of the span j that holds it, p the length of the spans before j, with span j's attributes. */
  lemma {:induction false} FlatAt(line: Line, j: nat, k: nat)
    requires j < |line| && LineLen(line[..j]) <= k < LineLen(line[..j]) + |line[j].chars|
    ensures k < |Flat(line)|
    ensures Flat(line)[k] == Cell(line[j].chars[k - LineLen(line[..j])], line[j].attrs)
  {
    var m := |line|;
    var init := line[..m - 1];
    assert line[..j + 1][..j] == line[..j];
    if j == m - 1 {
      assert init == line[..j];
    } else {
      assert init[..j] == line[..j] && init[j] == line[j];
      FlatAt(init, j, k);
    }
  }

  lemma {:induction false} LengthPrefix(line: Line, i: nat, j: nat)
    requires i <= j <= |line|
    ensures LineLen(line[..i]) <= LineLen(line[..j])
  {
    if i < j {
      LengthPrefix(line, i, j - 1);
      assert line[..j][..j - 1] == line[..j - 1];
    }
  }

  /** What span j adds to a line's cells, length and clears, and that the prefix stays within the line. */
  lemma SpanStep(line: Line, j: nat, columns: nat)
    requires columns > 0 && j < |line|
    ensures Flat(line[..j + 1]) == Flat(line[..j]) + SpanCells(line[j].attrs, line[j].chars)
    ensures LineLen(line[..j + 1]) <= LineLen(line)
    ensures ClearedTo(line[..j], columns) <= RowEnd(LineLen(line[..j + 1]), columns)
    ensures var n := LineLen(line[..j + 1]);
      ClearedTo(line[..j + 1], columns) ==
        if n > 0 && n % columns == 0 then ClearedTo(line[..j], columns) else RowEnd(n, columns)
  {
    assert line[..j + 1][..j] == line[..j];
    LengthPrefix(line, j + 1, |line|);
    assert line[..|line|] == line;
    ClearedToBound(line[..j], columns);
    RowsOfBounds(LineLen(line[..j]), columns);
    RowEndMono(LineLen(line[..j]), LineLen(line[..j + 1]), columns);
  }

  lemma RowEndMono(a: nat, b: nat, columns: nat)
    requires columns > 0 && a <= b
    ensures RowEnd(a, columns) <= RowEnd(b, columns)
  {
    RowEndIs(a, columns);
    RowEndIs(b, columns);
    DivMono(a, b, columns);
    MulMono(a / columns + 1, b / columns + 1, columns);
  }

  // ---------------------------------------------------------------------------
  // Widest column and final cursor.

  function Max(a: nat, b: nat): (m: nat)
  {
    if a < b then b else a
  }

  /** The widest column a line of n characters writes (0 for an empty line). */
  function LineMaxCol(n: nat, columns: nat): (m: nat)
    requires columns > 0
  {
    if n == 0 then 0 else if n < columns then n - 1 else columns - 1
  }

  /** The widest column the first n lines of the batch write: the loop's max_col_idx, which starts at 0. */
  function MaxCol(lines: seq<Line>, n: nat, columns: nat): (m: nat)
    requires columns > 0 && n <= |lines|
    ensures m < columns
  {
    if n == 0 then 0 else Max(MaxCol(lines, n - 1, columns), LineMaxCol(LineLen(lines[n - 1]), columns))
  }

  /** A line of n characters writes its characters into columns 0..LineMaxCol, and reaches that column. */
  lemma LineMaxColIsWidest(n: nat, k: nat, columns: nat)
    requires columns > 0 && k < n
    ensures k % columns <= LineMaxCol(n, columns)
    ensures LineMaxCol(n, columns) < n && LineMaxCol(n, columns) % columns == LineMaxCol(n, columns)
  {
    DivModUnique(LineMaxCol(n, columns), 0, LineMaxCol(n, columns), columns);
    if k < columns {
      DivModUnique(k, 0, k, columns);
    }
  }

  /** Writing character a of a line widens the line's widest column to a's column at most. */
  lemma LineMaxColStep(a: nat, columns: nat)
    requires columns > 0
    ensures LineMaxCol(a + 1, columns) == if LineMaxCol(a, columns) < a % columns then a % columns else LineMaxCol(a, columns)
  {
    if a < columns {
      DivModUnique(a, 0, a, columns);
    }
  }

  /**
   * One character step of the write loop for character a of a line of n
   * characters that started at row r: where it is written (inside the
   * line's rows), the loop state after it, and the widest column after it.
   */
  lemma CharStep(r: nat, a: nat, n: nat, widest: nat, columns: nat)
    requires columns > 0 && a < n
    ensures var p := Wrap(Lin(r, a, columns), columns);
      && p == Pos(r + a / columns, a % columns)
      && p.row < r + RowsOf(n, columns)
      && Lin(r, a + 1, columns) == Pos(p.row, p.col + 1)
      && Max(widest, LineMaxCol(a + 1, columns)) == Max(Max(widest, LineMaxCol(a, columns)), p.col)
  {
    LinStep(r, a, columns);
    DivMono(a, n - 1, columns);
    LineMaxColStep(a, columns);
  }

  /** MaxCol is the widest of the lines' widest columns, and some line reaches it (or it is 0). */
  lemma {:induction false} MaxColIsWidest(lines: seq<Line>, n: nat, columns: nat)
    requires columns > 0 && n <= |lines|
    ensures forall i :: 0 <= i < n ==> LineMaxCol(LineLen(lines[i]), columns) <= MaxCol(lines, n, columns)
    ensures MaxCol(lines, n, columns) == 0 ||
      exists i :: 0 <= i < n && MaxCol(lines, n, columns) == LineMaxCol(LineLen(lines[i]), columns)
  {
    if n > 0 {
      MaxColIsWidest(lines, n - 1, columns);
    }
  }

  /** Where the cursor is after the first n lines: just after the last character written, or cur when none is. */
  function CursorAfter(cur: (nat, nat), off: nat, lines: seq<Line>, n: nat, columns: nat): (cursor: (nat, nat))
    requires columns > 0 && n <= |lines|
  {
    if n == 0 then cur
    else
      var len := LineLen(lines[n - 1]);
      if len == 0 then CursorAfter(cur, off, lines, n - 1, columns)
      else AfterPut(StartRow(off, lines, n - 1, columns) + (len - 1) / columns, (len - 1) % columns, columns)
  }

  /** The cursor lands on the last row of the last non-empty line, on its last column or just right of it. */
  lemma {:induction false} CursorAfterLastChar(cur: (nat, nat), off: nat, lines: seq<Line>, n: nat, columns: nat)
    requires columns > 0 && n <= |lines|
    ensures
      var p := CursorAfter(cur, off, lines, n, columns);
      p == cur || (off <= p.0 < StartRow(off, lines, n, columns) && p.1 < columns)
  {
    if n > 0 {
      var len := LineLen(lines[n - 1]);
      if len == 0 {
        CursorAfterLastChar(cur, off, lines, n - 1, columns);
      } else {
        StartRowMono(off, lines, 0, n - 1, columns);
        LinLastRow(StartRow(off, lines, n - 1, columns), len, len, columns);
      }
    }
  }

  // ---------------------------------------------------------------------------
  // The write loop as written, which keeps col_idx from one logical line to the next.

  /** Positions written by n characters from loop state p: one write per character. */
  function RunTrace(p: Pos, n: nat, columns: nat): (t: seq<Pos>)
    ensures |t| == n
    decreases n
  {
    if n == 0 then []
    else
      var w := Wrap(p, columns);
      [w] + RunTrace(Pos(w.row, w.col + 1), n - 1, columns)
  }

  /** The loop state after n characters from p: just right of the last write, or p when there is none. */
  function RunEnd(p: Pos, n: nat, columns: nat): (e: Pos)
    ensures n == 0 ==> e == p
    ensures n > 0 ==> e == Pos(RunTrace(p, n, columns)[n - 1].row, RunTrace(p, n, columns)[n - 1].col + 1)
    decreases n
  {
    if n == 0 then p
    else
      var w := Wrap(p, columns);
      var t := RunTrace(Pos(w.row, w.col + 1), n - 1, columns);
      assert RunTrace(p, n, columns) == [w] + t;
      RunEnd(Pos(w.row, w.col + 1), n - 1, columns)
  }

  /** The number of characters of lines of the given lengths. */
  function Total(lens: seq<nat>): (n: nat)
  {
    if lens == [] then 0 else lens[0] + Total(lens[1..])
  }

  /**
   * Positions written for lines of the given lengths when col_idx is carried
   * across lines: one write per character.
   */
  function AsWrittenTrace(p: Pos, lens: seq<nat>, columns: nat): (t: seq<Pos>)
    ensures |t| == Total(lens)
    decreases |lens|
  {
    if lens == [] then []
    else
      var e := RunEnd(p, lens[0], columns);
      var first, rest := RunTrace(p, lens[0], columns), AsWrittenTrace(Pos(e.row + 1, e.col), lens[1..], columns);
      first + rest
  }

  /**
   * Positions written when col_idx is reset to 0 after each logical line: one
   * write per character.
   */
  function CorrectedTrace(p: Pos, lens: seq<nat>, columns: nat): (t: seq<Pos>)
    ensures |t| == Total(lens)
    decreases |lens|
  {
    if lens == [] then []
    else
      var e := RunEnd(p, lens[0], columns);
      var first, rest := RunTrace(p, lens[0], columns), CorrectedTrace(Pos(e.row + 1, 0), lens[1..], columns);
      first + rest
  }

  /** From a row start in state a, n more characters leave the loop in state a + n. */
  lemma {:induction false} RunFromRowStart(r: nat, a: nat, n: nat, columns: nat)
    requires columns > 0
    ensures RunEnd(Lin(r, a, columns), n, columns) == Lin(r, a + n, columns)
    decreases n
  {
    if n > 0 {
      LinStep(r, a, columns);
      RunFromRowStart(r, a + 1, n - 1, columns);
    }
  }

  /** From a row start in state a, the k-th of n writes is at (r + (a + k) / w, (a + k) % w). */
  lemma {:induction false} RunTraceAt(r: nat, a: nat, n: nat, k: nat, columns: nat)
    requires columns > 0 && k < n
    ensures |RunTrace(Lin(r, a, columns), n, columns)| == n
    ensures RunTrace(Lin(r, a, columns), n, columns)[k] == Pos(r + (a + k) / columns, (a + k) % columns)
    decreases k
  {
    var w := Wrap(Lin(r, a, columns), columns);
    assert w == Pos(r + a / columns, a % columns) && Pos(w.row, w.col + 1) == Lin(r, a + 1, columns) by {
      LinStep(r, a, columns);
    }
    var rest := RunTrace(Lin(r, a + 1, columns), n - 1, columns);
    assert RunTrace(Lin(r, a, columns), n, columns) == [w] + rest;
    if k > 0 {
      var k', a' := k - 1, a + 1;
      RunTraceAt(r, a', n - 1, k', columns);
      assert a' + k' == a + k;
    }
  }

  /**
   * With the reset, the first line of a batch from row r puts character k at
   * (r + k / w, k % w), as the closed form Lin does, and the next line starts
   * at column 0 of the row after the first line's rows.
   */
  lemma CorrectedTraceLine(r: nat, lens: seq<nat>, columns: nat)
    requires columns > 0 && lens != []
    ensures forall k :: 0 <= k < lens[0] ==> CorrectedTrace(Pos(r, 0), lens, columns)[k] == Pos(r + k / columns, k % columns)
    ensures CorrectedTrace(Pos(r, 0), lens, columns)[lens[0]..] == CorrectedTrace(Pos(r + RowsOf(lens[0], columns), 0), lens[1..], columns)
  {
    forall k | 0 <= k < lens[0]
      ensures CorrectedTrace(Pos(r, 0), lens, columns)[k] == Pos(r + k / columns, k % columns)
    {
      CorrectedTraceAt(r, lens, columns, k);
    }
    CorrectedTraceRest(r, lens, columns);
  }

  /** One position of the first line of CorrectedTraceLine. */
  lemma CorrectedTraceAt(r: nat, lens: seq<nat>, columns: nat, k: nat)
    requires columns > 0 && lens != [] && k < lens[0]
    ensures k < |CorrectedTrace(Pos(r, 0), lens, columns)|
    ensures CorrectedTrace(Pos(r, 0), lens, columns)[k] == Pos(r + k / columns, k % columns)
  {
    assert Pos(r, 0) == Lin(r, 0, columns);
    RunTraceAt(r, 0, lens[0], k, columns);
  }

  /** The remainder of CorrectedTraceLine: the next line starts a fresh row. */
  lemma CorrectedTraceRest(r: nat, lens: seq<nat>, columns: nat)
    requires columns > 0 && lens != []
    ensures CorrectedTrace(Pos(r, 0), lens, columns)[lens[0]..] == CorrectedTrace(Pos(r + RowsOf(lens[0], columns), 0), lens[1..], columns)
  {
    var n := lens[0];
    assert Pos(r, 0) == Lin(r, 0, columns);
    RunFromRowStart(r, 0, n, columns);
    assert RunEnd(Pos(r, 0), n, columns).row + 1 == r + RowsOf(n, columns);
  }

  /**
   * The first character of a second logical line of a batch. Reset, it starts
   * column 0 of the row right after the first line. As written, it starts at
   * (1 + a / w, a % w): a row further down when the first line filled its last
   * row, and indented by the first line's last column otherwise.
   */
  lemma {:induction false} SecondLineStart(a: nat, b: nat, columns: nat)
    requires columns > 0 && a > 0 && b > 0
    ensures |AsWrittenTrace(Pos(0, 0), [a, b], columns)| > a
    ensures AsWrittenTrace(Pos(0, 0), [a, b], columns)[a] == Pos(1 + a / columns, a % columns)
    ensures a % columns == 0 ==> AsWrittenTrace(Pos(0, 0), [a, b], columns)[a].row == RowsOf(a, columns) + 1
    ensures a % columns != 0 ==> AsWrittenTrace(Pos(0, 0), [a, b], columns)[a] == Pos(RowsOf(a, columns), a % columns)
    ensures |CorrectedTrace(Pos(0, 0), [a, b], columns)| > a
    ensures CorrectedTrace(Pos(0, 0), [a, b], columns)[a] == Pos(RowsOf(a, columns), 0)
  {
    RunFromRowStart(0, 0, a, columns);
    var first := RunTrace(Pos(0, 0), a, columns);
    var e := RunEnd(Pos(0, 0), a, columns);
    assert e == Lin(0, a, columns);
    assert [a, b][1..] == [b];
    var rest := AsWrittenTrace(Pos(e.row + 1, e.col), [b], columns);
    assert AsWrittenTrace(Pos(0, 0), [a, b], columns) == first + rest;
    assert Pos(e.row + 1, e.col) == Lin(1, a, columns);
    LinStep(1, a, columns);
    LinStep(0, a - 1, columns);
    assert rest[0] == Wrap(Lin(1, a, columns), columns);
    var fixed := CorrectedTrace(Pos(e.row + 1, 0), [b], columns);
    assert CorrectedTrace(Pos(0, 0), [a, b], columns) == first + fixed;
    assert fixed[0] == Pos(e.row + 1, 0);
  }

  /** Two lines that each fill one row exactly: two rows are reserved, but the second line is written on row 2. */
  lemma AsWrittenSkipsRow(columns: nat)
    requires columns > 0
    ensures |AsWrittenTrace(Pos(0, 0), [columns, columns], columns)| > columns
    ensures AsWrittenTrace(Pos(0, 0), [columns, columns], columns)[columns] == Pos(2, 0)
  {
    SecondLineStart(columns, columns, columns);
    DivModUnique(columns, 1, 0, columns);
  }

  /** The estimate for two 5-character lines at width 5 is two rows. */
  lemma TwoFullLinesEstimate()
    ensures Estimate([[Span(Grid.None, "aaaaa")], [Span(Grid.None, "aaaaa")]], 5) == 2
  {
    var line: Line := [Span(None, "aaaaa")];
    assert line[..0] == [];
    assert LineLen(line) == 5;
    var lines := [line, line];
    assert lines[..1] == [line] && [line][..0] == [];
  }

  /** Two 3-character lines at width 5: the second is written from column 3 of row 1. */
  lemma AsWrittenIndents()
    ensures |AsWrittenTrace(Pos(0, 0), [3, 3], 5)| > 3
    ensures AsWrittenTrace(Pos(0, 0), [3, 3], 5)[3] == Pos(1, 3)
  {
    SecondLineStart(3, 3, 5);
  }

  /**
   * As written, a full line (w characters at width w) that starts at column 0
   * of row r leaves the next line starting at (r + 1, w), at the width.
   */
  lemma AsWrittenFromRowStart(r: nat, w: nat, rest: seq<nat>)
    requires w > 0
    ensures AsWrittenTrace(Pos(r, 0), [w] + rest, w)[w..] == AsWrittenTrace(Pos(r + 1, w), rest, w)
  {
    assert ([w] + rest)[1..] == rest;
    RunFromRowStart(r, 0, w, w);
    DivModUnique(w - 1, 0, w - 1, w);
  }

  /** Indexing past a prefix of length n reads the remainder. */
  lemma SliceAt<T>(t: seq<T>, u: seq<T>, n: nat, i: nat)
    requires n <= |t| && t[n..] == u && i < |u|
    ensures n + i < |t| && t[n + i] == u[i]
  {
    assert t[n..][i] == t[n + i];
  }

  /** q full rows of width w are one row of w and then q - 1 more. */
  lemma IndexStep(q: nat, w: nat)
    requires q >= 1
    ensures q * w == w + Index(q - 1, 0, w)
  {
    IndexIs(q - 1, 0, w);
    assert q * w == w + (q - 1) * w;
  }

  /**
   * As written, a full line that starts at (s, w) is written on row s + 1 from
   * column 0, and leaves the next line starting at (s + 2, w): each further
   * full line skips a row.
   */
  lemma AsWrittenFullLine(s: nat, w: nat, rest: seq<nat>)
    requires w > 0
    ensures AsWrittenTrace(Pos(s, w), [w] + rest, w)[0] == Pos(s + 1, 0)
    ensures AsWrittenTrace(Pos(s, w), [w] + rest, w)[w..] == AsWrittenTrace(Pos(s + 2, w), rest, w)
  {
    assert ([w] + rest)[1..] == rest;
    DivModUnique(w - 1, 0, w - 1, w);
    assert Pos(s, w) == Lin(s, w, w);
    RunTraceAt(s, w, w, 0, w);
    DivModUnique(w, 1, 0, w);
    RunFromRowStart(s, w, w, w);
    DivModUnique(2 * w - 1, 1, w - 1, w);
  }

  /**
   * With the reset, a full line that starts at (s, 0) is written on row s and
   * leaves the next line starting at (s + 1, 0).
   */
  lemma CorrectedFullLine(s: nat, w: nat, rest: seq<nat>)
    requires w > 0
    ensures CorrectedTrace(Pos(s, 0), [w] + rest, w)[0] == Pos(s, 0)
    ensures CorrectedTrace(Pos(s, 0), [w] + rest, w)[w..] == CorrectedTrace(Pos(s + 1, 0), rest, w)
  {
    assert ([w] + rest)[1..] == rest;
    CorrectedTraceAt(s, [w] + rest, w, 0);
    assert 0 / w == 0 && 0 % w == 0;
    CorrectedTraceRest(s, [w] + rest, w);
    assert RowsOf(w, w) == 1 by {
      DivModUnique(w - 1, 0, w - 1, w);
    }
  }

  /** A run of k equal lengths is its first one and a run of k - 1. */
  lemma FullSplit(w: nat, k: nat)
    requires k >= 1
    ensures seq(k, _ => w) == [w] + seq(k - 1, _ => w)
    ensures seq(k, _ => w)[1..] == seq(k - 1, _ => w)
  {
  }

  lemma {:induction false} TotalFull(w: nat, k: nat)
    ensures Total(seq(k, _ => w)) == Index(k, 0, w)
  {
    if k > 0 {
      assert seq(k, _ => w)[1..] == seq(k - 1, _ => w);
      TotalFull(w, k - 1);
    }
  }

  /** As written, j full lines from (s, w): the last one is written from column 0 of row s + 2j - 1. */
  lemma {:induction false} AsWrittenFullLinesFrom(s: nat, w: nat, j: nat)
    requires w > 0 && j >= 1
    ensures |AsWrittenTrace(Pos(s, w), seq(j, _ => w), w)| > Index(j - 1, 0, w)
    ensures AsWrittenTrace(Pos(s, w), seq(j, _ => w), w)[Index(j - 1, 0, w)] == Pos(s + 2 * j - 1, 0)
    decreases j
  {
    var rest := seq(j - 1, _ => w);
    FullSplit(w, j);
    AsWrittenFullLine(s, w, rest);
    TotalFull(w, j);
    if j > 1 {
      AsWrittenFullLinesFrom(s + 2, w, j - 1);
      var t, u, i := AsWrittenTrace(Pos(s, w), [w] + rest, w), AsWrittenTrace(Pos(s + 2, w), rest, w), Index(j - 2, 0, w);
      SliceAt(t, u, w, i);
      assert Index(j - 1, 0, w) == w + i;
      assert t[Index(j - 1, 0, w)] == Pos(s + 2 * j - 1, 0);
    }
  }

  /** With the reset, j full lines from (s, 0): the last one is written from column 0 of row s + j - 1. */
  lemma {:induction false} CorrectedFullLinesFrom(s: nat, w: nat, j: nat)
    requires w > 0 && j >= 1
    ensures |CorrectedTrace(Pos(s, 0), seq(j, _ => w), w)| > Index(j - 1, 0, w)
    ensures CorrectedTrace(Pos(s, 0), seq(j, _ => w), w)[Index(j - 1, 0, w)] == Pos(s + j - 1, 0)
    decreases j
  {
    var rest := seq(j - 1, _ => w);
    FullSplit(w, j);
    CorrectedFullLine(s, w, rest);
    TotalFull(w, j);
    if j > 1 {
      CorrectedFullLinesFrom(s + 1, w, j - 1);
      SliceAt(CorrectedTrace(Pos(s, 0), [w] + rest, w), CorrectedTrace(Pos(s + 1, 0), rest, w), w, Index(j - 2, 0, w));
    }
  }

  /**
   * k >= 2 full lines (w characters each at width w) from the top of the
   * grid, as written: the last line is written from row 2(k - 1). For the
   * resize test (ten lines, w = 5, a grid of 10 rows) the sixth line (k = 6)
   * already lands on row 10, outside the grid.
   */
  lemma AsWrittenFullLines(w: nat, k: nat)
    requires w > 0 && k >= 2
    ensures |AsWrittenTrace(Pos(0, 0), seq(k, _ => w), w)| > (k - 1) * w
    ensures AsWrittenTrace(Pos(0, 0), seq(k, _ => w), w)[(k - 1) * w] == Pos(2 * (k - 1), 0)
  {
    var rest := seq(k - 1, _ => w);
    FullSplit(w, k);
    var t, u := AsWrittenTrace(Pos(0, 0), seq(k, _ => w), w), AsWrittenTrace(Pos(1, w), rest, w);
    AsWrittenFromRowStart(0, w, rest);
    TotalFull(w, k);
    assert t[w..] == u;
    AsWrittenFullLinesFrom(1, w, k - 1);
    SliceAt(t, u, w, Index(k - 2, 0, w));
    IndexStep(k - 1, w);
  }

  /** The same k full lines with the reset: the last line is written from row k - 1. */
  lemma CorrectedFullLines(w: nat, k: nat)
    requires w > 0 && k >= 1
    ensures |CorrectedTrace(Pos(0, 0), seq(k, _ => w), w)| > (k - 1) * w
    ensures CorrectedTrace(Pos(0, 0), seq(k, _ => w), w)[(k - 1) * w] == Pos(k - 1, 0)
  {
    CorrectedFullLinesFrom(0, w, k);
    IndexIs(k - 1, 0, w);
  }

  /** The resize test's ten lines as written: the sixth is written on row 10 of its 10-row grid. */
  lemma AsWrittenResizeSixthLine()
    ensures |AsWrittenTrace(Pos(0, 0), seq(6, _ => 5), 5)| > 25
    ensures AsWrittenTrace(Pos(0, 0), seq(6, _ => 5), 5)[25] == Pos(10, 0)
  {
    AsWrittenFullLines(5, 6);
  }
}
