# ModelLayout: wrapping logical lines into a character grid

`ModelLayout` (neovim-gtk, `src/ui_model/model_layout.rs`) lays out a batch of
logical lines into a grid of cells of fixed width. A logical line is a list of
spans; a span is a run of characters that share one optional set of
attributes. The engine:

- estimates how many rows the batch needs (`count_lines`);
- rebuilds the grid with a multiple of `ROWS_STEP = 10` rows when that
  estimate, plus the row offset, exceeds the grid (`check_model_size`): it
  builds a new grid, copies the filled rows and restores the cursor. The
  rule can give fewer rows than the grid had (130 rows asked for 131 get
  120, `RowCount.CapacityShrinkCounterexample`); in the layout methods only
  their precondition `CanLayout` rules this out;
- walks every character and writes it at `(row_idx, col_idx)`. When
  `col_idx` reaches the width it wraps to column 0 of the next row. After
  each span it blanks the rest of the row, unless the column has reached the
  width. After each logical line it moves to the next row;
- records `rows_filled` and `cols_filled`. `size()` reports
  `(max(cols_filled, cursor column + 1), rows_filled)`.

The project has six modules:

- `Grid` (`grid.dfy`): the grid storage `UiModel`. Only the narrow contract
  the engine uses is modelled: a `rows x columns` array of cells, a cursor,
  `set_cursor`, `get_cursor`, `put`, clearing a column range of a row, and
  copying rows `0..=last`.
- `Lines` (`lines.dfy`): spans, lines, line length, and the cells a line
  writes.
- `RowCount` (`row_count.dfy`): the row estimate, the rows the write loop
  uses when `col_idx` is reset per line (see "## Findings"), and the growth
  rule.
- `Placement` (`placement.dfy`): closed forms for the write loop. It gives the
  loop state after `a` characters of a line, and the content of every cell
  after a batch (`BatchCell`). It also gives the widest column written, the
  final cursor, and the loop as written, which carries `col_idx` across lines.
- `Layout` (`model_layout.dfy`): the `ModelLayout` class and the write loop.
  The loop is three nested loops, split into one method per level:
  - `WriteLines` walks the lines;
  - `WriteLine` walks the spans of one line;
  - `WriteSpan` writes one span and then clears the rest of the row;
  - `WriteChars` walks the characters of a span;
  - `WriteChar` does one wrap check and one `put`.

  `WriteLineAt` and `WriteCell` restate one step of the line loop and of the
  character loop in terms of the closed forms. `ReserveAndWrite` is the body
  of `layout_replace` up to the `cols_filled` update.

  Each method is proved against the closed forms of `Placement`.
- `Scenarios` (`scenarios.dfy`): batches of identical lines. It also replays
  the two sessions of the file's own tests on the model.

The source keeps `col_idx` from one logical line to the next (see
"## Findings"). The model of `layout_replace` resets it to 0 after each
line, so that each logical line starts a new row. The program's own code
calls for this, and one of its tests at most conditionally supports it:

- `count_lines` (line 122) reserves exactly one row for every line no wider
  than the grid (`Scenarios.EstimateRepeat`). As written, a line that fills
  its row pushes the next one a row further down, past the rows reserved
  (`Placement.AsWrittenSkipsRow`, `Placement.TwoFullLinesEstimate`).
- `test_resize` (lines 142-156) lays out ten 5-character lines at width 5 in
  a 10-row grid. Its assertions on the sizes and the grid rows do not depend
  on where the characters land, because `rows_filled` comes from
  `count_lines`. As written, the sixth line is put on row 10, outside the
  grid (`Placement.AsWrittenResizeSixthLine`). The test then fails only if
  `UiModel` rejects `set_cursor` or `put` on that row, and that source is not
  part of this model. With the reset the ten lines fill rows 0 to 9
  (`Scenarios.ResizeSession`).
- `test_cols_filled` (lines 159-172) lays out one-line batches. There,
  carrying `col_idx` over changes nothing, since `col_idx` starts at 0 on
  every call (line 83).

The behaviour as written is modelled separately (`Placement.AsWrittenTrace`)
and compared against the reset behaviour (`Placement.CorrectedTrace`).

## Model

| member | source | states |
|---|---|---|
| Grid.UiModel.constructor | src/ui_model/model_layout.rs:16 | a new grid has the requested rows and columns, every cell blank, and the cursor at (0, 0) |
| Grid.UiModel.SetCursor | src/ui_model/model_layout.rs:93 | the cursor is moved to exactly (row, col) |
| Grid.UiModel.GetCursor | src/ui_model/model_layout.rs:43 | the cursor as (row, column), read by `size` and saved by `check_model_size` (line 52); it addresses a cell exactly when `CursorInGrid` holds |
| Grid.AfterPut | src/ui_model/model_layout.rs:94 | after a put the row is kept and the column moves one right, except on the last column, where it stays; a column inside the width stays inside it |
| Grid.UiModel.Put | src/ui_model/model_layout.rs:94 | the cell at the cursor gets the character and attributes, and no other cell changes; the cursor becomes `AfterPut` of the old cursor |
| Grid.UiModel.ClearRow | src/ui_model/model_layout.rs:103-105 | columns from..=to of the row become blank; every other cell keeps its content |
| Grid.UiModel.CopyRows | src/ui_model/model_layout.rs:55 | rows 0..=last of the destination hold the source's cells; the other rows are unchanged |
| RowCount.LineEstimate | src/ui_model/model_layout.rs:122 | every line is reserved at least one row, and a line no wider than the grid exactly one |
| Lines.LineLenSpans | src/ui_model/model_layout.rs:121 | the line length `len` sums the spans: every span's characters count towards it, and it is 0 exactly when every span is empty |
| RowCount.CountLines | src/ui_model/model_layout.rs:117-126 | the accumulating loop returns Estimate: the sum over the lines of len / (columns + 1) + 1 |
| RowCount.RowsOf | src/ui_model/model_layout.rs:88-91 | the write loop uses at least one row for every line, the empty line included |
| RowCount.EstimateAtLeastLines | src/ui_model/model_layout.rs:117-126 | every logical line, even an empty one, is counted at least one row |
| RowCount.LineEstimateAtMostRows | src/ui_model/model_layout.rs:122 | the estimate for one line never exceeds the rows the loop writes for it |
| RowCount.EstimateAtMostRows | src/ui_model/model_layout.rs:117-126 | the estimate for a batch never exceeds the rows written |
| RowCount.LineEstimateExact | src/ui_model/model_layout.rs:122 | for a line written from column 0 with at most 2 * columns characters, the estimate equals the rows written. This holds with `col_idx` reset per line; see "## Findings" |
| RowCount.EstimateExact | src/ui_model/model_layout.rs:117-126 | when every line has at most 2 * columns characters, the batch estimate equals the rows written with `col_idx` reset per line (see "## Findings"); as written it does not (`Placement.TwoFullLinesEstimate`) |
| RowCount.LineEstimateShort | src/ui_model/model_layout.rs:122 | a line of 2 * columns + 1 characters is estimated at 2 rows but written on 3 |
| RowCount.EstimateCounterexample | src/ui_model/model_layout.rs:122 | 11 characters at width 5: 2 rows reserved, 3 written |
| RowCount.EstimateOfFiveAtWidthFour | src/ui_model/model_layout.rs:134-139 | 5 characters at width 4 are counted as 2 rows |
| RowCount.NewCapacity | src/ui_model/model_layout.rs:51 | a rebuilt grid has a multiple of ROWS_STEP rows, and at least ROWS_STEP |
| RowCount.NewCapacityCovers | src/ui_model/model_layout.rs:51 | the rebuilt capacity holds the requested rows exactly when rows / 11 + rows % 11 <= 10 |
| RowCount.NewCapacityCoversSmall | src/ui_model/model_layout.rs:51 | up to 20 requested rows, the rebuilt capacity holds them |
| RowCount.NewCapacityCounterexample | src/ui_model/model_layout.rs:51 | a request for 21 rows is given 20 |
| RowCount.CapacityCovers | src/ui_model/model_layout.rs:48-51 | after the size check a grid that held the request keeps its rows, and a rebuilt one has a multiple of ROWS_STEP rows, possibly fewer than before; the grid then holds the request exactly when it already did or rows / 11 + rows % 11 <= 10 |
| RowCount.CapacityShrinkCounterexample | src/ui_model/model_layout.rs:48-51 | a grid of 130 rows asked for 131 is rebuilt with 120: the size check can shrink the grid |
| RowCount.CapacityNoShrinkWhenCovering | src/ui_model/model_layout.rs:48-51 | when the grid after the size check holds the request, it has at least as many rows as before |
| RowCount.NewCapacityMonotone | src/ui_model/model_layout.rs:51 | a larger request never yields a smaller capacity |
| Placement.LinStep | src/ui_model/model_layout.rs:88-100 | from loop state a of a line starting at row r, the wrap check puts character a at (r + a / w, a % w), and the loop moves to state a + 1 |
| Placement.LinClear | src/ui_model/model_layout.rs:103-105 | after a characters the rest of the row is cleared exactly when a = 0 or a is not a multiple of the width, and the clear starts at (r + a / w, a % w) |
| Placement.LinLastRow | src/ui_model/model_layout.rs:88-107 | the loop never leaves the rows of its line, and its column never exceeds the width |
| Placement.WrittenWrite | src/ui_model/model_layout.rs:93-94 | writing the next cell of a line changes exactly the cell at its wrapped position |
| Placement.OverlayClear | src/ui_model/model_layout.rs:103-105 | the clear after n written cells blanks the rest of n's row and no other cell |
| Placement.SpanOverlay | src/ui_model/model_layout.rs:86-105 | writing a span and its clear over the cells a line has so far extends those cells by the span's cells and moves the clear to the end of the span's last row, unless the span ends exactly at the width |
| Placement.ClearedToBound | src/ui_model/model_layout.rs:103-105 | the clears of a line stay within the line's own rows |
| Placement.StartRowIs | src/ui_model/model_layout.rs:82-107 | logical line i starts at off plus the rows the lines before it occupy |
| Placement.StartRowMono | src/ui_model/model_layout.rs:107 | later lines never start above earlier ones |
| Placement.LineStep | src/ui_model/model_layout.rs:85-107 | after line i the loop is on the last row of that line, so the next line starts on the following row; the line fits below the batch's end |
| Placement.LineCellOutside | src/ui_model/model_layout.rs:85-106 | laying out one line leaves every cell outside its own rows unchanged |
| Placement.LineCellInside | src/ui_model/model_layout.rs:85-106 | within a line's rows, position t holds the line's t-th cell; past the line's end the row is blank if the line has a span, and unchanged otherwise |
| Placement.BatchOutside | src/ui_model/model_layout.rs:82-108 | rows before the offset, and rows after the batch, keep their content |
| Placement.BatchPrefix | src/ui_model/model_layout.rs:82-108 | later lines of a batch never touch the rows of earlier ones |
| Placement.BatchLine | src/ui_model/model_layout.rs:82-108 | after the whole batch, the rows of line i hold exactly that line's cells, then blanks to the end of the row (or the old content for a line with no span) |
| Placement.CharPlacement | src/ui_model/model_layout.rs:88-100 | after the whole batch, character k of line i stands at (start row of i + k / w, k % w) |
| Placement.FlatAt | src/ui_model/model_layout.rs:86-94 | cell k of a line is the matching character of the span that holds it, with that span's attributes |
| Placement.MaxCol | src/ui_model/model_layout.rs:96-98 | the widest column written is below the width |
| Placement.LineMaxColIsWidest | src/ui_model/model_layout.rs:96-98 | every character of a line is written in a column no wider than the line's widest column, and some character reaches it |
| Placement.CharStep | src/ui_model/model_layout.rs:88-100 | one character step: where it is written (inside the line's rows), the loop state after it, and the widest column after it |
| Placement.MaxColIsWidest | src/ui_model/model_layout.rs:96-98 | max_col_idx is at least the widest column of every line, and equals one of them (or 0) |
| Placement.CursorAfterLastChar | src/ui_model/model_layout.rs:93-94 | after a batch the cursor is unchanged, or it stands on a row of the batch within the width |
| Placement.Wrap | src/ui_model/model_layout.rs:88-91 | the wrap check leaves a position inside the width unchanged, and moves one at the width to column 0 of the next row; the result is always inside the width |
| Placement.RunTrace | src/ui_model/model_layout.rs:87-101 | n characters make exactly n writes |
| Placement.RunEnd | src/ui_model/model_layout.rs:87-101 | after n characters the loop stands just right of the n-th write, or where it started when n = 0 |
| Placement.AsWrittenTrace | src/ui_model/model_layout.rs:82-108 | as written, with `col_idx` carried across lines, a batch makes one write per character |
| Placement.CorrectedTrace | src/ui_model/model_layout.rs:82-108 | with `col_idx` reset per line, a batch makes one write per character |
| Placement.CorrectedTraceLine | src/ui_model/model_layout.rs:82-108 | with the reset, character k of a line starting at row r is written at (r + k / w, k % w), as Lin gives it, and the next line starts at column 0 below the line's rows |
| Placement.RunFromRowStart | src/ui_model/model_layout.rs:87-101 | from a row start, n characters take the loop from state a to state a + n |
| Placement.RunTraceAt | src/ui_model/model_layout.rs:87-101 | from a row start in state a, the k-th write lands at (r + (a + k) / w, (a + k) % w) |
| Placement.SecondLineStart | src/ui_model/model_layout.rs:82-108 | as written, the second line's first character lands at (1 + a / w, a % w): one row further when the first line filled its last row, indented otherwise. With the reset it lands at column 0 of the row after the first line |
| Placement.AsWrittenSkipsRow | src/ui_model/model_layout.rs:82-108 | as written, two lines that each fill one row put the second on row 2 |
| Placement.TwoFullLinesEstimate | src/ui_model/model_layout.rs:122 | those two lines are reserved only 2 rows |
| Placement.AsWrittenIndents | src/ui_model/model_layout.rs:82-108 | as written, two 3-character lines at width 5 put the second at column 3 of row 1 |
| Placement.AsWrittenFromRowStart | src/ui_model/model_layout.rs:82-108 | as written, a full line from a row start leaves the next line at column w of the next row |
| Placement.AsWrittenFullLine | src/ui_model/model_layout.rs:82-108 | as written, a full line starting at column w is written on the next row, and the line after it two rows down |
| Placement.AsWrittenFullLinesFrom | src/ui_model/model_layout.rs:82-108 | as written, the j-th of j full lines from (s, w) starts on row s + 2j - 1 |
| Placement.CorrectedFullLine | src/ui_model/model_layout.rs:82-108 | with the reset, a full line from (s, 0) is written on row s, and the next line starts at (s + 1, 0) |
| Placement.CorrectedFullLinesFrom | src/ui_model/model_layout.rs:82-108 | with the reset, the j-th of j full lines from (s, 0) starts on row s + j - 1 |
| Placement.AsWrittenFullLines | src/ui_model/model_layout.rs:82-108 | as written, the k-th of k full lines from the top starts on row 2(k - 1) |
| Placement.CorrectedFullLines | src/ui_model/model_layout.rs:82-108 | with the reset, the k-th of k full lines from the top starts on row k - 1 |
| Placement.AsWrittenResizeSixthLine | src/ui_model/model_layout.rs:142-156 | as written, the sixth of the resize test's 5-character lines at width 5 is written on row 10, outside its 10-row grid |
| Layout.ModelLayout.constructor | src/ui_model/model_layout.rs:14-20 | a new engine has a blank grid of ROWS_STEP rows of the given width, the cursor at (0, 0), and nothing filled |
| Layout.ModelLayout.LayoutAppend | src/ui_model/model_layout.rs:22-25 | laying out below the filled rows is layout_replace from the previous rows_filled |
| Layout.ModelLayout.Layout | src/ui_model/model_layout.rs:27-29 | layout is layout_replace from row 0 |
| Layout.ModelLayout.SetCursor | src/ui_model/model_layout.rs:31-39 | the cursor goes to the last filled row (row 0 when none is filled), at the given column |
| Layout.ModelLayout.Size | src/ui_model/model_layout.rs:41-46 | the height is rows_filled; the width is the larger of cols_filled and the cursor column + 1 |
| Layout.ModelLayout.CheckModelSize | src/ui_model/model_layout.rs:48-59 | with no growth needed nothing changes. Otherwise the fresh grid has NewCapacity(rows) rows and the same width; the filled rows keep their cells, the rest are blank, and the cursor is kept |
| Layout.ModelLayout.Insert | src/ui_model/model_layout.rs:61-71 | an empty string or a shifted insert changes nothing. Otherwise the first character is put, without attributes, at the cursor, and nothing else changes; rows_filled and cols_filled are unchanged |
| Layout.ModelLayout.Reserve | src/ui_model/model_layout.rs:77-80 | rows_filled becomes off + the estimate; the grid is rebuilt as by check_model_size, the batch's rows fit in it, and (under `CanLayout`) it has at least as many rows as before |
| Layout.ModelLayout.LayoutReplace | src/ui_model/model_layout.rs:76-115 | rows_filled = off + estimate; the grid has Capacity rows (fresh only when rebuilt) and never fewer than before. cols_filled is max_col_idx + 1 when rows_filled is 1, and the max with the old value otherwise. The cursor is as described by CursorAfter, and every cell is BatchCell of its content after the capacity check |
| Layout.ModelLayout.ReserveAndWrite | src/ui_model/model_layout.rs:77-108 | the row reservation and the write loop: everything `LayoutReplace` states except `cols_filled`, which is unchanged; returns the widest column written, `MaxCol` of the batch |
| Layout.WriteLines | src/ui_model/model_layout.rs:82-108 | the loop over logical lines leaves every cell, the widest column and the cursor as the closed forms BatchCell, MaxCol and CursorAfter give them |
| Layout.WriteLineAt | src/ui_model/model_layout.rs:85-107 | logical line i starts on the row after the lines before it and changes only the cells of its own rows. The next line starts one row below where it ends; the widest column and the cursor become those of the first i + 1 lines |
| Layout.WriteCell | src/ui_model/model_layout.rs:88-100 | character k of a line starting at row r lands at (r + k / w, k % w) and no other cell changes; the loop state becomes Lin(r, k + 1) |
| Layout.WriteChar | src/ui_model/model_layout.rs:88-100 | one wrap check and put: the character lands at the wrapped position and no other cell changes; the loop state and the widest column move on |
| Layout.WriteChars | src/ui_model/model_layout.rs:87-101 | the characters of a span are written at the line's next positions, and no other cell changes; the loop state after them is Lin(row0, length so far) |
| Layout.WriteSpan | src/ui_model/model_layout.rs:86-105 | a span and its row clear: the span's cells are written, then the rest of the row is blanked unless the column reached the width |
| Layout.WriteLine | src/ui_model/model_layout.rs:85-106 | one logical line changes exactly the cells of its own rows, as LineCell gives them; the loop ends in state Lin(row0, line length) |
| Scenarios.EstimateRepeat | src/ui_model/model_layout.rs:117-126 | k lines no wider than the grid are reserved k rows |
| Scenarios.RepeatLaidOut | src/ui_model/model_layout.rs:82-114 | k copies of a non-empty line no wider than the grid take one row each. The widest column is the line's last, and the cursor ends on the last copy's row, just right of its last character, or on its last column when the copy fills the row |
| Scenarios.RepeatRows | src/ui_model/model_layout.rs:82-108 | those k copies occupy k rows |
| Scenarios.ResizeSession | src/ui_model/model_layout.rs:142-156 | ten 5-character lines at width 5 give size (5, 10); appending them again gives size (5, 20) and a 20-row grid. This holds with `col_idx` reset per line; see "## Findings" |
| Scenarios.ColsFilledSession | src/ui_model/model_layout.rs:159-172 | one 3-character line at width 5 gives width 4; appending a 2-character line gives width 3 |

## Left out

- The internals of `UiModel` and `Attrs` are not part of this model. `UiModel` is reduced to the contract listed above, and `Attrs` is an opaque type. The boolean argument of `put` is not modelled.
- `Insert`: the shifted branch is an empty placeholder in the source; it is modelled as a no-op.
- Rendering, drawing and glyph widths are outside this file.
- Integer widths: `usize` and `u64` are unbounded `nat`. Casts between them, and overflow of `rows + row_offset`, are not modelled.
- `Layout.ModelLayout.LayoutReplace`, `Layout.ModelLayout.Layout` and `Layout.ModelLayout.LayoutAppend` require `CanLayout`. Every write must land inside the grid after the capacity check. A growth needs `0 < rows_filled <= NewCapacity(rows)`, because `rows_filled - 1` would underflow and `copy_rows` would run past the new grid. In those cases the source underflows `rows_filled - 1` or indexes past the grid, and what `copy_rows` and `put` then do is inside `UiModel`; the model excludes them. `RowCount.EstimateCounterexample` and `RowCount.NewCapacityCounterexample` show that the estimate and the growth rule do not guarantee this on their own.
- `Layout.WriteChar`, `Layout.WriteChars`, `Layout.WriteSpan`, `Layout.WriteLine` and `Layout.WriteLines` require the line or batch to fit in the grid rows. This is the bound the indexing of the source needs.
- `Layout.ModelLayout.LayoutReplace`: `CanLayout` asks for `off + Rows(lines) <= Capacity`, and `Rows` gives a row to every line, a line with no spans included. Such a line writes nothing, so the source does not need its row. For example, 5 filled rows and 16 lines with no spans need 21 rows while the capacity is 20: the source does not panic, but the model excludes this input.
- `Grid.UiModel.Put` and `Layout.ModelLayout.Insert` require `CursorInGrid`. A `put` with the cursor outside the grid is not modelled.
- `Layout.ModelLayout.CheckModelSize` and `Layout.ModelLayout.Reserve` copy rows through a fresh grid. The old grid is dropped, and aliasing of the old grid by other owners is not modelled.

## Findings

| source | as written | input that shows it | evidently intended | confidence | as-written member | corrected member |
|---|---|---|---|---|---|---|
| src/ui_model/model_layout.rs:82-108 | `col_idx` is set to 0 once, before the loop over logical lines. After a line only `row_idx` is advanced, so the next line starts at the column where the previous one stopped | two lines of 3 characters at width 5: the second starts at (1, 3). Two lines that each fill a row: the second is written on row 2 although 2 rows are reserved. The ten 5-character lines of the resize test at width 5: the sixth line is put on row 10 of the 10-row grid (`Placement.AsWrittenResizeSixthLine`); whether the test then fails depends on `UiModel`, which is not part of this model | every logical line starts at column 0 of the row after the previous line | medium, not executed | Placement.AsWrittenIndents | Layout.WriteLines |
