/**
 * Batches of identical short lines, and the two layout sessions that the
 * engine's own tests describe, replayed on the model.
 */
module Scenarios {
  import opened Grid
  import opened Lines
  import opened RowCount
  import opened Placement
  import opened Layout

  /** A batch of k copies of one logical line. */
  function Repeat(line: Line, k: nat): (lines: seq<Line>)
    ensures |lines| == k && forall i :: 0 <= i < k ==> lines[i] == line
  {
    seq(k, _ => line)
  }

  /** A line no wider than the grid is reserved one row, so k copies are reserved k rows. */
  lemma {:induction false} EstimateRepeat(line: Line, k: nat, columns: nat)
    requires LineLen(line) <= columns
    ensures Estimate(Repeat(line, k), columns) == k
  {
    if k > 0 {
      assert Repeat(line, k)[..k - 1] == Repeat(line, k - 1);
      EstimateRepeat(line, k - 1, columns);
      DivModUnique(LineLen(line), 0, LineLen(line), columns + 1);
    }
  }

  /**
   * Laying out i copies of a non-empty line no wider than the grid: copy i
   * starts i rows below off, the widest column is the line's last one, and the
   * cursor stands on the last copy, just right of its last character, or on
   * that character when the copy fills the row.
   */
  lemma {:induction false} RepeatLaidOut(line: Line, k: nat, i: nat, off: nat, cur: (nat, nat), columns: nat)
    requires 0 < LineLen(line) <= columns && i <= k
    ensures StartRow(off, Repeat(line, k), i, columns) == off + i
    ensures MaxCol(Repeat(line, k), i, columns) == if i == 0 then 0 else LineLen(line) - 1
    ensures CursorAfter(cur, off, Repeat(line, k), i, columns) ==
      if i == 0 then cur else AfterPut(off + i - 1, LineLen(line) - 1, columns)
  {
    if i > 0 {
      RepeatLaidOut(line, k, i - 1, off, cur, columns);
      DivModUnique(LineLen(line) - 1, 0, LineLen(line) - 1, columns);
    }
  }

  /** The rows k copies of such a line occupy, as the capacity check sees them. */
  lemma RepeatRows(line: Line, k: nat, columns: nat)
    requires 0 < LineLen(line) <= columns
    ensures Rows(Repeat(line, k), columns) == k
  {
    var lines := Repeat(line, k);
    RepeatLaidOut(line, k, k, 0, (0, 0), columns);
    StartRowIs(0, lines, k, columns);
    assert lines[..k] == lines;
  }

  /** A line of one span of n copies of the character ch, without attributes. */
  function Plain(ch: char, n: nat): (line: Line)
    ensures LineLen(line) == n
  {
    var line := [Span(None, seq(n, _ => ch))];
    assert line[..0] == [];
    line
  }

  /**
   * Ten lines of five characters at width five fill the ten rows of a new
   * engine: the content is 5 wide and 10 high. Appending them again grows the
   * grid to 20 rows, and the content is 5 wide and 20 high.
   */
  method ResizeSession() returns (first: (nat, nat), second: (nat, nat), capacity: nat)
    ensures first == (5, 10) && second == (5, 20) && capacity == 20
  {
    var line := Plain('a', 5);
    var lines := Repeat(line, ROWS_STEP);
    var layout := new ModelLayout(5);
    EstimateRepeat(line, ROWS_STEP, 5);
    RepeatRows(line, ROWS_STEP, 5);
    RepeatLaidOut(line, ROWS_STEP, ROWS_STEP, 0, layout.model.GetCursor(), 5);
    layout.Layout(lines);
    first := layout.Size();
    RepeatLaidOut(line, ROWS_STEP, ROWS_STEP, ROWS_STEP, layout.model.GetCursor(), 5);
    layout.LayoutAppend(lines);
    second := layout.Size();
    capacity := layout.model.rows;
  }

  /**
   * One line of three characters at width five makes the content 4 wide (the
   * cursor stands just right of it); appending one line of two characters
   * leaves it 3 wide.
   */
  method ColsFilledSession() returns (first: (nat, nat), second: (nat, nat))
    ensures first.0 == 4 && second.0 == 3
  {
    var three, two := Repeat(Plain('a', 3), 1), Repeat(Plain('a', 2), 1);
    var layout := new ModelLayout(5);
    EstimateRepeat(Plain('a', 3), 1, 5);
    RepeatRows(Plain('a', 3), 1, 5);
    RepeatLaidOut(Plain('a', 3), 1, 1, 0, layout.model.GetCursor(), 5);
    layout.Layout(three);
    first := layout.Size();
    EstimateRepeat(Plain('a', 2), 1, 5);
    RepeatRows(Plain('a', 2), 1, 5);
    RepeatLaidOut(Plain('a', 2), 1, 1, 1, layout.model.GetCursor(), 5);
    layout.LayoutAppend(two);
    second := layout.Size();
  }
}
