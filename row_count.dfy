/**
 * Row accounting of the layout engine: the estimate of how many grid rows a
 * batch of logical lines needs, the number of rows the write loop really
 * advances through, and the rule by which the grid's row capacity grows.
 */
module RowCount {
  import opened Lines

  /** The grid grows in steps of this many rows. */
  const ROWS_STEP: nat := 10

  /** Rows reserved for one logical line of len characters. */
  function LineEstimate(len: nat, columns: nat): (rows: nat)
    ensures rows >= 1
    ensures len <= columns ==> rows == 1
  {
    if len <= columns then DivModUnique(len, 0, len, columns + 1); len / (columns + 1) + 1
    else len / (columns + 1) + 1
  }

  /** The estimate summed over a batch of logical lines. */
  function Estimate(lines: seq<Line>, columns: nat): (rows: nat)
  {
    if lines == [] then 0
    else Estimate(lines[..|lines| - 1], columns) + LineEstimate(LineLen(lines[|lines| - 1]), columns)
  }

  /** The estimate as the accumulating loop computes it. */
  method CountLines(lines: seq<Line>, maxColumns: nat) returns (rowCount: nat)
    ensures rowCount == Estimate(lines, maxColumns)
  {
    rowCount := 0;
    for i := 0 to |lines|
      invariant rowCount == Estimate(lines[..i], maxColumns)
    {
      var len := LineLen(lines[i]);
      assert Estimate(lines[..i + 1], maxColumns) == Estimate(lines[..i], maxColumns) + LineEstimate(len, maxColumns) by {
        assert lines[..i + 1][..i] == lines[..i];
      }
      rowCount := rowCount + len / (maxColumns + 1) + 1;
    }
    assert lines[..|lines|] == lines;
  }

  /**
   * Rows the write loop occupies for one logical line of len characters at
   * the given width: it wraps only when the column reaches the width, and
   * an empty line still takes its row.
   */
  function RowsOf(len: nat, columns: nat): (n: nat)
    requires columns > 0
    ensures n >= 1
  {
    if len == 0 then 1 else (len - 1) / columns + 1
  }

  /** Rows the write loop occupies for a whole batch. */
  function Rows(lines: seq<Line>, columns: nat): (rows: nat)
    requires columns > 0
  {
    if lines == [] then 0
    else Rows(lines[..|lines| - 1], columns) + RowsOf(LineLen(lines[|lines| - 1]), columns)
  }

  /** Every logical line, even an empty one, is counted at least one row. */
  lemma {:induction false} EstimateAtLeastLines(lines: seq<Line>, columns: nat)
    ensures Estimate(lines, columns) >= |lines|
  {
    if lines != [] {
      EstimateAtLeastLines(lines[..|lines| - 1], columns);
    }
  }

  /** q * columns <= m implies q <= m / columns. */
  lemma MulLeDiv(q: nat, m: nat, columns: nat)
    requires columns > 0 && q * columns <= m
    ensures q <= m / columns
  {
    var d := m / columns;
    if q > d {
      MulMono(d + 1, q, columns);
      assert false;
    }
  }

  lemma {:induction false} MulMono(a: nat, b: nat, c: nat)
    requires a <= b
    ensures a * c <= b * c
  {
    if c > 0 {
      MulMono(a, b, c - 1);
      assert a * c == a * (c - 1) + a;
      assert b * c == b * (c - 1) + b;
    }
  }

  /** The quotient and remainder of k by columns are the unique q, c with k = q * columns + c, c < columns. */
  lemma DivModUnique(k: nat, q: nat, c: nat, columns: nat)
    requires columns > 0 && c < columns && k == q * columns + c
    ensures k / columns == q && k % columns == c
  {
    var d := k / columns;
    if q > d {
      MulMono(d + 1, q, columns);
      assert false;
    } else if q < d {
      MulMono(q + 1, d, columns);
      assert false;
    }
  }

  /** The estimate of a line never exceeds the rows the loop uses for it. */
  lemma LineEstimateAtMostRows(len: nat, columns: nat)
    requires columns > 0
    ensures LineEstimate(len, columns) <= RowsOf(len, columns)
  {
    var k := len / (columns + 1);
    if k > 0 {
      assert k * (columns + 1) <= len;
      assert k * columns + k <= len;
      MulLeDiv(k, len - 1, columns);
    }
  }

  /** For a line of at most twice the width, the estimate is exact. */
  lemma LineEstimateExact(len: nat, columns: nat)
    requires columns > 0 && len <= 2 * columns
    ensures LineEstimate(len, columns) == RowsOf(len, columns)
  {
    if len == 0 {
    } else if len <= columns {
      DivModUnique(len, 0, len, columns + 1);
      DivModUnique(len - 1, 0, len - 1, columns);
    } else {
      DivModUnique(len, 1, len - columns - 1, columns + 1);
      DivModUnique(len - 1, 1, len - 1 - columns, columns);
    }
  }

  /** A line one character longer than twice the width is reserved one row too few. */
  lemma LineEstimateShort(columns: nat)
    requires columns > 0
    ensures LineEstimate(2 * columns + 1, columns) == 2
    ensures RowsOf(2 * columns + 1, columns) == 3
  {
    DivModUnique(2 * columns + 1, 1, columns, columns + 1);
    DivModUnique(2 * columns, 2, 0, columns);
  }

  lemma {:induction false} EstimateAtMostRows(lines: seq<Line>, columns: nat)
    requires columns > 0
    ensures Estimate(lines, columns) <= Rows(lines, columns)
  {
    if lines != [] {
      EstimateAtMostRows(lines[..|lines| - 1], columns);
      LineEstimateAtMostRows(LineLen(lines[|lines| - 1]), columns);
    }
  }

  /** Every line of the batch is at most twice the width. */
  predicate ShortLines(lines: seq<Line>, columns: nat)
  {
    forall i :: 0 <= i < |lines| ==> LineLen(lines[i]) <= 2 * columns
  }

  /** When no line exceeds twice the width, the estimate equals the rows written. */
  lemma {:induction false} EstimateExact(lines: seq<Line>, columns: nat)
    requires columns > 0 && ShortLines(lines, columns)
    ensures Estimate(lines, columns) == Rows(lines, columns)
  {
    if lines != [] {
      var init := lines[..|lines| - 1];
      assert forall i :: 0 <= i < |init| ==> init[i] == lines[i];
      EstimateExact(init, columns);
      LineEstimateExact(LineLen(lines[|lines| - 1]), columns);
    }
  }

  /** Eleven characters at width five: two rows reserved, three written. */
  lemma EstimateCounterexample()
    ensures Estimate([[Span(Grid.None, "aaaaaaaaaaa")]], 5) == 2
    ensures Rows([[Span(Grid.None, "aaaaaaaaaaa")]], 5) == 3
  {
    var lines := [[Span(Grid.None, "aaaaaaaaaaa")]];
    assert lines[..0] == [];
    var line := lines[0];
    assert line[..0] == [];
    assert LineLen(line) == 11;
  }

  /** Five characters at width four are counted as two rows. */
  lemma EstimateOfFiveAtWidthFour()
    ensures Estimate([[Span(Grid.None, "aaaaa")]], 4) == 2
  {
    var lines := [[Span(Grid.None, "aaaaa")]];
    assert lines[..0] == [];
    var line := lines[0];
    assert line[..0] == [];
    assert LineLen(line) == 5;
  }

  /** The row capacity of a grid grown to hold rows rows. */
  function NewCapacity(rows: nat): (r: nat)
    ensures r % ROWS_STEP == 0 && r >= ROWS_STEP
  {
    ((rows / (ROWS_STEP + 1)) + 1) * ROWS_STEP
  }

  /** The grown capacity holds the request exactly when rows/11 + rows%11 <= 10. */
  lemma NewCapacityCovers(rows: nat)
    ensures NewCapacity(rows) >= rows <==> rows / 11 + rows % 11 <= 10
  {
    var a, b := rows / 11, rows % 11;
    assert rows == 11 * a + b;
    assert NewCapacity(rows) == 10 * a + 10;
  }

  /** Up to twenty rows, the grown capacity holds the request. */
  lemma NewCapacityCoversSmall(rows: nat)
    requires rows <= 20
    ensures NewCapacity(rows) >= rows
  {
    NewCapacityCovers(rows);
  }

  /** Twenty-one rows are requested; twenty are allocated. */
  lemma NewCapacityCounterexample()
    ensures NewCapacity(21) == 20
  {
  }

  lemma NewCapacityMonotone(a: nat, b: nat)
    requires a <= b
    ensures NewCapacity(a) <= NewCapacity(b)
  {
    assert a / 11 <= b / 11 by {
      MulLeDiv(a / 11, b, 11);
    }
  }

  /** The row count of the grid after it is checked against a request for rows rows. */
  function Capacity(current: nat, rows: nat): (capacity: nat)
  {
    if rows <= current then current else NewCapacity(rows)
  }

  /** A grid of 130 rows asked for 131 is rebuilt with 120: the growth rule can shrink the grid. */
  lemma CapacityShrinkCounterexample()
    ensures Capacity(130, 131) == 120
    ensures Capacity(130, 131) < 130
  {
  }

  /** The grid never shrinks when it ends up holding the request: what CanLayout guarantees for a layout. */
  lemma CapacityNoShrinkWhenCovering(current: nat, rows: nat)
    requires Capacity(current, rows) >= rows
    ensures Capacity(current, rows) >= current
  {
  }

  /**
   * A grid that already holds the request keeps its rows; otherwise it gets a
   * multiple of ROWS_STEP rows. Either way it holds the request exactly when
   * it already did, or the growth rule covers it.
   */
  lemma CapacityCovers(current: nat, rows: nat)
    ensures rows <= current ==> Capacity(current, rows) == current
    ensures rows > current ==> Capacity(current, rows) % ROWS_STEP == 0 && Capacity(current, rows) >= ROWS_STEP
    ensures Capacity(current, rows) >= rows <==> rows <= current || rows / 11 + rows % 11 <= 10
  {
    NewCapacityCovers(rows);
  }
}
