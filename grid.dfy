/**
 * The character grid that the layout engine writes into: a fixed-size
 * rows x columns array of cells and a single cursor. Only the narrow contract
 * the layout engine relies on is modelled; the cell attributes are opaque.
 */
module Grid {

  /** Style attributes of a cell; their contents are of no concern here. */
  type Attrs

  datatype Option<T> = None | Some(value: T)

  /** One cell of the grid: a character and its optional attributes. */
  datatype Cell = Cell(ch: char, attrs: Option<Attrs>)

  /** The content of a freshly created or cleared cell. */
  function Blank(): (cell: Cell)
  {
    Cell(' ', None)
  }

  /**
   * The cursor after a put at (row, col): one column to the right, except on
   * the last column, where it stays.
   */
  function AfterPut(row: nat, col: nat, columns: nat): (cursor: (nat, nat))
    ensures cursor.0 == row
    ensures cursor.1 == col + 1 <==> col + 1 < columns
    ensures cursor.1 == col || cursor.1 == col + 1
    ensures col < columns ==> cursor.1 < columns
  {
    (row, if col + 1 < columns then col + 1 else col)
  }

  class UiModel {
    const rows: nat
    const columns: nat
    const cells: array2<Cell>
    var curRow: nat
    var curCol: nat

    ghost predicate Valid()
      reads this
    {
      cells.Length0 == rows && cells.Length1 == columns
    }

    /** A grid of the given size, every cell blank, the cursor at the origin. */
    constructor (rows: nat, columns: nat)
      ensures Valid() && fresh(cells)
      ensures this.rows == rows && this.columns == columns
      ensures curRow == 0 && curCol == 0
      ensures forall r, c :: 0 <= r < rows && 0 <= c < columns ==> cells[r, c] == Blank()
    {
      this.rows := rows;
      this.columns := columns;
      cells := new Cell[rows, columns]((r, c) => Blank());
      curRow, curCol := 0, 0;
    }

    /** True when the cursor addresses a cell of the grid. */
    predicate CursorInGrid()
      reads this
    {
      curRow < rows && curCol < columns
    }

    method SetCursor(row: nat, col: nat)
      modifies this
      ensures curRow == row && curCol == col
    {
      curRow, curCol := row, col;
    }

    /** The cursor as (row, column); it addresses a cell exactly when CursorInGrid holds. */
    function GetCursor(): (cursor: (nat, nat))
      reads this
      ensures CursorInGrid() <==> cursor.0 < rows && cursor.1 < columns
    {
      (curRow, curCol)
    }

    /**
     * Writes a character at the cursor, then moves the cursor one column to
     * the right unless it already stands on the last column.
     */
    method Put(ch: char, attrs: Option<Attrs>)
      requires Valid() && CursorInGrid()
      modifies this`curCol, cells
      ensures cells[curRow, old(curCol)] == Cell(ch, attrs)
      ensures forall r, c :: 0 <= r < rows && 0 <= c < columns && (r, c) != (curRow, old(curCol)) ==>
        cells[r, c] == old(cells[r, c])
      ensures GetCursor() == AfterPut(old(curRow), old(curCol), columns)
    {
      cells[curRow, curCol] := Cell(ch, attrs);
      if curCol + 1 < columns {
        curCol := curCol + 1;
      }
    }

    /** Blanks the columns from..to (both inclusive) of one row. */
    method ClearRow(row: nat, from: nat, to: nat)
      requires Valid() && row < rows && from <= to + 1 && to < columns
      modifies cells
      ensures forall r, c :: 0 <= r < rows && 0 <= c < columns ==>
        cells[r, c] == if r == row && from <= c <= to then Blank() else old(cells[r, c])
    {
      for c := from to to + 1
        invariant forall r', c' :: 0 <= r' < rows && 0 <= c' < columns ==>
          cells[r', c'] == if r' == row && from <= c' < c then Blank() else old(cells[r', c'])
      {
        cells[row, c] := Blank();
      }
    }

    /** Copies rows 0..=last of this grid into the same rows of dst. */
    method CopyRows(dst: UiModel, last: nat)
      requires Valid() && dst.Valid() && dst.cells != cells
      requires last < rows && last < dst.rows && columns == dst.columns
      modifies dst.cells
      ensures forall r, c :: 0 <= r < dst.rows && 0 <= c < dst.columns ==>
        dst.cells[r, c] == if r <= last then cells[r, c] else old(dst.cells[r, c])
    {
      for r := 0 to last + 1
        invariant forall r', c' :: 0 <= r' < dst.rows && 0 <= c' < dst.columns ==>
          dst.cells[r', c'] == if r' < r then cells[r', c'] else old(dst.cells[r', c'])
      {
        for c := 0 to columns
          invariant forall r', c' :: 0 <= r' < dst.rows && 0 <= c' < dst.columns ==>
            dst.cells[r', c'] == if r' < r || (r' == r && c' < c) then cells[r', c'] else old(dst.cells[r', c'])
        {
          dst.cells[r, c] := cells[r, c];
        }
      }
    }
  }
}
