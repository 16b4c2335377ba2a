/**
 * The input of a layout call: logical lines, each a sequence of spans, each
 * span a run of characters sharing one optional set of attributes.
 */
module Lines {
  import opened Grid

  datatype Span = Span(attrs: Option<Attrs>, chars: seq<char>)

  type Line = seq<Span>

  /** The number of characters of a logical line, summed over its spans. */
  function LineLen(line: Line): (n: nat)
  {
    if line == [] then 0 else LineLen(line[..|line| - 1]) + |line[|line| - 1].chars|
  }

  /** Every span counts towards the line length, and the length is 0 exactly when every span is empty. */
  lemma {:induction false} LineLenSpans(line: Line)
    ensures forall i :: 0 <= i < |line| ==> |line[i].chars| <= LineLen(line)
    ensures LineLen(line) == 0 <==> forall i :: 0 <= i < |line| ==> line[i].chars == []
  {
    if line != [] {
      var init := line[..|line| - 1];
      assert forall i :: 0 <= i < |init| ==> init[i] == line[i];
      LineLenSpans(init);
    }
  }

  /** The cells one span writes, in order: each character with the span's attributes. */
  function SpanCells(attrs: Option<Attrs>, chars: seq<char>): (cells: seq<Cell>)
  {
    seq(|chars|, k requires 0 <= k < |chars| => Cell(chars[k], attrs))
  }

  /** The cells a whole logical line writes, span after span. */
  function Flat(line: Line): (w: seq<Cell>)
    ensures |w| == LineLen(line)
  {
    if line == [] then [] else Flat(line[..|line| - 1]) + SpanCells(line[|line| - 1].attrs, line[|line| - 1].chars)
  }

  /** Appending one character to the last span appends its cell to the line's cells. */
  lemma SpanCellsSnoc(attrs: Option<Attrs>, chars: seq<char>, k: nat)
    requires k < |chars|
    ensures SpanCells(attrs, chars[..k + 1]) == SpanCells(attrs, chars[..k]) + [Cell(chars[k], attrs)]
  {
  }
}
