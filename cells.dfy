/**
 * The cell values that the annotation script sees once pandas has read the
 * sheet: a number, a piece of text, or a missing value (NaN, None and pd.NA
 * all behave alike in the script and are all `Empty` here).
 */
module Cells {
  datatype Cell = Num(value: real) | Text(text: string) | Empty

  /** A row of the sheet, addressed by zero-based column position. */
  type Row = seq<Cell>

  /** `n` missing cells: a row of the sheet with nothing in it, or the cells a new column adds. */
  function Blanks(n: nat): (r: Row)
    ensures |r| == n && forall k :: 0 <= k < n ==> r[k] == Empty
  {
    seq(n, k => Empty)
  }

  /** `is_number`: a true, non-NaN number; a missing value or a piece of text is not one. */
  predicate IsNumber(c: Cell)
    ensures IsNumber(c) <==> !c.Empty? && !c.Text?
  {
    c.Num?
  }

  /**
   * `nzf`: the number a cell stands for in arithmetic; missing values and
   * text count as zero.
   */
  function Nzf(c: Cell): (r: real)
    ensures IsNumber(c) ==> r == c.value
    ensures !IsNumber(c) ==> r == 0.0
  {
    match c
    case Num(x) => x
    case Text(_) => 0.0
    case Empty => 0.0
  }
}
