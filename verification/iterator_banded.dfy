/**
 * ImplIterator2DBanded: the cells of a dynamic-programming matrix that lie
 * in a band of diagonals [lower, upper], where the diagonal of cell
 * (row, col) is col - row. A position argument of 0 asks for the range of
 * the whole iterator; otherwise 0 also stands for "no cell".
 */
module Iterator2DBanded {

  /** The active segment [from, to) of a sequence (Alignandum getFrom/getTo). */
  datatype Window = Window(from: int, to: int)

  /** Cell (row, col) lies in the band of diagonals [lower, upper]. */
  predicate InBand(lower: int, upper: int, row: int, col: int)
  {
    lower <= col - row <= upper
  }

  /** x lies in the half-open range [lo, hi). */
  predicate Within(lo: int, hi: int, x: int)
  {
    lo <= x < hi
  }

  function Max(x: int, y: int): int { if x >= y then x else y }
  function Min(x: int, y: int): int { if x <= y then x else y }

  /** Row r lies in the row window and holds a cell of the band inside the column window. */
  ghost predicate RowInBand(row: Window, col: Window, lower: int, upper: int, r: int)
  {
    Within(row.from, row.to, r) && exists c :: Within(col.from, col.to, c) && InBand(lower, upper, r, c)
  }

  /** Column c lies in the column window and holds a cell of the band inside the row window. */
  ghost predicate ColInBand(row: Window, col: Window, lower: int, upper: int, c: int)
  {
    Within(col.from, col.to, c) && exists r :: Within(row.from, row.to, r) && InBand(lower, upper, r, c)
  }

  /** The rows of the band inside both windows: row r meets columns r + lower to r + upper. */
  function BandRows(row: Window, col: Window, lower: int, upper: int): Window
  {
    if col.from < col.to then Window(Max(row.from, col.from - upper), Min(row.to, col.to - lower))
    else Window(row.from, row.from)
  }

  /** The columns of the band inside both windows: column c meets rows c - upper to c - lower. */
  function BandCols(row: Window, col: Window, lower: int, upper: int): Window
  {
    if row.from < row.to then Window(Max(col.from, row.from + lower), Min(col.to, row.to + upper))
    else Window(col.from, col.from)
  }

  /** BandRows holds exactly the rows that meet the band inside both windows. */
  lemma BandRowsExact(row: Window, col: Window, lower: int, upper: int, r: int)
    requires lower <= upper
    ensures Within(BandRows(row, col, lower, upper).from, BandRows(row, col, lower, upper).to, r)
            <==> RowInBand(row, col, lower, upper, r)
  {
    var w := BandRows(row, col, lower, upper);
    if Within(w.from, w.to, r) {
      var c := Max(col.from, r + lower);
      assert Within(col.from, col.to, c) && InBand(lower, upper, r, c);
    }
  }

  /** BandCols holds exactly the columns that meet the band inside both windows. */
  lemma BandColsExact(row: Window, col: Window, lower: int, upper: int, c: int)
    requires lower <= upper
    ensures Within(BandCols(row, col, lower, upper).from, BandCols(row, col, lower, upper).to, c)
            <==> ColInBand(row, col, lower, upper, c)
  {
    var w := BandCols(row, col, lower, upper);
    if Within(w.from, w.to, c) {
      var r := Max(row.from, c - upper);
      assert Within(row.from, row.to, r) && InBand(lower, upper, r, c);
    }
  }

  class Iterator2DBanded {
    var lower: int
    var upper: int
    var rowFrom: int
    var rowTo: int
    var colFrom: int
    var colTo: int

    /** The band is not inverted. */
    ghost predicate Valid()
      reads this
    {
      lower <= upper
    }

    /** The constructor: the band is fixed and the ranges are those of the cells of the band inside the two windows. */
    constructor (row: Window, col: Window, lowerDiagonal: int, upperDiagonal: int)
      requires lowerDiagonal <= upperDiagonal
      ensures Valid() && lower == lowerDiagonal && upper == upperDiagonal
      ensures Window(rowFrom, rowTo) == BandRows(row, col, lower, upper)
      ensures Window(colFrom, colTo) == BandCols(row, col, lower, upper)
      ensures forall r :: Within(rowFrom, rowTo, r) <==> RowInBand(row, col, lower, upper, r)
      ensures forall c :: Within(colFrom, colTo, c) <==> ColInBand(row, col, lower, upper, c)
    {
      lower, upper := lowerDiagonal, upperDiagonal;
      new;
      ResetRanges(row, col);
    }

    /**
     * [colFrom, colTo) is the column window of col intersected with the
     * columns [row.from + lower, row.to - lower).
     */
    ghost predicate ColRangeOf(row: Window, col: Window)
      reads this
    {
      forall c :: Within(colFrom, colTo, c) <==>
        Within(col.from, col.to, c) && Within(row.from + lower, row.to - lower, c)
    }

    /**
     * resetRanges as written. The row range starts at col.from + upper and
     * ends at col.to - upper, and the column range ends at row.to - lower:
     * with diagonals read as col - row these are not the ends of the band
     * (BandRows and BandCols are), so cells of the band inside both windows
     * can fall outside the ranges.
     */
    method ResetRangesAsWritten(row: Window, col: Window)
      modifies this
      ensures lower == old(lower) && upper == old(upper)
      ensures rowFrom == Max(row.from, col.from + upper) && rowTo == Min(row.to, col.to - upper)
      ensures colFrom == Max(row.from + lower, col.from) && colTo == Min(row.to - lower, col.to)
      ensures ColRangeOf(row, col)
      ensures forall r :: Within(rowFrom, rowTo, r) <==>
        Within(row.from, row.to, r) && Within(col.from + upper, col.to - upper, r)
    {
      rowFrom := Max(row.from, col.from + upper);
      rowTo := Min(row.to, col.to - upper);
      colFrom := Max(row.from + lower, col.from);
      colTo := Min(row.to - lower, col.to);
    }

    /**
     * resetRanges with the diagonal read as col - row: a row is in range
     * exactly when it holds a cell of the band inside both windows, and so
     * is a column.
     */
    method ResetRanges(row: Window, col: Window)
      requires Valid()
      modifies this
      ensures lower == old(lower) && upper == old(upper)
      ensures Window(rowFrom, rowTo) == BandRows(row, col, lower, upper)
      ensures Window(colFrom, colTo) == BandCols(row, col, lower, upper)
      ensures forall r :: Within(rowFrom, rowTo, r) <==> RowInBand(row, col, lower, upper, r)
      ensures forall c :: Within(colFrom, colTo, c) <==> ColInBand(row, col, lower, upper, c)
    {
      var rows := BandRows(row, col, lower, upper);
      var cols := BandCols(row, col, lower, upper);
      rowFrom, rowTo := rows.from, rows.to;
      colFrom, colTo := cols.from, cols.to;
      forall r
        ensures Within(rowFrom, rowTo, r) <==> RowInBand(row, col, lower, upper, r)
      {
        BandRowsExact(row, col, lower, upper, r);
      }
      forall c
        ensures Within(colFrom, colTo, c) <==> ColInBand(row, col, lower, upper, c)
      {
        BandColsExact(row, col, lower, upper, c);
      }
    }

    /** col_front: the first column of row in the band, 0 when it falls before colFrom. */
    function ColFront(row: int): (c: int)
      reads this
      requires Valid()
      ensures row == 0 ==> c == colFrom
      ensures row != 0 && c != 0 ==> colFrom <= c && InBand(lower, upper, row, c) && !InBand(lower, upper, row, c - 1)
    {
      if row == 0 then colFrom
      else if row + lower >= colFrom then row + lower
      else 0
    }

    /** col_back: the last column of row in the band, 0 when it falls after colTo. */
    function ColBack(row: int): (c: int)
      reads this
      requires Valid()
      ensures row == 0 ==> c == colTo
      ensures row != 0 && c != 0 ==> c <= colTo && InBand(lower, upper, row, c) && !InBand(lower, upper, row, c + 1)
    {
      if row == 0 then colTo
      else if row + upper <= colTo then row + upper
      else 0
    }

    /** col_begin and col_end: the half-open column span [col_front, col_back + 1). */
    lemma ColSpan(row: int, c: int)
      requires Valid() && row != 0 && ColFront(row) != 0 && ColBack(row) != 0
      ensures ColFront(row) <= c < ColBack(row) + 1 <==> InBand(lower, upper, row, c)
      ensures InBand(lower, upper, row, c) ==> colFrom <= c <= colTo
    {
    }

    /**
     * row_front as written: col + lower, which is the first row of the band
     * only when diagonals are read as row - col.
     */
    function RowFrontAsWritten(col: int): (r: int)
      reads this
      requires Valid()
      ensures col == 0 ==> r == rowFrom
      ensures col != 0 && r != 0 ==> rowFrom <= r && InBand(lower, upper, col, r) && !InBand(lower, upper, col, r - 1)
    {
      if col == 0 then rowFrom
      else if col + lower >= rowFrom then col + lower
      else 0
    }

    /** row_back as written: col + upper. */
    function RowBackAsWritten(col: int): (r: int)
      reads this
      requires Valid()
      ensures col == 0 ==> r == rowTo
      ensures col != 0 && r != 0 ==> r <= rowTo && InBand(lower, upper, col, r) && !InBand(lower, upper, col, r + 1)
    {
      if col == 0 then rowTo
      else if col + upper <= rowTo then col + upper
      else 0
    }

    /** row_front with the diagonal read as col - row: the first row whose cell in col is in the band. */
    function RowFront(col: int): (r: int)
      reads this
      requires Valid()
      ensures col == 0 ==> r == rowFrom
      ensures col != 0 && r != 0 ==> rowFrom <= r && InBand(lower, upper, r, col) && !InBand(lower, upper, r - 1, col)
    {
      if col == 0 then rowFrom
      else if col - upper >= rowFrom then col - upper
      else 0
    }

    /** row_back with the diagonal read as col - row. */
    function RowBack(col: int): (r: int)
      reads this
      requires Valid()
      ensures col == 0 ==> r == rowTo
      ensures col != 0 && r != 0 ==> r <= rowTo && InBand(lower, upper, r, col) && !InBand(lower, upper, r + 1, col)
    {
      if col == 0 then rowTo
      else if col - lower <= rowTo then col - lower
      else 0
    }

    /** row_begin and row_end: the half-open row span of col is exactly the band, as the column spans are. */
    lemma RowSpan(col: int, r: int)
      requires Valid() && col != 0 && RowFront(col) != 0 && RowBack(col) != 0
      ensures RowFront(col) <= r < RowBack(col) + 1 <==> InBand(lower, upper, r, col)
      ensures InBand(lower, upper, r, col) ==> rowFrom <= r <= rowTo
    {
    }

    /**
     * With the band [0, 2], cell (3, 5) lies in the column span of row 3 but
     * not in the row span of column 5 as written: the two views disagree.
     */
    lemma RowSpanAsWrittenDisagrees()
      requires Valid() && lower == 0 && upper == 2 && rowFrom <= 3 && 7 <= rowTo && colFrom <= 3 && 5 <= colTo
      ensures ColFront(3) <= 5 < ColBack(3) + 1
      ensures !(RowFrontAsWritten(5) <= 3 < RowBackAsWritten(5) + 1)
      ensures RowFront(5) <= 3 < RowBack(5) + 1
    {
    }
  }

  /**
   * With the band [0, 2], resetRanges as written leaves out cells of the
   * band that lie in both windows: row 0, which holds cell (0, 1), on the
   * windows [0, 10) and [0, 10); and column 6, which holds cell (4, 6), on
   * the row window [0, 5) and the column window [0, 10). The corrected
   * ranges hold both.
   */
  method ResetRangesAsWrittenMisses() returns (writtenRows: Window, bandRows: Window, writtenCols: Window, bandCols: Window)
    ensures Within(0, 10, 0) && Within(0, 10, 1) && InBand(0, 2, 0, 1)
    ensures !Within(writtenRows.from, writtenRows.to, 0) && Within(bandRows.from, bandRows.to, 0)
    ensures Within(0, 5, 4) && Within(0, 10, 6) && InBand(0, 2, 4, 6)
    ensures !Within(writtenCols.from, writtenCols.to, 6) && Within(bandCols.from, bandCols.to, 6)
  {
    var square := new Iterator2DBanded(Window(0, 10), Window(0, 10), 0, 2);
    bandRows := Window(square.rowFrom, square.rowTo);
    square.ResetRangesAsWritten(Window(0, 10), Window(0, 10));
    writtenRows := Window(square.rowFrom, square.rowTo);
    var wide := new Iterator2DBanded(Window(0, 5), Window(0, 10), 0, 2);
    bandCols := Window(wide.colFrom, wide.colTo);
    wide.ResetRangesAsWritten(Window(0, 5), Window(0, 10));
    writtenCols := Window(wide.colFrom, wide.colTo);
  }
}
