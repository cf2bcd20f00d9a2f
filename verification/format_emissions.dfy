/**
 * AlignmentFormatEmissions: a pairwise alignment stored as two emission
 * lists, one per sequence. Each list alternates counts of alignment
 * columns in which the sequence emits a residue (positive) and columns in
 * which it has a gap (negative). The text form "+3-2+4" of a list is not
 * modelled: a list is the sequence of integers that the stream reads from
 * it one after another.
 */
module FormatEmissions {
  import opened Pairs
  import AlignmentFormat

  /** k copies of one flag. */
  function Same(x: bool, k: int): (r: seq<bool>)
    ensures |r| == (if k > 0 then k else 0)
    ensures forall l :: 0 <= l < |r| ==> r[l] == x
  {
    seq(if k > 0 then k else 0, _ => x)
  }

  /** The alignment columns one count stands for: d emitting columns, or -d gap columns. */
  function Flags(d: int): (r: seq<bool>)
    ensures |r| == (if d >= 0 then d else -d)
  {
    if d > 0 then Same(true, d) else Same(false, -d)
  }

  /** The alignment columns of a whole emission list: true where the sequence emits a residue. */
  function Expand(counts: seq<int>): seq<bool>
    decreases |counts|
  {
    if |counts| == 0 then [] else Flags(counts[0]) + Expand(counts[1..])
  }

  /**
   * The pairs of an alignment whose columns are described by rf (for the
   * row sequence) and cf (for the column sequence), with the next residues
   * of the two sequences at row and col: a column where both emit aligns
   * the two residues; a column where one emits consumes its residue alone;
   * the pairs end with the shorter description.
   */
  function Emitted(row: int, col: int, rf: seq<bool>, cf: seq<bool>): seq<Pair>
    decreases |rf|
  {
    if |rf| == 0 || |cf| == 0 then []
    else
      var rest := Emitted(row + (if rf[0] then 1 else 0), col + (if cf[0] then 1 else 0), rf[1..], cf[1..]);
      if rf[0] && cf[0] then [Pair(row, col, 0)] + rest else rest
  }

  /** The state of copy's loop: the pairs still to come from the current counts and the unread rest are those the lists describe. */
  ghost predicate Copying(rows: seq<int>, cols: seq<int>, rowFrom: int, colFrom: int, i: int, j: int,
                          dRow: int, dCol: int, row: int, col: int, out: seq<Pair>)
  {
    0 <= i <= |rows| && 0 <= j <= |cols|
    && out + Emitted(row, col, Flags(dRow) + Expand(rows[i..]), Flags(dCol) + Expand(cols[j..]))
       == Emitted(rowFrom, colFrom, Expand(rows), Expand(cols))
  }

  /**
   * The part of copy's loop after the diagonal run: columns that are gaps
   * in both sequences are skipped, and columns where only one sequence
   * emits advance that sequence, until one of the two counts is used up.
   */
  method SkipUnaligned(dRow: int, dCol: int, row: int, col: int, ghost rest1: seq<bool>, ghost rest2: seq<bool>)
    returns (dRow': int, dCol': int, row': int, col': int)
    requires dRow <= 0 || dCol <= 0
    ensures dRow' == 0 || dCol' == 0
    ensures Emitted(row', col', Flags(dRow') + rest1, Flags(dCol') + rest2)
            == Emitted(row, col, Flags(dRow) + rest1, Flags(dCol) + rest2)
  {
    dRow', dCol', row', col' := dRow, dCol, row, col;
    if dRow' < 0 && dCol' < 0 {
      dRow', dCol' := SkipGaps(dRow', dCol', row', col', rest1, rest2);
    }
    if dRow' > 0 && dCol' < 0 {
      dRow', dCol', row' := RowOnly(dRow', dCol', row', col', rest1, rest2);
    }
    if dCol' > 0 && dRow' < 0 {
      dRow', dCol', col' := ColOnly(dRow', dCol', row', col', rest1, rest2);
    }
  }

  /** Columns that are gaps in both sequences are skipped without advancing either. */
  method SkipGaps(dRow: int, dCol: int, row: int, col: int, ghost rest1: seq<bool>, ghost rest2: seq<bool>)
    returns (dRow': int, dCol': int)
    requires dRow < 0 && dCol < 0
    ensures (dRow' == 0 && dCol' <= 0) || (dCol' == 0 && dRow' <= 0)
    ensures Emitted(row, col, Flags(dRow') + rest1, Flags(dCol') + rest2)
            == Emitted(row, col, Flags(dRow) + rest1, Flags(dCol) + rest2)
  {
    dRow', dCol' := dRow, dCol;
    if dRow' < dCol' {
      SkipColumns(row, col, false, false, -dCol, dRow - dCol, 0, rest1, rest2);
      dRow' := dRow' - dCol';
      dCol' := 0;
    } else {
      SkipColumns(row, col, false, false, -dRow, 0, dCol - dRow, rest1, rest2);
      dCol' := dCol' - dRow';
      dRow' := 0;
    }
  }

  /** Columns where only the row sequence emits advance the row. */
  method RowOnly(dRow: int, dCol: int, row: int, col: int, ghost rest1: seq<bool>, ghost rest2: seq<bool>)
    returns (dRow': int, dCol': int, row': int)
    requires dRow > 0 && dCol < 0
    ensures (dRow' == 0 && dCol' <= 0) || (dCol' == 0 && dRow' >= 0)
    ensures Emitted(row', col, Flags(dRow') + rest1, Flags(dCol') + rest2)
            == Emitted(row, col, Flags(dRow) + rest1, Flags(dCol) + rest2)
  {
    dRow', dCol', row' := dRow, dCol, row;
    if dRow' > -dCol' {
      SkipColumns(row, col, true, false, -dCol, dRow + dCol, 0, rest1, rest2);
      dRow' := dRow' + dCol';
      row' := row' - dCol';
      dCol' := 0;
    } else {
      SkipColumns(row, col, true, false, dRow, 0, dCol + dRow, rest1, rest2);
      dCol' := dCol' + dRow';
      row' := row' + dRow';
      dRow' := 0;
    }
  }

  /** Columns where only the column sequence emits advance the column. */
  method ColOnly(dRow: int, dCol: int, row: int, col: int, ghost rest1: seq<bool>, ghost rest2: seq<bool>)
    returns (dRow': int, dCol': int, col': int)
    requires dCol > 0 && dRow < 0
    ensures (dCol' == 0 && dRow' <= 0) || (dRow' == 0 && dCol' >= 0)
    ensures Emitted(row, col', Flags(dRow') + rest1, Flags(dCol') + rest2)
            == Emitted(row, col, Flags(dRow) + rest1, Flags(dCol) + rest2)
  {
    dRow', dCol', col' := dRow, dCol, col;
    if dCol' > -dRow' {
      SkipColumns(row, col, false, true, -dRow, 0, dCol + dRow, rest1, rest2);
      dCol' := dCol' + dRow';
      col' := col' - dRow';
      dRow' := 0;
    } else {
      SkipColumns(row, col, false, true, dCol, dRow + dCol, 0, rest1, rest2);
      dRow' := dRow' + dCol';
      col' := col' + dCol';
      dCol' := 0;
    }
  }

  class Emissions {
    var rowFrom: int
    var rowTo: int
    var colFrom: int
    var colTo: int
    var rowAlignment: seq<int>
    var colAlignment: seq<int>

    /** The default constructor: no bounds, empty emission lists. */
    constructor ()
      ensures rowFrom == NO_POS && rowTo == NO_POS && colFrom == NO_POS && colTo == NO_POS
      ensures rowAlignment == [] && colAlignment == []
    {
      rowFrom, rowTo, colFrom, colTo := NO_POS, NO_POS, NO_POS, NO_POS;
      rowAlignment, colAlignment := [], [];
    }

    /**
     * copy: the destination is cleared; without a first row or column this
     * throws (leaving the destination empty); otherwise the destination
     * receives the pairs the two emission lists describe, starting from the
     * first row and column.
     */
    method Copy() returns (r: Result<seq<Pair>>)
      ensures r.Fail? <==> rowFrom == NO_POS || colFrom == NO_POS
      ensures r.Ok? ==> r.value == Emitted(rowFrom, colFrom, Expand(rowAlignment), Expand(colAlignment))
    {
      if rowFrom == NO_POS || colFrom == NO_POS {
        return Fail("alignment ranges not defined");
      }
      var rows, cols := rowAlignment, colAlignment;
      if |rows| == 0 || |cols| == 0 {
        return Ok([]);
      }
      var out: seq<Pair> := [];
      var row, col := rowFrom, colFrom;
      var dRow, dCol := rows[0], cols[0];
      var i, j := 1, 1;
      CopyStart(rows, cols, rowFrom, colFrom);
      var done := false;
      while !done
        invariant !done ==> Copying(rows, cols, rowFrom, colFrom, i, j, dRow, dCol, row, col, out)
        invariant done ==> out == Emitted(rowFrom, colFrom, Expand(rows), Expand(cols))
        decreases !done, |rows| - i + |cols| - j
      {
        dRow, dCol, row, col, out, i, j, done := CopyRound(rows, cols, rowFrom, colFrom, i, j, dRow, dCol, row, col, out);
      }
      return Ok(out);
    }
  }

  /** Before the loop: both first counts are read and nothing is emitted yet. */
  lemma CopyStart(rows: seq<int>, cols: seq<int>, rowFrom: int, colFrom: int)
    requires |rows| > 0 && |cols| > 0
    ensures Copying(rows, cols, rowFrom, colFrom, 1, 1, rows[0], cols[0], rowFrom, colFrom, [])
  {
    ReadFirst(rows);
    ReadFirst(cols);
    var e := Emitted(rowFrom, colFrom, Expand(rows), Expand(cols));
    assert [] + e == e;
  }

  /**
   * One round of copy's loop: the diagonal run, the unaligned columns, then
   * a new count for each side whose count is used up; done when a list has
   * no count left to read.
   */
  method CopyRound(rows: seq<int>, cols: seq<int>, rowFrom: int, colFrom: int, i: int, j: int,
                   dRow: int, dCol: int, row: int, col: int, out: seq<Pair>)
    returns (dRow': int, dCol': int, row': int, col': int, out': seq<Pair>, i': int, j': int, done: bool)
    requires Copying(rows, cols, rowFrom, colFrom, i, j, dRow, dCol, row, col, out)
    ensures !done ==> Copying(rows, cols, rowFrom, colFrom, i', j', dRow', dCol', row', col', out')
    ensures !done ==> |rows| - i' + |cols| - j' < |rows| - i + |cols| - j
    ensures done ==> out' == Emitted(rowFrom, colFrom, Expand(rows), Expand(cols))
  {
    i', j', done := i, j, false;
    dRow', dCol', row', col', out' := AlignRun(rows, cols, rowFrom, colFrom, i, j, dRow, dCol, row, col, out);
    dRow', dCol', row', col' := Settle(rows, cols, rowFrom, colFrom, i, j, dRow', dCol', row', col', out');
    if dRow' == 0 {
      if i' == |rows| {
        RowsUsedUp(rows, cols, rowFrom, colFrom, i', j', dCol', row', col', out');
        return dRow', dCol', row', col', out', i', j', true;
      }
      NextRowCount(rows, cols, rowFrom, colFrom, i', j', dCol', row', col', out');
      dRow', i' := rows[i'], i' + 1;
    }
    if dCol' == 0 {
      if j' == |cols| {
        ColsUsedUp(rows, cols, rowFrom, colFrom, i', j', dRow', row', col', out');
        return dRow', dCol', row', col', out', i', j', true;
      }
      NextColCount(rows, cols, rowFrom, colFrom, i', j', dRow', row', col', out');
      dCol', j' := cols[j'], j' + 1;
    }
  }

  /** The diagonal run of copy's loop: while both sequences emit, one pair per column. */
  method AlignRun(rows: seq<int>, cols: seq<int>, rowFrom: int, colFrom: int, i: int, j: int,
                  dRow: int, dCol: int, row: int, col: int, out: seq<Pair>)
    returns (dRow': int, dCol': int, row': int, col': int, out': seq<Pair>)
    requires Copying(rows, cols, rowFrom, colFrom, i, j, dRow, dCol, row, col, out)
    ensures Copying(rows, cols, rowFrom, colFrom, i, j, dRow', dCol', row', col', out')
    ensures dRow' <= 0 || dCol' <= 0
  {
    dRow', dCol', row', col', out' := dRow, dCol, row, col, out;
    while dRow' > 0 && dCol' > 0
      invariant Copying(rows, cols, rowFrom, colFrom, i, j, dRow', dCol', row', col', out')
      decreases dRow'
    {
      AlignStep(rows, cols, rowFrom, colFrom, i, j, dRow', dCol', row', col', out');
      out' := out' + [Pair(row', col', 0)];
      dRow', dCol' := dRow' - 1, dCol' - 1;
      row', col' := row' + 1, col' + 1;
    }
  }

  /** The rest of copy's loop body before reading: SkipUnaligned keeps the state. */
  method Settle(rows: seq<int>, cols: seq<int>, rowFrom: int, colFrom: int, i: int, j: int,
                dRow: int, dCol: int, row: int, col: int, ghost out: seq<Pair>)
    returns (dRow': int, dCol': int, row': int, col': int)
    requires Copying(rows, cols, rowFrom, colFrom, i, j, dRow, dCol, row, col, out)
    requires dRow <= 0 || dCol <= 0
    ensures Copying(rows, cols, rowFrom, colFrom, i, j, dRow', dCol', row', col', out)
    ensures dRow' == 0 || dCol' == 0
  {
    dRow', dCol', row', col' := SkipUnaligned(dRow, dCol, row, col, Expand(rows[i..]), Expand(cols[j..]));
  }

  /** One column of the diagonal run keeps the loop's state. */
  lemma AlignStep(rows: seq<int>, cols: seq<int>, rowFrom: int, colFrom: int, i: int, j: int,
                  dRow: int, dCol: int, row: int, col: int, out: seq<Pair>)
    requires Copying(rows, cols, rowFrom, colFrom, i, j, dRow, dCol, row, col, out) && dRow > 0 && dCol > 0
    ensures Copying(rows, cols, rowFrom, colFrom, i, j, dRow - 1, dCol - 1, row + 1, col + 1, out + [Pair(row, col, 0)])
  {
    var rest1, rest2 := Expand(rows[i..]), Expand(cols[j..]);
    AlignOne(dRow, dCol, row, col, rest1, rest2);
    var tail := Emitted(row + 1, col + 1, Flags(dRow - 1) + rest1, Flags(dCol - 1) + rest2);
    assert out + ([Pair(row, col, 0)] + tail) == (out + [Pair(row, col, 0)]) + tail;
  }

  /** Reading the next row count once the current one is used up. */
  lemma NextRowCount(rows: seq<int>, cols: seq<int>, rowFrom: int, colFrom: int, i: int, j: int,
                     dCol: int, row: int, col: int, out: seq<Pair>)
    requires Copying(rows, cols, rowFrom, colFrom, i, j, 0, dCol, row, col, out) && i < |rows|
    ensures Copying(rows, cols, rowFrom, colFrom, i + 1, j, rows[i], dCol, row, col, out)
  {
    ReadNext(rows, i);
  }

  /** Reading the next column count once the current one is used up. */
  lemma NextColCount(rows: seq<int>, cols: seq<int>, rowFrom: int, colFrom: int, i: int, j: int,
                     dRow: int, row: int, col: int, out: seq<Pair>)
    requires Copying(rows, cols, rowFrom, colFrom, i, j, dRow, 0, row, col, out) && j < |cols|
    ensures Copying(rows, cols, rowFrom, colFrom, i, j + 1, dRow, cols[j], row, col, out)
  {
    ReadNext(cols, j);
  }

  /** When the row list can give no more counts, copy has emitted every pair. */
  lemma RowsUsedUp(rows: seq<int>, cols: seq<int>, rowFrom: int, colFrom: int, i: int, j: int,
                   dCol: int, row: int, col: int, out: seq<Pair>)
    requires Copying(rows, cols, rowFrom, colFrom, i, j, 0, dCol, row, col, out) && i == |rows|
    ensures out == Emitted(rowFrom, colFrom, Expand(rows), Expand(cols))
  {
    assert rows[i..] == [];
    EmittedNone(row, col, Flags(dCol) + Expand(cols[j..]));
  }

  /** When the column list can give no more counts, copy has emitted every pair. */
  lemma ColsUsedUp(rows: seq<int>, cols: seq<int>, rowFrom: int, colFrom: int, i: int, j: int,
                   dRow: int, row: int, col: int, out: seq<Pair>)
    requires Copying(rows, cols, rowFrom, colFrom, i, j, dRow, 0, row, col, out) && j == |cols|
    ensures out == Emitted(rowFrom, colFrom, Expand(rows), Expand(cols))
  {
    assert cols[j..] == [];
    EmittedNoneRight(row, col, Flags(dRow) + Expand(rows[i..]));
  }

  /** Reading the first count leaves the rest of the list unread. */
  lemma ReadFirst(counts: seq<int>)
    requires |counts| > 0
    ensures Flags(counts[0]) + Expand(counts[1..]) == Expand(counts)
  {
  }

  /** Reading the count at i when the current one is used up. */
  lemma ReadNext(counts: seq<int>, i: int)
    requires 0 <= i < |counts|
    ensures Flags(0) + Expand(counts[i..]) == Flags(counts[i]) + Expand(counts[i + 1..])
  {
    assert counts[i..][1..] == counts[i + 1..];
  }

  /** Nothing is emitted once the row side is used up. */
  lemma EmittedNone(row: int, col: int, cf: seq<bool>)
    ensures Emitted(row, col, Flags(0) + Expand([]), cf) == []
  {
    assert Flags(0) + Expand([]) == [];
  }

  /** Nothing is emitted once the column side is used up. */
  lemma EmittedNoneRight(row: int, col: int, rf: seq<bool>)
    ensures Emitted(row, col, rf, Flags(0) + Expand([])) == []
  {
    assert Flags(0) + Expand([]) == [];
  }

  /** One column where both sequences emit: the pair (row, col), then the rest one step further. */
  lemma AlignOne(dRow: int, dCol: int, row: int, col: int, rest1: seq<bool>, rest2: seq<bool>)
    requires dRow > 0 && dCol > 0
    ensures Emitted(row, col, Flags(dRow) + rest1, Flags(dCol) + rest2)
            == [Pair(row, col, 0)] + Emitted(row + 1, col + 1, Flags(dRow - 1) + rest1, Flags(dCol - 1) + rest2)
  {
    var a, b := Flags(dRow) + rest1, Flags(dCol) + rest2;
    assert a[0] && b[0];
    assert a[1..] == Flags(dRow - 1) + rest1;
    assert b[1..] == Flags(dCol - 1) + rest2;
  }

  /**
   * Skipping k columns in which the two sequences do not both emit: each
   * side advances by the columns in which it emits. The counts left over
   * on the two sides, e1 and e2, follow.
   */
  lemma SkipColumns(row: int, col: int, x: bool, y: bool, k: int, e1: int, e2: int, rest1: seq<bool>, rest2: seq<bool>)
    requires k >= 0 && !(x && y)
    requires e1 == 0 || (e1 > 0 <==> x)
    requires e2 == 0 || (e2 > 0 <==> y)
    ensures Emitted(row, col, Flags(if x then k + e1 else -k + e1) + rest1, Flags(if y then k + e2 else -k + e2) + rest2)
            == Emitted(row + (if x then k else 0), col + (if y then k else 0), Flags(e1) + rest1, Flags(e2) + rest2)
  {
    FlagsSplit(x, k, e1, rest1);
    FlagsSplit(y, k, e2, rest2);
    SkipSame(row, col, x, y, k, Flags(e1) + rest1, Flags(e2) + rest2);
  }

  /** A count of k + e columns of one kind is k columns of that kind followed by a count of e. */
  lemma FlagsSplit(x: bool, k: int, e: int, rest: seq<bool>)
    requires k >= 0 && (e == 0 || (e > 0 <==> x))
    ensures Flags(if x then k + e else -k + e) + rest == Same(x, k) + (Flags(e) + rest)
  {
    var d := if x then k + e else -k + e;
    if x {
      SameSplit(true, k, e);
      assert Flags(e) == Same(true, e);
      assert Flags(d) == Same(true, k + e);
    } else {
      SameSplit(false, k, -e);
      assert Flags(e) == Same(false, -e);
      assert Flags(d) == Same(false, k - e);
    }
    assert (Same(x, k) + Flags(e)) + rest == Same(x, k) + (Flags(e) + rest);
  }

  /** k copies and l more copies of a flag are k + l copies. */
  lemma SameSplit(x: bool, k: int, l: int)
    requires k >= 0 && l >= 0
    ensures Same(x, k + l) == Same(x, k) + Same(x, l)
  {
  }

  /** Skipping k columns of the same kind, where the two sequences do not both emit. */
  lemma {:induction false} SkipSame(row: int, col: int, x: bool, y: bool, k: int, a: seq<bool>, b: seq<bool>)
    requires k >= 0 && !(x && y)
    ensures Emitted(row, col, Same(x, k) + a, Same(y, k) + b)
            == Emitted(row + (if x then k else 0), col + (if y then k else 0), a, b)
    decreases k
  {
    if k > 0 {
      var u, v := Same(x, k) + a, Same(y, k) + b;
      assert u[0] == x && v[0] == y;
      assert u[1..] == Same(x, k - 1) + a;
      assert v[1..] == Same(y, k - 1) + b;
      SkipSame(row + (if x then 1 else 0), col + (if y then 1 else 0), x, y, k - 1, a, b);
    } else {
      assert Same(x, k) + a == a && Same(y, k) + b == b;
    }
  }

  /**
   * The pairs copy emits have strictly increasing rows and strictly
   * increasing columns, none before the starting residues, and score 0.
   */
  lemma {:induction false} EmittedSorted(row: int, col: int, rf: seq<bool>, cf: seq<bool>)
    ensures var ps := Emitted(row, col, rf, cf);
            RowSorted(ps) && ColSorted(ps)
            && forall k :: 0 <= k < |ps| ==> ps[k].row >= row && ps[k].col >= col && ps[k].score == 0
    decreases |rf|
  {
    if |rf| > 0 && |cf| > 0 {
      var row', col' := row + (if rf[0] then 1 else 0), col + (if cf[0] then 1 else 0);
      EmittedSorted(row', col', rf[1..], cf[1..]);
      var rest := Emitted(row', col', rf[1..], cf[1..]);
      if rf[0] && cf[0] {
        ConsSorted(Pair(row, col, 0), rest);
      }
    }
  }

  /** Putting a pair before pairs that lie strictly after it in both rows and columns keeps both orders. */
  lemma ConsSorted(p: Pair, ps: seq<Pair>)
    requires RowSorted(ps) && ColSorted(ps)
    requires forall k :: 0 <= k < |ps| ==> ps[k].row > p.row && ps[k].col > p.col
    ensures RowSorted([p] + ps) && ColSorted([p] + ps)
  {
    var s := [p] + ps;
    forall i, j | 0 <= i < j < |s|
      ensures s[i].row < s[j].row && s[i].col < s[j].col
    {
      assert s[j] == ps[j - 1];
      if i > 0 {
        assert s[i] == ps[i - 1];
      }
    }
  }

  /** No more pairs are emitted than either sequence has columns. */
  lemma {:induction false} EmittedLength(row: int, col: int, rf: seq<bool>, cf: seq<bool>)
    ensures |Emitted(row, col, rf, cf)| <= |rf| && |Emitted(row, col, rf, cf)| <= |cf|
    decreases |rf|
  {
    if |rf| > 0 && |cf| > 0 {
      EmittedLength(row + (if rf[0] then 1 else 0), col + (if cf[0] then 1 else 0), rf[1..], cf[1..]);
    }
  }

  /**
   * An alignment read from the emissions format survives a trip through
   * the blocks format: fill followed by copy gives back the same pairs.
   */
  lemma EmissionsThroughBlocks(row: int, col: int, rf: seq<bool>, cf: seq<bool>, rf0: int, cf0: int)
    ensures var ps := Emitted(row, col, rf, cf);
            var b := AlignmentFormat.Encode(ps, rf0, cf0);
            AlignmentFormat.Decode(b, |b.rowStarts|, rf0, cf0) == ps
  {
    var ps := Emitted(row, col, rf, cf);
    EmittedSorted(row, col, rf, cf);
    AlignmentFormat.BlocksRoundTrip(ps, rf0, cf0);
    assert AlignmentFormat.Zeroed(ps) == ps;
  }
}
