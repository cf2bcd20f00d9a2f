/**
 * ImplAlignatorDPFull: dynamic programming alignment with affine gap
 * penalties over a full matrix, in local, wrapped and global mode, with a
 * trace-back matrix that records, cell by cell, where the best score came
 * from.
 *
 * The matrix has rows 0 .. R-1 and columns 0 .. C-1; score(row, col) is the
 * scorer's value for the two residues, given as the matrix S. The rolling
 * arrays mCC and mDD are indexed from column -1, so mCC[k] is cc[k + 1]
 * here. The trace matrix is one flat array with a leading block for row -1
 * and, in every row, a leading entry for column -1: entry (row, col) lies
 * at Idx(row, col) = (row + 1) * (C + 1) + col + 1.
 */
module AlignatorDP {
  import opened Pairs

  datatype Mode = Local | Wrap | Global

  /** TB_STOP, TB_DELETION, TB_INSERTION, TB_MATCH and TB_WRAP. */
  datatype Trace = Stop | Deletion | Insertion | Match | Wrapped

  /**
   * Gap opening and extension penalties for gaps in the row and in the
   * column, and whether end gaps are penalised at each of the four ends
   * (used in global mode only).
   */
  datatype Penalties = Penalties(rowGop: int, rowGep: int, colGop: int, colGep: int,
                                 rowLeft: bool, rowRight: bool, colLeft: bool, colRight: bool)

  /** One alignment problem: the mode, the penalties, the R x C score matrix. */
  datatype Problem = Problem(mode: Mode, pen: Penalties, S: seq<seq<int>>, C: nat)

  /**
   * The values the recurrence computes for one cell: h is the cell's score
   * (mCC), e the best score ending in a horizontal gap, d the best ending in
   * a vertical gap (mDD), v the best of match, e and d before local mode
   * clips it at 0, newH and newV whether the gaps were opened here.
   */
  datatype Cell = Cell(h: int, e: int, d: int, v: int, newH: bool, newV: bool)

  /** The best score seen so far and its cell (NO_POS while none). */
  datatype Best = Best(score: int, row: int, col: int)

  /** What traceBack leaves in the result alignment. */
  datatype Traced =
    | NotTraced                              // no cell beat the initial score
    | Aligned(pairs: seq<Pair>, score: int)  // the pairs in the order added, and the score set
    | OutOfRange                             // a read outside the matrices (undefined behaviour)

  /** The pairs a trace-back adds from some cell on, and whether it stayed inside the matrices. */
  datatype Path = Path(pairs: seq<Pair>, ok: bool)

  predicate WellFormed(pr: Problem)
  {
    forall i :: 0 <= i < |pr.S| ==> |pr.S[i]| == pr.C
  }

  function Rows(pr: Problem): nat { |pr.S| }

  function Max(a: int, b: int): (r: int)
    ensures r >= a && r >= b && (r == a || r == b)
  {
    if a >= b then a else b
  }

  // ---------------------------------------------------------------------
  // The borders of the matrix.

  /** mCC[col] before the first row: the upper border. */
  function Top(pr: Problem, j: int): int
  {
    if pr.mode == Global && pr.pen.rowLeft then pr.pen.rowGop + pr.pen.rowGep * (j + 1) else 0
  }

  /** mDD[col] before the first row. */
  function TopD(pr: Problem, j: int): int
  {
    if pr.mode == Global && pr.pen.rowLeft then Top(pr, j) else pr.pen.rowGop
  }

  /** e at the start of row i. */
  function LeftE(pr: Problem, i: int): int
  {
    if pr.mode == Global && pr.pen.colLeft then pr.pen.colGop + pr.pen.colGep * (i + 1) else pr.pen.colGop
  }

  /**
   * The whole recurrence. c and e at the start of a row are the left
   * border: 0 in local mode; in wrapped mode the score of the previous
   * row's last cell when that is positive (the alignment wraps around),
   * else 0; in global mode the penalty of a leading gap when left column
   * gaps are penalised, else 0. The diagonal value s for column 0 is the
   * left border's old value (global mode) or its new value (wrapped mode).
   * Then, for every cell, e is the better of opening a gap after the cell
   * to the left and extending that cell's gap, d the same for the cell
   * above, and h the best of the match, e and d, clipped at 0 in local mode.
   */
  function CellAt(pr: Problem, i: int, j: int): (r: Cell)
    requires WellFormed(pr) && 0 <= i < Rows(pr) && 0 <= j < pr.C
    ensures r.v >= r.e && r.v >= r.d
    ensures r.v == r.e || r.v == r.d || r.v == Diag(pr, i, j) + pr.S[i][j]
    ensures r.h == (if pr.mode == Local && r.v <= 0 then 0 else r.v)
    decreases i, j, 3
  {
    var p := pr.pen;
    var cLeft := if j == 0 then LeftC(pr, i) else CellAt(pr, i, j - 1).h;
    var eLeft := if j == 0 then LeftE(pr, i) else CellAt(pr, i, j - 1).e;
    var up := Up(pr, i, j);
    var dUp := UpD(pr, i, j);
    var e := Max(cLeft + p.colGop + p.colGep, eLeft + p.colGep);
    var d := Max(up + p.rowGop + p.rowGep, dUp + p.rowGep);
    var v := Max(Max(Diag(pr, i, j) + pr.S[i][j], e), d);
    Cell(if pr.mode == Local && v <= 0 then 0 else v, e, d, v,
         cLeft + p.colGop + p.colGep > eLeft + p.colGep,
         up + p.rowGop + p.rowGep > dUp + p.rowGep)
  }

  /** Row i wraps around: wrapped mode, and the previous row ends on a positive score. */
  predicate Wraps(pr: Problem, i: int)
    requires WellFormed(pr) && 0 <= i < Rows(pr)
    decreases i, 0, 0
  {
    pr.mode == Wrap && i >= 1 && pr.C >= 1 && CellAt(pr, i - 1, pr.C - 1).h > 0
  }

  /** c at the start of row i, which is also what mCC[-1] holds during row i. */
  function LeftC(pr: Problem, i: int): int
    requires WellFormed(pr) && 0 <= i < Rows(pr)
    decreases i, 0, 1
  {
    match pr.mode
    case Local => 0
    case Wrap => if Wraps(pr, i) then CellAt(pr, i - 1, pr.C - 1).h else 0
    case Global => if pr.pen.colLeft then pr.pen.colGop + pr.pen.colGep * (i + 1) else 0
  }

  /** s for column j of row i: the score of the cell diagonally before. */
  function Diag(pr: Problem, i: int, j: int): int
    requires WellFormed(pr) && 0 <= i < Rows(pr) && 0 <= j < pr.C
    decreases i, j, 2
  {
    if j > 0 then Up(pr, i, j - 1)
    else match pr.mode
      case Local => 0
      case Wrap => LeftC(pr, i)
      case Global => if pr.pen.colLeft && i > 0 then pr.pen.colGop + pr.pen.colGep * i else 0
  }

  /** mCC[j] while row i is computed and column j is not yet: the cell above. */
  function Up(pr: Problem, i: int, j: int): int
    requires WellFormed(pr) && 0 <= i <= Rows(pr) && 0 <= j < pr.C
    decreases i, j, 1
  {
    if i == 0 then Top(pr, j) else CellAt(pr, i - 1, j).h
  }

  /** mDD[j] while row i is computed and column j is not yet. */
  function UpD(pr: Problem, i: int, j: int): int
    requires WellFormed(pr) && 0 <= i <= Rows(pr) && 0 <= j < pr.C
    decreases i, j, 1
  {
    if i == 0 then TopD(pr, j) else CellAt(pr, i - 1, j).d
  }

  // ---------------------------------------------------------------------
  // The trace matrix and the best cell, as the scan leaves them.

  function Size(pr: Problem): nat { (Rows(pr) + 1) * (pr.C + 1) }

  function Idx(pr: Problem, r: int, c: int): int { (r + 1) * (pr.C + 1) + c + 1 }

  /** Every entry from row -1 and column -1 on lies inside the trace matrix. */
  lemma IdxInRange(pr: Problem, r: int, c: int)
    requires -1 <= r < Rows(pr) && -1 <= c < pr.C
    ensures 0 <= Idx(pr, r, c) < Size(pr)
  {
    MulMono(r + 1, Rows(pr), pr.C + 1);
  }

  lemma MulMono(a: nat, b: nat, k: nat)
    requires a <= b
    ensures a * k <= b * k
  {
  }

  /** The entry of a real cell is never the column -1 entry of any row. */
  lemma IdxNotBorder(pr: Problem, r: int, c: int, r': int)
    requires -1 <= r && -1 <= r' && 0 <= c < pr.C
    ensures Idx(pr, r, c) != Idx(pr, r', -1)
  {
    if r >= r' {
      MulMono(r' + 1, r + 1, pr.C + 1);
    } else {
      MulMono(r + 2, r' + 1, pr.C + 1);
    }
  }

  /** The trace matrix startUp leaves: TB_STOP everywhere. */
  function Initial(pr: Problem): (t: seq<Trace>)
    ensures |t| == Size(pr) && forall k :: 0 <= k < |t| ==> t[k] == Stop
  {
    seq(Size(pr), _ => Stop)
  }

  /**
   * The entries cell (i, j) writes: none when local mode clips it to 0;
   * else TB_INSERTION if the best is the vertical gap, also on the cell
   * above when the gap was extended rather than opened; else TB_DELETION
   * if it is the horizontal gap, also on the cell to the left when that
   * gap was extended; else TB_MATCH.
   */
  function CellTrace(pr: Problem, t: seq<Trace>, i: int, j: int): (r: seq<Trace>)
    requires WellFormed(pr) && 0 <= i < Rows(pr) && 0 <= j < pr.C && |t| == Size(pr)
    ensures |r| == |t|
    ensures forall k :: 0 <= k < |t| ==> r[k] == t[k] || r[k] == Insertion || r[k] == Deletion || r[k] == Match
  {
    IdxInRange(pr, i, j);
    IdxInRange(pr, i - 1, j);
    IdxInRange(pr, i, j - 1);
    var cell := CellAt(pr, i, j);
    if pr.mode == Local && cell.v <= 0 then t
    else if cell.v == cell.d then
      var t1 := t[Idx(pr, i, j) := Insertion];
      if cell.newV then t1 else t1[Idx(pr, i - 1, j) := Insertion]
    else if cell.v == cell.e then
      var t1 := t[Idx(pr, i, j) := Deletion];
      if cell.newH then t1 else t1[Idx(pr, i, j - 1) := Deletion]
    else t[Idx(pr, i, j) := Match]
  }

  /** A row that wraps around marks the column -1 entry of the row before with TB_WRAP. */
  function RowStartTrace(pr: Problem, t: seq<Trace>, i: int): (r: seq<Trace>)
    requires WellFormed(pr) && 0 <= i < Rows(pr) && |t| == Size(pr)
    ensures |r| == |t|
  {
    if Wraps(pr, i) then IdxInRange(pr, i - 1, -1); t[Idx(pr, i - 1, -1) := Wrapped] else t
  }

  /** The trace matrix once rows 0 .. i-1 are done. */
  function TraceRows(pr: Problem, i: int): (r: seq<Trace>)
    requires WellFormed(pr) && 0 <= i <= Rows(pr)
    ensures |r| == Size(pr)
    decreases i, 0
  {
    if i == 0 then Initial(pr) else TraceBefore(pr, i - 1, pr.C)
  }

  /** The trace matrix once row i has started and its cells 0 .. j-1 are done. */
  function TraceBefore(pr: Problem, i: int, j: int): (r: seq<Trace>)
    requires WellFormed(pr) && 0 <= i < Rows(pr) && 0 <= j <= pr.C
    ensures |r| == Size(pr)
    decreases i, 1, j
  {
    if j == 0 then RowStartTrace(pr, TraceRows(pr, i), i)
    else CellTrace(pr, TraceBefore(pr, i, j - 1), i, j - 1)
  }

  /**
   * A cell competes for the best score unless global mode penalises right
   * end gaps and the cell is not on the last row (or column) they require.
   */
  predicate Eligible(pr: Problem, i: int, j: int)
  {
    !(pr.mode == Global && ((pr.pen.rowRight && i < Rows(pr) - 1) || (pr.pen.colRight && j < pr.C - 1)))
  }

  /** One cell of the scan for the best score: a strictly greater eligible score replaces it. */
  function BestStep(pr: Problem, b: Best, i: int, j: int): Best
    requires WellFormed(pr) && 0 <= i < Rows(pr) && 0 <= j < pr.C
  {
    if Eligible(pr, i, j) && b.score < CellAt(pr, i, j).h then Best(CellAt(pr, i, j).h, i, j) else b
  }

  /** The best score and cell once rows 0 .. i-1 are done, starting from score b0. */
  function BestRows(pr: Problem, b0: int, i: int): Best
    requires WellFormed(pr) && 0 <= i <= Rows(pr)
    decreases i, 0
  {
    if i == 0 then Best(b0, NO_POS, NO_POS) else BestBefore(pr, b0, i - 1, pr.C)
  }

  /** The best score and cell once cells 0 .. j-1 of row i are done. */
  function BestBefore(pr: Problem, b0: int, i: int, j: int): Best
    requires WellFormed(pr) && 0 <= i < Rows(pr) && 0 <= j <= pr.C
    decreases i, 1, j
  {
    if j == 0 then BestRows(pr, b0, i) else BestStep(pr, BestBefore(pr, b0, i, j - 1), i, j - 1)
  }

  /**
   * The arithmetic of one cell, as the scan does it: from c (the cell to
   * the left), e, s (the cell diagonally before) and mCC[j], mDD[j] (the
   * cell above) it computes the cell's e, d and best value, and whether the
   * gaps were opened here; these are the values of the recurrence.
   */
  method Recurrence(pr: Problem, i: int, j: int, c: int, e: int, s: int, up: int, dUp: int)
    returns (e': int, d: int, v: int, newH: bool, newV: bool)
    requires WellFormed(pr) && 0 <= i < Rows(pr) && 0 <= j < pr.C
    requires c == (if j == 0 then LeftC(pr, i) else CellAt(pr, i, j - 1).h)
    requires e == (if j == 0 then LeftE(pr, i) else CellAt(pr, i, j - 1).e)
    requires s == Diag(pr, i, j) && up == Up(pr, i, j) && dUp == UpD(pr, i, j)
    ensures var cell := CellAt(pr, i, j); v == cell.v && e' == cell.e && d == cell.d && newH == cell.newH && newV == cell.newV
  {
    var p := pr.pen;
    var colM := p.colGop + p.colGep;
    var rowM := p.rowGop + p.rowGep;
    newH := false;
    var cLeft := c + colM;
    e' := e + p.colGep;
    if cLeft > e' {
      newH := true;
      e' := cLeft;
    }
    newV := false;
    var cUp := up + rowM;
    d := dUp + p.rowGep;
    if cUp > d {
      newV := true;
      d := cUp;
    }
    v := s + pr.S[i][j];
    if e' > v {
      v := e';
    }
    if d > v {
      v := d;
    }
  }

  /** The rolling arrays inside row i before column j: this row's cells before j, the row above from j on. */
  ghost predicate Arrays(pr: Problem, i: int, j: int, ccs: seq<int>, dds: seq<int>)
    requires WellFormed(pr) && 0 <= i < Rows(pr) && 0 <= j <= pr.C && |ccs| == |dds| == pr.C + 2
  {
    (forall k :: 0 <= k < j ==> ccs[k + 1] == CellAt(pr, i, k).h) &&
    (forall k :: 0 <= k < j ==> dds[k + 1] == CellAt(pr, i, k).d) &&
    (forall k :: j <= k < pr.C ==> ccs[k + 1] == Up(pr, i, k)) &&
    (forall k :: j <= k < pr.C ==> dds[k + 1] == UpD(pr, i, k))
  }

  /** The whole state inside row i before column j: arrays, trace matrix, best cell, c, e and s. */
  ghost predicate RowState(pr: Problem, b0: int, i: int, j: int, ccs: seq<int>, dds: seq<int>,
                           t: seq<Trace>, b: Best, c: int, e: int, s: int)
  {
    WellFormed(pr) && 0 <= i < Rows(pr) && 0 <= j <= pr.C && |ccs| == |dds| == pr.C + 2 &&
    ccs[0] == LeftC(pr, i) && Arrays(pr, i, j, ccs, dds) &&
    t == TraceBefore(pr, i, j) && b == BestBefore(pr, b0, i, j) &&
    c == (if j == 0 then LeftC(pr, i) else CellAt(pr, i, j - 1).h) &&
    e == (if j == 0 then LeftE(pr, i) else CellAt(pr, i, j - 1).e) &&
    (j < pr.C ==> s == Diag(pr, i, j))
  }

  /** The whole state between rows: rows 0 .. i-1 are done. */
  ghost predicate RowsState(pr: Problem, b0: int, i: int, ccs: seq<int>, dds: seq<int>, t: seq<Trace>, b: Best)
  {
    WellFormed(pr) && 0 <= i <= Rows(pr) && |ccs| == |dds| == pr.C + 2 &&
    ccs[0] == (if i == 0 then 0 else LeftC(pr, i - 1)) &&
    (forall k :: 0 <= k < pr.C ==> ccs[k + 1] == Up(pr, i, k)) &&
    (forall k :: 0 <= k < pr.C ==> dds[k + 1] == UpD(pr, i, k)) &&
    t == TraceRows(pr, i) && b == BestRows(pr, b0, i)
  }

  /** A row whose every column is done leaves the state between rows. */
  lemma RowEnd(pr: Problem, b0: int, i: int, ccs: seq<int>, dds: seq<int>,
               t: seq<Trace>, b: Best, c: int, e: int, s: int)
    requires RowState(pr, b0, i, pr.C, ccs, dds, t, b, c, e, s)
    ensures RowsState(pr, b0, i + 1, ccs, dds, t, b)
  {
    var next := i + 1;
    forall k | 0 <= k < pr.C
      ensures ccs[k + 1] == Up(pr, next, k) && dds[k + 1] == UpD(pr, next, k)
    {
      assert ccs[k + 1] == CellAt(pr, i, k).h && dds[k + 1] == CellAt(pr, i, k).d;
    }
  }

  /** The start of row i leaves mCC[-1] at the row's left border and the trace with its TB_WRAP mark. */
  lemma RowStart(pr: Problem, b0: int, i: int, ccs: seq<int>, dds: seq<int>, t: seq<Trace>, b: Best, s: int)
    requires RowsState(pr, b0, i, ccs, dds, t, b) && i < Rows(pr)
    requires pr.C > 0 ==> s == Diag(pr, i, 0)
    ensures RowState(pr, b0, i, 0, ccs[0 := LeftC(pr, i)], dds, RowStartTrace(pr, t, i), b,
                     LeftC(pr, i), LeftE(pr, i), s)
  {
    var ccs' := ccs[0 := LeftC(pr, i)];
    forall k | 0 <= k < pr.C
      ensures ccs'[k + 1] == Up(pr, i, k)
    {
      assert ccs'[k + 1] == ccs[k + 1];
    }
  }

  /** One cell moves the arrays on by one column. */
  lemma ArraysStep(pr: Problem, i: int, j: int, ccs: seq<int>, dds: seq<int>)
    requires WellFormed(pr) && 0 <= i < Rows(pr) && 0 <= j < pr.C && |ccs| == |dds| == pr.C + 2
    requires Arrays(pr, i, j, ccs, dds)
    ensures Arrays(pr, i, j + 1, ccs[j + 1 := CellAt(pr, i, j).h], dds[j + 1 := CellAt(pr, i, j).d])
  {
  }

  /** One cell moves the whole state on by one column. */
  lemma RowStateStep(pr: Problem, b0: int, i: int, j: int, ccs: seq<int>, dds: seq<int>,
                     t: seq<Trace>, b: Best, c: int, e: int, s: int)
    requires RowState(pr, b0, i, j, ccs, dds, t, b, c, e, s) && j < pr.C
    ensures var cell := CellAt(pr, i, j);
      RowState(pr, b0, i, j + 1, ccs[j + 1 := cell.h], dds[j + 1 := cell.d],
               CellTrace(pr, t, i, j), BestStep(pr, b, i, j), cell.h, cell.e, ccs[j + 1])
  {
    ArraysStep(pr, i, j, ccs, dds);
    if j + 1 < pr.C {
      assert ccs[j + 1] == Up(pr, i, j) == Diag(pr, i, j + 1);
    }
  }

  // ---------------------------------------------------------------------
  // The trace-back.

  /** No real cell of trace matrix t holds TB_WRAP. */
  ghost predicate NoWrapInCells(pr: Problem, t: seq<Trace>)
    requires |t| == Size(pr)
  {
    forall r, c :: 0 <= r < Rows(pr) && 0 <= c < pr.C && 0 <= Idx(pr, r, c) < |t| ==> t[Idx(pr, r, c)] != Wrapped
  }

  /**
   * The trace-back from (row, col) with TB_WRAP going to the last column:
   * it stops on TB_STOP or once above row 0; a deletion goes one column
   * left, and one row up as well when that leaves column 0 or less; an
   * insertion goes one row up; a match adds the pair and goes diagonally
   * up and left; a read outside the trace or score matrix fails.
   */
  function TracePath(pr: Problem, t: seq<Trace>, row: int, col: int): (r: Path)
    requires WellFormed(pr) && |t| == Size(pr) && NoWrapInCells(pr, t) && pr.C >= 1
    requires 0 <= row < Rows(pr) && col < pr.C
    decreases row, (if col < 0 then 1 else 0), (if col < 0 then 0 else col)
  {
    var k := Idx(pr, row, col);
    IdxBelowSize(pr, row, col);
    if k < 0 then Path([], false)
    else match t[k]
      case Stop => Path([], true)
      case Deletion =>
        if col - 1 >= 1 then TracePath(pr, t, row, col - 1)
        else if row - 1 < 0 then Path([], true)
        else TracePath(pr, t, row - 1, col - 1)
      case Insertion =>
        if row - 1 < 0 then Path([], true) else TracePath(pr, t, row - 1, col)
      case Match =>
        if col < 0 then Path([], false)
        else
          var here := [Pair(row, col, pr.S[row][col])];
          if row - 1 < 0 then Path(here, true)
          else Path(here + TracePath(pr, t, row - 1, col - 1).pairs, TracePath(pr, t, row - 1, col - 1).ok)
      case Wrapped =>
        assert col < 0;
        TracePath(pr, t, row, pr.C - 1)
  }

  /**
   * The trace-back from (row, col), having collected pairs so far, ends
   * with the walk total from its starting cell.
   */
  ghost predicate Walk(pr: Problem, t: seq<Trace>, total: Path, row: int, col: int, pairs: seq<Pair>)
  {
    && WellFormed(pr) && |t| == Size(pr) && NoWrapInCells(pr, t) && pr.C >= 1
    && 0 <= row < Rows(pr) && col < pr.C
    && var p := TracePath(pr, t, row, col); total == Path(pairs + p.pairs, p.ok)
  }

  /**
   * One step of the trace-back on entry x at (row, col), moving to
   * (row', col') with pairs': the walk is preserved, ends where the row
   * leaves the matrix, and fails on a bad read.
   */
  lemma WalkOn(pr: Problem, t: seq<Trace>, total: Path, x: Trace, row: int, col: int, pairs: seq<Pair>,
               row': int, col': int, pairs': seq<Pair>, bad: bool)
    requires Walk(pr, t, total, row, col, pairs)
    requires 0 <= Idx(pr, row, col) < |t| && x == t[Idx(pr, row, col)] && x != Stop
    requires bad <==> x == Match && col < 0
    requires !bad ==>
      && row' == (if x == Insertion || x == Match || (x == Deletion && col - 1 < 1) then row - 1 else row)
      && col' == (if x == Wrapped then pr.C - 1 else if x == Insertion then col else col - 1)
      && pairs' == pairs + (if x == Match then [Pair(row, col, pr.S[row][col])] else [])
    ensures bad ==> !total.ok
    ensures !bad && row' < 0 ==> total == Path(pairs', true)
    ensures !bad && row' >= 0 ==> Walk(pr, t, total, row', col', pairs')
  {
    if !bad && row' >= 0 {
      var added := if x == Match then [Pair(row, col, pr.S[row][col])] else [];
      var rest := TracePath(pr, t, row', col');
      assert TracePath(pr, t, row, col) == Path(added + rest.pairs, rest.ok);
      assert pairs + (added + rest.pairs) == pairs' + rest.pairs;
    }
  }

  /**
   * The switch of traceBack on one trace entry: a deletion moves left
   * (and up when it reaches the first columns), an insertion moves up, a
   * match records the pair and moves diagonally, a wrap moves to the last
   * column of the same row. A match left of the window is a bad read.
   */
  method TraceMove(pr: Problem, x: Trace, row: int, col: int, pairs: seq<Pair>)
    returns (row': int, col': int, pairs': seq<Pair>, bad: bool)
    requires WellFormed(pr) && pr.C >= 1 && 0 <= row < Rows(pr) && col < pr.C && x != Stop
    ensures bad <==> x == Match && col < 0
    ensures !bad ==>
      && row' == (if x == Insertion || x == Match || (x == Deletion && col - 1 < 1) then row - 1 else row)
      && col' == (if x == Wrapped then pr.C - 1 else if x == Insertion then col else col - 1)
      && pairs' == pairs + (if x == Match then [Pair(row, col, pr.S[row][col])] else [])
  {
    row', col', pairs', bad := row, col, pairs, false;
    match x {
      case Deletion =>
        col' := col - 1;
        if col' < 1 {
          row' := row - 1;
        }
      case Insertion =>
        row' := row - 1;
      case Match =>
        if col < 0 {
          bad := true;
          return;
        }
        pairs' := pairs + [Pair(row, col, pr.S[row][col])];
        row' := row - 1;
        col' := col - 1;
      case Wrapped =>
        col' := pr.C - 1;
    }
  }

  /** No entry at or before the last column of a real row lies past the trace matrix. */
  lemma IdxBelowSize(pr: Problem, r: int, c: int)
    requires 0 <= r < Rows(pr) && c < pr.C
    ensures Idx(pr, r, c) < Size(pr)
  {
    MulMono(r + 1, Rows(pr), pr.C + 1);
  }

  /** No entry of trace matrix t holds TB_WRAP. */
  ghost predicate NoWrap(t: seq<Trace>)
  {
    forall k :: 0 <= k < |t| ==> t[k] != Wrapped
  }

  /**
   * TB_WRAP is only ever written to the column -1 entry of a row, and only
   * in wrapped mode.
   */
  lemma {:induction false} WrapOnlyOnBorder(pr: Problem, i: int)
    requires WellFormed(pr) && 0 <= i <= Rows(pr)
    ensures NoWrapInCells(pr, TraceRows(pr, i))
    ensures pr.mode != Wrap ==> NoWrap(TraceRows(pr, i))
    decreases i, 0
  {
    if i > 0 {
      WrapOnlyOnBorderInRow(pr, i - 1, pr.C);
    }
  }

  lemma {:induction false} WrapOnlyOnBorderInRow(pr: Problem, i: int, j: int)
    requires WellFormed(pr) && 0 <= i < Rows(pr) && 0 <= j <= pr.C
    ensures NoWrapInCells(pr, TraceBefore(pr, i, j))
    ensures pr.mode != Wrap ==> NoWrap(TraceBefore(pr, i, j))
    decreases i, 1, j
  {
    if j == 0 {
      WrapOnlyOnBorder(pr, i);
      RowStartWrapsBorder(pr, TraceRows(pr, i), i);
    } else {
      WrapOnlyOnBorderInRow(pr, i, j - 1);
      CellTraceNoWrap(pr, TraceBefore(pr, i, j - 1), i, j - 1);
    }
  }

  /** The start of a row writes TB_WRAP on a border entry only, and only in wrapped mode. */
  lemma RowStartWrapsBorder(pr: Problem, t: seq<Trace>, i: int)
    requires WellFormed(pr) && 0 <= i < Rows(pr) && |t| == Size(pr) && NoWrapInCells(pr, t)
    ensures NoWrapInCells(pr, RowStartTrace(pr, t, i))
    ensures pr.mode != Wrap ==> RowStartTrace(pr, t, i) == t
  {
    if Wraps(pr, i) {
      IdxInRange(pr, i - 1, -1);
      var t' := t[Idx(pr, i - 1, -1) := Wrapped];
      forall r, c | 0 <= r < Rows(pr) && 0 <= c < pr.C && 0 <= Idx(pr, r, c) < |t'|
        ensures t'[Idx(pr, r, c)] != Wrapped
      {
        IdxNotBorder(pr, r, c, i - 1);
      }
    }
  }

  /** A cell writes no TB_WRAP. */
  lemma CellTraceNoWrap(pr: Problem, t: seq<Trace>, i: int, j: int)
    requires WellFormed(pr) && 0 <= i < Rows(pr) && 0 <= j < pr.C && |t| == Size(pr)
    ensures NoWrapInCells(pr, t) ==> NoWrapInCells(pr, CellTrace(pr, t, i, j))
    ensures NoWrap(t) ==> NoWrap(CellTrace(pr, t, i, j))
  {
  }

  /** Cell (i', j') comes before cell (i, j) in the scan. */
  predicate Before(i': int, j': int, i: int, j: int)
  {
    i' < i || (i' == i && j' < j)
  }

  /**
   * What the scan has found once the cells before (i, j) are done: b's
   * score is at least b0 and every eligible cell's score; and either no
   * cell beat b0 (b is b0 at NO_POS), or b is an eligible cell before
   * (i, j) whose score beats b0 and every eligible cell before it.
   */
  ghost predicate FirstMaximum(pr: Problem, b0: int, i: int, j: int, b: Best)
    requires WellFormed(pr) && 0 <= i < Rows(pr)
  {
    b.score >= b0 &&
    (forall i', j' :: 0 <= i' && 0 <= j' < pr.C && Before(i', j', i, j) && Eligible(pr, i', j') ==>
       CellAt(pr, i', j').h <= b.score) &&
    (b.row == NO_POS ==> b.col == NO_POS && b.score == b0) &&
    (b.row != NO_POS ==>
       0 <= b.row && 0 <= b.col < pr.C && Before(b.row, b.col, i, j) && Eligible(pr, b.row, b.col) &&
       CellAt(pr, b.row, b.col).h == b.score > b0 &&
       forall i', j' :: 0 <= i' && 0 <= j' < pr.C && Before(i', j', b.row, b.col) && Eligible(pr, i', j') ==>
         CellAt(pr, i', j').h < b.score)
  }

  lemma {:induction false} BestBeforeIsFirstMaximum(pr: Problem, b0: int, i: int, j: int)
    requires WellFormed(pr) && 0 <= i < Rows(pr) && 0 <= j <= pr.C
    ensures FirstMaximum(pr, b0, i, j, BestBefore(pr, b0, i, j))
    decreases i, j
  {
    if j == 0 {
      if i > 0 {
        BestBeforeIsFirstMaximum(pr, b0, i - 1, pr.C);
        NextRowKeeps(pr, b0, i, BestBefore(pr, b0, i - 1, pr.C));
      }
    } else {
      var j' := j - 1;
      BestBeforeIsFirstMaximum(pr, b0, i, j');
      var b := BestBefore(pr, b0, i, j');
      BestStepKeeps(pr, b0, i, j', b);
      assert BestBefore(pr, b0, i, j) == BestStep(pr, b, i, j');
    }
  }

  /** All of row i - 1 done is the same as nothing of row i done. */
  lemma NextRowKeeps(pr: Problem, b0: int, i: int, b: Best)
    requires WellFormed(pr) && 0 < i < Rows(pr)
    requires FirstMaximum(pr, b0, i - 1, pr.C, b)
    ensures FirstMaximum(pr, b0, i, 0, b)
  {
  }

  /** Taking in cell (i, j) keeps FirstMaximum. */
  lemma BestStepKeeps(pr: Problem, b0: int, i: int, j: int, b: Best)
    requires WellFormed(pr) && 0 <= i < Rows(pr) && 0 <= j < pr.C
    requires FirstMaximum(pr, b0, i, j, b)
    ensures FirstMaximum(pr, b0, i, j + 1, BestStep(pr, b, i, j))
  {
  }

  /**
   * The best cell of the whole scan: mScore is at least its initial value
   * b0 and every eligible cell's score; mRowLast and mColLast are NO_POS
   * when no eligible cell beat b0, else the first eligible cell in row
   * order with the greatest score.
   */
  lemma BestIsFirstMaximum(pr: Problem, b0: int)
    requires WellFormed(pr)
    ensures var b := BestRows(pr, b0, Rows(pr));
      b.score >= b0 &&
      (forall i, j :: 0 <= i < Rows(pr) && 0 <= j < pr.C && Eligible(pr, i, j) ==> CellAt(pr, i, j).h <= b.score) &&
      (b.row == NO_POS <==> b.col == NO_POS) &&
      (b.row == NO_POS ==> b.score == b0) &&
      (b.row != NO_POS ==>
         0 <= b.row < Rows(pr) && 0 <= b.col < pr.C && Eligible(pr, b.row, b.col) &&
         CellAt(pr, b.row, b.col).h == b.score > b0 &&
         forall i, j :: 0 <= i < Rows(pr) && 0 <= j < pr.C && Before(i, j, b.row, b.col) && Eligible(pr, i, j) ==>
           CellAt(pr, i, j).h < b.score)
  {
    if Rows(pr) > 0 {
      BestBeforeIsFirstMaximum(pr, b0, Rows(pr) - 1, pr.C);
    }
  }

  /** Rows strictly decrease along ps, the order in which traceBack adds its pairs. */
  predicate RowsDescending(ps: seq<Pair>)
  {
    forall a, b :: 0 <= a < b < |ps| ==> ps[a].row > ps[b].row
  }

  /** Columns strictly decrease along ps. */
  predicate ColsDescending(ps: seq<Pair>)
  {
    forall a, b :: 0 <= a < b < |ps| ==> ps[a].col > ps[b].col
  }

  /** Every pair of ps is a cell of the matrix at or above row, carrying that cell's score. */
  predicate Scored(pr: Problem, ps: seq<Pair>, row: int)
    requires WellFormed(pr)
  {
    forall a :: 0 <= a < |ps| ==>
      0 <= ps[a].row <= row && ps[a].row < Rows(pr) && 0 <= ps[a].col < pr.C &&
      ps[a].score == pr.S[ps[a].row][ps[a].col]
  }

  /**
   * The pairs of a trace-back lie in the matrix, carry their cells' scores
   * and climb strictly row by row; without TB_WRAP in the trace matrix they
   * also move strictly left, starting at or left of the start column.
   */
  lemma {:induction false} PathShape(pr: Problem, t: seq<Trace>, row: int, col: int)
    requires WellFormed(pr) && |t| == Size(pr) && NoWrapInCells(pr, t) && pr.C >= 1
    requires 0 <= row < Rows(pr) && col < pr.C
    ensures PathOk(pr, t, TracePath(pr, t, row, col).pairs, row, col)
    decreases row, (if col < 0 then 1 else 0), (if col < 0 then 0 else col), 1
  {
    var k := Idx(pr, row, col);
    IdxBelowSize(pr, row, col);
    if k >= 0 && t[k] != Stop {
      if t[k] == Match {
        if col >= 0 && row >= 1 {
          MatchShape(pr, t, row, col);
        }
      } else if t[k] == Deletion {
        DeletionShape(pr, t, row, col);
      } else if t[k] == Insertion {
        InsertionShape(pr, t, row, col);
      } else {
        WrapShape(pr, t, row, col);
      }
    }
  }

  /** The shape of the pairs a trace-back adds, seen from (row, col). */
  ghost predicate PathOk(pr: Problem, t: seq<Trace>, ps: seq<Pair>, row: int, col: int)
    requires WellFormed(pr)
  {
    Scored(pr, ps, row) && RowsDescending(ps) &&
    (NoWrap(t) ==> ColsDescending(ps) && forall a :: 0 <= a < |ps| ==> ps[a].col <= col)
  }

  /** A deletion adds nothing and moves left, and up at the first columns. */
  lemma {:induction false} DeletionShape(pr: Problem, t: seq<Trace>, row: int, col: int)
    requires WellFormed(pr) && |t| == Size(pr) && NoWrapInCells(pr, t) && pr.C >= 1
    requires 0 <= row < Rows(pr) && col < pr.C && 0 <= Idx(pr, row, col) < |t|
    requires t[Idx(pr, row, col)] == Deletion
    ensures PathOk(pr, t, TracePath(pr, t, row, col).pairs, row, col)
    decreases row, (if col < 0 then 1 else 0), (if col < 0 then 0 else col), 0
  {
    var p := TracePath(pr, t, row, col);
    if col - 1 >= 1 {
      PathShape(pr, t, row, col - 1);
      assert p == TracePath(pr, t, row, col - 1);
    } else if row - 1 >= 0 {
      PathShape(pr, t, row - 1, col - 1);
      assert p == TracePath(pr, t, row - 1, col - 1);
    }
  }

  /** An insertion adds nothing and moves up. */
  lemma {:induction false} InsertionShape(pr: Problem, t: seq<Trace>, row: int, col: int)
    requires WellFormed(pr) && |t| == Size(pr) && NoWrapInCells(pr, t) && pr.C >= 1
    requires 0 <= row < Rows(pr) && col < pr.C && 0 <= Idx(pr, row, col) < |t|
    requires t[Idx(pr, row, col)] == Insertion
    ensures PathOk(pr, t, TracePath(pr, t, row, col).pairs, row, col)
    decreases row, (if col < 0 then 1 else 0), (if col < 0 then 0 else col), 0
  {
    if row - 1 >= 0 {
      PathShape(pr, t, row - 1, col);
      assert TracePath(pr, t, row, col) == TracePath(pr, t, row - 1, col);
    }
  }

  /** TB_WRAP adds nothing and moves to the last column of the same row. */
  lemma {:induction false} WrapShape(pr: Problem, t: seq<Trace>, row: int, col: int)
    requires WellFormed(pr) && |t| == Size(pr) && NoWrapInCells(pr, t) && pr.C >= 1
    requires 0 <= row < Rows(pr) && col < pr.C && 0 <= Idx(pr, row, col) < |t|
    requires t[Idx(pr, row, col)] == Wrapped
    ensures PathOk(pr, t, TracePath(pr, t, row, col).pairs, row, col)
    decreases row, 1, 0, 0
  {
    assert col < 0;
    PathShape(pr, t, row, pr.C - 1);
    assert TracePath(pr, t, row, col) == TracePath(pr, t, row, pr.C - 1);
    assert !NoWrap(t);
  }

  /** A match adds its own pair before the pairs from the cell diagonally before. */
  lemma {:induction false} MatchShape(pr: Problem, t: seq<Trace>, row: int, col: int)
    requires WellFormed(pr) && |t| == Size(pr) && NoWrapInCells(pr, t) && pr.C >= 1
    requires 1 <= row < Rows(pr) && 0 <= col < pr.C && 0 <= Idx(pr, row, col) < |t|
    requires t[Idx(pr, row, col)] == Match
    ensures PathOk(pr, t, TracePath(pr, t, row, col).pairs, row, col)
    decreases row, 0, col, 0
  {
    PathShape(pr, t, row - 1, col - 1);
    var rest := TracePath(pr, t, row - 1, col - 1).pairs;
    var q := Pair(row, col, pr.S[row][col]);
    assert TracePath(pr, t, row, col).pairs == [q] + rest;
    ConsShape(pr, q, rest, NoWrap(t));
  }

  /** A pair before a path that lies strictly below and left of it keeps the path's shape. */
  lemma ConsShape(pr: Problem, q: Pair, rest: seq<Pair>, left: bool)
    requires WellFormed(pr) && 0 <= q.row < Rows(pr) && 0 <= q.col < pr.C && q.score == pr.S[q.row][q.col]
    requires Scored(pr, rest, q.row - 1) && RowsDescending(rest)
    requires left ==> ColsDescending(rest) && forall a :: 0 <= a < |rest| ==> rest[a].col <= q.col - 1
    ensures Scored(pr, [q] + rest, q.row) && RowsDescending([q] + rest)
    ensures left ==> ColsDescending([q] + rest) && forall a :: 0 <= a < |[q] + rest| ==> ([q] + rest)[a].col <= q.col
  {
    var ps := [q] + rest;
    assert forall a :: 0 < a < |ps| ==> ps[a] == rest[a - 1];
  }

  /** What performAlignment leaves in the result: the trace-back from the best cell of the scan. */
  function Outcome(pr: Problem, b0: int): Traced
    requires WellFormed(pr)
  {
    var b := BestRows(pr, b0, Rows(pr));
    if b.row == NO_POS || b.col == NO_POS then NotTraced
    else
      BestIsFirstMaximum(pr, b0);
      WrapOnlyOnBorder(pr, Rows(pr));
      var p := TracePath(pr, TraceRows(pr, Rows(pr)), b.row, b.col);
      if p.ok then Aligned(p.pairs, b.score) else OutOfRange
  }

  /**
   * The result of an alignment: nothing when no eligible cell beats the
   * initial score b0; else an alignment whose score beats b0 and is at
   * least every eligible cell's score, and whose pairs are cells of the
   * matrix with their scores, in strictly decreasing rows, and in local
   * and global mode in strictly decreasing columns too.
   */
  lemma AlignResult(pr: Problem, b0: int)
    requires WellFormed(pr)
    ensures Outcome(pr, b0) == NotTraced <==>
      forall i, j :: 0 <= i < Rows(pr) && 0 <= j < pr.C && Eligible(pr, i, j) ==> CellAt(pr, i, j).h <= b0
    ensures Outcome(pr, b0).Aligned? ==>
      var r := Outcome(pr, b0);
      r.score > b0 &&
      (forall i, j :: 0 <= i < Rows(pr) && 0 <= j < pr.C && Eligible(pr, i, j) ==> CellAt(pr, i, j).h <= r.score) &&
      Scored(pr, r.pairs, Rows(pr) - 1) && RowsDescending(r.pairs) &&
      (pr.mode != Wrap ==> ColsDescending(r.pairs))
  {
    BestIsFirstMaximum(pr, b0);
    WrapOnlyOnBorder(pr, Rows(pr));
    var b := BestRows(pr, b0, Rows(pr));
    if b.row != NO_POS {
      PathShape(pr, TraceRows(pr, Rows(pr)), b.row, b.col);
      WrapOnlyOnBorder(pr, Rows(pr));
      assert !(forall i, j :: 0 <= i < Rows(pr) && 0 <= j < pr.C && Eligible(pr, i, j) ==> CellAt(pr, i, j).h <= b0) by {
        assert CellAt(pr, b.row, b.col).h > b0;
      }
    }
  }

  // ---------------------------------------------------------------------
  // TB_WRAP as written.

  /**
   * One step of traceBack as written: TB_WRAP moves to column
   * col_back(row), which the full iterator reports as one past the last
   * column (the 1-based predecessor of this code moved to col_length,
   * its last column).
   */
  function StepAsWritten(pr: Problem, x: Trace, row: int, col: int): (r: (int, int))
    ensures x == Wrapped ==> r == (row, pr.C)
    ensures x == Match ==> r == (row - 1, col - 1)
  {
    match x
    case Deletion => if col - 1 < 1 then (row - 1, col - 1) else (row, col - 1)
    case Insertion => (row - 1, col)
    case Match => (row - 1, col - 1)
    case Wrapped => (row, pr.C)
    case Stop => (row, col)
  }

  /** A wrapped alignment of three rows scoring 10, 10 and -100 against one column, gaps -10/-1. */
  function WrapExample(): (pr: Problem)
    ensures WellFormed(pr) && Rows(pr) == 3 && pr.C == 1
  {
    Problem(Wrap, Penalties(-10, -1, -10, -1, false, false, false, false), [[10], [10], [-100]], 1)
  }

  /**
   * On WrapExample, starting from mScore 0, the best cell is (1, 0) with
   * 20, reached by a match from the wrapped-around cell (0, 0). traceBack
   * as written goes from (1, 0) to (0, -1), whose TB_WRAP sends it to
   * (0, 1); that is the entry (1, -1), TB_WRAP again, which sends it to
   * (0, 1) once more: the loop never ends. With TB_WRAP going to the last
   * column the trace-back ends with the two matched cells.
   */
  lemma WrapTraceBackLoops()
    ensures var pr := WrapExample(); var t := TraceRows(pr, 3);
      BestRows(pr, 0, 3) == Best(20, 1, 0) &&
      t[Idx(pr, 1, 0)] == Match && StepAsWritten(pr, Match, 1, 0) == (0, -1) &&
      t[Idx(pr, 0, -1)] == Wrapped && StepAsWritten(pr, Wrapped, 0, -1) == (0, 1) &&
      t[Idx(pr, 0, 1)] == Wrapped && StepAsWritten(pr, Wrapped, 0, 1) == (0, 1)
    ensures Outcome(WrapExample(), 0) == Aligned([Pair(1, 0, 10), Pair(0, 0, 10)], 20)
  {
    var pr := WrapExample();
    assert CellAt(pr, 0, 0) == Cell(10, -11, -11, 10, false, false);
    assert Wraps(pr, 1) && LeftC(pr, 1) == 10;
    assert CellAt(pr, 1, 0) == Cell(20, -1, -1, 20, true, true);
    assert Wraps(pr, 2) && LeftC(pr, 2) == 20;
    assert CellAt(pr, 2, 0) == Cell(9, 9, 9, 9, true, true);
    var t0 := Initial(pr);
    assert t0 == [Stop, Stop, Stop, Stop, Stop, Stop, Stop, Stop];
    assert TraceBefore(pr, 0, 0) == t0;
    assert TraceRows(pr, 1) == t0[3 := Match];
    assert TraceBefore(pr, 1, 0) == t0[3 := Match][2 := Wrapped];
    assert TraceRows(pr, 2) == t0[3 := Match][2 := Wrapped][5 := Match];
    assert TraceBefore(pr, 2, 0) == t0[3 := Match][2 := Wrapped][5 := Match][4 := Wrapped];
    var t := TraceRows(pr, 3);
    assert t == [Stop, Stop, Wrapped, Match, Wrapped, Match, Stop, Insertion];
    assert BestRows(pr, 0, 1) == Best(10, 0, 0);
    assert BestRows(pr, 0, 2) == Best(20, 1, 0);
    assert BestRows(pr, 0, 3) == Best(20, 1, 0);
    WrapOnlyOnBorder(pr, 3);
    assert TracePath(pr, t, 0, 0) == Path([Pair(0, 0, 10)], true);
    assert TracePath(pr, t, 0, -1) == Path([Pair(0, 0, 10)], true);
    assert TracePath(pr, t, 1, 0) == Path([Pair(1, 0, 10), Pair(0, 0, 10)], true);
  }

  // ---------------------------------------------------------------------
  // The aligner.

  class AlignatorDPFull {
    const mode: Mode
    const pen: Penalties
    var cc: array<int>      // mCC, from column -1
    var dd: array<int>      // mDD, from column -1
    var trace: array<Trace> // mTraceMatrix
    var score: int          // mScore
    var rowLast: int        // mRowLast
    var colLast: int        // mColLast

    /** An aligner in the given mode with the given penalties, before any alignment. */
    constructor (mode: Mode, pen: Penalties)
      ensures this.mode == mode && this.pen == pen
      ensures rowLast == NO_POS && colLast == NO_POS
    {
      this.mode := mode;
      this.pen := pen;
      cc := new int[0];
      dd := new int[0];
      trace := new Trace[0];
      score := 0;
      rowLast := NO_POS;
      colLast := NO_POS;
    }

    /**
     * startUp: rolling arrays for columns -1 .. C, a trace matrix of
     * TB_STOP entries with a leading block for row -1 and a leading entry
     * per row, and no best cell yet.
     */
    method StartUp(S: seq<seq<int>>, C: nat)
      modifies this
      ensures fresh(cc) && fresh(dd) && fresh(trace)
      ensures cc.Length == C + 2 && dd.Length == C + 2 && cc != dd
      ensures trace.Length == Size(Problem(mode, pen, S, C)) && trace[..] == Initial(Problem(mode, pen, S, C))
      ensures rowLast == NO_POS && colLast == NO_POS && score == old(score)
    {
      cc := new int[C + 2];
      dd := new int[C + 2];
      rowLast := NO_POS;
      colLast := NO_POS;
      var size := (|S| + 1) * (C + 1);
      trace := new Trace[size];
      var k := 0;
      while k < size
        invariant 0 <= k <= size && forall m :: 0 <= m < k ==> trace[m] == Stop
        modifies trace
      {
        trace[k] := Stop;
        k := k + 1;
      }
    }

    /**
     * performAlignment: the scan, then the trace-back from its best cell.
     * The result is Outcome, the trace matrix and best cell those of the
     * recurrence; mScore's value before the scan is the score to beat.
     */
    method PerformAlignment(S: seq<seq<int>>, C: nat) returns (r: Traced)
      requires WellFormed(Problem(mode, pen, S, C))
      requires cc.Length == C + 2 && dd.Length == C + 2 && cc != dd
      requires trace.Length == Size(Problem(mode, pen, S, C)) && trace[..] == Initial(Problem(mode, pen, S, C))
      requires rowLast == NO_POS && colLast == NO_POS
      modifies this, cc, dd, trace
      ensures r == Outcome(Problem(mode, pen, S, C), old(score))
      ensures Best(score, rowLast, colLast) == BestRows(Problem(mode, pen, S, C), old(score), |S|)
      ensures trace[..] == TraceRows(Problem(mode, pen, S, C), |S|)
    {
      var pr := Problem(mode, pen, S, C);
      Fill(pr);
      BestIsFirstMaximum(pr, old(score));
      WrapOnlyOnBorder(pr, Rows(pr));
      r := TraceBack(pr);
    }

    /** The arrays and positions fit problem pr. */
    ghost predicate Shaped(pr: Problem)
      reads this
    {
      WellFormed(pr) && pr.mode == mode && pr.pen == pen &&
      cc.Length == pr.C + 2 && dd.Length == pr.C + 2 && trace.Length == Size(pr) && cc != dd
    }

    /** The state between rows: rows 0 .. i-1 are done. */
    ghost predicate RowsDone(pr: Problem, b0: int, i: int)
      reads this, cc, dd, trace
    {
      Shaped(pr) && RowsState(pr, b0, i, cc[..], dd[..], trace[..], Best(score, rowLast, colLast))
    }

    /** The state inside row i before column j, with the loop variables c, e and s. */
    ghost predicate InRow(pr: Problem, b0: int, i: int, j: int, c: int, e: int, s: int)
      reads this, cc, dd, trace
    {
      Shaped(pr) && RowState(pr, b0, i, j, cc[..], dd[..], trace[..], Best(score, rowLast, colLast), c, e, s)
    }

    /**
     * traceBack: nothing when no cell beat the initial score; else the
     * walk from the best cell, adding a pair for every match, after which
     * the alignment's score is set to the best score.
     */
    method TraceBack(pr: Problem) returns (r: Traced)
      requires Shaped(pr) && NoWrapInCells(pr, trace[..])
      requires rowLast == NO_POS || colLast == NO_POS || (0 <= rowLast < Rows(pr) && 0 <= colLast < pr.C)
      ensures rowLast == NO_POS || colLast == NO_POS ==> r == NotTraced
      ensures rowLast != NO_POS && colLast != NO_POS ==>
        var p := TracePath(pr, trace[..], rowLast, colLast);
        r == if p.ok then Aligned(p.pairs, score) else OutOfRange
    {
      if rowLast == NO_POS || colLast == NO_POS {
        return NotTraced;
      }
      var col := colLast;
      var row := rowLast;
      ghost var t := trace[..];
      ghost var total := TracePath(pr, t, row, col);
      var pairs: seq<Pair> := [];
      assert pairs + total.pairs == total.pairs;
      IdxInRange(pr, row, col);
      var k := Idx(pr, row, col);
      var x := trace[k];
      while x != Stop
        invariant Walk(pr, t, total, row, col, pairs)
        invariant k == Idx(pr, row, col) && 0 <= k < |t| && x == t[k]
        decreases row, (if col < 0 then 1 else 0), (if col < 0 then 0 else col)
      {
        ghost var (row0, col0, pairs0) := (row, col, pairs);
        var bad;
        row, col, pairs, bad := TraceMove(pr, x, row, col, pairs);
        WalkOn(pr, t, total, x, row0, col0, pairs0, row, col, pairs, bad);
        if bad {
          return OutOfRange;
        }
        if row < 0 {
          break;
        }
        k := Idx(pr, row, col);
        IdxBelowSize(pr, row, col);
        if k < 0 {
          return OutOfRange;
        }
        x := trace[k];
      }
      return Aligned(pairs, score);
    }

    /**
     * The scan of performAlignment: the arrays are initialised, then every
     * row is started and its cells computed in order. The trace matrix and
     * the best cell end as the recurrence has them, whatever score mScore
     * held before.
     */
    method Fill(pr: Problem)
      requires Shaped(pr) && trace[..] == Initial(pr) && rowLast == NO_POS && colLast == NO_POS
      modifies this, cc, dd, trace
      ensures cc == old(cc) && dd == old(dd) && trace == old(trace)
      ensures RowsDone(pr, old(score), Rows(pr))
    {
      Initialise(pr);
      ghost var b0 := score;
      var i := 0;
      while i < Rows(pr)
        invariant 0 <= i <= Rows(pr) && RowsDone(pr, b0, i)
        invariant cc == old(cc) && dd == old(dd) && trace == old(trace)
      {
        FillRow(pr, b0, i);
        i := i + 1;
      }
    }

    /** One row of the scan: the row start, then every cell in order. */
    method FillRow(pr: Problem, ghost b0: int, i: int)
      requires 0 <= i < Rows(pr) && RowsDone(pr, b0, i)
      modifies this, cc, dd, trace
      ensures cc == old(cc) && dd == old(dd) && trace == old(trace)
      ensures RowsDone(pr, b0, i + 1)
    {
      var c, e, s := StartRow(pr, b0, i);
      var j := 0;
      while j < pr.C
        invariant 0 <= j <= pr.C && InRow(pr, b0, i, j, c, e, s)
        invariant cc == old(cc) && dd == old(dd) && trace == old(trace)
      {
        c, e, s := Step(pr, b0, i, j, c, e, s);
        j := j + 1;
      }
      RowEnd(pr, b0, i, cc[..], dd[..], trace[..], Best(score, rowLast, colLast), c, e, s);
    }

    /**
     * The initialisation of the arrays: mCC[-1] is 0; in local and wrapped
     * mode the upper border is 0, mDD holds the row gap opening penalty and
     * mCC[col_back] the column gap opening penalty; in global mode the
     * upper border is the penalty of a leading gap when left row gaps are
     * penalised (mDD the same), else as in local mode.
     */
    method Initialise(pr: Problem)
      requires Shaped(pr) && trace[..] == Initial(pr) && rowLast == NO_POS && colLast == NO_POS
      modifies cc, dd
      ensures RowsDone(pr, score, 0)
    {
      cc[0] := 0;
      var col := 0;
      while col < pr.C
        invariant 0 <= col <= pr.C && cc[0] == 0
        invariant forall k :: 0 <= k < col ==> cc[k + 1] == Top(pr, k) && dd[k + 1] == TopD(pr, k)
      {
        if mode == Global && pen.rowLeft {
          cc[col + 1] := pen.rowGop + pen.rowGep * (col + 1);
          dd[col + 1] := cc[col + 1];
        } else {
          cc[col + 1] := 0;
          dd[col + 1] := pen.rowGop;
        }
        col := col + 1;
      }
      if mode != Global {
        cc[pr.C + 1] := pen.colGop;
      }
    }

    /**
     * The start of row i: the left border c, e and the diagonal s of
     * column 0, per mode; a wrapped row takes over the previous row's last
     * score when it is positive and marks that with TB_WRAP.
     */
    method StartRow(pr: Problem, ghost b0: int, i: int) returns (c: int, e: int, s: int)
      requires RowsDone(pr, b0, i) && i < Rows(pr)
      modifies cc, trace
      ensures InRow(pr, b0, i, 0, c, e, s)
    {
      ghost var ccs, t := cc[..], trace[..];
      match mode
      case Local =>
        s := cc[0];
        cc[0] := 0;
        c := 0;
        e := pen.colGop;
      case Wrap =>
        c := WrapAround(pr, b0, i);
        s := cc[0];
        e := pen.colGop;
      case Global =>
        if pen.colLeft {
          s := cc[0];
          cc[0] := cc[0] + pen.colGep;
          if i == 0 {
            cc[0] := cc[0] + pen.colGop;
          }
          c := pen.colGop + pen.colGep * (i + 1);
          e := c;
        } else {
          s := 0;
          c := 0;
          e := pen.colGop;
        }
      if mode != Wrap {
        assert trace[..] == t == RowStartTrace(pr, t, i);
      }
      assert cc[..] == ccs[0 := LeftC(pr, i)];
      RowStart(pr, b0, i, ccs, dd[..], t, Best(score, rowLast, colLast), s);
    }

    /** The wrapping around of row i: mCC[-1] takes the previous row's last score when that is positive, else 0. */
    method WrapAround(pr: Problem, ghost b0: int, i: int) returns (c: int)
      requires RowsDone(pr, b0, i) && i < Rows(pr) && mode == Wrap
      modifies cc, trace
      ensures c == LeftC(pr, i) && cc[..] == old(cc[..])[0 := c]
      ensures trace[..] == RowStartTrace(pr, old(trace[..]), i)
    {
      if pr.C >= 1 {
        assert cc[pr.C] == Up(pr, i, pr.C - 1);
      } else if i > 0 {
        assert cc[0] == LeftC(pr, i - 1) == 0;
      }
      if cc[pr.C] > 0 {
        assert Wraps(pr, i);
        cc[0] := cc[pr.C];
        c := cc[pr.C];
        IdxInRange(pr, i - 1, -1);
        trace[Idx(pr, i - 1, -1)] := Wrapped;
      } else {
        cc[0] := 0;
        c := 0;
      }
    }

    /** One cell of the scan: the recurrence, the trace entries, the arrays and the best score. */
    method Step(pr: Problem, ghost b0: int, i: int, j: int, c: int, e: int, s: int)
      returns (c': int, e': int, s': int)
      requires InRow(pr, b0, i, j, c, e, s) && j < pr.C
      modifies this, cc, dd, trace
      ensures cc == old(cc) && dd == old(dd) && trace == old(trace)
      ensures InRow(pr, b0, i, j + 1, c', e', s')
    {
      ghost var ccs, dds, t, b := cc[..], dd[..], trace[..], Best(score, rowLast, colLast);
      assert cc[j + 1] == ccs[j + 1] == Up(pr, i, j) && dd[j + 1] == dds[j + 1] == UpD(pr, i, j);
      var e1, d, h, newH, newV := Recurrence(pr, i, j, c, e, s, cc[j + 1], dd[j + 1]);
      Record(pr, i, j, h, e1, d, newH, newV);
      if mode == Local && h <= 0 {
        h := 0;
      }
      s' := cc[j + 1];
      Save(j, h, d);
      Consider(pr, i, j, h);
      c', e' := h, e1;
      RowStateStep(pr, b0, i, j, ccs, dds, t, b, c, e, s);
    }

    /** The cell's scores go into mCC[j] and mDD[j]. */
    method Save(j: int, h: int, d: int)
      requires 0 <= j + 1 < cc.Length && 0 <= j + 1 < dd.Length && cc != dd
      modifies cc, dd
      ensures cc[..] == old(cc[..])[j + 1 := h] && dd[..] == old(dd[..])[j + 1 := d]
    {
      cc[j + 1] := h;
      dd[j + 1] := d;
    }

    /** The cell's score replaces the best one if it is eligible and strictly greater. */
    method Consider(pr: Problem, i: int, j: int, h: int)
      requires WellFormed(pr) && 0 <= i < Rows(pr) && 0 <= j < pr.C && h == CellAt(pr, i, j).h
      requires mode == pr.mode && pen == pr.pen
      modifies this
      ensures Best(score, rowLast, colLast) == BestStep(pr, old(Best(score, rowLast, colLast)), i, j)
      ensures cc == old(cc) && dd == old(dd) && trace == old(trace)
    {
      if !(mode == Global && ((pen.rowRight && i < Rows(pr) - 1) || (pen.colRight && j < pr.C - 1))) && score < h {
        score, rowLast, colLast := h, i, j;
      }
    }

    /** The trace entries of cell (i, j), given its values. */
    method Record(pr: Problem, i: int, j: int, v: int, e: int, d: int, newH: bool, newV: bool)
      requires Shaped(pr) && 0 <= i < Rows(pr) && 0 <= j < pr.C
      requires var cell := CellAt(pr, i, j); v == cell.v && e == cell.e && d == cell.d && newH == cell.newH && newV == cell.newV
      modifies trace
      ensures trace[..] == CellTrace(pr, old(trace[..]), i, j)
    {
      IdxInRange(pr, i, j);
      IdxInRange(pr, i - 1, j);
      IdxInRange(pr, i, j - 1);
      if mode == Local && v <= 0 {
      } else if v == d {
        trace[Idx(pr, i, j)] := Insertion;
        if !newV {
          trace[Idx(pr, i - 1, j)] := Insertion;
        }
      } else if v == e {
        trace[Idx(pr, i, j)] := Deletion;
        if !newH {
          trace[Idx(pr, i, j - 1)] := Deletion;
        }
      } else {
        trace[Idx(pr, i, j)] := Match;
      }
    }
  }

  /**
   * makeAlignatorDPFull: the same gap penalties for row and column, and the
   * same end-gap flags on the left ends and on the right ends.
   */
  method MakeAlignatorDPFull(mode: Mode, gop: int, gep: int, left: bool, right: bool) returns (a: AlignatorDPFull)
    ensures fresh(a) && a.mode == mode && a.pen == Penalties(gop, gep, gop, gep, left, right, left, right)
  {
    a := new AlignatorDPFull(mode, Penalties(gop, gep, gop, gep, left, right, left, right));
  }
}
