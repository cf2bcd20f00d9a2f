/**
 * ImplAlignmentMatrixRow: the dot-list alignment sorted by row, with an
 * index from each row to its first dot. Writes only append or delete dots
 * and mark the alignment changed; the next read sorts, removes duplicates
 * and rebuilds the bounds and the index (calculateLength).
 */
module AlignmentMatrixRow {
  import opened Pairs
  import opened AlignmentMatrix

  /** An index entry for a row without dots. */
  const NODOT: int := -1

  /** d is the index of the first dot of row r in ps, or NODOT when row r has no dot. */
  ghost predicate IsFirstDot(ps: seq<Pair>, r: int, d: int)
  {
    (d == NODOT && forall i :: 0 <= i < |ps| ==> ps[i].row != r)
    || (0 <= d < |ps| && ps[d].row == r && forall i :: 0 <= i < d ==> ps[i].row != r)
  }

  /** A list sorted by row and then by column is sorted by row. */
  lemma RowThenColIsByRow(ps: seq<Pair>)
    requires Ordered(RowThenCol, ps, 0, |ps|)
    ensures Ordered(RowOnly, ps, 0, |ps|)
  {
    forall i, j | 0 <= i < j < |ps| ensures !Below(RowOnly, ps[j], ps[i]) {
      assert !Below(RowThenCol, ps[j], ps[i]);
    }
  }

  /**
   * At a row change in a list sorted by row, the run that ends starts at
   * the first dot of its row, and no dot lies in the rows skipped.
   */
  lemma RowChange(ps: seq<Pair>, i: int, firstDot: int, lastRow: int)
    requires Ordered(RowOnly, ps, 0, |ps|) && 0 <= firstDot < i < |ps|
    requires lastRow == ps[firstDot].row && ps[i].row != lastRow
    requires forall k :: firstDot <= k < i ==> ps[k].row == lastRow
    requires forall k :: 0 <= k < firstDot ==> ps[k].row < lastRow
    ensures lastRow < ps[i].row
    ensures IsFirstDot(ps, lastRow, firstDot)
    ensures forall r :: lastRow < r < ps[i].row ==> IsFirstDot(ps, r, NODOT)
  {
    assert !Below(RowOnly, ps[i], ps[firstDot]);
    forall r | lastRow < r < ps[i].row ensures IsFirstDot(ps, r, NODOT) {
      forall j | 0 <= j < |ps| ensures ps[j].row != r {
        if j >= i {
          assert !Below(RowOnly, ps[j], ps[i]);
        }
      }
    }
  }

  /** Rows below lastRow hold their first dot in s; the rows from lastRow on are still NODOT. */
  ghost predicate IndexedBelow(ps: seq<Pair>, s: seq<int>, lastRow: int)
  {
    (forall k :: 0 <= k < lastRow && k < |s| ==> IsFirstDot(ps, k, s[k]))
    && (forall k :: 0 <= k < |s| && lastRow <= k ==> s[k] == NODOT)
  }

  /** Before the scan: no dot lies below the first row, so every entry may be NODOT. */
  lemma IndexStart(ps: seq<Pair>, s: seq<int>)
    requires |ps| > 0 && forall k :: 0 <= k < |s| ==> s[k] == NODOT
    ensures IndexedBelow(ps, s, RowFrom(ps))
  {
    forall k | 0 <= k < RowFrom(ps) && k < |s| ensures IsFirstDot(ps, k, s[k]) {
      assert forall i :: 0 <= i < |ps| ==> RowFrom(ps) <= ps[i].row;
    }
  }

  /** At a row change, entering the first dot of the run that ends keeps the index correct below the new row. */
  lemma IndexStep(ps: seq<Pair>, s: seq<int>, i: int, firstDot: int, lastRow: int)
    requires Ordered(RowOnly, ps, 0, |ps|) && 0 <= firstDot < i < |ps|
    requires lastRow == ps[firstDot].row && ps[i].row != lastRow
    requires forall k :: firstDot <= k < i ==> ps[k].row == lastRow
    requires forall k :: 0 <= k < firstDot ==> ps[k].row < lastRow
    requires IndexedBelow(ps, s, lastRow) && 0 <= lastRow < |s|
    ensures lastRow < ps[i].row && forall k :: 0 <= k < i ==> ps[k].row < ps[i].row
    ensures IndexedBelow(ps, s[lastRow := firstDot], ps[i].row)
  {
    RowChange(ps, i, firstDot, lastRow);
  }

  /** After the scan: the last run holds the largest row, and entering it completes the index. */
  lemma IndexEnd(ps: seq<Pair>, s: seq<int>, firstDot: int, lastRow: int)
    requires 0 <= firstDot < |ps| && lastRow == ps[firstDot].row && 0 <= lastRow
    requires forall k :: firstDot <= k < |ps| ==> ps[k].row == lastRow
    requires forall k :: 0 <= k < firstDot ==> ps[k].row < lastRow
    requires IndexedBelow(ps, s, lastRow) && |s| == RowTo(ps)
    ensures 0 <= lastRow < |s|
    ensures var t := s[lastRow := firstDot]; forall r :: 0 <= r < |t| ==> IsFirstDot(ps, r, t[r])
  {
    MaxRowAt(ps, |ps| - 1);
  }

  /**
   * buildIndex: for a non-empty list sorted by row, with its row bounds,
   * entry r of the index is the first dot of row r, or NODOT.
   */
  method BuildIndex(ps: seq<Pair>, rowFrom: int, rowTo: int) returns (index: seq<int>)
    requires |ps| > 0 && Positioned(ps) && Ordered(RowOnly, ps, 0, |ps|)
    requires rowFrom == RowFrom(ps) && rowTo == RowTo(ps)
    ensures |index| == rowTo
    ensures forall r :: 0 <= r < rowTo ==> IsFirstDot(ps, r, index[r])
  {
    MinRowAt(ps, 0);
    var a := new int[rowTo];
    var r := 0;
    while r < rowTo
      invariant 0 <= r <= rowTo
      invariant forall k :: 0 <= k < r ==> a[k] == NODOT
    {
      a[r] := NODOT;
      r := r + 1;
    }
    IndexStart(ps, a[..]);
    var lastRow := rowFrom;
    var firstDot := 0;
    var i := 0;
    while i < |ps|
      invariant 0 <= i <= |ps| && 0 <= firstDot < |ps| && firstDot <= i && (i > 0 ==> firstDot < i)
      invariant lastRow == ps[firstDot].row && rowFrom <= lastRow < rowTo
      invariant forall k :: firstDot <= k < i ==> ps[k].row == lastRow
      invariant forall k :: 0 <= k < firstDot ==> ps[k].row < lastRow
      invariant IndexedBelow(ps, a[..], lastRow)
    {
      if lastRow != ps[i].row {
        ghost var s := a[..];
        IndexStep(ps, s, i, firstDot, lastRow);
        a[lastRow] := firstDot;
        assert a[..] == s[lastRow := firstDot];
        firstDot := i;
        lastRow := ps[i].row;
      }
      i := i + 1;
    }
    IndexEnd(ps, a[..], firstDot, lastRow);
    a[lastRow] := firstDot;
    index := a[..];
  }

  /** Sorted by row and then by column, each cell once, with bounds and a current row index. */
  ghost predicate IndexedList(ps: seq<Pair>, rf: int, rt: int, cf: int, ct: int, index: seq<int>)
  {
    Positioned(ps) && Increasing(ps)
    && BoundsOf(ps, rf, rt, cf, ct)
    && (|ps| > 0 ==> |index| == rt && forall r :: 0 <= r < rt ==> IsFirstDot(ps, r, index[r]))
  }

  /** The dots, sorted in a fresh buffer by row and then by column. */
  method SortedCopy(ps: seq<Pair>) returns (sorted: seq<Pair>)
    ensures multiset(sorted) == multiset(ps) && Ordered(RowThenCol, sorted, 0, |sorted|)
  {
    var a := new Pair[|ps|](i requires 0 <= i < |ps| => ps[i]);
    assert a[..] == ps;
    SortDots(RowThenCol, a);
    sorted := a[..];
  }

  /** A permutation holds the same dots and cells. */
  lemma PermutationKeeps(ps: seq<Pair>, qs: seq<Pair>)
    requires multiset(qs) == multiset(ps)
    ensures |qs| == |ps| && (forall x :: x in qs <==> x in ps) && Cells(qs) == Cells(ps)
    ensures Positioned(ps) ==> Positioned(qs)
  {
    assert |multiset(qs)| == |multiset(ps)|;
    assert forall x :: x in qs <==> x in ps by {
      forall x ensures x in qs <==> x in ps {
        assert x in qs <==> x in multiset(qs);
        assert x in ps <==> x in multiset(ps);
      }
    }
    if Positioned(ps) {
      forall k | 0 <= k < |qs| ensures qs[k].row >= 0 && qs[k].col >= 0 {
        assert qs[k] in ps;
      }
    }
  }

  /**
   * What eliminateDuplicates leaves of positioned dots sorted by row and
   * then by column, as calculateLength sorts them: the kept dots are old
   * dots, strictly increasing, and occupy exactly the old cells.
   */
  lemma DedupFacts(sorted: seq<Pair>, kept: seq<Pair>)
    requires Positioned(sorted) && Ordered(RowThenCol, sorted, 0, |sorted|)
    requires kept == Dedup(sorted, NO_POS, NO_POS)
    ensures Positioned(kept) && Increasing(kept) && Ordered(RowOnly, kept, 0, |kept|)
    ensures (forall x :: x in kept ==> x in sorted) && Cells(kept) == Cells(sorted)
  {
    DedupKeepsInput(sorted, NO_POS, NO_POS);
    DedupKeepsCells(sorted, NO_POS, NO_POS);
    assert (NO_POS, NO_POS) !in Cells(sorted);
    DedupStrict(sorted, NO_POS, NO_POS);
    DedupOrdered(RowThenCol, sorted, NO_POS, NO_POS);
    RowThenColIsByRow(kept);
    forall k | 0 <= k < |kept| ensures kept[k].row >= 0 && kept[k].col >= 0 {
      assert kept[k] in sorted;
    }
  }

  /** The body of calculateLength for a non-empty row: sort, drop repeated cells, rebuild the index. */
  method Recalculate(ps: seq<Pair>) returns (kept: seq<Pair>, rf: int, rt: int, cf: int, ct: int, index: seq<int>)
    requires |ps| > 0 && Positioned(ps)
    ensures IndexedList(kept, rf, rt, cf, ct, index)
    ensures forall x :: x in kept ==> x in ps
    ensures Cells(kept) == Cells(ps)
  {
    var sorted := SortedCopy(ps);
    PermutationKeeps(ps, sorted);
    kept, rf, rt, cf, ct := EliminateDuplicates(sorted);
    DedupFacts(sorted, kept);
    index := BuildIndex(kept, rf, rt);
  }

  class AlignmentMatrixRow {
    var pairs: seq<Pair>
    var index: seq<int>
    var rowFrom: int
    var rowTo: int
    var colFrom: int
    var colTo: int
    var score: int
    var length: int
    var numGaps: int
    var changedLength: bool

    /** The state calculateLength leaves: sorted, each cell once, bounds and index current. */
    ghost predicate Indexed()
      reads this
    {
      IndexedList(pairs, rowFrom, rowTo, colFrom, colTo, index)
    }

    ghost predicate Valid()
      reads this
    {
      Positioned(pairs) && (!changedLength ==> Indexed())
    }

    constructor()
      ensures Valid() && pairs == [] && !changedLength
      ensures rowFrom == NO_POS && rowTo == NO_POS && colFrom == NO_POS && colTo == NO_POS
      ensures score == 0 && length == 0 && numGaps == 0
    {
      pairs := [];
      index := [];
      rowFrom, rowTo, colFrom, colTo := NO_POS, NO_POS, NO_POS, NO_POS;
      score, length, numGaps := 0, 0, 0;
      changedLength := false;
    }

    /** addPair: the dot is appended unsorted; the alignment is recalculated on the next read. */
    method AddPair(p: Pair)
      requires Valid() && p.row >= 0 && p.col >= 0
      modifies this
      ensures Valid() && pairs == old(pairs) + [p] && changedLength
      ensures score == old(score) && length == old(length) && numGaps == old(numGaps)
    {
      pairs := pairs + [p];
      changedLength := true;
    }

    /** getPair: the first stored dot in the row of p, else the default pair (NO_POS, NO_POS, 0). */
    method GetPair(p: Pair) returns (r: Pair)
      ensures (exists i :: 0 <= i < |pairs| && pairs[i].row == p.row) ==> r in pairs && r.row == p.row
      ensures (forall i :: 0 <= i < |pairs| ==> pairs[i].row != p.row) ==> r == Pair(NO_POS, NO_POS, 0)
    {
      var i := 0;
      while i < |pairs|
        invariant 0 <= i <= |pairs|
        invariant forall k :: 0 <= k < i ==> pairs[k].row != p.row
      {
        if pairs[i].row == p.row {
          return pairs[i];
        }
        i := i + 1;
      }
      return Pair(NO_POS, NO_POS, 0);
    }

    /**
     * removePair: every dot equal to p is deleted, the bounds are
     * recomputed from the remaining dots and the alignment is marked changed.
     */
    method RemovePair(p: Pair)
      requires Valid()
      modifies this
      ensures Valid() && changedLength
      ensures Removed(old(pairs), p, pairs, rowFrom, rowTo, colFrom, colTo)
      ensures score == old(score) && length == old(length) && numGaps == old(numGaps)
    {
      var kept, rf, rt, cf, ct := RemoveDots(pairs, p);
      pairs, rowFrom, rowTo, colFrom, colTo, changedLength := kept, rf, rt, cf, ct, true;
    }

    /** clear: no dots, no index, bounds NO_POS; length, score and gaps 0. */
    method Clear()
      modifies this
      ensures Valid() && pairs == [] && !changedLength
      ensures rowFrom == NO_POS && rowTo == NO_POS && colFrom == NO_POS && colTo == NO_POS
      ensures score == 0 && length == 0 && numGaps == 0
    {
      changedLength := false;
      length, score, numGaps := 0, 0, 0;
      rowFrom, rowTo, colFrom, colTo := NO_POS, NO_POS, NO_POS, NO_POS;
      index := [];
      pairs := [];
    }

    /**
     * calculateLength: the length becomes the number of stored dots,
     * counted before duplicates are removed, and the gap count 0; the dots
     * are then sorted, duplicates dropped, and bounds and index rebuilt.
     * The kept dots are exactly the old cells, each once.
     */
    method CalculateLength()
      requires Valid()
      modifies this
      ensures Valid() && !changedLength && Indexed()
      ensures length == |old(pairs)| && numGaps == 0 && score == old(score)
      ensures forall x :: x in pairs ==> x in old(pairs)
      ensures Cells(pairs) == Cells(old(pairs))
    {
      changedLength := false;
      rowFrom, rowTo, colFrom, colTo := NO_POS, NO_POS, NO_POS, NO_POS;
      index := [];
      numGaps := 0;
      length := |pairs|;
      if |pairs| == 0 {
        return;
      }
      var kept, rf, rt, cf, ct, idx := Recalculate(pairs);
      pairs := kept;
      rowFrom, rowTo, colFrom, colTo := rf, rt, cf, ct;
      index := idx;
    }

    /**
     * mapRowToCol: recalculates a changed alignment, then returns the
     * column of the first dot of row pos, or NO_POS when no dot lies in
     * that row. Sorted by row and then by column, that is the smallest
     * column aligned to pos.
     */
    method MapRowToCol(pos: int) returns (r: int)
      requires Valid()
      modifies this
      ensures Valid() && !changedLength
      ensures (forall x :: x in old(pairs) ==> x.row != pos) ==> r == NO_POS
      ensures (exists x :: x in old(pairs) && x.row == pos) ==>
                (pos, r) in Cells(old(pairs)) && forall x :: x in old(pairs) && x.row == pos ==> r <= x.col
    {
      ghost var before := pairs;
      if changedLength {
        CalculateLength();
      }
      r := NO_POS;
      if rowFrom <= pos < rowTo {
        var d := index[pos];
        if d != NO_POS {
          r := pairs[d].col;
        }
      }
      if |pairs| > 0 {
        MinRowAt(pairs, 0);
        assert pairs[0].row >= 0;
      }
      MapRowToColMeaning(before, pairs, index, rowFrom, rowTo, pos, r);
    }
  }

  /** The lookup through an index built for the dots of before answers for before. */
  lemma MapRowToColMeaning(before: seq<Pair>, ps: seq<Pair>, index: seq<int>, rowFrom: int, rowTo: int, pos: int, r: int)
    requires Positioned(ps) && Increasing(ps) && rowFrom == RowFrom(ps) && rowTo == RowTo(ps)
    requires |ps| > 0 ==> |index| == rowTo && forall k :: 0 <= k < rowTo ==> IsFirstDot(ps, k, index[k])
    requires Cells(ps) == Cells(before)
    requires |ps| > 0 ==> 0 <= rowFrom
    requires if |ps| > 0 && rowFrom <= pos < rowTo
             then (var d := index[pos]; r == if 0 <= d < |ps| then ps[d].col else NO_POS)
             else r == NO_POS
    ensures (forall x :: x in before ==> x.row != pos) ==> r == NO_POS
    ensures (exists x :: x in before && x.row == pos) ==>
              (pos, r) in Cells(before) && forall x :: x in before && x.row == pos ==> r <= x.col
  {
    if r != NO_POS {
      var y := ps[index[pos]];
      assert (y.row, y.col) in Cells(ps);
      var x :| x in before && (x.row, x.col) == (y.row, y.col);
    }
    if exists x :: x in before && x.row == pos {
      var x :| x in before && x.row == pos;
      assert (x.row, x.col) in Cells(ps);
      var y :| y in ps && (y.row, y.col) == (x.row, x.col);
      var j :| 0 <= j < |ps| && ps[j] == y;
      assert rowFrom <= pos < rowTo by {
        assert RowFrom(ps) <= ps[j].row < RowTo(ps);
      }
      var d := index[pos];
      assert 0 <= d <= j && ps[d].row == pos;
      assert (ps[d].row, ps[d].col) in Cells(ps);
      forall z | z in before && z.row == pos ensures r <= z.col {
        assert (z.row, z.col) in Cells(ps);
        var w :| w in ps && (w.row, w.col) == (z.row, z.col);
        var k :| 0 <= k < |ps| && ps[k] == w;
        assert k >= d;
        if k > d {
          assert Below(RowThenCol, ps[d], ps[k]);
        }
      }
    }
  }
}
