/**
 * ImplAlignmentMatrix: a pairwise alignment stored as an unsorted list of
 * dots that is sorted, cleared of duplicates and indexed lazily, when the
 * alignment is next read. This module holds the list algorithms; the
 * storage class with its row index is in module AlignmentMatrixRow.
 */
module AlignmentMatrix {
  import opened Pairs

  /** The order a dot list is sorted in. */
  datatype SortKey = RowOnly | RowThenCol

  /** x sorts strictly before y under key. */
  predicate Below(key: SortKey, x: Pair, y: Pair)
  {
    match key
    case RowOnly => x.row < y.row
    case RowThenCol => x.row < y.row || (x.row == y.row && x.col < y.col)
  }

  /** Below is a strict weak order: irreflexive and with a transitive complement. */
  lemma BelowIsWeakOrder(key: SortKey, x: Pair, y: Pair, z: Pair)
    ensures !Below(key, x, x)
    ensures Below(key, x, y) ==> !Below(key, y, x)
    ensures !Below(key, y, x) && !Below(key, z, y) ==> !Below(key, z, x)
  {
  }

  /** No dot of s[lo..hi] sorts strictly before an earlier one. */
  ghost predicate Ordered(key: SortKey, s: seq<Pair>, lo: int, hi: int)
    requires 0 <= lo <= hi <= |s|
  {
    forall i, j :: lo <= i < j < hi ==> !Below(key, s[j], s[i])
  }

  /** The dot at hi sorts strictly after every other dot of [lo, hi]. */
  ghost predicate MaxAtEnd(key: SortKey, a: array<Pair>, lo: int, hi: int)
    requires 0 <= lo <= hi < a.Length
    reads a
  {
    forall k :: lo <= k < hi ==> Below(key, a[k], a[hi])
  }

  /** s and t agree everywhere outside [lo, hi]. */
  ghost predicate SameOutside(s: seq<Pair>, t: seq<Pair>, lo: int, hi: int)
  {
    |s| == |t| && forall k :: 0 <= k < |s| && (k < lo || hi < k) ==> s[k] == t[k]
  }

  /** Exchanging two dots inside [lo, hi] keeps the multiset of the range and everything outside it. */
  lemma SwapKeeps(s: seq<Pair>, i: int, j: int, lo: int, hi: int)
    requires 0 <= lo <= i <= hi < |s| && lo <= j <= hi
    ensures var t := s[i := s[j]][j := s[i]];
      multiset(t[lo..hi + 1]) == multiset(s[lo..hi + 1]) && SameOutside(t, s, lo, hi)
  {
    var t := s[i := s[j]][j := s[i]];
    assert t[lo..hi + 1] == s[lo..hi + 1][i - lo := s[j]][j - lo := s[i]];
  }

  /** Exchanges a[i] and a[j], both inside [lo, hi]. */
  method Swap(a: array<Pair>, i: int, j: int, ghost lo: int, ghost hi: int)
    requires 0 <= lo <= i <= hi < a.Length && lo <= j <= hi
    modifies a
    ensures a[i] == old(a[j]) && a[j] == old(a[i])
    ensures forall k :: 0 <= k < a.Length && k != i && k != j ==> a[k] == old(a[k])
    ensures multiset(a[lo..hi + 1]) == multiset(old(a[lo..hi + 1]))
    ensures SameOutside(a[..], old(a[..]), lo, hi)
  {
    SwapKeeps(a[..], i, j, lo, hi);
    a[i], a[j] := a[j], a[i];
  }

  /**
   * Every dot of s[lo..hi] sorts at or before p (atOrBefore) or at or
   * after p (not atOrBefore).
   */
  ghost predicate Bounded(key: SortKey, s: seq<Pair>, lo: int, hi: int, p: Pair, atOrBefore: bool)
  {
    forall k :: lo <= k < hi && 0 <= k < |s| ==>
      if atOrBefore then !Below(key, p, s[k]) else !Below(key, s[k], p)
  }

  /** A range holding the same multiset of dots as a bounded range is bounded too. */
  lemma BoundCarries(key: SortKey, s: seq<Pair>, t: seq<Pair>, lo: int, hi: int, p: Pair, atOrBefore: bool)
    requires 0 <= lo <= hi <= |s| && hi <= |t|
    requires multiset(s[lo..hi]) == multiset(t[lo..hi])
    requires Bounded(key, t, lo, hi, p, atOrBefore)
    ensures Bounded(key, s, lo, hi, p, atOrBefore)
  {
    forall k | lo <= k < hi
      ensures if atOrBefore then !Below(key, p, s[k]) else !Below(key, s[k], p)
    {
      assert s[k] == s[lo..hi][k - lo];
      assert s[k] in multiset(t[lo..hi]);
      var j :| 0 <= j < hi - lo && t[lo..hi][j] == s[k];
      assert t[lo + j] == s[k];
    }
  }

  /**
   * The partition step of the quicksorts: the middle dot becomes the pivot,
   * the dots sorting strictly before it gather to its left, and the pivot
   * ends at position ls.
   */
  method Partition(key: SortKey, a: array<Pair>, lo: int, hi: int) returns (ls: int)
    requires 0 <= lo < hi < a.Length
    modifies a
    ensures lo <= ls <= hi
    ensures forall k :: lo <= k < ls ==> Below(key, a[k], a[ls])
    ensures forall k :: ls < k <= hi ==> !Below(key, a[k], a[ls])
    ensures multiset(a[lo..hi + 1]) == multiset(old(a[lo..hi + 1]))
    ensures SameOutside(a[..], old(a[..]), lo, hi)
    ensures old(MaxAtEnd(key, a, lo, hi)) ==> ls < hi
  {
    ghost var wasMax := MaxAtEnd(key, a, lo, hi);
    ghost var top := a[hi];
    ghost var range := a[lo..hi + 1];
    ghost var whole := a[..];
    var c1 := (lo + hi) / 2;
    Swap(a, lo, c1, lo, hi);
    var m := a[lo];
    assert wasMax ==> Below(key, m, top);
    ls := lo;
    var i := lo + 1;
    while i <= hi
      invariant lo + 1 <= i <= hi + 1 && lo <= ls < i
      invariant a[lo] == m
      invariant forall k :: lo < k <= ls ==> Below(key, a[k], m)
      invariant forall k :: ls < k < i ==> !Below(key, a[k], m)
      invariant multiset(a[lo..hi + 1]) == multiset(range)
      invariant SameOutside(a[..], whole, lo, hi)
      invariant i <= hi ==> a[hi] == top
      invariant wasMax ==> Below(key, m, top) && ls < hi
    {
      if Below(key, a[i], m) {
        ls := ls + 1;
        Swap(a, ls, i, lo, hi);
      }
      i := i + 1;
    }
    Swap(a, lo, ls, lo, hi);
  }

  /** The range multiset of a dot list is the sum of the multisets of two adjacent parts. */
  lemma SplitMultiset(s: seq<Pair>, lo: int, mid: int, hi: int)
    requires 0 <= lo <= mid <= hi <= |s|
    ensures multiset(s[lo..hi]) == multiset(s[lo..mid]) + multiset(s[mid..hi])
  {
    assert s[lo..hi] == s[lo..mid] + s[mid..hi];
  }

  /**
   * sortDotsByRow: quicksort of the dots a[lo..hi] (both ends inclusive);
   * the result is ordered under key, a permutation of the range, and
   * nothing outside the range moves. The source compares rows alone
   * (key RowOnly); RowThenCol is the order the comment above sortDots
   * describes.
   */
  method SortDotsByRow(key: SortKey, a: array<Pair>, lo: int, hi: int)
    requires 0 <= lo <= hi + 1 <= a.Length
    modifies a
    ensures Ordered(key, a[..], lo, hi + 1)
    ensures multiset(a[lo..hi + 1]) == multiset(old(a[lo..hi + 1]))
    ensures SameOutside(a[..], old(a[..]), lo, hi)
    decreases hi - lo, if lo <= hi && MaxAtEnd(key, a, lo, hi) then 0 else 1
  {
    if lo < hi {
      ghost var s0 := a[..];
      var ls := Partition(key, a, lo, hi);
      ghost var s1 := a[..];
      ghost var m := a[ls];
      assert ls == hi ==> MaxAtEnd(key, a, lo, hi);
      SortDotsByRow(key, a, lo, ls);
      ghost var s2 := a[..];
      SortDotsByRow(key, a, ls + 1, hi);
      ghost var s3 := a[..];
      SortedHalves(key, s0, s1, s2, s3, lo, ls, hi, m);
    }
  }

  /** The two sorted halves around the pivot make a sorted, permuted whole. */
  lemma SortedHalves(key: SortKey, s0: seq<Pair>, s1: seq<Pair>, s2: seq<Pair>, s3: seq<Pair>,
                     lo: int, ls: int, hi: int, m: Pair)
    requires 0 <= lo <= ls <= hi < |s0| && |s1| == |s0| && |s2| == |s0| && |s3| == |s0|
    requires s1[ls] == m
    requires forall k :: lo <= k < ls ==> Below(key, s1[k], m)
    requires forall k :: ls < k <= hi ==> !Below(key, s1[k], m)
    requires multiset(s1[lo..hi + 1]) == multiset(s0[lo..hi + 1]) && SameOutside(s1, s0, lo, hi)
    requires Ordered(key, s2, lo, ls + 1)
    requires multiset(s2[lo..ls + 1]) == multiset(s1[lo..ls + 1]) && SameOutside(s2, s1, lo, ls)
    requires Ordered(key, s3, ls + 1, hi + 1)
    requires multiset(s3[ls + 1..hi + 1]) == multiset(s2[ls + 1..hi + 1]) && SameOutside(s3, s2, ls + 1, hi)
    ensures Ordered(key, s3, lo, hi + 1)
    ensures multiset(s3[lo..hi + 1]) == multiset(s0[lo..hi + 1])
    ensures SameOutside(s3, s0, lo, hi)
  {
    PivotBounds(key, s1, lo, ls, hi, m);
    BoundCarries(key, s2, s1, lo, ls + 1, m, true);
    SameSlice(s2, s1, lo, ls, ls + 1, hi + 1);
    assert Bounded(key, s2, ls + 1, hi + 1, m, false) by {
      forall k | ls + 1 <= k < hi + 1 ensures !Below(key, s2[k], m) {
        assert s2[k] == s1[k];
      }
    }
    BoundCarries(key, s3, s2, ls + 1, hi + 1, m, false);
    HalvesOrdered(key, s2, s3, lo, ls, hi, m);
    HalvesPermute(s0, s1, s2, s3, lo, ls, hi);
  }

  /** After partitioning, the left part with the pivot sorts at or before it, the right part at or after. */
  lemma PivotBounds(key: SortKey, s1: seq<Pair>, lo: int, ls: int, hi: int, m: Pair)
    requires 0 <= lo <= ls <= hi < |s1| && s1[ls] == m
    requires forall k :: lo <= k < ls ==> Below(key, s1[k], m)
    requires forall k :: ls < k <= hi ==> !Below(key, s1[k], m)
    ensures Bounded(key, s1, lo, ls + 1, m, true) && Bounded(key, s1, ls + 1, hi + 1, m, false)
  {
    forall k | lo <= k < ls + 1 ensures !Below(key, m, s1[k]) {
      BelowIsWeakOrder(key, s1[k], m, m);
    }
  }

  lemma HalvesOrdered(key: SortKey, s2: seq<Pair>, s3: seq<Pair>, lo: int, ls: int, hi: int, m: Pair)
    requires 0 <= lo <= ls <= hi < |s2| && |s3| == |s2|
    requires Ordered(key, s2, lo, ls + 1) && Bounded(key, s2, lo, ls + 1, m, true)
    requires Ordered(key, s3, ls + 1, hi + 1) && Bounded(key, s3, ls + 1, hi + 1, m, false)
    requires SameOutside(s3, s2, ls + 1, hi)
    ensures Ordered(key, s3, lo, hi + 1)
  {
    forall i, j | lo <= i < j < hi + 1 ensures !Below(key, s3[j], s3[i]) {
      if j <= ls {
        assert s3[i] == s2[i] && s3[j] == s2[j];
      } else if i <= ls {
        assert s3[i] == s2[i];
        BelowIsWeakOrder(key, s3[i], m, s3[j]);
      }
    }
  }

  lemma HalvesPermute(s0: seq<Pair>, s1: seq<Pair>, s2: seq<Pair>, s3: seq<Pair>, lo: int, ls: int, hi: int)
    requires 0 <= lo <= ls <= hi < |s0| && |s1| == |s0| && |s2| == |s0| && |s3| == |s0|
    requires multiset(s1[lo..hi + 1]) == multiset(s0[lo..hi + 1]) && SameOutside(s1, s0, lo, hi)
    requires multiset(s2[lo..ls + 1]) == multiset(s1[lo..ls + 1]) && SameOutside(s2, s1, lo, ls)
    requires multiset(s3[ls + 1..hi + 1]) == multiset(s2[ls + 1..hi + 1]) && SameOutside(s3, s2, ls + 1, hi)
    ensures multiset(s3[lo..hi + 1]) == multiset(s0[lo..hi + 1])
    ensures SameOutside(s3, s0, lo, hi)
  {
    SameSlice(s2, s1, lo, ls, ls + 1, hi + 1);
    SameSlice(s3, s2, ls + 1, hi, lo, ls + 1);
    HalvesMultiset(s1, s3, lo, ls + 1, hi + 1);
    SameOutsideWidens(s2, s1, lo, ls, hi);
    SameOutsideWidens(s3, s2, ls + 1, hi, lo);
  }

  /** Two ranges whose halves hold the same multisets hold the same multiset. */
  lemma HalvesMultiset(s: seq<Pair>, t: seq<Pair>, lo: int, mid: int, hi: int)
    requires 0 <= lo <= mid <= hi <= |s| && hi <= |t|
    requires multiset(t[lo..mid]) == multiset(s[lo..mid]) && multiset(t[mid..hi]) == multiset(s[mid..hi])
    ensures multiset(t[lo..hi]) == multiset(s[lo..hi])
  {
    SplitMultiset(s, lo, mid, hi);
    SplitMultiset(t, lo, mid, hi);
  }

  /** Lists that agree outside [lo, hi] agree on any slice [a, b) clear of that range. */
  lemma SameSlice(s: seq<Pair>, t: seq<Pair>, lo: int, hi: int, a: int, b: int)
    requires SameOutside(s, t, lo, hi) && 0 <= a <= b <= |s|
    requires b <= lo || hi < a
    ensures s[a..b] == t[a..b]
  {
  }

  /** Agreement outside a range implies agreement outside any range around it. */
  lemma SameOutsideWidens(s: seq<Pair>, t: seq<Pair>, lo: int, hi: int, other: int)
    requires SameOutside(s, t, lo, hi)
    ensures SameOutside(s, t, if other < lo then other else lo, if other > hi then other else hi)
  {
  }

  /** sortDots: the whole dot list, sorted under key, is a permutation of the old list. */
  method SortDots(key: SortKey, a: array<Pair>)
    modifies a
    ensures Ordered(key, a[..], 0, a.Length)
    ensures multiset(a[..]) == multiset(old(a[..]))
  {
    SortDotsByRow(key, a, 0, a.Length - 1);
    assert a[..] == a[0..a.Length];
    assert old(a[..]) == old(a[0..a.Length]);
  }

  /**
   * updateBoundaries: the row and column bounds of the dot list, the upper
   * ones exclusive; NO_POS everywhere for an empty list. The source seeds
   * the scan with the extreme values of its integer type; the first dot
   * plays that part here.
   */
  method UpdateBoundaries(ps: seq<Pair>) returns (rf: int, rt: int, cf: int, ct: int)
    ensures rf == RowFrom(ps) && rt == RowTo(ps) && cf == ColFrom(ps) && ct == ColTo(ps)
  {
    rf, rt, cf, ct := NO_POS, NO_POS, NO_POS, NO_POS;
    if |ps| == 0 {
      return;
    }
    rf, rt, cf, ct := ps[0].row, ps[0].row, ps[0].col, ps[0].col;
    ghost var minR, maxR, minC, maxC := 0, 0, 0, 0;
    var i := 0;
    while i < |ps|
      invariant 0 <= i <= |ps|
      invariant 0 <= minR < |ps| && 0 <= maxR < |ps| && 0 <= minC < |ps| && 0 <= maxC < |ps|
      invariant ps[minR].row == rf && ps[maxR].row == rt && ps[minC].col == cf && ps[maxC].col == ct
      invariant forall k :: 0 <= k < i ==> rf <= ps[k].row <= rt && cf <= ps[k].col <= ct
    {
      var row, col := ps[i].row, ps[i].col;
      if row < rf { rf, minR := row, i; }
      if col < cf { cf, minC := col, i; }
      if row > rt { rt, maxR := row, i; }
      if col > ct { ct, maxC := col, i; }
      i := i + 1;
    }
    MinRowAt(ps, minR);
    MaxRowAt(ps, maxR);
    MinColAt(ps, minC);
    MaxColAt(ps, maxC);
    rt := rt + 1;
    ct := ct + 1;
  }

  /** Two dots at the same cell. */
  predicate SameCell(x: Pair, y: Pair)
  {
    x.row == y.row && x.col == y.col
  }

  /**
   * The dots eliminateDuplicates keeps after having kept a dot at
   * (lastRow, lastCol): a dot is dropped when it lies at the same cell as
   * the dot kept last.
   */
  function Dedup(ps: seq<Pair>, lastRow: int, lastCol: int): seq<Pair>
    decreases |ps|
  {
    if |ps| == 0 then []
    else if ps[0].row == lastRow && ps[0].col == lastCol then Dedup(ps[1..], lastRow, lastCol)
    else [ps[0]] + Dedup(ps[1..], ps[0].row, ps[0].col)
  }

  /** One step of Dedup at position i of ps. */
  lemma DedupAt(ps: seq<Pair>, i: int, lastRow: int, lastCol: int)
    requires 0 <= i < |ps|
    ensures ps[i].row == lastRow && ps[i].col == lastCol ==>
      Dedup(ps[i..], lastRow, lastCol) == Dedup(ps[i + 1..], lastRow, lastCol)
    ensures !(ps[i].row == lastRow && ps[i].col == lastCol) ==>
      Dedup(ps[i..], lastRow, lastCol) == [ps[i]] + Dedup(ps[i + 1..], ps[i].row, ps[i].col)
  {
    assert ps[i..][1..] == ps[i + 1..];
  }

  /**
   * The running bounds of the kept dots r, inclusive: before any dot is
   * kept they are the first dot's; afterwards they are attained at the
   * kept dots minR, maxR, minC and maxC and enclose every kept dot.
   */
  ghost predicate Spanned(first: Pair, r: seq<Pair>, rf: int, rt: int, cf: int, ct: int,
                          minR: int, maxR: int, minC: int, maxC: int)
  {
    && (|r| == 0 ==> rf == rt == first.row && cf == ct == first.col && minR == maxR == minC == maxC == 0)
    && (|r| > 0 ==> 0 <= minR < |r| && 0 <= maxR < |r| && 0 <= minC < |r| && 0 <= maxC < |r|)
    && (|r| > 0 ==> r[minR].row == rf && r[maxR].row == rt && r[minC].col == cf && r[maxC].col == ct)
    && (forall k :: 0 <= k < |r| ==> rf <= r[k].row <= rt && cf <= r[k].col <= ct)
  }

  /** Running bounds of a non-empty list of kept dots are its bounds. */
  lemma SpannedBounds(first: Pair, r: seq<Pair>, rf: int, rt: int, cf: int, ct: int,
                      minR: int, maxR: int, minC: int, maxC: int)
    requires |r| > 0 && Spanned(first, r, rf, rt, cf, ct, minR, maxR, minC, maxC)
    ensures rf == RowFrom(r) && rt + 1 == RowTo(r) && cf == ColFrom(r) && ct + 1 == ColTo(r)
  {
    MinRowAt(r, minR);
    MaxRowAt(r, maxR);
    MinColAt(r, minC);
    MaxColAt(r, maxC);
  }

  /** Keeping dot p: it is appended and the bounds widen to take it in. */
  method Keep(ghost first: Pair, r: seq<Pair>, p: Pair, rf: int, rt: int, cf: int, ct: int,
              ghost minR: int, ghost maxR: int, ghost minC: int, ghost maxC: int)
    returns (r': seq<Pair>, rf': int, rt': int, cf': int, ct': int,
             ghost minR': int, ghost maxR': int, ghost minC': int, ghost maxC': int)
    requires Spanned(first, r, rf, rt, cf, ct, minR, maxR, minC, maxC) && (|r| == 0 ==> p == first)
    ensures r' == r + [p]
    ensures Spanned(first, r', rf', rt', cf', ct', minR', maxR', minC', maxC')
  {
    minR', minC' := if p.row < rf then |r| else minR, if p.col < cf then |r| else minC;
    maxR', maxC' := if p.row > rt then |r| else maxR, if p.col > ct then |r| else maxC;
    rf', cf' := if p.row < rf then p.row else rf, if p.col < cf then p.col else cf;
    rt', ct' := if p.row > rt then p.row else rt, if p.col > ct then p.col else ct;
    r' := r + [p];
  }

  /**
   * eliminateDuplicates: drops every dot lying at the same cell as the dot
   * kept before it, and computes the bounds of the kept dots, the upper
   * ones exclusive. It runs only on a non-empty, positioned list.
   */
  method EliminateDuplicates(ps: seq<Pair>) returns (r: seq<Pair>, rf: int, rt: int, cf: int, ct: int)
    requires |ps| > 0 && Positioned(ps)
    ensures r == Dedup(ps, NO_POS, NO_POS)
    ensures rf == RowFrom(r) && rt == RowTo(r) && cf == ColFrom(r) && ct == ColTo(r)
  {
    var lastRow, lastCol := NO_POS, NO_POS;
    r := [];
    var i := 0;
    ghost var minR, maxR, minC, maxC := 0, 0, 0, 0;
    rf, rt, cf, ct := ps[0].row, ps[0].row, ps[0].col, ps[0].col;
    while i < |ps|
      invariant 0 <= i <= |ps|
      invariant r + Dedup(ps[i..], lastRow, lastCol) == Dedup(ps, NO_POS, NO_POS)
      invariant i == 0 <==> |r| == 0
      invariant i == 0 ==> lastRow == NO_POS && lastCol == NO_POS
      invariant i > 0 ==> r[0] == ps[0] && lastRow == r[|r| - 1].row && lastCol == r[|r| - 1].col
      invariant Spanned(ps[0], r, rf, rt, cf, ct, minR, maxR, minC, maxC)
    {
      DedupAt(ps, i, lastRow, lastCol);
      var row, col := ps[i].row, ps[i].col;
      if !(lastRow == row && lastCol == col) {
        assert r + ([ps[i]] + Dedup(ps[i + 1..], row, col)) == (r + [ps[i]]) + Dedup(ps[i + 1..], row, col);
        r, rf, rt, cf, ct, minR, maxR, minC, maxC := Keep(ps[0], r, ps[i], rf, rt, cf, ct, minR, maxR, minC, maxC);
        lastRow, lastCol := row, col;
      }
      i := i + 1;
    }
    assert ps[|ps|..] == [];
    SpannedBounds(ps[0], r, rf, rt, cf, ct, minR, maxR, minC, maxC);
    rt := rt + 1;
    ct := ct + 1;
  }

  /** Every kept dot comes from the input. */
  lemma {:induction false} DedupKeepsInput(ps: seq<Pair>, lastRow: int, lastCol: int)
    ensures forall x :: x in Dedup(ps, lastRow, lastCol) ==> x in ps
    decreases |ps|
  {
    if |ps| > 0 {
      DedupKeepsInput(ps[1..], lastRow, lastCol);
      DedupKeepsInput(ps[1..], ps[0].row, ps[0].col);
    }
  }

  /** The cells (row, col) a dot list occupies. */
  function Cells(ps: seq<Pair>): set<(int, int)>
  {
    set x | x in ps :: (x.row, x.col)
  }

  lemma CellsCons(ps: seq<Pair>)
    requires |ps| > 0
    ensures Cells(ps) == {(ps[0].row, ps[0].col)} + Cells(ps[1..])
  {
    assert forall x :: x in ps <==> x == ps[0] || x in ps[1..];
  }

  /** Every input cell, other than the cell kept last, is still occupied, and no new cell appears. */
  lemma {:induction false} DedupKeepsCells(ps: seq<Pair>, lastRow: int, lastCol: int)
    ensures Cells(ps) - {(lastRow, lastCol)} <= Cells(Dedup(ps, lastRow, lastCol)) <= Cells(ps)
    decreases |ps|
  {
    if |ps| > 0 {
      CellsCons(ps);
      if ps[0].row == lastRow && ps[0].col == lastCol {
        DedupKeepsCells(ps[1..], lastRow, lastCol);
      } else {
        DedupKeepsCells(ps[1..], ps[0].row, ps[0].col);
        var d := Dedup(ps, lastRow, lastCol);
        assert d == [ps[0]] + Dedup(ps[1..], ps[0].row, ps[0].col);
        CellsCons(d);
        assert d[1..] == Dedup(ps[1..], ps[0].row, ps[0].col);
      }
    }
  }

  /** No two neighbouring kept dots share a cell, and the first differs from the cell kept last. */
  lemma {:induction false} DedupNoRepeats(ps: seq<Pair>, lastRow: int, lastCol: int)
    ensures var d := Dedup(ps, lastRow, lastCol);
      (|d| > 0 ==> !(d[0].row == lastRow && d[0].col == lastCol)) &&
      forall k :: 0 <= k < |d| - 1 ==> !SameCell(d[k], d[k + 1])
    decreases |ps|
  {
    if |ps| > 0 {
      DedupNoRepeats(ps[1..], lastRow, lastCol);
      DedupNoRepeats(ps[1..], ps[0].row, ps[0].col);
      var d := Dedup(ps, lastRow, lastCol);
      if !(ps[0].row == lastRow && ps[0].col == lastCol) {
        var t := Dedup(ps[1..], ps[0].row, ps[0].col);
        assert d == [ps[0]] + t;
        forall k | 0 <= k < |d| - 1 ensures !SameCell(d[k], d[k + 1]) {
          if k > 0 {
            assert d[k] == t[k - 1] && d[k + 1] == t[k];
          }
        }
      }
    }
  }

  /** Kept dots of a list ordered under key stay ordered under key. */
  lemma {:induction false} DedupOrdered(key: SortKey, ps: seq<Pair>, lastRow: int, lastCol: int)
    requires Ordered(key, ps, 0, |ps|)
    ensures var d := Dedup(ps, lastRow, lastCol); Ordered(key, d, 0, |d|)
    decreases |ps|
  {
    if |ps| > 0 {
      assert Ordered(key, ps[1..], 0, |ps| - 1) by {
        forall i, j | 0 <= i < j < |ps| - 1 ensures !Below(key, ps[1..][j], ps[1..][i]) {
          assert ps[1..][j] == ps[j + 1] && ps[1..][i] == ps[i + 1];
        }
      }
      DedupOrdered(key, ps[1..], lastRow, lastCol);
      DedupOrdered(key, ps[1..], ps[0].row, ps[0].col);
      if !(ps[0].row == lastRow && ps[0].col == lastCol) {
        var t := Dedup(ps[1..], ps[0].row, ps[0].col);
        DedupKeepsInput(ps[1..], ps[0].row, ps[0].col);
        var d := [ps[0]] + t;
        forall i, j | 0 <= i < j < |d| ensures !Below(key, d[j], d[i]) {
          if i == 0 {
            assert d[j] == t[j - 1] && t[j - 1] in ps[1..];
            var k :| 0 <= k < |ps| - 1 && ps[1..][k] == d[j];
            assert ps[k + 1] == d[j];
          } else {
            assert d[i] == t[i - 1] && d[j] == t[j - 1];
          }
        }
      }
    }
  }

  /** Each dot sorts strictly before the next by row and then by column: no cell occurs twice. */
  ghost predicate Increasing(d: seq<Pair>)
  {
    forall i, j :: 0 <= i < j < |d| ==> Below(RowThenCol, d[i], d[j])
  }

  /** Sorted by row and then by column, the list keeps each cell once: the kept dots strictly increase. */
  lemma {:induction false} DedupStrict(ps: seq<Pair>, lastRow: int, lastCol: int)
    requires Ordered(RowThenCol, ps, 0, |ps|)
    requires forall k :: 0 <= k < |ps| ==> !Below(RowThenCol, ps[k], Pair(lastRow, lastCol, 0))
    ensures Increasing(Dedup(ps, lastRow, lastCol))
    ensures forall x :: x in Dedup(ps, lastRow, lastCol) ==> Below(RowThenCol, Pair(lastRow, lastCol, 0), x)
    decreases |ps|
  {
    if |ps| > 0 {
      assert Ordered(RowThenCol, ps[1..], 0, |ps| - 1) by {
        forall i, j | 0 <= i < j < |ps| - 1 ensures !Below(RowThenCol, ps[1..][j], ps[1..][i]) {
          assert ps[1..][j] == ps[j + 1] && ps[1..][i] == ps[i + 1];
        }
      }
      DedupKeepsInput(ps, lastRow, lastCol);
      if ps[0].row == lastRow && ps[0].col == lastCol {
        DedupStrict(ps[1..], lastRow, lastCol);
        assert Dedup(ps, lastRow, lastCol) == Dedup(ps[1..], lastRow, lastCol);
      } else {
        forall k | 0 <= k < |ps| - 1 ensures !Below(RowThenCol, ps[1..][k], Pair(ps[0].row, ps[0].col, 0)) {
          assert ps[1..][k] == ps[k + 1];
        }
        DedupStrict(ps[1..], ps[0].row, ps[0].col);
        var t := Dedup(ps[1..], ps[0].row, ps[0].col);
        var d := [ps[0]] + t;
        assert d == Dedup(ps, lastRow, lastCol);
        forall i, j | 0 <= i < j < |d| ensures Below(RowThenCol, d[i], d[j]) {
          assert d[j] == t[j - 1] && t[j - 1] in t;
          assert Below(RowThenCol, Pair(ps[0].row, ps[0].col, 0), t[j - 1]);
          if i > 0 {
            assert d[i] == t[i - 1];
          }
        }
      }
    }
  }

  /** A row-sorted list may hold the same cell twice with another dot between; Dedup then keeps both. */
  lemma RowOnlyKeepsDuplicates()
    ensures var s := [Pair(1, 4, 0), Pair(1, 2, 0), Pair(1, 5, 0), Pair(1, 3, 0), Pair(1, 2, 0)];
      Ordered(RowOnly, s, 0, |s|) && Dedup(s, NO_POS, NO_POS) == s
      && SameCell(Dedup(s, NO_POS, NO_POS)[1], Dedup(s, NO_POS, NO_POS)[4])
  {
    var s := [Pair(1, 4, 0), Pair(1, 2, 0), Pair(1, 5, 0), Pair(1, 3, 0), Pair(1, 2, 0)];
    assert s[1..][1..][1..][1..][1..] == [];
  }

  /** The dots of ps other than p, in order: removePair deletes every copy of p. */
  function Without(ps: seq<Pair>, p: Pair): seq<Pair>
  {
    if |ps| == 0 then []
    else Without(ps[..|ps| - 1], p) + (if ps[|ps| - 1] == p then [] else [ps[|ps| - 1]])
  }

  lemma {:induction false} WithoutRemovesEvery(ps: seq<Pair>, p: Pair)
    ensures multiset(Without(ps, p)) == multiset(ps)[p := 0]
    ensures forall x :: x in Without(ps, p) <==> x in ps && x != p
  {
    if |ps| > 0 {
      WithoutRemovesEvery(ps[..|ps| - 1], p);
      assert ps == ps[..|ps| - 1] + [ps[|ps| - 1]];
    }
  }

  /** Deleting dots keeps the rest positioned. */
  lemma WithoutPositioned(ps: seq<Pair>, p: Pair)
    requires Positioned(ps)
    ensures Positioned(Without(ps, p))
  {
    WithoutRemovesEvery(ps, p);
    var w := Without(ps, p);
    forall k | 0 <= k < |w| ensures w[k].row >= 0 && w[k].col >= 0 {
      assert w[k] in ps;
    }
  }

  /** The removal loop of removePair: the kept dots and their new bounds. */
  ghost predicate Removed(ps: seq<Pair>, p: Pair, r: seq<Pair>, rf: int, rt: int, cf: int, ct: int)
  {
    r == Without(ps, p) && (Positioned(ps) ==> Positioned(r)) && BoundsOf(r, rf, rt, cf, ct)
  }

  method RemoveDots(ps: seq<Pair>, p: Pair) returns (r: seq<Pair>, rf: int, rt: int, cf: int, ct: int)
    ensures Removed(ps, p, r, rf, rt, cf, ct)
  {
    r := [];
    var i := 0;
    while i < |ps|
      invariant 0 <= i <= |ps|
      invariant r == Without(ps[..i], p)
    {
      assert ps[..i + 1][..i] == ps[..i];
      if ps[i] != p {
        r := r + [ps[i]];
      }
      i := i + 1;
    }
    assert ps[..|ps|] == ps;
    if Positioned(ps) {
      WithoutPositioned(ps, p);
    }
    rf, rt, cf, ct := UpdateBoundaries(r);
  }
}
