/**
 * HelpersAlignment: the storage-independent alignment helpers. Each helper
 * walks its source alignments in iteration order and hands pairs to the
 * destination's addPair, so a helper is modelled by the pairs it hands over,
 * in order; how a destination stores them is the business of its storage
 * (AlignmentVector, AlignmentSorted, AlignmentMatrix).
 */
module HelpersAlignment {
  import opened Pairs
  import opened AlignmentBase

  /** CombinationMode: which coordinate of the first and of the second alignment is shared. */
  datatype Mode = RR | CR | RC | CC

  /** The shared coordinate of a pair of the first alignment. */
  function Key1(mode: Mode, p: Pair): int
  {
    if mode == RR || mode == RC then p.row else p.col
  }

  /** The coordinate of a pair of the first alignment that goes into the result. */
  function Value1(mode: Mode, p: Pair): int
  {
    if mode == RR || mode == RC then p.col else p.row
  }

  /** The shared coordinate of a pair of the second alignment. */
  function Key2(mode: Mode, p: Pair): int
  {
    if mode == RR || mode == CR then p.row else p.col
  }

  /** The coordinate of a pair of the second alignment that goes into the result. */
  function Value2(mode: Mode, p: Pair): int
  {
    if mode == RR || mode == CR then p.col else p.row
  }

  /** The shared coordinate strictly increases along the first alignment. */
  predicate Sorted1(mode: Mode, xs: seq<Pair>)
  {
    forall i, j :: 0 <= i < j < |xs| ==> Key1(mode, xs[i]) < Key1(mode, xs[j])
  }

  /** The shared coordinate strictly increases along the second alignment. */
  predicate Sorted2(mode: Mode, ys: seq<Pair>)
  {
    forall i, j :: 0 <= i < j < |ys| ==> Key2(mode, ys[i]) < Key2(mode, ys[j])
  }

  /** Pair a of the first and pair b of the second alignment agree on the shared coordinate. */
  predicate Matches(mode: Mode, xs: seq<Pair>, ys: seq<Pair>, a: int, b: int)
  {
    0 <= a < |xs| && 0 <= b < |ys| && Key1(mode, xs[a]) == Key2(mode, ys[b])
  }

  /** The pair combineAlignment makes of two matching pairs: the two other coordinates, score 0. */
  function Joint(mode: Mode, x: Pair, y: Pair): Pair
  {
    Pair(Value1(mode, x), Value2(mode, y), 0)
  }

  /** p is made of some matching pair of pairs. */
  ghost predicate FromMatch(mode: Mode, xs: seq<Pair>, ys: seq<Pair>, p: Pair)
  {
    exists a, b :: Matches(mode, xs, ys, a, b) && p == Joint(mode, xs[a], ys[b])
  }

  /** Every match with a pair before a or before b has been emitted. */
  ghost predicate JoinedBelow(mode: Mode, xs: seq<Pair>, ys: seq<Pair>, i: int, j: int, out: seq<Pair>)
  {
    forall a, b :: Matches(mode, xs, ys, a, b) && (a < i || b < j) ==> Joint(mode, xs[a], ys[b]) in out
  }

  /**
   * combineAlignment: a merge join of the two alignments on the shared
   * coordinate. Every emitted pair comes from a match, and when both
   * alignments are sorted on the shared coordinate every match is emitted.
   */
  method Combine(xs: seq<Pair>, ys: seq<Pair>, mode: Mode) returns (out: seq<Pair>)
    ensures forall k :: 0 <= k < |out| ==> FromMatch(mode, xs, ys, out[k])
    ensures Sorted1(mode, xs) && Sorted2(mode, ys) ==>
              forall a, b :: Matches(mode, xs, ys, a, b) ==> Joint(mode, xs[a], ys[b]) in out
  {
    out := [];
    var i, j := 0, 0;
    while i < |xs| && j < |ys|
      invariant 0 <= i <= |xs| && 0 <= j <= |ys|
      invariant forall k :: 0 <= k < |out| ==> FromMatch(mode, xs, ys, out[k])
      invariant Sorted1(mode, xs) && Sorted2(mode, ys) ==> JoinedBelow(mode, xs, ys, i, j, out)
      decreases |xs| - i + |ys| - j
    {
      var map1, value1 := Key1(mode, xs[i]), Value1(mode, xs[i]);
      var map2, value2 := Key2(mode, ys[j]), Value2(mode, ys[j]);
      if map1 == map2 {
        assert Matches(mode, xs, ys, i, j);
        CombineMatchStep(mode, xs, ys, i, j, out);
        out := out + [Pair(value1, value2, 0)];
        i, j := i + 1, j + 1;
      } else if map1 < map2 {
        CombineSkipFirst(mode, xs, ys, i, j, out);
        i := i + 1;
      } else {
        CombineSkipSecond(mode, xs, ys, i, j, out);
        j := j + 1;
      }
    }
    if Sorted1(mode, xs) && Sorted2(mode, ys) {
      forall a, b | Matches(mode, xs, ys, a, b) ensures Joint(mode, xs[a], ys[b]) in out {
        assert a < i || b < j;
      }
    }
  }

  /** A match at (i, j) is the only match of xs[i] and of ys[j]. */
  lemma CombineMatchStep(mode: Mode, xs: seq<Pair>, ys: seq<Pair>, i: int, j: int, out: seq<Pair>)
    requires Matches(mode, xs, ys, i, j)
    ensures Sorted1(mode, xs) && Sorted2(mode, ys) && JoinedBelow(mode, xs, ys, i, j, out) ==>
              JoinedBelow(mode, xs, ys, i + 1, j + 1, out + [Joint(mode, xs[i], ys[j])])
  {
    if Sorted1(mode, xs) && Sorted2(mode, ys) && JoinedBelow(mode, xs, ys, i, j, out) {
      var out' := out + [Joint(mode, xs[i], ys[j])];
      forall a, b | Matches(mode, xs, ys, a, b) && (a < i + 1 || b < j + 1)
        ensures Joint(mode, xs[a], ys[b]) in out'
      {
        if a < i || b < j {
          assert Joint(mode, xs[a], ys[b]) in out;
        } else {
          assert a == i && b == j;
        }
      }
    }
  }

  /** A first-alignment pair whose key is below the current second key matches only earlier pairs. */
  lemma CombineSkipFirst(mode: Mode, xs: seq<Pair>, ys: seq<Pair>, i: int, j: int, out: seq<Pair>)
    requires 0 <= i < |xs| && 0 <= j < |ys| && Key1(mode, xs[i]) < Key2(mode, ys[j])
    ensures Sorted1(mode, xs) && Sorted2(mode, ys) && JoinedBelow(mode, xs, ys, i, j, out) ==>
              JoinedBelow(mode, xs, ys, i + 1, j, out)
  {
    if Sorted1(mode, xs) && Sorted2(mode, ys) && JoinedBelow(mode, xs, ys, i, j, out) {
      forall a, b | Matches(mode, xs, ys, a, b) && (a < i + 1 || b < j)
        ensures Joint(mode, xs[a], ys[b]) in out
      {
        if a == i {
          assert Key2(mode, ys[b]) < Key2(mode, ys[j]);
        }
      }
    }
  }

  /** The mirror image of CombineSkipFirst. */
  lemma CombineSkipSecond(mode: Mode, xs: seq<Pair>, ys: seq<Pair>, i: int, j: int, out: seq<Pair>)
    requires 0 <= i < |xs| && 0 <= j < |ys| && Key2(mode, ys[j]) < Key1(mode, xs[i])
    ensures Sorted1(mode, xs) && Sorted2(mode, ys) && JoinedBelow(mode, xs, ys, i, j, out) ==>
              JoinedBelow(mode, xs, ys, i, j + 1, out)
  {
    if Sorted1(mode, xs) && Sorted2(mode, ys) && JoinedBelow(mode, xs, ys, i, j, out) {
      forall a, b | Matches(mode, xs, ys, a, b) && (a < i || b < j + 1)
        ensures Joint(mode, xs[a], ys[b]) in out
      {
        if b == j {
          assert Key1(mode, xs[a]) < Key1(mode, xs[i]);
        }
      }
    }
  }

  /**
   * out was selected from src[..i] in order: when src is sorted on rows
   * (on columns) so is out, and it stays below the rest of src.
   */
  ghost predicate SelectedBelow(src: seq<Pair>, out: seq<Pair>, i: int)
    requires 0 <= i <= |src|
  {
    (RowSorted(src) ==> RowSorted(out) && forall p, j :: p in out && i <= j < |src| ==> p.row < src[j].row) &&
    (ColSorted(src) ==> ColSorted(out) && forall p, j :: p in out && i <= j < |src| ==> p.col < src[j].col)
  }

  /** Selecting src[i], or skipping it, keeps the selection in order. */
  lemma SelectStep(src: seq<Pair>, out: seq<Pair>, i: int, keep: bool)
    requires 0 <= i < |src| && SelectedBelow(src, out, i)
    ensures SelectedBelow(src, if keep then out + [src[i]] else out, i + 1)
  {
    var out' := if keep then out + [src[i]] else out;
    if RowSorted(src) {
      forall p, j | p in out' && i + 1 <= j < |src| ensures p.row < src[j].row {
        if p !in out {
          assert p == src[i];
        }
      }
    }
    if ColSorted(src) {
      forall p, j | p in out' && i + 1 <= j < |src| ensures p.col < src[j].col {
        if p !in out {
          assert p == src[i];
        }
      }
    }
  }

  /** out holds exactly the pairs of src[..i] that want accepts. */
  ghost predicate SelectedBy(src: seq<Pair>, out: seq<Pair>, i: int, want: Pair -> bool)
    requires 0 <= i <= |src|
  {
    forall p :: p in out <==> p in src[..i] && want(p)
  }

  /** Deciding src[i] by want keeps the selection exact. */
  lemma SelectByStep(src: seq<Pair>, out: seq<Pair>, i: int, want: Pair -> bool, keep: bool)
    requires 0 <= i < |src| && SelectedBy(src, out, i, want) && keep == want(src[i])
    ensures SelectedBy(src, if keep then out + [src[i]] else out, i + 1, want)
  {
    assert src[..i + 1] == src[..i] + [src[i]];
  }

  /** A window side of copyAlignment: NO_POS leaves that side open. */
  predicate InWindow(lo: int, hi: int, x: int)
  {
    (lo == NO_POS || lo <= x) && (hi == NO_POS || x < hi)
  }

  /**
   * The pairs copyAlignment keeps: inside the half-open row and column
   * windows and inside the closed diagonal window; an inverted diagonal
   * window filters nothing.
   */
  predicate Wanted(p: Pair, rowFrom: int, rowTo: int, colFrom: int, colTo: int, diagFrom: int, diagTo: int)
  {
    InWindow(rowFrom, rowTo, p.row) && InWindow(colFrom, colTo, p.col) &&
    (diagFrom > diagTo || diagFrom <= Diagonal(p) <= diagTo)
  }

  /** The wanted pairs of src, in the order of src. */
  function Windowed(src: seq<Pair>, rowFrom: int, rowTo: int, colFrom: int, colTo: int, diagFrom: int, diagTo: int): (r: seq<Pair>)
    ensures |r| <= |src|
  {
    if |src| == 0 then []
    else
      var last := src[|src| - 1];
      Windowed(src[..|src| - 1], rowFrom, rowTo, colFrom, colTo, diagFrom, diagTo) +
      (if Wanted(last, rowFrom, rowTo, colFrom, colTo, diagFrom, diagTo) then [last] else [])
  }

  /**
   * copyAlignment with windows: the cleared destination receives exactly
   * the wanted pairs of src, in their order. Clamping the windows to the
   * bounds of src changes nothing.
   */
  method CopyWindow(src: seq<Pair>, rowFrom: int, rowTo: int, colFrom: int, colTo: int, diagFrom: int, diagTo: int)
    returns (out: seq<Pair>)
    ensures out == Windowed(src, rowFrom, rowTo, colFrom, colTo, diagFrom, diagTo)
    ensures forall p :: p in out <==> p in src && Wanted(p, rowFrom, rowTo, colFrom, colTo, diagFrom, diagTo)
    ensures RowSorted(src) ==> RowSorted(out)
    ensures ColSorted(src) ==> ColSorted(out)
  {
    var cf := if colFrom < ColFrom(src) || colFrom == NO_POS then ColFrom(src) else colFrom;
    var ct := if colTo > ColTo(src) || colTo == NO_POS then ColTo(src) else colTo;
    var rf := if rowFrom < RowFrom(src) || rowFrom == NO_POS then RowFrom(src) else rowFrom;
    var rt := if rowTo > RowTo(src) || rowTo == NO_POS then RowTo(src) else rowTo;
    forall k | 0 <= k < |src|
      ensures ClampedAgrees(src[k], rf, rt, cf, ct, rowFrom, rowTo, colFrom, colTo)
    {
      ClampInvisible(src, k, rowFrom, rowTo, colFrom, colTo);
    }
    out := CopyClamped(src, rf, rt, cf, ct, rowFrom, rowTo, colFrom, colTo, diagFrom, diagTo);
  }

  /** The clamped windows accept p exactly when the caller's windows do. */
  predicate ClampedAgrees(p: Pair, rf: int, rt: int, cf: int, ct: int, rowFrom: int, rowTo: int, colFrom: int, colTo: int)
  {
    (cf <= p.col < ct <==> InWindow(colFrom, colTo, p.col)) &&
    (rf <= p.row < rt <==> InWindow(rowFrom, rowTo, p.row))
  }

  /** The filtering loop of copyAlignment, once the windows are clamped. */
  method CopyClamped(src: seq<Pair>, rf: int, rt: int, cf: int, ct: int,
                     rowFrom: int, rowTo: int, colFrom: int, colTo: int, diagFrom: int, diagTo: int)
    returns (out: seq<Pair>)
    requires forall k :: 0 <= k < |src| ==> ClampedAgrees(src[k], rf, rt, cf, ct, rowFrom, rowTo, colFrom, colTo)
    ensures out == Windowed(src, rowFrom, rowTo, colFrom, colTo, diagFrom, diagTo)
    ensures forall p :: p in out <==> p in src && Wanted(p, rowFrom, rowTo, colFrom, colTo, diagFrom, diagTo)
    ensures RowSorted(src) ==> RowSorted(out)
    ensures ColSorted(src) ==> ColSorted(out)
  {
    var anyDiagonal := diagFrom > diagTo;
    ghost var want := (p: Pair) => Wanted(p, rowFrom, rowTo, colFrom, colTo, diagFrom, diagTo);
    out := [];
    var i := 0;
    while i < |src|
      invariant 0 <= i <= |src|
      invariant SelectedBy(src, out, i, want) && SelectedBelow(src, out, i)
      invariant out == Windowed(src[..i], rowFrom, rowTo, colFrom, colTo, diagFrom, diagTo)
    {
      var p := src[i];
      var keep := cf <= p.col < ct && rf <= p.row < rt && (anyDiagonal || diagFrom <= Diagonal(p) <= diagTo);
      assert ClampedAgrees(src[i], rf, rt, cf, ct, rowFrom, rowTo, colFrom, colTo);
      assert src[..i + 1][..i] == src[..i];
      SelectByStep(src, out, i, want, keep);
      SelectStep(src, out, i, keep);
      if keep {
        out := out + [p];
      }
      i := i + 1;
    }
    assert src[..i] == src;
  }

  /** Every pair of src lies inside the bounds of src, so clamping a window to them keeps the same pairs. */
  lemma ClampInvisible(src: seq<Pair>, i: int, rowFrom: int, rowTo: int, colFrom: int, colTo: int)
    requires 0 <= i < |src|
    ensures var p := src[i];
            var cf := if colFrom < ColFrom(src) || colFrom == NO_POS then ColFrom(src) else colFrom;
            var ct := if colTo > ColTo(src) || colTo == NO_POS then ColTo(src) else colTo;
            var rf := if rowFrom < RowFrom(src) || rowFrom == NO_POS then RowFrom(src) else rowFrom;
            var rt := if rowTo > RowTo(src) || rowTo == NO_POS then RowTo(src) else rowTo;
            (cf <= p.col < ct <==> InWindow(colFrom, colTo, p.col)) &&
            (rf <= p.row < rt <==> InWindow(rowFrom, rowTo, p.row))
  {
    assert MinCol(src) <= src[i].col <= MaxCol(src);
    assert MinRow(src) <= src[i].row <= MaxRow(src);
  }

  /** What the filter alignment maps the mode's coordinate of p to. */
  function FilterHit(filter: seq<Pair>, mode: Mode, p: Pair): int
  {
    match mode
    case RR => MapRowToCol(filter, p.row)
    case CR => MapRowToCol(filter, p.col)
    case RC => MapColToRow(filter, p.row)
    case CC => MapColToRow(filter, p.col)
  }

  /** The pairs of src, in order, that the filter maps to hit (every pair when there is no filter). */
  function Unfiltered(src: seq<Pair>, filter: Option<seq<Pair>>, mode: Mode, hit: int): (r: seq<Pair>)
    ensures |r| <= |src|
  {
    if |src| == 0 then []
    else
      var last := src[|src| - 1];
      Unfiltered(src[..|src| - 1], filter, mode, hit) +
      (if filter.None? || FilterHit(filter.value, mode, last) == hit then [last] else [])
  }

  /**
   * copyAlignment with a filter, as written: a pair is dropped when the
   * filter's answer converts to true, that is when it is not 0. NO_POS is
   * not 0, so the pairs the filter does not map are dropped too, and only
   * those the filter maps to position 0 survive.
   */
  method CopyFilteredAsWritten(src: seq<Pair>, filter: Option<seq<Pair>>, mode: Mode) returns (out: seq<Pair>)
    ensures out == Unfiltered(src, filter, mode, 0)
    ensures forall p :: p in out <==> p in src && (filter.None? || FilterHit(filter.value, mode, p) == 0)
    ensures |out| <= |src|
  {
    out := [];
    var i := 0;
    while i < |src|
      invariant 0 <= i <= |src|
      invariant forall p :: p in out <==> p in src[..i] && (filter.None? || FilterHit(filter.value, mode, p) == 0)
      invariant out == Unfiltered(src[..i], filter, mode, 0)
      invariant |out| <= i
    {
      assert src[..i + 1][..i] == src[..i];
      var p := src[i];
      var keep := true;
      if filter.Some? && FilterHit(filter.value, mode, p) != 0 {
        keep := false;
      }
      assert src[..i + 1] == src[..i] + [p];
      if keep {
        out := out + [p];
      }
      i := i + 1;
    }
    assert src[..i] == src;
  }

  /**
   * copyAlignment with a filter, as its comment describes it: the residues
   * that are part of the filter are skipped, all others are copied in order.
   */
  method CopyFiltered(src: seq<Pair>, filter: Option<seq<Pair>>, mode: Mode) returns (out: seq<Pair>)
    ensures out == Unfiltered(src, filter, mode, NO_POS)
    ensures forall p :: p in out <==> p in src && (filter.None? || FilterHit(filter.value, mode, p) == NO_POS)
    ensures RowSorted(src) ==> RowSorted(out)
    ensures ColSorted(src) ==> ColSorted(out)
    ensures |out| <= |src|
  {
    out := [];
    var i := 0;
    while i < |src|
      invariant 0 <= i <= |src|
      invariant forall p :: p in out <==> p in src[..i] && (filter.None? || FilterHit(filter.value, mode, p) == NO_POS)
      invariant SelectedBelow(src, out, i) && |out| <= i
      invariant out == Unfiltered(src[..i], filter, mode, NO_POS)
    {
      assert src[..i + 1][..i] == src[..i];
      var p := src[i];
      var keep := true;
      if filter.Some? && FilterHit(filter.value, mode, p) != NO_POS {
        keep := false;
      }
      SelectStep(src, out, i, keep);
      assert src[..i + 1] == src[..i] + [p];
      if keep {
        out := out + [p];
      }
      i := i + 1;
    }
    assert src[..i] == src;
  }

  /** An empty filter maps nothing: the condition as written drops the only pair, the intended one keeps it. */
  method CopyFilteredEmptyFilter() returns (written: seq<Pair>, intended: seq<Pair>)
    ensures Pair(1, 1, 0) !in written && intended == [Pair(1, 1, 0)]
  {
    var src := [Pair(1, 1, 0)];
    written := CopyFilteredAsWritten(src, Some([]), RR);
    intended := CopyFiltered(src, Some([]), RR);
    assert FilterHit([], RR, Pair(1, 1, 0)) == NO_POS;
    assert Pair(1, 1, 0) in intended;
  }

  /** addAlignment2Alignment: every pair of src is added after dest's own, and the scores add up. */
  method AddAlignment(dest: Alignment, src: Alignment) returns (r: Alignment)
    ensures r.pairs == dest.pairs + src.pairs
    ensures r.score == dest.score + src.score
  {
    var out := dest.pairs;
    var i := 0;
    while i < |src.pairs|
      invariant 0 <= i <= |src.pairs|
      invariant out == dest.pairs + src.pairs[..i]
    {
      assert src.pairs[..i + 1] == src.pairs[..i] + [src.pairs[i]];
      out := out + [src.pairs[i]];
      i := i + 1;
    }
    assert src.pairs[..i] == src.pairs;
    r := Alignment(out, dest.score + src.score);
  }

  /** A pair with the mode's coordinate replaced by its image under map. */
  function MapThrough(mapping: seq<Pair>, mode: Mode, p: Pair): Pair
  {
    match mode
    case RR => p.(row := MapRowToCol(mapping, p.row))
    case RC => p.(row := MapColToRow(mapping, p.row))
    case CR => p.(col := MapRowToCol(mapping, p.col))
    case CC => p.(col := MapColToRow(mapping, p.col))
  }

  /** Neither coordinate is NO_POS. */
  predicate Placed(p: Pair)
  {
    p.row != NO_POS && p.col != NO_POS
  }

  /** q is the image of one of the first n pairs of src. */
  ghost predicate ImageOf(mapping: seq<Pair>, mode: Mode, src: seq<Pair>, n: int, q: Pair)
  {
    exists k :: 0 <= k < n && k < |src| && MapThrough(mapping, mode, src[k]) == q
  }

  /** The placed images of the pairs of src, in order. */
  function Mapped(mapping: seq<Pair>, mode: Mode, src: seq<Pair>): seq<Pair>
  {
    if |src| == 0 then []
    else
      var q := MapThrough(mapping, mode, src[|src| - 1]);
      Mapped(mapping, mode, src[..|src| - 1]) + (if Placed(q) then [q] else [])
  }

  /** The images of all pairs of src are those of all but the last, and the last one's. */
  lemma ImageOfLast(mapping: seq<Pair>, mode: Mode, src: seq<Pair>, q: Pair)
    requires |src| > 0
    ensures ImageOf(mapping, mode, src, |src|, q) <==>
              ImageOf(mapping, mode, src[..|src| - 1], |src| - 1, q) || q == MapThrough(mapping, mode, src[|src| - 1])
  {
    if ImageOf(mapping, mode, src, |src|, q) {
      ImageOfSplit(mapping, mode, src, q);
    }
    if ImageOf(mapping, mode, src[..|src| - 1], |src| - 1, q) {
      ImageOfPrefix(mapping, mode, src, q);
    }
    if q == MapThrough(mapping, mode, src[|src| - 1]) {
      assert ImageOf(mapping, mode, src, |src|, q);
    }
  }

  /** An image of a pair of src is the last pair's or one of the others'. */
  lemma ImageOfSplit(mapping: seq<Pair>, mode: Mode, src: seq<Pair>, q: Pair)
    requires |src| > 0 && ImageOf(mapping, mode, src, |src|, q)
    ensures ImageOf(mapping, mode, src[..|src| - 1], |src| - 1, q) || q == MapThrough(mapping, mode, src[|src| - 1])
  {
    var n := |src| - 1;
    var k :| 0 <= k < |src| && MapThrough(mapping, mode, src[k]) == q;
    if k == n {
      assert src[k] == src[n];
    } else {
      assert src[..n][k] == src[k];
      ImageAt(mapping, mode, src[..n], n, k, q);
    }
  }

  /** The image of the pair at k < n is an image of the first n pairs. */
  lemma ImageAt(mapping: seq<Pair>, mode: Mode, src: seq<Pair>, n: int, k: int, q: Pair)
    requires 0 <= k < n && k < |src| && MapThrough(mapping, mode, src[k]) == q
    ensures ImageOf(mapping, mode, src, n, q)
  {
  }

  /** An image of a pair of all but the last is an image of a pair of src. */
  lemma ImageOfPrefix(mapping: seq<Pair>, mode: Mode, src: seq<Pair>, q: Pair)
    requires |src| > 0 && ImageOf(mapping, mode, src[..|src| - 1], |src| - 1, q)
    ensures ImageOf(mapping, mode, src, |src|, q)
  {
    var n := |src| - 1;
    var k :| 0 <= k < n && k < |src[..n]| && MapThrough(mapping, mode, src[..n][k]) == q;
    assert src[..n][k] == src[k];
  }

  /** The mapped pairs are exactly the placed images of the pairs of src. */
  lemma {:induction false} MappedMembers(mapping: seq<Pair>, mode: Mode, src: seq<Pair>, q: Pair)
    ensures q in Mapped(mapping, mode, src) <==> Placed(q) && ImageOf(mapping, mode, src, |src|, q)
    decreases |src|
  {
    if |src| > 0 {
      var n := |src| - 1;
      var last := MapThrough(mapping, mode, src[n]);
      MappedMembers(mapping, mode, src[..n], q);
      ImageOfLast(mapping, mode, src, q);
      assert Mapped(mapping, mode, src) == Mapped(mapping, mode, src[..n]) + (if Placed(last) then [last] else []);
    }
  }

  /**
   * addMappedAlignment2Alignment: the pairs of src, with one coordinate
   * mapped, are added in order after dest's own; a pair whose image has a
   * NO_POS coordinate is dropped. The scores add up.
   */
  method AddMapped(dest: Alignment, src: Alignment, mapping: seq<Pair>, mode: Mode) returns (r: Alignment)
    ensures r.score == dest.score + src.score
    ensures r.pairs == dest.pairs + Mapped(mapping, mode, src.pairs)
  {
    var added: seq<Pair> := [];
    var i := 0;
    while i < |src.pairs|
      invariant 0 <= i <= |src.pairs|
      invariant added == Mapped(mapping, mode, src.pairs[..i])
    {
      var p := src.pairs[i];
      var row, col, score := p.row, p.col, p.score;
      match mode {
        case RR => row := MapRowToCol(mapping, row);
        case RC => row := MapColToRow(mapping, row);
        case CR => col := MapRowToCol(mapping, col);
        case CC => col := MapColToRow(mapping, col);
      }
      assert Pair(row, col, score) == MapThrough(mapping, mode, p);
      assert src.pairs[..i + 1][..i] == src.pairs[..i];
      if row != NO_POS && col != NO_POS {
        added := added + [Pair(row, col, score)];
      }
      i := i + 1;
    }
    assert src.pairs[..i] == src.pairs;
    r := Alignment(dest.pairs + added, dest.score + src.score);
  }

  /** The pairs fillAlignmentIdentity adds: (i, i + colOffset) for i in [rowFrom, rowTo), score 0. */
  function Identity(rowFrom: int, rowTo: int, colOffset: int): seq<Pair>
  {
    seq(Excess(rowTo - rowFrom), k => Pair(rowFrom + k, rowFrom + k + colOffset, 0))
  }

  /** fillAlignmentIdentity: the identity run is added after dest's pairs. */
  method FillIdentity(dest: seq<Pair>, rowFrom: int, rowTo: int, colOffset: int) returns (out: seq<Pair>)
    ensures out == dest + Identity(rowFrom, rowTo, colOffset)
  {
    out := dest;
    var i := rowFrom;
    while i < rowTo
      invariant rowFrom <= rowTo ==> rowFrom <= i <= rowTo
      invariant rowTo < rowFrom ==> i == rowFrom
      invariant out == dest + Identity(rowFrom, i, colOffset)
    {
      assert Identity(rowFrom, i + 1, colOffset) == Identity(rowFrom, i, colOffset) + [Pair(i, i + colOffset, 0)];
      out := out + [Pair(i, i + colOffset, 0)];
      i := i + 1;
    }
  }

  /**
   * The identity run is an ungapped alignment on one diagonal: it maps
   * row pos to pos + colOffset inside [rowFrom, rowTo), and nothing else.
   */
  lemma IdentityMaps(rowFrom: int, rowTo: int, colOffset: int, pos: int)
    ensures RowSorted(Identity(rowFrom, rowTo, colOffset)) && ColSorted(Identity(rowFrom, rowTo, colOffset))
    ensures MapRowToCol(Identity(rowFrom, rowTo, colOffset), pos) ==
              if rowFrom <= pos < rowTo then pos + colOffset else NO_POS
    ensures MapColToRow(Identity(rowFrom, rowTo, colOffset), pos) ==
              if rowFrom + colOffset <= pos < rowTo + colOffset then pos - colOffset else NO_POS
  {
    var id := Identity(rowFrom, rowTo, colOffset);
    if rowFrom <= pos < rowTo {
      assert id[pos - rowFrom].row == pos;
    }
    if rowFrom + colOffset <= pos < rowTo + colOffset {
      assert id[pos - rowFrom - colOffset].col == pos;
    }
  }

  /** The number of residues, that is of characters other than gap. */
  function Residues(s: seq<char>, gap: char): nat
  {
    if |s| == 0 then 0
    else Residues(s[..|s| - 1], gap) + (if s[|s| - 1] != gap then 1 else 0)
  }

  /** Column i of the two aligned strings pairs two residues. */
  predicate Aligned(rowAli: seq<char>, colAli: seq<char>, gap: char, i: int)
    requires 0 <= i < |rowAli| && i < |colAli|
  {
    rowAli[i] != gap && colAli[i] != gap
  }

  /** The pair of column i: each coordinate counts the residues of its own string before the column. */
  function ColumnPair(rowFrom: int, rowAli: seq<char>, colFrom: int, colAli: seq<char>, gap: char, i: int): Pair
    requires 0 <= i <= |rowAli| && i <= |colAli|
  {
    Pair(rowFrom + Residues(rowAli[..i], gap), colFrom + Residues(colAli[..i], gap), 0)
  }

  /** q is the pair of an aligned column before n. */
  ghost predicate ColumnOf(rowFrom: int, rowAli: seq<char>, colFrom: int, colAli: seq<char>, gap: char, n: int, q: Pair)
    requires n <= |rowAli| <= |colAli|
  {
    exists i :: 0 <= i < n && Aligned(rowAli, colAli, gap, i) && q == ColumnPair(rowFrom, rowAli, colFrom, colAli, gap, i)
  }

  /**
   * fillAlignmentExplicit: the columns of two aligned strings become pairs.
   * A pair is added exactly for the columns with a residue in both strings,
   * at the residue numbers of those columns, and the added pairs are
   * collinear.
   */
  method FillExplicit(dest: seq<Pair>, rowFrom: int, rowAli: seq<char>, colFrom: int, colAli: seq<char>, gap: char)
    returns (out: seq<Pair>)
    requires |rowAli| <= |colAli|
    ensures |dest| <= |out| && out[..|dest|] == dest
    ensures forall q :: q in out[|dest|..] <==> ColumnOf(rowFrom, rowAli, colFrom, colAli, gap, |rowAli|, q)
    ensures RowSorted(out[|dest|..]) && ColSorted(out[|dest|..])
  {
    var added: seq<Pair> := [];
    var row, col := rowFrom, colFrom;
    var i := 0;
    while i < |rowAli|
      invariant 0 <= i <= |rowAli|
      invariant row == rowFrom + Residues(rowAli[..i], gap) && col == colFrom + Residues(colAli[..i], gap)
      invariant forall q :: q in added <==> ColumnOf(rowFrom, rowAli, colFrom, colAli, gap, i, q)
      invariant RowSorted(added) && ColSorted(added)
      invariant forall q :: q in added ==> q.row < row && q.col < col
    {
      ExplicitStep(rowFrom, rowAli, colFrom, colAli, gap, i);
      assert ColumnPair(rowFrom, rowAli, colFrom, colAli, gap, i) == Pair(row, col, 0);
      if rowAli[i] != gap && colAli[i] != gap {
        added := added + [Pair(row, col, 0)];
      }
      if rowAli[i] != gap {
        row := row + 1;
      }
      if colAli[i] != gap {
        col := col + 1;
      }
      i := i + 1;
    }
    out := dest + added;
    assert out[|dest|..] == added;
  }

  /** Column i extends the residue counts by its own characters, and adds at most its own pair. */
  lemma ExplicitStep(rowFrom: int, rowAli: seq<char>, colFrom: int, colAli: seq<char>, gap: char, i: int)
    requires 0 <= i < |rowAli| <= |colAli|
    ensures Residues(rowAli[..i + 1], gap) == Residues(rowAli[..i], gap) + (if rowAli[i] != gap then 1 else 0)
    ensures Residues(colAli[..i + 1], gap) == Residues(colAli[..i], gap) + (if colAli[i] != gap then 1 else 0)
    ensures forall q :: ColumnOf(rowFrom, rowAli, colFrom, colAli, gap, i + 1, q) <==>
              ColumnOf(rowFrom, rowAli, colFrom, colAli, gap, i, q) ||
              (Aligned(rowAli, colAli, gap, i) && q == ColumnPair(rowFrom, rowAli, colFrom, colAli, gap, i))
  {
    assert rowAli[..i + 1][..i] == rowAli[..i];
    assert colAli[..i + 1][..i] == colAli[..i];
    forall q | ColumnOf(rowFrom, rowAli, colFrom, colAli, gap, i + 1, q)
      ensures ColumnOf(rowFrom, rowAli, colFrom, colAli, gap, i, q) ||
              (Aligned(rowAli, colAli, gap, i) && q == ColumnPair(rowFrom, rowAli, colFrom, colAli, gap, i))
    {
      var j :| 0 <= j < i + 1 && Aligned(rowAli, colAli, gap, j) && q == ColumnPair(rowFrom, rowAli, colFrom, colAli, gap, j);
      if j < i {
        assert ColumnOf(rowFrom, rowAli, colFrom, colAli, gap, i, q);
      }
    }
  }

  /** The cost of a gap of d positions: opening plus d extensions, nothing when there is no gap. */
  function GapCost(d: int, gop: int, gep: int): int
  {
    if d > 0 then gop + d * gep else 0
  }

  /**
   * The affine score of ps after a pair at (lastRow, lastCol): each pair's
   * score plus the cost of the row gap and of the column gap before it.
   */
  function AffineFrom(lastRow: int, lastCol: int, ps: seq<Pair>, gop: int, gep: int): int
    decreases |ps|
  {
    if |ps| == 0 then 0
    else GapCost(ps[0].row - lastRow - 1, gop, gep) + GapCost(ps[0].col - lastCol - 1, gop, gep) + ps[0].score
         + AffineFrom(ps[0].row, ps[0].col, ps[1..], gop, gep)
  }

  /** The affine score of an alignment: no gap is charged before its first pair. */
  function AffineScore(ps: seq<Pair>, gop: int, gep: int): int
  {
    if |ps| == 0 then 0 else ps[0].score + AffineFrom(ps[0].row, ps[0].col, ps[1..], gop, gep)
  }

  /**
   * calculateAffineScore: the alignment keeps its pairs and its score
   * becomes the affine score.
   */
  method CalculateAffineScore(a: Alignment, gop: int, gep: int) returns (r: Alignment)
    ensures r.pairs == a.pairs && r.score == AffineScore(a.pairs, gop, gep)
  {
    var ps := a.pairs;
    var score := 0;
    var lastRow, lastCol := 0, 0;
    var i := 0;
    while i < |ps|
      invariant 0 <= i <= |ps|
      invariant i == 0 ==> score == 0
      invariant 0 < i ==> lastRow == ps[i - 1].row && lastCol == ps[i - 1].col &&
                          score + AffineFrom(lastRow, lastCol, ps[i..], gop, gep) == AffineScore(ps, gop, gep)
    {
      var row, col := ps[i].row, ps[i].col;
      if 0 < i {
        var d := row - lastRow - 1;
        if d > 0 {
          score := score + gop + d * gep;
        }
        d := col - lastCol - 1;
        if d > 0 {
          score := score + gop + d * gep;
        }
      }
      assert ps[i..][1..] == ps[i + 1..];
      score := score + ps[i].score;
      lastRow, lastCol := row, col;
      i := i + 1;
    }
    r := Alignment(ps, score);
  }

  /** The total of the pair scores. */
  function ScoreSum(ps: seq<Pair>): int
  {
    if |ps| == 0 then 0 else ps[0].score + ScoreSum(ps[1..])
  }

  /** The number of gaps opened after a pair at (lastRow, lastCol), in rows and in columns. */
  function Openings(lastRow: int, lastCol: int, ps: seq<Pair>): nat
    decreases |ps|
  {
    if |ps| == 0 then 0
    else (if ps[0].row - lastRow - 1 > 0 then 1 else 0) + (if ps[0].col - lastCol - 1 > 0 then 1 else 0)
         + Openings(ps[0].row, ps[0].col, ps[1..])
  }

  /**
   * The affine score is the pair scores, plus gop for every gap opened,
   * plus gep for every gap position calculateLength counts.
   */
  lemma {:induction false} AffineDecomposes(lastRow: int, lastCol: int, ps: seq<Pair>, gop: int, gep: int)
    ensures AffineFrom(lastRow, lastCol, ps, gop, gep) ==
              ScoreSum(ps) + gop * Openings(lastRow, lastCol, ps) + gep * GapsFrom(lastRow, lastCol, ps)
    decreases |ps|
  {
    if |ps| > 0 {
      AffineDecomposes(ps[0].row, ps[0].col, ps[1..], gop, gep);
      var dr, dc := ps[0].row - lastRow - 1, ps[0].col - lastCol - 1;
      var or, oc := (if dr > 0 then 1 else 0), (if dc > 0 then 1 else 0);
      GapCostSplits(dr, gop, gep);
      GapCostSplits(dc, gop, gep);
      Distributes(gop, or, oc, Openings(ps[0].row, ps[0].col, ps[1..]));
      Distributes(gep, Excess(dr), Excess(dc), GapsFrom(ps[0].row, ps[0].col, ps[1..]));
    }
  }

  /** One gap costs gop if it is opened and gep per position. */
  lemma GapCostSplits(d: int, gop: int, gep: int)
    ensures GapCost(d, gop, gep) == gop * (if d > 0 then 1 else 0) + gep * Excess(d)
  {
  }

  /** Multiplication distributes over a sum of three. */
  lemma Distributes(k: int, a: int, b: int, c: int)
    ensures k * (a + b + c) == k * a + k * b + k * c
  {
  }

  /**
   * One run of the compressed format as columns: a positive run of n
   * residues is n residue columns (true), a negative run of n is n gap
   * columns (false).
   */
  function Run(d: int): seq<bool>
  {
    if d > 0 then seq(d, _ => true) else seq(-d, _ => false)
  }

  /** A whole compressed string as columns. */
  function Expand(runs: seq<int>): seq<bool>
  {
    if |runs| == 0 then [] else Run(runs[0]) + Expand(runs[1..])
  }

  /** The number of residue columns. */
  function Count(flags: seq<bool>): nat
  {
    if |flags| == 0 then 0 else (if flags[0] then 1 else 0) + Count(flags[1..])
  }

  /**
   * The reference reading of two aligned column strings, starting at
   * residues (row, col): a column with a residue on both sides gives a pair,
   * every residue advances its own side, and the reading stops when either
   * side ends.
   */
  function Merge(row: int, col: int, r: seq<bool>, c: seq<bool>): seq<Pair>
    decreases |r|
  {
    if |r| == 0 || |c| == 0 then []
    else (if r[0] && c[0] then [Pair(row, col, 0)] else [])
         + Merge(row + (if r[0] then 1 else 0), col + (if c[0] then 1 else 0), r[1..], c[1..])
  }

  /** Every pair of a merge lies at or after its start, on both sides. */
  ghost predicate From(row: int, col: int, ps: seq<Pair>)
  {
    forall k :: 0 <= k < |ps| ==> row <= ps[k].row && col <= ps[k].col && ps[k].score == 0
  }

  /** A pair before a collinear run that starts after it, on both sides, keeps the run collinear. */
  lemma ConsSorted(p: Pair, tail: seq<Pair>)
    requires RowSorted(tail) && ColSorted(tail) && From(p.row + 1, p.col + 1, tail) && p.score == 0
    ensures RowSorted([p] + tail) && ColSorted([p] + tail) && From(p.row, p.col, [p] + tail)
  {
    var m := [p] + tail;
    forall i, j | 0 <= i < j < |m|
      ensures m[i].row < m[j].row && m[i].col < m[j].col
    {
      assert m[j] == tail[j - 1];
      if i > 0 {
        assert m[i] == tail[i - 1];
      }
    }
    forall k | 0 <= k < |m|
      ensures p.row <= m[k].row && p.col <= m[k].col && m[k].score == 0
    {
      if k > 0 {
        assert m[k] == tail[k - 1];
      }
    }
  }

  /** A merge is collinear: strictly increasing in rows and in columns, with score 0. */
  lemma {:induction false} MergeSorted(row: int, col: int, r: seq<bool>, c: seq<bool>)
    ensures RowSorted(Merge(row, col, r, c)) && ColSorted(Merge(row, col, r, c))
    ensures From(row, col, Merge(row, col, r, c))
    decreases |r|
  {
    if |r| > 0 && |c| > 0 {
      var row', col' := row + (if r[0] then 1 else 0), col + (if c[0] then 1 else 0);
      MergeSorted(row', col', r[1..], c[1..]);
      var tail := Merge(row', col', r[1..], c[1..]);
      if r[0] && c[0] {
        ConsSorted(Pair(row, col, 0), tail);
        assert [Pair(row, col, 0)] + tail == Merge(row, col, r, c);
      } else {
        assert tail == Merge(row, col, r, c);
        assert From(row, col, tail) by {
          forall k | 0 <= k < |tail|
            ensures row <= tail[k].row && col <= tail[k].col && tail[k].score == 0
          {
          }
        }
      }
    }
  }

  /** Reading two column blocks of equal width, then the rest. */
  lemma {:induction false} MergeAppend(row: int, col: int, a: seq<bool>, b: seq<bool>, x: seq<bool>, y: seq<bool>)
    requires |a| == |b|
    ensures Merge(row, col, a + x, b + y) == Merge(row, col, a, b) + Merge(row + Count(a), col + Count(b), x, y)
    decreases |a|
  {
    if |a| > 0 {
      var row', col' := row + (if a[0] then 1 else 0), col + (if b[0] then 1 else 0);
      assert (a + x)[1..] == a[1..] + x && (b + y)[1..] == b[1..] + y;
      MergeAppend(row', col', a[1..], b[1..], x, y);
    } else {
      assert a + x == x && b + y == y;
    }
  }

  /** Columns where no side pairs a residue with a residue give no pair. */
  lemma {:induction false} MergeNone(row: int, col: int, a: seq<bool>, b: seq<bool>)
    requires |a| == |b|
    requires forall k :: 0 <= k < |a| ==> !(a[k] && b[k])
    ensures Merge(row, col, a, b) == []
    decreases |a|
  {
    if |a| > 0 {
      assert !(a[0] && b[0]);
      MergeNone(row + (if a[0] then 1 else 0), col + (if b[0] then 1 else 0), a[1..], b[1..]);
    }
  }

  /** A run has as many residue columns as it is positive. */
  lemma {:induction false} CountRun(d: int)
    ensures Count(Run(d)) == (if d > 0 then d else 0)
    decreases if d > 0 then d else -d
  {
    if d > 0 {
      assert Run(d)[1..] == Run(d - 1);
      CountRun(d - 1);
    } else if d < 0 {
      assert Run(d)[1..] == Run(d + 1);
      CountRun(d + 1);
    }
  }

  /** A run splits into two runs of the same sign. */
  lemma RunSplit(a: int, d: int, x: seq<bool>)
    requires 0 <= a <= d || d <= a <= 0
    ensures Run(d) + x == Run(a) + (Run(d - a) + x)
  {
    assert Run(d) == Run(a) + Run(d - a);
  }

  /** Consuming |a| columns of two runs that do not both hold residues there. */
  lemma Skip(row: int, col: int, dr: int, dc: int, a: int, b: int, x: seq<bool>, y: seq<bool>)
    requires (0 <= a <= dr || dr <= a <= 0) && (0 <= b <= dc || dc <= b <= 0)
    requires a == b || a == -b
    requires a <= 0 || b <= 0
    ensures Merge(row, col, Run(dr) + x, Run(dc) + y) ==
              Merge(row + (if a > 0 then a else 0), col + (if b > 0 then b else 0), Run(dr - a) + x, Run(dc - b) + y)
  {
    var rowRest, colRest := Run(dr - a) + x, Run(dc - b) + y;
    RunSplit(a, dr, x);
    RunSplit(b, dc, y);
    RunsApart(row, col, a, b);
    CountRun(a);
    CountRun(b);
    SkipBlock(row, col, Run(a), Run(b), rowRest, colRest);
  }

  /** A block of columns of equal width that gives no pair only advances both sides by their residues. */
  lemma SkipBlock(row: int, col: int, a: seq<bool>, b: seq<bool>, x: seq<bool>, y: seq<bool>)
    requires |a| == |b| && Merge(row, col, a, b) == []
    ensures Merge(row, col, a + x, b + y) == Merge(row + Count(a), col + Count(b), x, y)
  {
    MergeAppend(row, col, a, b, x, y);
  }

  /** Two runs of equal width that never both hold a residue give no pair. */
  lemma RunsApart(row: int, col: int, a: int, b: int)
    requires a == b || a == -b
    requires a <= 0 || b <= 0
    ensures |Run(a)| == |Run(b)| && Merge(row, col, Run(a), Run(b)) == []
  {
    MergeNone(row, col, Run(a), Run(b));
  }

  /** A column with a residue on both sides gives its pair. */
  lemma Emit(row: int, col: int, dr: int, dc: int, x: seq<bool>, y: seq<bool>)
    requires dr > 0 && dc > 0
    ensures Merge(row, col, Run(dr) + x, Run(dc) + y) ==
              [Pair(row, col, 0)] + Merge(row + 1, col + 1, Run(dr - 1) + x, Run(dc - 1) + y)
  {
    assert (Run(dr) + x)[1..] == Run(dr - 1) + x;
    assert (Run(dc) + y)[1..] == Run(dc - 1) + y;
  }

  /** The next token of a compressed string starts where the current run ends. */
  lemma NextRun(runs: seq<int>, i: int)
    requires 0 <= i < |runs|
    ensures Expand(runs[i..]) == Run(runs[i]) + Expand(runs[i + 1..])
  {
    assert runs[i..][1..] == runs[i + 1..];
  }

  /**
   * The aligned part of fillAlignmentCompressed: while both current runs
   * hold residues, each column gives its pair.
   */
  method EmitAligned(row: int, col: int, dRow: int, dCol: int, ghost x: seq<bool>, ghost y: seq<bool>)
    returns (aligned: seq<Pair>, row': int, col': int, dRow': int, dCol': int)
    ensures !(dRow' > 0 && dCol' > 0)
    ensures aligned + Merge(row', col', Run(dRow') + x, Run(dCol') + y) == Merge(row, col, Run(dRow) + x, Run(dCol) + y)
  {
    aligned := [];
    row', col', dRow', dCol' := row, col, dRow, dCol;
    while dRow' > 0 && dCol' > 0
      invariant aligned + Merge(row', col', Run(dRow') + x, Run(dCol') + y) == Merge(row, col, Run(dRow) + x, Run(dCol) + y)
      decreases dRow'
    {
      Emit(row', col', dRow', dCol', x, y);
      ghost var rest := Merge(row' + 1, col' + 1, Run(dRow' - 1) + x, Run(dCol' - 1) + y);
      assert aligned + ([Pair(row', col', 0)] + rest) == (aligned + [Pair(row', col', 0)]) + rest;
      aligned := aligned + [Pair(row', col', 0)];
      dRow', dCol' := dRow' - 1, dCol' - 1;
      row', col' := row' + 1, col' + 1;
    }
  }

  /**
   * The gap handling of fillAlignmentCompressed once the aligned part of the
   * current runs is used up: columns where both sides are gaps are skipped,
   * and residues facing gaps only advance their own side, until one of the
   * two runs is finished.
   */
  method Resolve(row: int, col: int, dRow: int, dCol: int, ghost x: seq<bool>, ghost y: seq<bool>)
    returns (row': int, col': int, dRow': int, dCol': int)
    requires !(dRow > 0 && dCol > 0)
    ensures dRow' == 0 || dCol' == 0
    ensures Merge(row', col', Run(dRow') + x, Run(dCol') + y) == Merge(row, col, Run(dRow) + x, Run(dCol) + y)
  {
    row', col', dRow', dCol' := row, col, dRow, dCol;
    if dRow' < 0 && dCol' < 0 {
      if dRow' < dCol' {
        Skip(row', col', dRow', dCol', dCol', dCol', x, y);
        dRow' := dRow' - dCol';
        dCol' := 0;
      } else {
        Skip(row', col', dRow', dCol', dRow', dRow', x, y);
        dCol' := dCol' - dRow';
        dRow' := 0;
      }
    }
    if dRow' > 0 && dCol' < 0 {
      if dRow' > -dCol' {
        Skip(row', col', dRow', dCol', -dCol', dCol', x, y);
        dRow' := dRow' + dCol';
        row' := row' - dCol';
        dCol' := 0;
      } else {
        Skip(row', col', dRow', dCol', dRow', -dRow', x, y);
        dCol' := dCol' + dRow';
        row' := row' + dRow';
        dRow' := 0;
      }
    }
    if dCol' > 0 && dRow' < 0 {
      if dCol' > -dRow' {
        Skip(row', col', dRow', dCol', dRow', -dRow', x, y);
        dCol' := dCol' + dRow';
        col' := col' - dRow';
        dRow' := 0;
      } else {
        Skip(row', col', dRow', dCol', -dCol', dCol', x, y);
        dRow' := dRow' + dCol';
        col' := col' + dCol';
        dCol' := 0;
      }
    }
  }

  /**
   * fillAlignmentCompressed: two aligned strings in run-length form (as the
   * integer tokens their streams hold) become the pairs of the columns that
   * have a residue on both sides, exactly as the reference reading of the
   * expanded strings gives them.
   */
  method FillCompressed(rowFrom: int, rowRuns: seq<int>, colFrom: int, colRuns: seq<int>) returns (out: seq<Pair>)
    ensures out == Merge(rowFrom, colFrom, Expand(rowRuns), Expand(colRuns))
  {
    out := [];
    if |rowRuns| == 0 || |colRuns| == 0 {
      return;
    }
    var row, col := rowFrom, colFrom;
    var dRow, dCol := rowRuns[0], colRuns[0];
    var i, j := 1, 1;
    assert rowRuns[1..] == rowRuns[i..] && colRuns[1..] == colRuns[j..];
    var done := false;
    while !done
      invariant !done ==> Compressing(rowFrom, rowRuns, colFrom, colRuns, out, row, col, dRow, dCol, i, j)
      invariant done ==> out == Merge(rowFrom, colFrom, Expand(rowRuns), Expand(colRuns))
      decreases |rowRuns| - i + |colRuns| - j + (if done then 0 else 1)
    {
      out, row, col, dRow, dCol, i, j, done := CompressStep(rowFrom, rowRuns, colFrom, colRuns, out, row, col, dRow, dCol, i, j);
    }
  }

  /**
   * The state of fillAlignmentCompressed: the runs from token i of the row
   * stream and token j of the column stream are still to be read, dRow and
   * dCol are what is left of the current runs, and the pairs so far followed
   * by the reading of the rest are the reading of both whole strings.
   */
  ghost predicate Compressing(rowFrom: int, rowRuns: seq<int>, colFrom: int, colRuns: seq<int>,
                              out: seq<Pair>, row: int, col: int, dRow: int, dCol: int, i: int, j: int)
  {
    1 <= i <= |rowRuns| && 1 <= j <= |colRuns| &&
    Pending(out, row, col, dRow, dCol, Expand(rowRuns[i..]), Expand(colRuns[j..]),
            Merge(rowFrom, colFrom, Expand(rowRuns), Expand(colRuns)))
  }

  /** The pairs so far, followed by the reading of what is left of both strings, are the whole reading. */
  ghost predicate Pending(out: seq<Pair>, row: int, col: int, dRow: int, dCol: int, x: seq<bool>, y: seq<bool>, target: seq<Pair>)
  {
    out + Merge(row, col, Run(dRow) + x, Run(dCol) + y) == target
  }

  /** The aligned part and the gaps of one round of fillAlignmentCompressed, until one current run is used up. */
  method CompressRuns(out: seq<Pair>, row: int, col: int, dRow: int, dCol: int,
                      ghost x: seq<bool>, ghost y: seq<bool>, ghost target: seq<Pair>)
    returns (out': seq<Pair>, row': int, col': int, dRow': int, dCol': int)
    requires Pending(out, row, col, dRow, dCol, x, y, target)
    ensures Pending(out', row', col', dRow', dCol', x, y, target)
    ensures dRow' == 0 || dCol' == 0
  {
    var aligned;
    aligned, row', col', dRow', dCol' := EmitAligned(row, col, dRow, dCol, x, y);
    assert out + (aligned + Merge(row', col', Run(dRow') + x, Run(dCol') + y))
        == (out + aligned) + Merge(row', col', Run(dRow') + x, Run(dCol') + y);
    out' := out + aligned;
    row', col', dRow', dCol' := Resolve(row', col', dRow', dCol', x, y);
  }

  /** A used-up run on the row side is followed by the next token's run. */
  lemma RowNext(out: seq<Pair>, row: int, col: int, dCol: int, rowRuns: seq<int>, i: int, y: seq<bool>, target: seq<Pair>)
    requires 0 <= i < |rowRuns| && Pending(out, row, col, 0, dCol, Expand(rowRuns[i..]), y, target)
    ensures Pending(out, row, col, rowRuns[i], dCol, Expand(rowRuns[i + 1..]), y, target)
  {
    assert Run(0) == [];
    NextRun(rowRuns, i);
    assert Run(0) + Expand(rowRuns[i..]) == Run(rowRuns[i]) + Expand(rowRuns[i + 1..]);
  }

  /** A used-up run on the column side is followed by the next token's run. */
  lemma ColNext(out: seq<Pair>, row: int, col: int, dRow: int, colRuns: seq<int>, j: int, x: seq<bool>, target: seq<Pair>)
    requires 0 <= j < |colRuns| && Pending(out, row, col, dRow, 0, x, Expand(colRuns[j..]), target)
    ensures Pending(out, row, col, dRow, colRuns[j], x, Expand(colRuns[j + 1..]), target)
  {
    assert Run(0) == [];
    NextRun(colRuns, j);
    assert Run(0) + Expand(colRuns[j..]) == Run(colRuns[j]) + Expand(colRuns[j + 1..]);
  }

  /** When one string has ended, the pairs so far are the whole reading. */
  lemma StreamEnded(out: seq<Pair>, row: int, col: int, dRow: int, dCol: int, x: seq<bool>, y: seq<bool>, target: seq<Pair>)
    requires Pending(out, row, col, dRow, dCol, x, y, target)
    requires (dRow == 0 && x == []) || (dCol == 0 && y == [])
    ensures out == target
  {
    assert Run(0) == [];
  }

  /**
   * One round of fillAlignmentCompressed: emit the residues aligned in both
   * current runs, resolve the gaps, and read the next token of the stream
   * whose run is used up; done when that stream has ended.
   */
  method CompressStep(rowFrom: int, rowRuns: seq<int>, colFrom: int, colRuns: seq<int>,
                      out: seq<Pair>, row: int, col: int, dRow: int, dCol: int, i: int, j: int)
    returns (out': seq<Pair>, row': int, col': int, dRow': int, dCol': int, i': int, j': int, done: bool)
    requires Compressing(rowFrom, rowRuns, colFrom, colRuns, out, row, col, dRow, dCol, i, j)
    ensures done ==> out' == Merge(rowFrom, colFrom, Expand(rowRuns), Expand(colRuns))
    ensures !done ==> Compressing(rowFrom, rowRuns, colFrom, colRuns, out', row', col', dRow', dCol', i', j')
    ensures !done ==> i + j < i' + j'
    ensures i <= i' && j <= j'
  {
    ghost var target := Merge(rowFrom, colFrom, Expand(rowRuns), Expand(colRuns));
    out', row', col', dRow', dCol' := CompressRuns(out, row, col, dRow, dCol, Expand(rowRuns[i..]), Expand(colRuns[j..]), target);
    dRow', dCol', i', j', done := NextTokens(rowRuns, colRuns, out', row', col', dRow', dCol', i, j, target);
  }

  /** The reading of the next token of each stream whose run is used up; done when that stream has ended. */
  method NextTokens(rowRuns: seq<int>, colRuns: seq<int>, out: seq<Pair>, row: int, col: int,
                    dRow: int, dCol: int, i: int, j: int, ghost target: seq<Pair>)
    returns (dRow': int, dCol': int, i': int, j': int, done: bool)
    requires 1 <= i <= |rowRuns| && 1 <= j <= |colRuns| && (dRow == 0 || dCol == 0)
    requires Pending(out, row, col, dRow, dCol, Expand(rowRuns[i..]), Expand(colRuns[j..]), target)
    ensures done ==> out == target
    ensures !done ==> 1 <= i' <= |rowRuns| && 1 <= j' <= |colRuns| && i + j < i' + j'
    ensures !done ==> Pending(out, row, col, dRow', dCol', Expand(rowRuns[i'..]), Expand(colRuns[j'..]), target)
    ensures i <= i' && j <= j'
  {
    dRow', dCol', i', j', done := dRow, dCol, i, j, false;
    if dRow == 0 {
      if i == |rowRuns| {
        StreamEnded(out, row, col, dRow, dCol, Expand(rowRuns[i..]), Expand(colRuns[j..]), target);
        done := true;
        return;
      }
      RowNext(out, row, col, dCol, rowRuns, i, Expand(colRuns[j..]), target);
      dRow', i' := rowRuns[i], i + 1;
    }
    if dCol == 0 {
      if j == |colRuns| {
        StreamEnded(out, row, col, dRow', dCol, Expand(rowRuns[i'..]), Expand(colRuns[j..]), target);
        done := true;
        return;
      }
      ColNext(out, row, col, dRow', colRuns, j, Expand(rowRuns[i'..]), target);
      dCol', j' := colRuns[j], j + 1;
    }
  }

  /** A single residue run on both sides is the identity run on their diagonal. */
  lemma {:induction false} CompressedIdentity(rowFrom: int, colFrom: int, n: nat)
    ensures Merge(rowFrom, colFrom, Run(n), Run(n)) == Identity(rowFrom, rowFrom + n, colFrom - rowFrom)
    decreases n
  {
    if n > 0 {
      assert Run(n)[1..] == Run(n - 1);
      CompressedIdentity(rowFrom + 1, colFrom + 1, n - 1);
      assert Identity(rowFrom, rowFrom + n, colFrom - rowFrom)
          == [Pair(rowFrom, colFrom, 0)] + Identity(rowFrom + 1, rowFrom + n, colFrom - rowFrom);
    }
  }

  /** Every pair of ps lies in columns [lo, hi). */
  ghost predicate ColsIn(ps: seq<Pair>, lo: int, hi: int)
  {
    forall k :: 0 <= k < |ps| ==> lo <= ps[k].col < hi
  }

  /** Every pair of ps lies in a row before hi. */
  ghost predicate RowsBelow(ps: seq<Pair>, hi: int)
  {
    forall k :: 0 <= k < |ps| ==> ps[k].row < hi
  }

  /** A column of the combined alignment that both maps use is one of the aligned columns. */
  ghost predicate SharedOnlyAt(dest1: seq<Pair>, dest2: seq<Pair>, combined: seq<int>)
  {
    forall a, b :: 0 <= a < |dest1| && 0 <= b < |dest2| && dest1[a].col == dest2[b].col ==> dest1[a].col in combined
  }

  /**
   * insertResidues: residues [lastRes, currentRes) go to the combined
   * columns from current on, one each; the next free combined column is
   * returned.
   */
  method InsertResidues(dest: seq<Pair>, lastRes: int, currentRes: int, current: int) returns (out: seq<Pair>, next: int)
    ensures out == dest + Identity(lastRes, currentRes, current - lastRes)
    ensures next == current + Excess(currentRes - lastRes)
  {
    out, next := dest, current;
    var i := lastRes;
    while i < currentRes
      invariant lastRes <= currentRes ==> lastRes <= i <= currentRes
      invariant currentRes < lastRes ==> i == lastRes
      invariant next == current + (i - lastRes)
      invariant out == dest + Identity(lastRes, i, current - lastRes)
    {
      assert Identity(lastRes, i + 1, current - lastRes) == Identity(lastRes, i, current - lastRes) + [Pair(i, next, 0)];
      out := out + [Pair(i, next, 0)];
      next := next + 1;
      i := i + 1;
    }
  }

  /** The identity run is collinear, in rows [rowFrom, rowTo) and the columns offset from them. */
  lemma IdentityBounds(rowFrom: int, rowTo: int, colOffset: int)
    ensures RowSorted(Identity(rowFrom, rowTo, colOffset)) && ColSorted(Identity(rowFrom, rowTo, colOffset))
    ensures ColsIn(Identity(rowFrom, rowTo, colOffset), rowFrom + colOffset, rowFrom + colOffset + Excess(rowTo - rowFrom))
    ensures forall k :: 0 <= k < |Identity(rowFrom, rowTo, colOffset)| ==>
              rowFrom <= Identity(rowFrom, rowTo, colOffset)[k].row < rowFrom + Excess(rowTo - rowFrom)
  {
  }

  /** A map sorted in columns below lo, followed by one sorted in columns [lo, hi), is sorted below hi. */
  lemma ConcatCols(ps: seq<Pair>, qs: seq<Pair>, lo: int, hi: int)
    requires ColSorted(ps) && ColSorted(qs) && ColsIn(ps, 0, lo) && ColsIn(qs, lo, hi) && 0 <= lo <= hi
    ensures ColSorted(ps + qs) && ColsIn(ps + qs, 0, hi)
  {
    var r := ps + qs;
    forall i, j | 0 <= i < j < |r| ensures r[i].col < r[j].col {
      if j < |ps| {
        assert r[i] == ps[i] && r[j] == ps[j];
      } else if i >= |ps| {
        assert r[i] == qs[i - |ps|] && r[j] == qs[j - |ps|];
      } else {
        assert r[i] == ps[i] && r[j] == qs[j - |ps|];
      }
    }
    forall k | 0 <= k < |r| ensures 0 <= r[k].col < hi {
      if k < |ps| {
        assert r[k] == ps[k];
      } else {
        assert r[k] == qs[k - |ps|];
      }
    }
  }

  /** A map sorted in rows below lo, followed by one sorted in rows from lo up, is sorted in rows. */
  lemma ConcatRows(ps: seq<Pair>, qs: seq<Pair>, lo: int, hi: int)
    requires RowSorted(ps) && RowSorted(qs) && RowsBelow(ps, lo)
    requires forall k :: 0 <= k < |qs| ==> lo <= qs[k].row < hi
    ensures RowSorted(ps + qs) && RowsBelow(ps + qs, if lo < hi then hi else lo)
  {
    var r := ps + qs;
    forall i, j | 0 <= i < j < |r| ensures r[i].row < r[j].row {
      if j < |ps| {
        assert r[i] == ps[i] && r[j] == ps[j];
      } else if i >= |ps| {
        assert r[i] == qs[i - |ps|] && r[j] == qs[j - |ps|];
      } else {
        assert r[i] == ps[i] && r[j] == qs[j - |ps|];
      }
    }
    forall k | 0 <= k < |r| ensures r[k].row < (if lo < hi then hi else lo) {
      if k < |ps| {
        assert r[k] == ps[k];
      } else {
        assert r[k] == qs[k - |ps|];
      }
    }
  }

  /**
   * Inserting a run of residues after a map that is sorted below column
   * current keeps it sorted, below the next free column; in rows too, when
   * the run starts at or after the map's rows.
   */
  lemma InsertKeepsSorted(ps: seq<Pair>, lastRes: int, currentRes: int, current: int)
    requires ColSorted(ps) && ColsIn(ps, 0, current) && 0 <= current
    ensures ColSorted(ps + Identity(lastRes, currentRes, current - lastRes))
    ensures ColsIn(ps + Identity(lastRes, currentRes, current - lastRes), 0, current + Excess(currentRes - lastRes))
    ensures ColsIn(Identity(lastRes, currentRes, current - lastRes), current, current + Excess(currentRes - lastRes))
    ensures RowSorted(ps) && RowsBelow(ps, lastRes) ==>
              RowSorted(ps + Identity(lastRes, currentRes, current - lastRes)) &&
              RowsBelow(ps + Identity(lastRes, currentRes, current - lastRes), if lastRes < currentRes then currentRes else lastRes)
  {
    var id := Identity(lastRes, currentRes, current - lastRes);
    IdentityBounds(lastRes, currentRes, current - lastRes);
    ConcatCols(ps, id, current, current + Excess(currentRes - lastRes));
    if RowSorted(ps) && RowsBelow(ps, lastRes) {
      ConcatRows(ps, id, lastRes, lastRes + Excess(currentRes - lastRes));
    }
  }

  /** Appending a pair after everything in columns keeps a map sorted in columns. */
  lemma AppendCol(ps: seq<Pair>, p: Pair)
    requires ColSorted(ps) && ColsIn(ps, 0, p.col) && 0 <= p.col
    ensures ColSorted(ps + [p]) && ColsIn(ps + [p], 0, p.col + 1)
  {
  }

  /** Appending a pair after everything in rows keeps a map sorted in rows. */
  lemma AppendRow(ps: seq<Pair>, p: Pair)
    requires RowSorted(ps) && RowsBelow(ps, p.row)
    ensures RowSorted(ps + [p]) && RowsBelow(ps + [p], p.row + 1)
  {
  }

  /** Pairs added to one map beyond the other map's columns share no column with it. */
  lemma SharedAfter(d: seq<Pair>, other: seq<Pair>, combined: seq<int>, extra: seq<Pair>, current: int)
    requires SharedOnlyAt(d, other, combined) && ColsIn(other, 0, current)
    requires ColsIn(extra, current, current + |extra|)
    ensures SharedOnlyAt(d + extra, other, combined)
  {
    assert forall x :: x in extra ==> current <= x.col;
    assert forall y :: y in other ==> y.col < current;
    forall a, b | a in d + extra && b in other && a.col == b.col ensures a.col in combined {
      assert a in d;
    }
  }

  /** Sharing only aligned columns does not depend on the order of the two maps. */
  lemma SharedSwap(d1: seq<Pair>, d2: seq<Pair>, combined: seq<int>)
    requires SharedOnlyAt(d1, d2, combined)
    ensures SharedOnlyAt(d2, d1, combined)
  {
  }

  /** The two pairs of an aligned column share a new column, which becomes an aligned column. */
  lemma SharedMatch(d1: seq<Pair>, d2: seq<Pair>, combined: seq<int>, p: Pair, q: Pair, current: int)
    requires SharedOnlyAt(d1, d2, combined) && ColsIn(d1, 0, current) && ColsIn(d2, 0, current)
    requires p.col == current && q.col == current
    ensures SharedOnlyAt(d1 + [p], d2 + [q], combined + [current])
  {
    forall a, b | a in d1 + [p] && b in d2 + [q] && a.col == b.col ensures a.col in combined + [current] {
      if a.col != current {
        assert a in d1 && b in d2;
      }
    }
  }

  /** The residues of a map (its first coordinates), in order. */
  function ResiduesOf(ps: seq<Pair>): seq<int>
  {
    seq(|ps|, k requires 0 <= k < |ps| => ps[k].row)
  }

  /** The residues lo, lo + 1, ..., hi - 1. */
  function Interval(lo: int, hi: int): seq<int>
  {
    seq(Excess(hi - lo), k => lo + k)
  }

  /** insertResidues hands its map the residues of an interval. */
  lemma ResiduesOfInserted(dest: seq<Pair>, lo: int, hi: int, offset: int)
    ensures ResiduesOf(dest + Identity(lo, hi, offset)) == ResiduesOf(dest) + Interval(lo, hi)
  {
  }

  /** Adding a pair adds its residue. */
  lemma ResiduesOfSnoc(ps: seq<Pair>, p: Pair)
    ensures ResiduesOf(ps + [p]) == ResiduesOf(ps) + [p.row]
  {
  }

  /** The residue of p in the row sequence (rows) or in the column sequence. */
  function Side(p: Pair, rows: bool): int
  {
    if rows then p.row else p.col
  }

  /**
   * The residues one map of fillAlignmentSummation is handed before pair k
   * of src: when insert is set, those skipped since pair k - 1.
   */
  function Skipped(src: seq<Pair>, k: int, rows: bool, insert: bool): seq<int>
    requires 0 <= k < |src|
  {
    if insert && 0 < k then Interval(Side(src[k - 1], rows) + 1, Side(src[k], rows)) else []
  }

  /** The residues one map is handed for the first n pairs of src: the skipped ones, then the pair's own. */
  function Threaded(src: seq<Pair>, n: int, rows: bool, insert: bool): seq<int>
    requires 0 <= n <= |src|
  {
    if n == 0 then [] else Threaded(src, n - 1, rows, insert) + Skipped(src, n - 1, rows, insert) + [Side(src[n - 1], rows)]
  }

  /** With useEnd, the residues before the first aligned one. */
  function Front(src: seq<Pair>, rows: bool, useEnd: bool): seq<int>
    requires |src| > 0
  {
    if useEnd then Interval(0, Side(src[0], rows)) else []
  }

  /** With useEnd, the residues after the last aligned one, up to the sequence's length. */
  function Back(src: seq<Pair>, rows: bool, useEnd: bool, length: int): seq<int>
    requires |src| > 0
  {
    if useEnd then Interval(Side(src[|src| - 1], rows) + 1, length) else []
  }

  /**
   * The residues, in order, that fillAlignmentSummation maps for one
   * sequence: the leading residues with useEnd, the aligned residues with
   * the skipped ones before each when insert is set, and the trailing
   * residues with useEnd.
   */
  function Received(src: seq<Pair>, rows: bool, insert: bool, useEnd: bool, length: int): seq<int>
    requires |src| > 0
  {
    Front(src, rows, useEnd) + Threaded(src, |src|, rows, insert) + Back(src, rows, useEnd, length)
  }

  /**
   * A residue is handed over for the first n pairs exactly when it is the
   * residue of one of them, or, with insert, lies strictly between the
   * residues of two consecutive ones.
   */
  lemma {:induction false} ThreadedMembers(src: seq<Pair>, n: int, rows: bool, insert: bool, r: int)
    requires 0 <= n <= |src|
    ensures r in Threaded(src, n, rows, insert) <==>
              (exists k :: 0 <= k < n && Side(src[k], rows) == r) ||
              (insert && exists k :: 0 < k < n && Side(src[k - 1], rows) < r < Side(src[k], rows))
    decreases n
  {
    if n > 0 {
      var k := n - 1;
      ThreadedMembers(src, k, rows, insert, r);
      SkippedMembers(src, k, rows, insert, r);
      assert r in Threaded(src, n, rows, insert) <==>
               r in Threaded(src, k, rows, insert) || r in Skipped(src, k, rows, insert) || r == Side(src[k], rows);
      if exists k' :: 0 <= k' < n && Side(src[k'], rows) == r {
        var k' :| 0 <= k' < n && Side(src[k'], rows) == r;
        if k' < k {
          assert exists k'' :: 0 <= k'' < k && Side(src[k''], rows) == r;
        }
      }
      if insert && exists k' :: 0 < k' < n && Side(src[k' - 1], rows) < r < Side(src[k'], rows) {
        var k' :| 0 < k' < n && Side(src[k' - 1], rows) < r < Side(src[k'], rows);
        if k' < k {
          assert exists k'' :: 0 < k'' < k && Side(src[k'' - 1], rows) < r < Side(src[k''], rows);
        }
      }
    }
  }

  /** The residues skipped before pair k are those strictly between it and the pair before, when gaps are inserted. */
  lemma SkippedMembers(src: seq<Pair>, k: int, rows: bool, insert: bool, r: int)
    requires 0 <= k < |src|
    ensures r in Skipped(src, k, rows, insert) <==> insert && 0 < k && Side(src[k - 1], rows) < r < Side(src[k], rows)
  {
    if insert && 0 < k && Side(src[k - 1], rows) < r < Side(src[k], rows) {
      var lo := Side(src[k - 1], rows) + 1;
      assert Interval(lo, Side(src[k], rows))[r - lo] == r;
    }
  }

  /**
   * The residues each map of fillAlignmentSummation covers: the aligned
   * residues; with insert (insert_gaps_col for the row map, insert_gaps_row
   * for the column map) every residue strictly between two consecutive
   * aligned ones; and with useEnd every residue before the first aligned
   * one and after the last, below the sequence's length.
   */
  lemma ReceivedMembers(src: seq<Pair>, rows: bool, insert: bool, useEnd: bool, length: int, r: int)
    requires |src| > 0
    ensures r in Received(src, rows, insert, useEnd, length) <==>
              (exists k :: 0 <= k < |src| && Side(src[k], rows) == r) ||
              (insert && exists k :: 0 < k < |src| && Side(src[k - 1], rows) < r < Side(src[k], rows)) ||
              (useEnd && (0 <= r < Side(src[0], rows) || Side(src[|src| - 1], rows) < r < length))
  {
    ThreadedMembers(src, |src|, rows, insert, r);
    if useEnd && 0 <= r < Side(src[0], rows) {
      assert Front(src, rows, useEnd)[r] == r;
    }
    if useEnd && Side(src[|src| - 1], rows) < r < length {
      var lo := Side(src[|src| - 1], rows) + 1;
      assert Back(src, rows, useEnd, length)[r - lo] == r;
    }
  }

  /** Without the flags a map holds exactly the aligned residues, in the order of src. */
  lemma {:induction false} ThreadedAligned(src: seq<Pair>, n: int, rows: bool)
    requires 0 <= n <= |src|
    ensures Threaded(src, n, rows, false) == seq(n, k requires 0 <= k < n => Side(src[k], rows))
    decreases n
  {
    if n > 0 {
      ThreadedAligned(src, n - 1, rows);
    }
  }

  /** With every flag unset, fillAlignmentSummation maps exactly the aligned residues, in order. */
  lemma ReceivedAligned(src: seq<Pair>, rows: bool, length: int)
    requires |src| > 0
    ensures Received(src, rows, false, false, length) == seq(|src|, k requires 0 <= k < |src| => Side(src[k], rows))
  {
    ThreadedAligned(src, |src|, rows);
  }

  /** The residues both maps have been handed after the first i pairs of src. */
  ghost predicate Threads(src: seq<Pair>, i: int, dest1: seq<Pair>, dest2: seq<Pair>,
                          insertGapsRow: bool, insertGapsCol: bool, useEndRow: bool, useEndCol: bool)
  {
    0 < |src| && 0 <= i <= |src| &&
    ResiduesOf(dest1) == Front(src, true, useEndRow) + Threaded(src, i, true, insertGapsCol) &&
    ResiduesOf(dest2) == Front(src, false, useEndCol) + Threaded(src, i, false, insertGapsRow)
  }

  /** A map into the combined alignment laid out so far: sorted by, and below, combined column current. */
  ghost predicate Laid(ps: seq<Pair>, current: int)
  {
    0 <= current && ColSorted(ps) && ColsIn(ps, 0, current)
  }

  /**
   * A guarded call of insertResidues in fillAlignmentSummation: when asked
   * to, the residues [lastRes, currentRes) go to the next combined columns,
   * which the other map does not use.
   */
  method InsertIf(insert: bool, dest: seq<Pair>, ghost other: seq<Pair>, ghost combined: seq<int>,
                  lastRes: int, currentRes: int, current: int) returns (out: seq<Pair>, next: int)
    requires Laid(dest, current) && ColsIn(other, 0, current) && SharedOnlyAt(dest, other, combined)
    ensures current <= next && Laid(out, next) && ColsIn(other, 0, next) && SharedOnlyAt(out, other, combined)
    ensures forall x :: x in dest ==> x in out
    ensures RowSorted(dest) && RowsBelow(dest, lastRes) ==>
              RowSorted(out) && RowsBelow(out, if lastRes < currentRes then currentRes else lastRes)
    ensures dest == [] ==> RowSorted(out) && RowsBelow(out, currentRes)
    ensures ResiduesOf(out) == ResiduesOf(dest) + (if insert then Interval(lastRes, currentRes) else [])
  {
    out, next := dest, current;
    if !insert {
      assert ResiduesOf(dest) + [] == ResiduesOf(dest);
    }
    if insert {
      ResiduesOfInserted(dest, lastRes, currentRes, current - lastRes);
      InsertKeepsSorted(dest, lastRes, currentRes, current);
      SharedAfter(dest, other, combined, Identity(lastRes, currentRes, current - lastRes), current);
      out, next := InsertResidues(dest, lastRes, currentRes, current);
      ColsWiden(other, current, next);
    }
  }

  /**
   * One aligned pair p of fillAlignmentSummation: the residues skipped
   * since the previous pair are inserted (each map only when asked to), and
   * then p's two residues go to the same new combined column at.
   */
  method SummationColumn(p: Pair, insertGapsRow: bool, insertGapsCol: bool, dest1: seq<Pair>, dest2: seq<Pair>,
                         ghost combined: seq<int>, current: int, lastRow: int, lastCol: int)
    returns (dest1': seq<Pair>, dest2': seq<Pair>, current': int, ghost at: int)
    requires Laid(dest1, current) && Laid(dest2, current) && SharedOnlyAt(dest1, dest2, combined)
    ensures current <= at && current' == at + 1
    ensures Laid(dest1', current') && Laid(dest2', current') && SharedOnlyAt(dest1', dest2', combined + [at])
    ensures Pair(p.row, at, p.score) in dest1' && Pair(p.col, at, p.score) in dest2'
    ensures forall x :: x in dest1 ==> x in dest1'
    ensures forall x :: x in dest2 ==> x in dest2'
    ensures RowSorted(dest1) && RowsBelow(dest1, lastRow) && lastRow <= p.row ==> RowSorted(dest1') && RowsBelow(dest1', p.row + 1)
    ensures RowSorted(dest2) && RowsBelow(dest2, lastCol) && lastCol <= p.col ==> RowSorted(dest2') && RowsBelow(dest2', p.col + 1)
    ensures ResiduesOf(dest1') == ResiduesOf(dest1) + (if insertGapsCol then Interval(lastRow, p.row) else []) + [p.row]
    ensures ResiduesOf(dest2') == ResiduesOf(dest2) + (if insertGapsRow then Interval(lastCol, p.col) else []) + [p.col]
  {
    var d1, c1 := InsertIf(insertGapsCol, dest1, dest2, combined, lastRow, p.row, current);
    SharedSwap(d1, dest2, combined);
    var d2, column := InsertIf(insertGapsRow, dest2, d1, combined, lastCol, p.col, c1);
    SharedSwap(d2, d1, combined);
    ColsWiden(d1, c1, column);
    at := column;
    var p1, p2 := Pair(p.row, column, p.score), Pair(p.col, column, p.score);
    AppendCol(d1, p1);
    AppendCol(d2, p2);
    if RowSorted(d1) && RowsBelow(d1, p.row) {
      AppendRow(d1, p1);
    }
    if RowSorted(d2) && RowsBelow(d2, p.col) {
      AppendRow(d2, p2);
    }
    SharedMatch(d1, d2, combined, p1, p2, column);
    ResiduesOfSnoc(d1, p1);
    ResiduesOfSnoc(d2, p2);
    dest1', dest2', current' := d1 + [p1], d2 + [p2], column + 1;
  }

  /** A map below one column is below every later column. */
  lemma ColsWiden(ps: seq<Pair>, hi: int, hi': int)
    requires ColsIn(ps, 0, hi) && hi <= hi'
    ensures ColsIn(ps, 0, hi')
  {
  }

  /** The two residues of each of the first n pairs of src go to one combined column. */
  ghost predicate Matched(src: seq<Pair>, n: int, dest1: seq<Pair>, dest2: seq<Pair>, combined: seq<int>)
  {
    |combined| == n <= |src| &&
    forall k :: 0 <= k < n ==>
      Pair(src[k].row, combined[k], src[k].score) in dest1 && Pair(src[k].col, combined[k], src[k].score) in dest2
  }

  /** Matching survives growing the maps and is extended by the next pair's column. */
  lemma MatchedStep(src: seq<Pair>, n: int, d1: seq<Pair>, d2: seq<Pair>, combined: seq<int>,
                    d1': seq<Pair>, d2': seq<Pair>, at: int)
    requires Matched(src, n, d1, d2, combined) && n < |src|
    requires forall x :: x in d1 ==> x in d1'
    requires forall x :: x in d2 ==> x in d2'
    requires Pair(src[n].row, at, src[n].score) in d1' && Pair(src[n].col, at, src[n].score) in d2'
    ensures Matched(src, n + 1, d1', d2', combined + [at])
  {
  }

  /** The combined columns increase and lie before current. */
  ghost predicate Increasing(combined: seq<int>, current: int)
  {
    (forall a, b :: 0 <= a < b < |combined| ==> combined[a] < combined[b]) &&
    forall k :: 0 <= k < |combined| ==> combined[k] < current
  }

  /** Combined columns stay increasing when the next free column is appended. */
  lemma IncreasingStep(combined: seq<int>, current: int, at: int, next: int)
    requires Increasing(combined, current) && current <= at && at < next
    ensures Increasing(combined + [at], next)
  {
  }

  /** The state of fillAlignmentSummation after the first i pairs of src. */
  ghost predicate Summed(src: seq<Pair>, i: int, dest1: seq<Pair>, dest2: seq<Pair>, combined: seq<int>,
                         current: int, lastRow: int, lastCol: int)
  {
    0 <= i <= |src| && 0 < |src| &&
    Laid(dest1, current) && Laid(dest2, current) &&
    Matched(src, i, dest1, dest2, combined) && Increasing(combined, current) &&
    SharedOnlyAt(dest1, dest2, combined) &&
    (i == 0 ==> lastRow == src[0].row && lastCol == src[0].col) &&
    (0 < i ==> lastRow == src[i - 1].row + 1 && lastCol == src[i - 1].col + 1) &&
    (RowSorted(src) ==> RowSorted(dest1) && RowsBelow(dest1, lastRow)) &&
    (ColSorted(src) ==> RowSorted(dest2) && RowsBelow(dest2, lastCol))
  }

  /** The loop body of fillAlignmentSummation for pair i of src. */
  method SummationStep(src: seq<Pair>, i: int, insertGapsRow: bool, insertGapsCol: bool, ghost useEndRow: bool, ghost useEndCol: bool,
                       dest1: seq<Pair>, dest2: seq<Pair>, ghost combined: seq<int>, current: int, lastRow: int, lastCol: int)
    returns (dest1': seq<Pair>, dest2': seq<Pair>, ghost combined': seq<int>, current': int, lastRow': int, lastCol': int)
    requires i < |src| && Summed(src, i, dest1, dest2, combined, current, lastRow, lastCol)
    requires Threads(src, i, dest1, dest2, insertGapsRow, insertGapsCol, useEndRow, useEndCol)
    ensures Summed(src, i + 1, dest1', dest2', combined', current', lastRow', lastCol')
    ensures Threads(src, i + 1, dest1', dest2', insertGapsRow, insertGapsCol, useEndRow, useEndCol)
  {
    assert RowSorted(src) ==> lastRow <= src[i].row;
    assert ColSorted(src) ==> lastCol <= src[i].col;
    ghost var at;
    dest1', dest2', current', at := SummationColumn(src[i], insertGapsRow, insertGapsCol, dest1, dest2, combined, current, lastRow, lastCol);
    MatchedStep(src, i, dest1, dest2, combined, dest1', dest2', at);
    IncreasingStep(combined, current, at, current');
    combined' := combined + [at];
    lastRow', lastCol' := src[i].row + 1, src[i].col + 1;
    ThreadsStep(src, i, insertGapsRow, insertGapsCol, useEndRow, useEndCol, dest1, dest2, dest1', dest2', lastRow, lastCol);
  }

  /** Handing over pair i, and the residues skipped before it, extends what both maps were handed. */
  lemma ThreadsStep(src: seq<Pair>, i: int, insertGapsRow: bool, insertGapsCol: bool, useEndRow: bool, useEndCol: bool,
                    dest1: seq<Pair>, dest2: seq<Pair>, dest1': seq<Pair>, dest2': seq<Pair>, lastRow: int, lastCol: int)
    requires 0 <= i < |src| && Threads(src, i, dest1, dest2, insertGapsRow, insertGapsCol, useEndRow, useEndCol)
    requires i == 0 ==> lastRow == src[0].row && lastCol == src[0].col
    requires 0 < i ==> lastRow == src[i - 1].row + 1 && lastCol == src[i - 1].col + 1
    requires ResiduesOf(dest1') == ResiduesOf(dest1) + (if insertGapsCol then Interval(lastRow, src[i].row) else []) + [src[i].row]
    requires ResiduesOf(dest2') == ResiduesOf(dest2) + (if insertGapsRow then Interval(lastCol, src[i].col) else []) + [src[i].col]
    ensures Threads(src, i + 1, dest1', dest2', insertGapsRow, insertGapsCol, useEndRow, useEndCol)
  {
    SkippedSince(src, i, true, insertGapsCol, lastRow);
    SkippedSince(src, i, false, insertGapsRow, lastCol);
    ThreadStep(src, i, true, insertGapsCol, Front(src, true, useEndRow), ResiduesOf(dest1), ResiduesOf(dest1'));
    ThreadStep(src, i, false, insertGapsRow, Front(src, false, useEndCol), ResiduesOf(dest2), ResiduesOf(dest2'));
  }

  /** One map's residues after pair i: those before it, the skipped ones and the pair's own. */
  lemma ThreadStep(src: seq<Pair>, i: int, rows: bool, insert: bool, front: seq<int>, a: seq<int>, b: seq<int>)
    requires 0 <= i < |src|
    requires a == front + Threaded(src, i, rows, insert)
    requires b == a + Skipped(src, i, rows, insert) + [Side(src[i], rows)]
    ensures b == front + Threaded(src, i + 1, rows, insert)
  {
    var t, x := Threaded(src, i, rows, insert), Skipped(src, i, rows, insert);
    assert Threaded(src, i + 1, rows, insert) == t + x + [Side(src[i], rows)];
    assert b == front + (t + x + [Side(src[i], rows)]);
  }

  /** The residues skipped before pair i are those from last, the residue after the previous pair, on. */
  lemma SkippedSince(src: seq<Pair>, i: int, rows: bool, insert: bool, last: int)
    requires 0 <= i < |src|
    requires i == 0 ==> last == Side(src[0], rows)
    requires 0 < i ==> last == Side(src[i - 1], rows) + 1
    ensures Skipped(src, i, rows, insert) == if insert then Interval(last, Side(src[i], rows)) else []
  {
  }

  /**
   * dest1 and dest2 map the row and the column residues of src into one
   * combined alignment: both are sorted by combined column; the two
   * residues of the k-th pair of src go to the same combined column
   * combined[k], and these columns increase with k; a combined column both
   * maps use is one of them; and a map is sorted by residue as well when src
   * is sorted on its side.
   */
  ghost predicate CombinedMaps(src: seq<Pair>, dest1: seq<Pair>, dest2: seq<Pair>, combined: seq<int>)
  {
    ColSorted(dest1) && ColSorted(dest2) &&
    |combined| == |src| &&
    (forall a, b :: 0 <= a < b < |combined| ==> combined[a] < combined[b]) &&
    (forall k :: 0 <= k < |src| ==>
       Pair(src[k].row, combined[k], src[k].score) in dest1 && Pair(src[k].col, combined[k], src[k].score) in dest2) &&
    SharedOnlyAt(dest1, dest2, combined) &&
    (RowSorted(src) ==> RowSorted(dest1)) &&
    (ColSorted(src) ==> RowSorted(dest2))
  }

  /** The first pairs of fillAlignmentSummation: the residues before the first aligned pair, when asked for. */
  method SummationStart(src: seq<Pair>, ghost insertGapsRow: bool, ghost insertGapsCol: bool, useEndRow: bool, useEndCol: bool)
    returns (dest1: seq<Pair>, dest2: seq<Pair>, current: int, lastRow: int, lastCol: int)
    requires |src| > 0
    ensures Summed(src, 0, dest1, dest2, [], current, lastRow, lastCol)
    ensures Threads(src, 0, dest1, dest2, insertGapsRow, insertGapsCol, useEndRow, useEndCol)
  {
    current := 0;
    var currentRow, currentCol := src[0].row, src[0].col;
    dest1, current := InsertIf(useEndRow, [], [], [], 0, currentRow, current);
    SharedSwap(dest1, [], []);
    dest2, current := InsertIf(useEndCol, [], dest1, [], 0, currentCol, current);
    SharedSwap(dest2, dest1, []);
    lastRow, lastCol := currentRow, currentCol;
    ThreadsStart(src, insertGapsRow, insertGapsCol, useEndRow, useEndCol, dest1, dest2);
  }

  /** Before the first pair the maps were handed the leading residues only. */
  lemma ThreadsStart(src: seq<Pair>, insertGapsRow: bool, insertGapsCol: bool, useEndRow: bool, useEndCol: bool,
                     dest1: seq<Pair>, dest2: seq<Pair>)
    requires |src| > 0
    requires ResiduesOf(dest1) == ResiduesOf([]) + (if useEndRow then Interval(0, src[0].row) else [])
    requires ResiduesOf(dest2) == ResiduesOf([]) + (if useEndCol then Interval(0, src[0].col) else [])
    ensures Threads(src, 0, dest1, dest2, insertGapsRow, insertGapsCol, useEndRow, useEndCol)
  {
    assert ResiduesOf([]) == [];
  }

  /** The final pairs of fillAlignmentSummation: the residues after the last aligned pair, when asked for. */
  method SummationEnd(src: seq<Pair>, ghost insertGapsRow: bool, ghost insertGapsCol: bool, useEndRow: bool, useEndCol: bool,
                      rowLength: int, colLength: int,
                      d1: seq<Pair>, d2: seq<Pair>, ghost combined: seq<int>, current: int, lastRow: int, lastCol: int)
    returns (dest1: seq<Pair>, dest2: seq<Pair>)
    requires Summed(src, |src|, d1, d2, combined, current, lastRow, lastCol)
    requires Threads(src, |src|, d1, d2, insertGapsRow, insertGapsCol, useEndRow, useEndCol)
    ensures CombinedMaps(src, dest1, dest2, combined)
    ensures ResiduesOf(dest1) == Received(src, true, insertGapsCol, useEndRow, rowLength)
    ensures ResiduesOf(dest2) == Received(src, false, insertGapsRow, useEndCol, colLength)
  {
    var c1, c2;
    dest1, c1 := InsertIf(useEndRow, d1, d2, combined, lastRow, rowLength, current);
    SharedSwap(dest1, d2, combined);
    dest2, c2 := InsertIf(useEndCol, d2, dest1, combined, lastCol, colLength, c1);
    SharedSwap(dest2, dest1, combined);
  }

  /**
   * fillAlignmentSummation: two alignments from the residues of the row
   * and of the column sequence of src to the columns of one combined
   * alignment. The two residues of every pair of src go to the same
   * combined column (combined[k] for src[k]), the combined columns of each
   * map increase, and a combined column used by both maps is such an
   * aligned column. For an alignment sorted by row (by column), the first
   * (second) map is sorted by residue as well.
   */
  method FillSummation(src: seq<Pair>, insertGapsRow: bool, insertGapsCol: bool, useEndRow: bool, useEndCol: bool,
                       rowLength: int, colLength: int)
    returns (dest1: seq<Pair>, dest2: seq<Pair>, ghost combined: seq<int>)
    requires |src| > 0
    ensures CombinedMaps(src, dest1, dest2, combined)
    ensures ResiduesOf(dest1) == Received(src, true, insertGapsCol, useEndRow, rowLength)
    ensures ResiduesOf(dest2) == Received(src, false, insertGapsRow, useEndCol, colLength)
  {
    var current, lastRow, lastCol;
    dest1, dest2, current, lastRow, lastCol := SummationStart(src, insertGapsRow, insertGapsCol, useEndRow, useEndCol);
    dest1, dest2, combined, current, lastRow, lastCol :=
      SummationLoop(src, insertGapsRow, insertGapsCol, useEndRow, useEndCol, dest1, dest2, current, lastRow, lastCol);
    dest1, dest2 := SummationEnd(src, insertGapsRow, insertGapsCol, useEndRow, useEndCol, rowLength, colLength,
                                 dest1, dest2, combined, current, lastRow, lastCol);
  }

  /** The loop of fillAlignmentSummation over the pairs of src. */
  method SummationLoop(src: seq<Pair>, insertGapsRow: bool, insertGapsCol: bool, ghost useEndRow: bool, ghost useEndCol: bool,
                       d1: seq<Pair>, d2: seq<Pair>, c: int, lr: int, lc: int)
    returns (dest1: seq<Pair>, dest2: seq<Pair>, ghost combined: seq<int>, current: int, lastRow: int, lastCol: int)
    requires Summed(src, 0, d1, d2, [], c, lr, lc)
    requires Threads(src, 0, d1, d2, insertGapsRow, insertGapsCol, useEndRow, useEndCol)
    ensures Summed(src, |src|, dest1, dest2, combined, current, lastRow, lastCol)
    ensures Threads(src, |src|, dest1, dest2, insertGapsRow, insertGapsCol, useEndRow, useEndCol)
  {
    dest1, dest2, combined, current, lastRow, lastCol := d1, d2, [], c, lr, lc;
    var i := 0;
    while i < |src|
      invariant 0 <= i <= |src|
      invariant Summed(src, i, dest1, dest2, combined, current, lastRow, lastCol)
      invariant Threads(src, i, dest1, dest2, insertGapsRow, insertGapsCol, useEndRow, useEndCol)
    {
      dest1, dest2, combined, current, lastRow, lastCol :=
        SummationStep(src, i, insertGapsRow, insertGapsCol, useEndRow, useEndCol, dest1, dest2, combined, current, lastRow, lastCol);
      i := i + 1;
    }
  }

  /** The pairs of a list of fragments, in order. */
  function Flatten(fragments: seq<seq<Pair>>): seq<Pair>
  {
    if |fragments| == 0 then [] else Flatten(fragments[..|fragments| - 1]) + fragments[|fragments| - 1]
  }

  /** Flattening after appending a fragment appends its pairs. */
  lemma FlattenPush(fragments: seq<seq<Pair>>, f: seq<Pair>)
    ensures Flatten(fragments + [f]) == Flatten(fragments) + f
  {
    assert (fragments + [f])[..|fragments|] == fragments;
  }

  /** The step from the pair at (lastRow, lastCol) to p is a gap wider than maxGap on a side that is split. */
  predicate Breaks(lastRow: int, lastCol: int, p: Pair, maxGap: int, splitRow: bool, splitCol: bool)
  {
    (splitCol && p.col - lastCol > maxGap) || (splitRow && p.row - lastRow > maxGap)
  }

  /** No step inside fragment f is a split gap. */
  ghost predicate Unbroken(f: seq<Pair>, maxGap: int, splitRow: bool, splitCol: bool)
  {
    forall i, j :: 0 <= i && j == i + 1 && j < |f| ==> !Breaks(f[i].row, f[i].col, f[j], maxGap, splitRow, splitCol)
  }

  /** The pair before fragment k: the last pair of fragment k - 1, or the start (row0, col0) when there is none. */
  function Before(fragments: seq<seq<Pair>>, k: int, row0: int, col0: int): (int, int)
    requires 0 < k < |fragments|
  {
    var f := fragments[k - 1];
    if |f| > 0 then (f[|f| - 1].row, f[|f| - 1].col) else (row0, col0)
  }

  /** Fragment k is not empty and starts with a split gap from the pair before it. */
  ghost predicate StartsAtGap(fragments: seq<seq<Pair>>, k: int, row0: int, col0: int, maxGap: int, splitRow: bool, splitCol: bool)
    requires 0 < k < |fragments|
  {
    |fragments[k]| > 0 &&
    Breaks(Before(fragments, k, row0, col0).0, Before(fragments, k, row0, col0).1, fragments[k][0], maxGap, splitRow, splitCol)
  }

  /**
   * fragments cut a run of pairs exactly at its split gaps, counted from
   * (row0, col0): the first fragment may be empty, every later one starts
   * with a split gap from the pair before it, and no fragment holds one.
   */
  ghost predicate CutAtGaps(fragments: seq<seq<Pair>>, row0: int, col0: int, maxGap: int, splitRow: bool, splitCol: bool)
  {
    |fragments| >= 1 &&
    (forall k :: 0 <= k < |fragments| ==> Unbroken(fragments[k], maxGap, splitRow, splitCol)) &&
    (|fragments[0]| > 0 ==> !Breaks(row0, col0, fragments[0][0], maxGap, splitRow, splitCol)) &&
    (forall k :: 1 <= k < |fragments| ==> StartsAtGap(fragments, k, row0, col0, maxGap, splitRow, splitCol))
  }

  /** A pair that does not break from the last pair of the open fragment extends it. */
  lemma CutExtend(result: seq<seq<Pair>>, current: seq<Pair>, p: Pair, row0: int, col0: int,
                  maxGap: int, splitRow: bool, splitCol: bool, lastRow: int, lastCol: int)
    requires CutAtGaps(result + [current], row0, col0, maxGap, splitRow, splitCol)
    requires |current| > 0 ==> lastRow == current[|current| - 1].row && lastCol == current[|current| - 1].col
    requires |current| == 0 ==> lastRow == row0 && lastCol == col0 && |result| == 0
    requires !Breaks(lastRow, lastCol, p, maxGap, splitRow, splitCol)
    ensures CutAtGaps(result + [current + [p]], row0, col0, maxGap, splitRow, splitCol)
  {
    var fs, fs' := result + [current], result + [current + [p]];
    var n := |result|;
    var f := current + [p];
    assert Unbroken(f, maxGap, splitRow, splitCol) by {
      assert Unbroken(fs[n], maxGap, splitRow, splitCol);
      forall i, j | 0 <= i && j == i + 1 && j < |f| ensures !Breaks(f[i].row, f[i].col, f[j], maxGap, splitRow, splitCol) {
        if j < |current| {
          assert f[i] == current[i] && f[j] == current[j];
        }
      }
    }
    forall k | 1 <= k < |fs'| ensures StartsAtGap(fs', k, row0, col0, maxGap, splitRow, splitCol) {
      assert StartsAtGap(fs, k, row0, col0, maxGap, splitRow, splitCol);
      assert fs'[k - 1] == fs[k - 1];
      assert fs'[k][0] == fs[k][0];
    }
    assert forall k :: 0 <= k < n ==> fs'[k] == fs[k];
  }

  /** A pair that breaks from the last pair of the open fragment starts a new one. */
  lemma CutStart(result: seq<seq<Pair>>, current: seq<Pair>, p: Pair, row0: int, col0: int,
                 maxGap: int, splitRow: bool, splitCol: bool, lastRow: int, lastCol: int)
    requires CutAtGaps(result + [current], row0, col0, maxGap, splitRow, splitCol)
    requires |current| > 0 ==> lastRow == current[|current| - 1].row && lastCol == current[|current| - 1].col
    requires |current| == 0 ==> lastRow == row0 && lastCol == col0 && |result| == 0
    requires Breaks(lastRow, lastCol, p, maxGap, splitRow, splitCol)
    ensures CutAtGaps((result + [current]) + [[p]], row0, col0, maxGap, splitRow, splitCol)
  {
    var fs := result + [current];
    var fs' := fs + [[p]];
    assert Before(fs', |fs|, row0, col0) == (lastRow, lastCol);
    forall k | 1 <= k < |fs'| ensures StartsAtGap(fs', k, row0, col0, maxGap, splitRow, splitCol) {
      if k < |fs| {
        assert StartsAtGap(fs, k, row0, col0, maxGap, splitRow, splitCol);
        assert fs'[k - 1] == fs[k - 1] && fs'[k] == fs[k];
      } else {
        assert fs'[k] == [p];
      }
    }
    assert forall k :: 0 <= k < |fs| ==> fs'[k] == fs[k];
  }

  /**
   * splitAlignment at gaps: the pairs of src, in order, cut into fragments
   * exactly where the step from the previous pair (or, for the first pair,
   * from one before the alignment's first row and column) is wider than
   * maxGap on a side that is split.
   */
  method SplitAtGaps(src: seq<Pair>, maxGap: int, splitRow: bool, splitCol: bool) returns (fragments: seq<seq<Pair>>)
    ensures Flatten(fragments) == src
    ensures CutAtGaps(fragments, RowFrom(src) - 1, ColFrom(src) - 1, maxGap, splitRow, splitCol)
  {
    var row0, col0 := RowFrom(src) - 1, ColFrom(src) - 1;
    var lastRow, lastCol := row0, col0;
    var result: seq<seq<Pair>> := [];
    var current: seq<Pair> := [];
    var i := 0;
    while i < |src|
      invariant 0 <= i <= |src|
      invariant Flatten(result) + current == src[..i]
      invariant CutAtGaps(result + [current], row0, col0, maxGap, splitRow, splitCol)
      invariant |current| > 0 ==> lastRow == current[|current| - 1].row && lastCol == current[|current| - 1].col
      invariant |current| == 0 ==> lastRow == row0 && lastCol == col0 && |result| == 0
    {
      var p := src[i];
      assert src[..i + 1] == src[..i] + [p];
      if Breaks(lastRow, lastCol, p, maxGap, splitRow, splitCol) {
        CutStart(result, current, p, row0, col0, maxGap, splitRow, splitCol, lastRow, lastCol);
        FlattenPush(result, current);
        result, current := result + [current], [p];
      } else {
        CutExtend(result, current, p, row0, col0, maxGap, splitRow, splitCol, lastRow, lastCol);
        current := current + [p];
      }
      lastRow, lastCol := p.row, p.col;
      i := i + 1;
    }
    FlattenPush(result, current);
    assert src[..i] == src;
    fragments := result + [current];
  }

  /** src2 has a pair whose key lies at or after the key of x and before the key of y. */
  ghost predicate KeyBetween(mode: Mode, src2: seq<Pair>, x: Pair, y: Pair)
  {
    exists m :: 0 <= m < |src2| && Key1(mode, x) <= Key2(mode, src2[m]) < Key1(mode, y)
  }

  /** src2 has a pair whose key lies at or after the last key of prev and before the key of first. */
  ghost predicate CutBetween(mode: Mode, src2: seq<Pair>, prev: seq<Pair>, first: Pair)
    requires |prev| > 0
  {
    KeyBetween(mode, src2, prev[|prev| - 1], first)
  }

  /** No key of src2 lies between two consecutive pairs of fragment f. */
  ghost predicate Uncut(mode: Mode, src2: seq<Pair>, f: seq<Pair>)
  {
    forall t :: 0 <= t < |f| - 1 ==> !KeyBetween(mode, src2, f[t], f[t + 1])
  }

  /** Fragment k holds pairs and, unless it is the first, src2 has a key between it and the one before. */
  ghost predicate Linked(mode: Mode, src2: seq<Pair>, fragments: seq<seq<Pair>>, k: int)
    requires 0 <= k < |fragments|
  {
    |fragments[k]| > 0 && (k > 0 ==> |fragments[k - 1]| > 0 && CutBetween(mode, src2, fragments[k - 1], fragments[k][0]))
  }

  /** Every closed fragment is linked to the one before. */
  ghost predicate Closed(result: seq<seq<Pair>>, mode: Mode, src2: seq<Pair>)
  {
    forall k :: 0 <= k < |result| ==> Linked(mode, src2, result, k)
  }

  /** Closing a fragment that holds pairs and follows the last closed one across a key of src2. */
  lemma ClosedPush(result: seq<seq<Pair>>, current: seq<Pair>, mode: Mode, src2: seq<Pair>)
    requires Closed(result, mode, src2) && |current| > 0
    requires |result| > 0 ==> |result[|result| - 1]| > 0 && CutBetween(mode, src2, result[|result| - 1], current[0])
    ensures Closed(result + [current], mode, src2)
  {
    var r := result + [current];
    forall k | 0 <= k < |r|
      ensures Linked(mode, src2, r, k)
    {
      if k < |result| {
        assert Linked(mode, src2, result, k);
        assert r[k] == result[k];
        if k > 0 {
          assert r[k - 1] == result[k - 1];
        }
      } else if k > 0 {
        assert Linked(mode, src2, result, k - 1);
        assert r[k - 1] == result[k - 1];
      }
    }
  }

  /** The closed fragments and the open one, as the conditions on the whole result. */
  lemma ClosedAll(result: seq<seq<Pair>>, current: seq<Pair>, mode: Mode, src2: seq<Pair>)
    requires Closed(result, mode, src2)
    requires |result| > 0 ==> |current| > 0 && |result[|result| - 1]| > 0 && CutBetween(mode, src2, result[|result| - 1], current[0])
    ensures forall k :: 0 <= k < |result + [current]| - 1 ==> |(result + [current])[k]| > 0
    ensures forall k :: 1 <= k < |result + [current]| ==> Linked(mode, src2, result + [current], k)
  {
    var r := result + [current];
    forall k | 0 <= k < |r| - 1
      ensures |r[k]| > 0
    {
      assert Linked(mode, src2, result, k);
    }
    forall k | 1 <= k < |r|
      ensures Linked(mode, src2, r, k)
    {
      assert Linked(mode, src2, result, k - 1);
      assert r[k - 1] == result[k - 1];
      if k < |result| {
        assert Linked(mode, src2, result, k);
        assert r[k] == result[k];
      }
    }
  }

  /**
   * The walk along src2 in splitAlignment: from pair j, step to the next
   * pairs until one has a key of at least pos, or src2 ends.
   */
  method AdvanceOther(src2: seq<Pair>, mode: Mode, j: int, other: int, pos: int)
    returns (j': int, other': int, exhausted: bool)
    requires 0 <= j < |src2| && other < pos
    ensures j < j' <= |src2| && exhausted == (j' == |src2|)
    ensures !exhausted ==> other' == Key2(mode, src2[j']) && pos <= other'
    ensures forall m :: j < m < j' ==> Key2(mode, src2[m]) < pos
  {
    j', other', exhausted := j, other, false;
    while other' < pos && !exhausted
      invariant j <= j' <= |src2| && exhausted == (j' == |src2|)
      invariant j < j' && !exhausted ==> other' == Key2(mode, src2[j'])
      invariant j' == j ==> other' < pos
      invariant forall m :: j < m < j' ==> Key2(mode, src2[m]) < pos
      decreases |src2| - j'
    {
      j' := j' + 1;
      if j' == |src2| {
        exhausted := true;
      } else {
        other' := Key2(mode, src2[j']);
      }
    }
  }

  /**
   * The state of splitAlignment at intersections after the first i pairs of
   * src1: those pairs are the closed fragments and then the open one; the
   * walk along src2 stands at pair j (w names a pair of src2 whose key is
   * other), and the last pair taken lies at or before other.
   */
  ghost predicate Intersected(src1: seq<Pair>, src2: seq<Pair>, mode: Mode, i: int, j: int, w: int, other: int,
                              exhausted: bool, result: seq<seq<Pair>>, current: seq<Pair>)
  {
    0 <= i <= |src1| && 0 <= j <= |src2| &&
    exhausted == (j == |src2|) &&
    (!exhausted ==> 0 <= w < |src2| && Key2(mode, src2[w]) == other) &&
    (!exhausted && |current| > 0 ==> Key1(mode, current[|current| - 1]) <= other) &&
    Flatten(result) + current == src1[..i] &&
    Closed(result, mode, src2) &&
    (|current| == 0 ==> |result| == 0) &&
    (|result| > 0 ==> |result[|result| - 1]| > 0 && CutBetween(mode, src2, result[|result| - 1], current[0]))
  }

  /**
   * What splitAlignment at intersections keeps when both alignments are
   * sorted on their keys: the walk stands at pair j of src2, whose key is
   * other; other is the first key of src2 at or after the key of the last
   * pair taken (every key of src2 lies before that key or at or after
   * other, and all of them before it once src2 is exhausted); and no
   * fragment so far has a key of src2 between two consecutive pairs.
   */
  ghost predicate Ordered(src1: seq<Pair>, src2: seq<Pair>, mode: Mode, i: int, j: int, other: int, exhausted: bool,
                          result: seq<seq<Pair>>, current: seq<Pair>)
    requires 0 <= i <= |src1|
  {
    Sorted1(mode, src1) && Sorted2(mode, src2) ==>
      (!exhausted ==> 0 <= j < |src2| && other == Key2(mode, src2[j])) &&
      (i == 0 ==> !exhausted && forall m :: 0 <= m < |src2| ==> other <= Key2(mode, src2[m])) &&
      (0 < i ==> forall m :: 0 <= m < |src2| ==>
                   Key2(mode, src2[m]) < Key1(mode, src1[i - 1]) || (!exhausted && other <= Key2(mode, src2[m]))) &&
      (forall k :: 0 <= k < |result| ==> Uncut(mode, src2, result[k])) &&
      Uncut(mode, src2, current)
  }

  /** A pair with no key of src2 between it and the last pair of f extends f without a cut. */
  lemma UncutSnoc(mode: Mode, src2: seq<Pair>, f: seq<Pair>, p: Pair)
    requires Uncut(mode, src2, f) && (|f| > 0 ==> !KeyBetween(mode, src2, f[|f| - 1], p))
    ensures Uncut(mode, src2, f + [p])
  {
    var g := f + [p];
    forall t | 0 <= t < |g| - 1
      ensures !KeyBetween(mode, src2, g[t], g[t + 1])
    {
      if t < |f| - 1 {
        assert g[t] == f[t] && g[t + 1] == f[t + 1];
      }
    }
  }

  /** The last pair of the open fragment is the last pair taken. */
  lemma OpenLast(src1: seq<Pair>, i: int, result: seq<seq<Pair>>, current: seq<Pair>)
    requires 0 <= i <= |src1| && Flatten(result) + current == src1[..i] && |current| > 0
    ensures 0 < i && current[|current| - 1] == src1[i - 1]
  {
    assert (Flatten(result) + current)[|Flatten(result) + current| - 1] == current[|current| - 1];
  }

  /** Taking pair i into the open fragment, when it does not pass other, keeps the order facts. */
  lemma OrderedTake(src1: seq<Pair>, src2: seq<Pair>, mode: Mode, i: int, j: int, other: int, exhausted: bool,
                    result: seq<seq<Pair>>, current: seq<Pair>)
    requires 0 <= i < |src1| && Ordered(src1, src2, mode, i, j, other, exhausted, result, current)
    requires Flatten(result) + current == src1[..i]
    requires exhausted || Key1(mode, src1[i]) <= other
    ensures Ordered(src1, src2, mode, i + 1, j, other, exhausted, result, current + [src1[i]])
  {
    if Sorted1(mode, src1) && Sorted2(mode, src2) {
      var pos := Key1(mode, src1[i]);
      if 0 < i {
        assert Key1(mode, src1[i - 1]) < pos;
      }
      if |current| > 0 {
        OpenLast(src1, i, result, current);
        assert !KeyBetween(mode, src2, current[|current| - 1], src1[i]);
      }
      UncutSnoc(mode, src2, current, src1[i]);
    }
  }

  /**
   * Passing other: the open fragment is closed (when it holds pairs), the
   * walk moves on to the first key at or after pair i's, and pair i opens
   * the next fragment.
   */
  lemma OrderedCut(src1: seq<Pair>, src2: seq<Pair>, mode: Mode, i: int, j: int, other: int,
                   result: seq<seq<Pair>>, current: seq<Pair>, j': int, other': int, exhausted': bool, result': seq<seq<Pair>>)
    requires 0 <= i < |src1| && Ordered(src1, src2, mode, i, j, other, false, result, current)
    requires other < Key1(mode, src1[i])
    requires result' == if |current| > 0 then result + [current] else result
    requires 0 <= j < j' <= |src2| && exhausted' == (j' == |src2|)
    requires !exhausted' ==> other' == Key2(mode, src2[j'])
    requires forall m :: j < m < j' ==> Key2(mode, src2[m]) < Key1(mode, src1[i])
    ensures Ordered(src1, src2, mode, i + 1, j', other', exhausted', result', [src1[i]])
  {
    if Sorted1(mode, src1) && Sorted2(mode, src2) {
      var pos := Key1(mode, src1[i]);
      forall m | 0 <= m < |src2|
        ensures Key2(mode, src2[m]) < pos || (!exhausted' && other' <= Key2(mode, src2[m]))
      {
        if m < j {
          assert Key2(mode, src2[m]) < Key2(mode, src2[j]);
        } else if j' < m {
          assert Key2(mode, src2[j']) < Key2(mode, src2[m]);
        }
      }
      forall k | 0 <= k < |result'|
        ensures Uncut(mode, src2, result'[k])
      {
        if k < |result| {
          assert result'[k] == result[k];
        }
      }
    }
  }

  /** One pair of src1 in splitAlignment at intersections: close the open fragment if the pair passes other, then take it. */
  method IntersectStep(src1: seq<Pair>, src2: seq<Pair>, mode: Mode, i: int, j: int, ghost w: int, other: int,
                       exhausted: bool, result: seq<seq<Pair>>, current: seq<Pair>)
    returns (j': int, ghost w': int, other': int, exhausted': bool, result': seq<seq<Pair>>, current': seq<Pair>)
    requires i < |src1| && Intersected(src1, src2, mode, i, j, w, other, exhausted, result, current)
    requires Ordered(src1, src2, mode, i, j, other, exhausted, result, current)
    ensures Intersected(src1, src2, mode, i + 1, j', w', other', exhausted', result', current')
    ensures Ordered(src1, src2, mode, i + 1, j', other', exhausted', result', current' )
  {
    var p := src1[i];
    var pos := Key1(mode, p);
    j', w', other', exhausted', result', current' := j, w, other, exhausted, result, current;
    if !exhausted && pos > other {
      if |current| > 0 {
        assert CutBetween(mode, src2, current, p);
        FlattenPush(result, current);
        ClosedPush(result, current, mode, src2);
        result', current' := result + [current], [];
      }
      j', other', exhausted' := AdvanceOther(src2, mode, j, other, pos);
      w' := j';
      OrderedCut(src1, src2, mode, i, j, other, result, current, j', other', exhausted', result');
      assert src1[..i + 1] == src1[..i] + [p];
      assert (Flatten(result') + current') + [p] == Flatten(result') + (current' + [p]);
      assert current' + [p] == [p];
      current' := [p];
    } else {
      OrderedTake(src1, src2, mode, i, j, other, exhausted, result, current);
      assert src1[..i + 1] == src1[..i] + [p];
      assert (Flatten(result) + current) + [p] == Flatten(result) + (current + [p]);
      current' := current + [p];
    }
  }

  /** The loop of splitAlignment at intersections, over every pair of src1. */
  method IntersectWalk(src1: seq<Pair>, src2: seq<Pair>, mode: Mode, ghost w0: int, other0: int)
    returns (j: int, ghost w: int, other: int, exhausted: bool, result: seq<seq<Pair>>, current: seq<Pair>)
    requires Intersected(src1, src2, mode, 0, 0, w0, other0, false, [], [])
    requires Ordered(src1, src2, mode, 0, 0, other0, false, [], [])
    ensures Intersected(src1, src2, mode, |src1|, j, w, other, exhausted, result, current)
    ensures Ordered(src1, src2, mode, |src1|, j, other, exhausted, result, current)
  {
    j, w, other, exhausted, result, current := 0, w0, other0, false, [], [];
    var i := 0;
    while i < |src1|
      invariant 0 <= i <= |src1|
      invariant Intersected(src1, src2, mode, i, j, w, other, exhausted, result, current)
      invariant Ordered(src1, src2, mode, i, j, other, exhausted, result, current)
    {
      j, w, other, exhausted, result, current := IntersectStep(src1, src2, mode, i, j, w, other, exhausted, result, current);
      i := i + 1;
    }
  }

  /**
   * splitAlignment at intersections: the pairs of src1, in order, cut into
   * fragments. A fragment is closed only when it holds pairs, and only
   * where src2 has a pair whose key (row or column on each side, as mode
   * says) lies at or after the key of the last pair before the cut and
   * before the key of the first pair after it. src2 must hold a pair, since
   * the walk along src2 steps past its first pair.
   */
  method SplitAtIntersections(src1: seq<Pair>, src2: seq<Pair>, mode: Mode) returns (fragments: seq<seq<Pair>>)
    requires |src2| > 0
    ensures Flatten(fragments) == src1
    ensures |fragments| >= 1
    ensures forall k :: 0 <= k < |fragments| - 1 ==> |fragments[k]| > 0
    ensures forall k :: 1 <= k < |fragments| ==> Linked(mode, src2, fragments, k)
    ensures Sorted1(mode, src1) && Sorted2(mode, src2) ==> forall k :: 0 <= k < |fragments| ==> Uncut(mode, src2, fragments[k])
  {
    var other := if mode.RR? || mode.CR? then RowFrom(src2) else ColFrom(src2);
    ghost var w :| 0 <= w < |src2| && Key2(mode, src2[w]) == other;
    OrderedStart(src1, src2, mode, w, other);
    assert Intersected(src1, src2, mode, 0, 0, w, other, false, [], []);
    var j, exhausted, result, current;
    j, w, other, exhausted, result, current := IntersectWalk(src1, src2, mode, w, other);
    var i := |src1|;
    FlattenPush(result, current);
    ClosedAll(result, current, mode, src2);
    assert src1[..i] == src1;
    fragments := result + [current];
    if Sorted1(mode, src1) && Sorted2(mode, src2) {
      UncutPush(mode, src2, result, current);
    }
  }

  /** Closing the last fragment keeps every fragment free of cuts. */
  lemma UncutPush(mode: Mode, src2: seq<Pair>, result: seq<seq<Pair>>, current: seq<Pair>)
    requires forall k :: 0 <= k < |result| ==> Uncut(mode, src2, result[k])
    requires Uncut(mode, src2, current)
    ensures forall k :: 0 <= k < |result + [current]| ==> Uncut(mode, src2, (result + [current])[k])
  {
    forall k | 0 <= k < |result + [current]|
      ensures Uncut(mode, src2, (result + [current])[k])
    {
      if k < |result| {
        assert (result + [current])[k] == result[k];
      }
    }
  }

  /** The walk starts at the first pair of src2, whose key is the smallest one. */
  lemma OrderedStart(src1: seq<Pair>, src2: seq<Pair>, mode: Mode, w: int, other: int)
    requires 0 <= w < |src2| && Key2(mode, src2[w]) == other
    requires other == if mode.RR? || mode.CR? then RowFrom(src2) else ColFrom(src2)
    ensures Ordered(src1, src2, mode, 0, 0, other, false, [], [])
  {
    forall m | 0 <= m < |src2|
      ensures other <= Key2(mode, src2[m])
    {
      assert src2[m].row >= MinRow(src2) && src2[m].col >= MinCol(src2);
    }
  }

  /**
   * The pairs complementAlignment puts between prev and cur: when the rows
   * between them number gap > 0, at most maxLength, and the columns between
   * them number the same, the residues of that gap aligned on the diagonal
   * with score 0; otherwise nothing.
   */
  function Fill(prev: Pair, cur: Pair, maxLength: int): (r: seq<Pair>)
    ensures |r| > 0 <==> 0 < cur.row - prev.row - 1 <= maxLength && cur.row - prev.row == cur.col - prev.col
    ensures |r| > 0 ==> |r| == cur.row - prev.row - 1
    ensures forall t :: 0 <= t < |r| ==>
              r[t].row - prev.row == r[t].col - prev.col == t + 1 && r[t].row < cur.row && r[t].col < cur.col && r[t].score == 0
  {
    var gap := cur.row - prev.row - 1;
    if gap > 0 && gap <= maxLength && gap == cur.col - prev.col - 1
    then seq(gap, t => Pair(prev.row + 1 + t, prev.col + 1 + t, 0))
    else []
  }

  /** What complementAlignment adds: the gap pairs between each two consecutive pairs of ps, in order. */
  function Complemented(ps: seq<Pair>, maxLength: int): seq<Pair>
  {
    if |ps| < 2 then []
    else Complemented(ps[..|ps| - 1], maxLength) + Fill(ps[|ps| - 2], ps[|ps| - 1], maxLength)
  }

  /**
   * In an alignment sorted by row and column, every pair complementAlignment
   * adds lies on a row and a column that no pair of the alignment uses, and
   * between the first and the last pair.
   */
  lemma {:induction false} ComplementFillsGaps(ps: seq<Pair>, maxLength: int, q: Pair)
    requires RowSorted(ps) && ColSorted(ps)
    requires q in Complemented(ps, maxLength)
    ensures q.score == 0 && |ps| >= 2
    ensures ps[0].row < q.row < ps[|ps| - 1].row && ps[0].col < q.col < ps[|ps| - 1].col
    ensures forall p :: p in ps ==> p.row != q.row && p.col != q.col
  {
    var n := |ps|;
    var init := ps[..n - 1];
    var prev, cur := ps[n - 2], ps[n - 1];
    if q in Complemented(init, maxLength) {
      assert RowSorted(init) && ColSorted(init);
      ComplementFillsGaps(init, maxLength, q);
      assert init[0] == ps[0] && init[|init| - 1] == prev;
      forall p | p in ps
        ensures p.row != q.row && p.col != q.col
      {
        if p !in init {
          assert p == cur;
        }
      }
    } else {
      var t :| 0 <= t < |Fill(prev, cur, maxLength)| && Fill(prev, cur, maxLength)[t] == q;
      forall p | p in ps
        ensures p.row != q.row && p.col != q.col
      {
        var k :| 0 <= k < n && ps[k] == p;
        if k < n - 2 {
          assert ps[k].row < prev.row && ps[k].col < prev.col;
        }
      }
    }
  }

  /**
   * complementAlignment: from the second pair on, the rows and columns
   * between each pair and the one before are filled in when the two gaps
   * are equal and no longer than maxLength. The source dereferences the
   * first pair, so the alignment must hold one; the pairs added are
   * returned apart from ps, the alignment becoming ps followed by them.
   */
  method ComplementAlignment(ps: seq<Pair>, maxLength: int) returns (added: seq<Pair>)
    requires |ps| > 0
    ensures added == Complemented(ps, maxLength)
  {
    var lastRow, lastCol := ps[0].row, ps[0].col;
    added := [];
    var i := 0;
    while i < |ps|
      invariant 0 <= i <= |ps|
      invariant i == 0 ==> lastRow == ps[0].row && lastCol == ps[0].col && added == []
      invariant 0 < i ==> lastRow == ps[i - 1].row && lastCol == ps[i - 1].col && added == Complemented(ps[..i], maxLength)
    {
      var thisRow, thisCol := ps[i].row, ps[i].col;
      var gapRow := thisRow - lastRow - 1;
      var fill := [];
      if gapRow > 0 && gapRow <= maxLength && gapRow == thisCol - lastCol - 1 {
        fill := FillDiagonal(lastRow, lastCol, thisRow);
        FillIs(ps[i - 1], ps[i], maxLength, fill);
      } else if 0 < i {
        assert Fill(ps[i - 1], ps[i], maxLength) == [];
      }
      if 0 < i {
        ComplementedStep(ps, i, maxLength);
      }
      added := added + fill;
      lastRow, lastCol := thisRow, thisCol;
      i := i + 1;
    }
    assert ps[..i] == ps;
  }

  /** The inner loop of complementAlignment: the residues after (lastRow, lastCol) up to row thisRow, on the diagonal. */
  method FillDiagonal(lastRow: int, lastCol: int, thisRow: int) returns (fill: seq<Pair>)
    requires lastRow < thisRow
    ensures |fill| == thisRow - lastRow - 1
    ensures forall t :: 0 <= t < |fill| ==> fill[t] == Pair(lastRow + 1 + t, lastCol + 1 + t, 0)
  {
    fill := [];
    var row, col := lastRow + 1, lastCol;
    while row < thisRow
      invariant lastRow < row <= thisRow && col == lastCol + (row - lastRow - 1)
      invariant |fill| == row - lastRow - 1
      invariant forall t :: 0 <= t < |fill| ==> fill[t] == Pair(lastRow + 1 + t, lastCol + 1 + t, 0)
    {
      col := col + 1;
      fill := fill + [Pair(row, col, 0)];
      row := row + 1;
    }
  }

  /** The pairs on the diagonal after prev, one per row of a gap that is filled, are its gap pairs. */
  lemma FillIs(prev: Pair, cur: Pair, maxLength: int, fill: seq<Pair>)
    requires 0 < cur.row - prev.row - 1 <= maxLength && cur.row - prev.row == cur.col - prev.col
    requires |fill| == cur.row - prev.row - 1
    requires forall t :: 0 <= t < |fill| ==> fill[t] == Pair(prev.row + 1 + t, prev.col + 1 + t, 0)
    ensures fill == Fill(prev, cur, maxLength)
  {
  }

  /** Taking one more pair adds the gap pairs between it and the one before. */
  lemma ComplementedStep(ps: seq<Pair>, i: int, maxLength: int)
    requires 0 < i < |ps|
    ensures Complemented(ps[..i + 1], maxLength) == Complemented(ps[..i], maxLength) + Fill(ps[i - 1], ps[i], maxLength)
  {
    assert ps[..i + 1][..i] == ps[..i];
  }
}
