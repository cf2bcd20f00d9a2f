/**
 * The iterative alignment helpers: an aligner is applied to the active
 * segments of two alignable objects; every sub-alignment that scores
 * above a threshold is merged into the destination, and the search goes
 * on in the region before it and in the region after it. The aligner is
 * a parameter: a function from the two active segments to an alignment.
 */
module HelpersAlignator {
  import opened Pairs
  import opened AlignmentBase
  import HelpersAlignment
  import A = Alignandum

  /** The active segments [from1, to1) and [from2, to2) of the two objects. */
  datatype Window = Window(from1: int, to1: int, from2: int, to2: int)

  /** An aligner: the alignment it finds between the two active segments. */
  type Aligner = Window -> Alignment

  /** One of the segments is inverted. */
  predicate Inverted(w: Window)
  {
    w.from1 > w.to1 || w.from2 > w.to2
  }

  /** Every pair lies in the window: rows in the first segment, columns in the second. */
  predicate Inside(ps: seq<Pair>, w: Window)
  {
    forall i :: 0 <= i < |ps| ==> w.from1 <= ps[i].row < w.to1 && w.from2 <= ps[i].col < w.to2
  }

  /**
   * The aligner works within the segments it is given: an alignment that
   * scores above minScore has pairs, and all of them lie in the segments.
   */
  ghost predicate Confined(align: Aligner, minScore: int)
  {
    forall w :: !Inverted(w) && align(w).score > minScore ==> |align(w).pairs| > 0 && Inside(align(w).pairs, w)
  }

  /** The bounds of pairs lying in a window lie in the window, and are not empty. */
  lemma InsideBounds(ps: seq<Pair>, w: Window)
    requires |ps| > 0 && Inside(ps, w)
    ensures w.from1 <= RowFrom(ps) < RowTo(ps) <= w.to1
    ensures w.from2 <= ColFrom(ps) < ColTo(ps) <= w.to2
  {
    var i :| 0 <= i < |ps| && ps[i].row == MinRow(ps);
    var j :| 0 <= j < |ps| && ps[j].row == MaxRow(ps);
    var k :| 0 <= k < |ps| && ps[k].col == MinCol(ps);
    var l :| 0 <= l < |ps| && ps[l].col == MaxCol(ps);
  }

  /** The region before a sub-alignment: from the segment starts up to its first row and column. */
  function Before(w: Window, a: Alignment): Window
  {
    Window(w.from1, RowFrom(a.pairs), w.from2, ColFrom(a.pairs))
  }

  /** The region after a sub-alignment: from one past its last row and column to the segment ends. */
  function After(w: Window, a: Alignment): Window
  {
    Window(RowTo(a.pairs), w.to1, ColTo(a.pairs), w.to2)
  }

  /** The length of the first segment, the measure the iteration decreases. */
  function Span(w: Window): nat
  {
    if w.from1 <= w.to1 then w.to1 - w.from1 else 0
  }

  /**
   * The sub-alignments the iteration accepts, in the order it merges them:
   * the alignment of the window, then those found before it, then those
   * found after it. Each scores above minScore, has pairs and lies in the
   * window; there are none exactly when a segment is inverted or the
   * window's own alignment does not beat minScore.
   */
  function Hits(w: Window, align: Aligner, minScore: int): (r: seq<Alignment>)
    requires Confined(align, minScore)
    ensures forall h :: h in r ==> h.score > minScore && |h.pairs| > 0 && Inside(h.pairs, w)
    ensures r == [] <==> Inverted(w) || align(w).score <= minScore
    decreases Span(w)
  {
    if Inverted(w) then []
    else
      var a := align(w);
      if a.score <= minScore then []
      else
        InsideBounds(a.pairs, w);
        var before := Hits(Before(w, a), align, minScore);
        var after := Hits(After(w, a), align, minScore);
        assert forall h :: h in before ==> Inside(h.pairs, w) by {
          forall h | h in before
            ensures Inside(h.pairs, w)
          {
            assert Inside(h.pairs, Before(w, a));
          }
        }
        assert forall h :: h in after ==> Inside(h.pairs, w) by {
          forall h | h in after
            ensures Inside(h.pairs, w)
          {
            assert Inside(h.pairs, After(w, a));
          }
        }
        [a] + before + after
  }

  /** The windows the two objects are left with: those of the last region searched. */
  function Final(w: Window, align: Aligner, minScore: int): (r: Window)
    requires Confined(align, minScore)
    ensures Inverted(w) || align(w).score <= minScore ==> r == w
    ensures r.to1 == w.to1 && r.to2 == w.to2
    decreases Span(w)
  {
    if Inverted(w) then w
    else
      var a := align(w);
      if a.score <= minScore then w
      else
        InsideBounds(a.pairs, w);
        Final(After(w, a), align, minScore)
  }

  /** All pairs of a list of alignments, in order. */
  function AllPairs(hs: seq<Alignment>): seq<Pair>
  {
    if |hs| == 0 then [] else hs[0].pairs + AllPairs(hs[1..])
  }

  /** The sum of the scores of a list of alignments. */
  function TotalScore(hs: seq<Alignment>): int
  {
    if |hs| == 0 then 0 else hs[0].score + TotalScore(hs[1..])
  }

  /** dest with every alignment of hs added, as addAlignata2Alignata does one at a time. */
  function Merged(dest: Alignment, hs: seq<Alignment>): Alignment
  {
    Alignment(dest.pairs + AllPairs(hs), dest.score + TotalScore(hs))
  }

  /** Merging two lists is merging their concatenation. */
  lemma {:induction false} AllPairsAppend(xs: seq<Alignment>, ys: seq<Alignment>)
    ensures AllPairs(xs + ys) == AllPairs(xs) + AllPairs(ys)
    ensures TotalScore(xs + ys) == TotalScore(xs) + TotalScore(ys)
  {
    if |xs| > 0 {
      assert (xs + ys)[1..] == xs[1..] + ys;
      AllPairsAppend(xs[1..], ys);
    } else {
      assert xs + ys == ys;
    }
  }

  /** A search that accepts the window's alignment a: a, then the searches before and after it. */
  lemma Accepted(w: Window, align: Aligner, minScore: int)
    requires Confined(align, minScore) && !Inverted(w) && align(w).score > minScore
    ensures var a := align(w);
      && |a.pairs| > 0 && Inside(a.pairs, w)
      && Hits(w, align, minScore) == [a] + Hits(Before(w, a), align, minScore) + Hits(After(w, a), align, minScore)
      && Final(w, align, minScore) == Final(After(w, a), align, minScore)
  {
  }

  /** Merging a, then the hits before, then the hits after, is merging the three lists at once. */
  lemma MergedInTurn(dest: Alignment, a: Alignment, before: seq<Alignment>, after: seq<Alignment>)
    ensures Merged(Merged(Alignment(dest.pairs + a.pairs, dest.score + a.score), before), after)
         == Merged(dest, [a] + before + after)
  {
    AllPairsAppend([a], before);
    AllPairsAppend([a] + before, after);
    assert AllPairs([a]) == a.pairs && TotalScore([a]) == a.score;
  }

  /** Every pair of a lies strictly before (in row and in column) every pair of b. */
  predicate Precedes(a: Alignment, b: Alignment)
  {
    forall i, j :: 0 <= i < |a.pairs| && 0 <= j < |b.pairs| ==>
      a.pairs[i].row < b.pairs[j].row && a.pairs[i].col < b.pairs[j].col
  }

  /** Any two of the alignments lie one strictly before the other. */
  predicate Collinear(hs: seq<Alignment>)
  {
    forall i, j :: 0 <= i < |hs| && 0 <= j < |hs| && i != j ==> Precedes(hs[i], hs[j]) || Precedes(hs[j], hs[i])
  }

  /** Joining two collinear lists keeps them collinear when each member of one is ordered against each of the other. */
  lemma CollinearAppend(xs: seq<Alignment>, ys: seq<Alignment>)
    requires Collinear(xs) && Collinear(ys)
    requires forall x, y :: x in xs && y in ys ==> Precedes(x, y) || Precedes(y, x)
    ensures Collinear(xs + ys)
  {
    var zs := xs + ys;
    forall i, j | 0 <= i < |zs| && 0 <= j < |zs| && i != j
      ensures Precedes(zs[i], zs[j]) || Precedes(zs[j], zs[i])
    {
      if i < |xs| && j >= |xs| {
        assert zs[i] in xs && zs[j] in ys;
      } else if i >= |xs| && j < |xs| {
        assert zs[j] in xs && zs[i] in ys;
      } else if i >= |xs| {
        assert zs[i] == ys[i - |xs|] && zs[j] == ys[j - |xs|];
      }
    }
  }

  /** Pairs inside the region before a lie strictly before a's pairs, and a's strictly before those after it. */
  lemma RegionsOrdered(w: Window, a: Alignment, b: Alignment, c: Alignment)
    requires |a.pairs| > 0 && Inside(a.pairs, w)
    requires Inside(b.pairs, Before(w, a)) && Inside(c.pairs, After(w, a))
    ensures Precedes(b, a) && Precedes(a, c) && Precedes(b, c)
  {
    InsideBounds(a.pairs, w);
  }

  /**
   * The sub-alignments the iteration merges never cross: of any two, one
   * lies strictly before the other, in both sequences.
   */
  lemma {:induction false} HitsCollinear(w: Window, align: Aligner, minScore: int)
    requires Confined(align, minScore)
    ensures Collinear(Hits(w, align, minScore))
    decreases Span(w)
  {
    if !Inverted(w) && align(w).score > minScore {
      var a := align(w);
      InsideBounds(a.pairs, w);
      var before := Hits(Before(w, a), align, minScore);
      var after := Hits(After(w, a), align, minScore);
      HitsCollinear(Before(w, a), align, minScore);
      HitsCollinear(After(w, a), align, minScore);
      forall b, c | b in before && c in after
        ensures Precedes(b, c) && Precedes(b, a) && Precedes(a, c)
      {
        RegionsOrdered(w, a, b, c);
      }
      forall b | b in before
        ensures Precedes(b, a)
      {
        assert Inside(b.pairs, Before(w, a));
        RegionsOrdered(w, a, b, Alignment([], 0));
      }
      forall c | c in after
        ensures Precedes(a, c)
      {
        assert Inside(c.pairs, After(w, a));
        RegionsOrdered(w, a, Alignment([], 0), c);
      }
      CollinearAppend([a], before);
      CollinearAppend([a] + before, after);
      assert Hits(w, align, minScore) == [a] + before + after;
    }
  }

  /** The segments of the two objects as a window. */
  function WindowOf(o1: A.Alignandum, o2: A.Alignandum): Window
    reads o1, o2
  {
    Window(o1.from, o1.to, o2.from, o2.to)
  }

  /**
   * The segment states an object reaches: its first position is a real
   * position or the segment is the empty one of a new object, and it ends
   * within the residues.
   */
  predicate Segmented(o: A.Alignandum)
    reads o
  {
    (0 <= o.from || o.from == o.to == NO_POS) && o.to <= o.length
  }

  /**
   * performIterativeAlignmentStep: align the current segments; when the
   * score beats minScore, merge the alignment into dest and repeat in the
   * region before it, then in the region after it. The result is dest
   * with the accepted sub-alignments merged in, and the objects are left
   * with the segments of the last region searched.
   */
  method IterativeAlignmentStep(dest: Alignment, copy1: A.Alignandum, copy2: A.Alignandum,
                                align: Aligner, minScore: int) returns (r: Alignment)
    requires copy1 != copy2 && Segmented(copy1) && Segmented(copy2)
    requires Confined(align, minScore)
    modifies copy1, copy2
    ensures r == Merged(dest, Hits(old(WindowOf(copy1, copy2)), align, minScore))
    ensures Inverted(old(WindowOf(copy1, copy2))) ==> r == dest
    ensures WindowOf(copy1, copy2) == Final(old(WindowOf(copy1, copy2)), align, minScore)
    ensures Segmented(copy1) && Segmented(copy2)
    ensures copy1.length == old(copy1.length) && copy1.masked == old(copy1.masked)
    ensures copy2.length == old(copy2.length) && copy2.masked == old(copy2.masked)
    decreases Span(WindowOf(copy1, copy2)), 1
  {
    var from1, from2 := copy1.from, copy2.from;
    var to1, to2 := copy1.to, copy2.to;
    var w := Window(from1, to1, from2, to2);
    r := dest;
    assert Merged(dest, []) == dest;
    if from1 <= to1 && from2 <= to2 {
      var result := align(w);
      if result.score > minScore {
        Accepted(w, align, minScore);
        var merged := HelpersAlignment.AddAlignment(dest, result);
        r := SearchAround(merged, copy1, copy2, result, align, minScore);
        MergedInTurn(dest, result, Hits(Before(w, result), align, minScore), Hits(After(w, result), align, minScore));
      }
    }
  }

  /**
   * The two searches of performIterativeAlignmentStep once a sub-alignment
   * a of the current segments is accepted: the segments become the region
   * before a, then the region after it.
   */
  method SearchAround(dest: Alignment, copy1: A.Alignandum, copy2: A.Alignandum, a: Alignment,
                      align: Aligner, minScore: int) returns (r: Alignment)
    requires copy1 != copy2 && Segmented(copy1) && Segmented(copy2)
    requires Confined(align, minScore) && |a.pairs| > 0 && Inside(a.pairs, WindowOf(copy1, copy2))
    modifies copy1, copy2
    ensures var w := old(WindowOf(copy1, copy2));
      r == Merged(Merged(dest, Hits(Before(w, a), align, minScore)), Hits(After(w, a), align, minScore))
    ensures WindowOf(copy1, copy2) == Final(After(old(WindowOf(copy1, copy2)), a), align, minScore)
    ensures Segmented(copy1) && Segmented(copy2)
    ensures copy1.length == old(copy1.length) && copy1.masked == old(copy1.masked)
    ensures copy2.length == old(copy2.length) && copy2.masked == old(copy2.masked)
    decreases Span(WindowOf(copy1, copy2)), 0
  {
    var from1, from2 := copy1.from, copy2.from;
    var to1, to2 := copy1.to, copy2.to;
    ghost var w := Window(from1, to1, from2, to2);
    InsideBounds(a.pairs, w);
    // align in the region before the sub-alignment
    copy1.UseSegment(from1, RowFrom(a.pairs));
    copy2.UseSegment(from2, ColFrom(a.pairs));
    assert WindowOf(copy1, copy2) == Before(w, a);
    r := IterativeAlignmentStep(dest, copy1, copy2, align, minScore);
    // align in the region after it
    copy1.UseSegment(RowTo(a.pairs), to1);
    copy2.UseSegment(ColTo(a.pairs), to2);
    assert WindowOf(copy1, copy2) == After(w, a);
    r := IterativeAlignmentStep(r, copy1, copy2, align, minScore);
  }

  /**
   * The segments useSegment(from, to) sets again on an object whose
   * segment was [from, to): the same one, except that the empty segment
   * of a new object (NO_POS, NO_POS) becomes all of its residues.
   */
  function Restored(from: int, to: int, length: int): (int, int)
  {
    (if from == NO_POS then 0 else from, if to == NO_POS then length else to)
  }

  /**
   * performIterativeAlignment on the objects themselves: the segments are
   * remembered, the iteration runs on them, and the remembered segments
   * are set again. Setting them again asserts that neither is inverted.
   */
  method IterativeAlignment(dest: Alignment, src1: A.Alignandum, src2: A.Alignandum,
                            align: Aligner, minScore: int) returns (r: Alignment)
    requires src1 != src2 && Segmented(src1) && Segmented(src2)
    requires src1.from <= src1.to && src2.from <= src2.to
    requires Confined(align, minScore)
    modifies src1, src2
    ensures r == Merged(dest, Hits(old(WindowOf(src1, src2)), align, minScore))
    ensures (src1.from, src1.to) == Restored(old(src1.from), old(src1.to), src1.length)
    ensures (src2.from, src2.to) == Restored(old(src2.from), old(src2.to), src2.length)
    ensures src1.length == old(src1.length) && src1.masked == old(src1.masked)
    ensures src2.length == old(src2.length) && src2.masked == old(src2.masked)
  {
    var from1, from2 := src1.from, src2.from;
    var to1, to2 := src1.to, src2.to;
    r := IterativeAlignmentStep(dest, src1, src2, align, minScore);
    // restore the old segments
    src1.UseSegment(from1, to1);
    src2.UseSegment(from2, to2);
  }

  /** getClone, as far as the segments and the residues' mask go: a new object with the same state. */
  method Clone(o: A.Alignandum) returns (c: A.Alignandum)
    ensures fresh(c)
    ensures c.from == o.from && c.to == o.to && c.length == o.length && c.masked == o.masked
  {
    c := new A.Alignandum();
    c.from, c.to, c.length, c.masked := o.from, o.to, o.length, o.masked;
  }

  /**
   * performIterativeAlignment on const objects: the iteration runs on two
   * clones, so the objects themselves (which may be the same object) are
   * left untouched.
   */
  method IterativeAlignmentOfClones(dest: Alignment, src1: A.Alignandum, src2: A.Alignandum,
                                    align: Aligner, minScore: int) returns (r: Alignment)
    requires Segmented(src1) && Segmented(src2)
    requires Confined(align, minScore)
    ensures r == Merged(dest, Hits(WindowOf(src1, src2), align, minScore))
  {
    var copy1 := Clone(src1);
    var copy2 := Clone(src2);
    r := IterativeAlignmentStep(dest, copy1, copy2, align, minScore);
  }
}
