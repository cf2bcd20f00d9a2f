/**
 * FilterReadings: the second reading of copyAlignment with a filter. Its
 * doc comment skips the residues that are part of the filter (modelled by
 * HelpersAlignment.CopyFiltered); its unit test instead expects exactly
 * the residues the filter maps to be copied. Both are set against the
 * condition as written.
 */
module FilterReadings {
  import opened Pairs
  import opened AlignmentBase
  import opened HelpersAlignment

  /** The pairs of src, in order, whose coordinate the filter maps to a position (every pair when there is no filter). */
  function FilterMapped(src: seq<Pair>, filter: Option<seq<Pair>>, mode: Mode): (r: seq<Pair>)
    ensures |r| <= |src|
  {
    if |src| == 0 then []
    else
      var last := src[|src| - 1];
      FilterMapped(src[..|src| - 1], filter, mode) +
      (if filter.None? || FilterHit(filter.value, mode, last) != NO_POS then [last] else [])
  }

  /**
   * copyAlignment with a filter, as its unit test expects it: a pair is
   * kept exactly when the filter maps its coordinate, in order.
   */
  method CopyFilteredAsTested(src: seq<Pair>, filter: Option<seq<Pair>>, mode: Mode) returns (out: seq<Pair>)
    ensures out == FilterMapped(src, filter, mode)
    ensures forall p :: p in out <==> p in src && (filter.None? || FilterHit(filter.value, mode, p) != NO_POS)
    ensures RowSorted(src) ==> RowSorted(out)
    ensures ColSorted(src) ==> ColSorted(out)
  {
    out := [];
    var i := 0;
    while i < |src|
      invariant 0 <= i <= |src|
      invariant SelectedBelow(src, out, i)
      invariant out == FilterMapped(src[..i], filter, mode)
    {
      assert src[..i + 1][..i] == src[..i];
      var p := src[i];
      var keep := filter.None? || FilterHit(filter.value, mode, p) != NO_POS;
      SelectStep(src, out, i, keep);
      assert src[..i + 1] == src[..i] + [p];
      if keep {
        out := out + [p];
      }
      i := i + 1;
    }
    assert src[..i] == src;
    forall p
      ensures p in out <==> p in src && (filter.None? || FilterHit(filter.value, mode, p) != NO_POS)
    {
      FilterMappedMembers(src, filter, mode, p);
    }
  }

  /** A pair is kept exactly when it is in src and the filter maps its coordinate. */
  lemma {:induction false} FilterMappedMembers(src: seq<Pair>, filter: Option<seq<Pair>>, mode: Mode, p: Pair)
    ensures p in FilterMapped(src, filter, mode) <==> p in src && (filter.None? || FilterHit(filter.value, mode, p) != NO_POS)
    decreases |src|
  {
    if |src| > 0 {
      var prev := src[..|src| - 1];
      FilterMappedMembers(prev, filter, mode, p);
      assert src == prev + [src[|src| - 1]];
    }
  }

  /** Under a filter the two readings split src: each pair is kept by exactly one of them. */
  lemma {:induction false} ReadingsSplit(src: seq<Pair>, filter: seq<Pair>, mode: Mode)
    ensures |Unfiltered(src, Some(filter), mode, NO_POS)| + |FilterMapped(src, Some(filter), mode)| == |src|
    decreases |src|
  {
    if |src| > 0 {
      ReadingsSplit(src[..|src| - 1], filter, mode);
    }
  }

  /** Appending a pair to src adds it to exactly the copies that keep it. */
  lemma FilteredStep(prev: seq<Pair>, last: Pair, filter: seq<Pair>, mode: Mode)
    ensures |FilterMapped(prev + [last], Some(filter), mode)| ==
              |FilterMapped(prev, Some(filter), mode)| + (if FilterHit(filter, mode, last) != NO_POS then 1 else 0)
    ensures |Unfiltered(prev + [last], Some(filter), mode, NO_POS)| ==
              |Unfiltered(prev, Some(filter), mode, NO_POS)| + (if FilterHit(filter, mode, last) == NO_POS then 1 else 0)
    ensures |Unfiltered(prev + [last], Some(filter), mode, 0)| ==
              |Unfiltered(prev, Some(filter), mode, 0)| + (if FilterHit(filter, mode, last) == 0 then 1 else 0)
  {
    assert (prev + [last])[..|prev|] == prev;
  }

  /** The run (i, i) for i in [0, k + 1) ends with (k, k), which the filter run [x, y) maps when x <= k. */
  lemma TestRunStep(k: nat, x: nat, y: int)
    requires k < y
    ensures Identity(0, k + 1, 0) == Identity(0, k, 0) + [Pair(k, k, 0)]
    ensures FilterHit(Identity(x, y, 0), RR, Pair(k, k, 0)) == if x <= k then k else NO_POS
  {
    IdentityMaps(x, y, 0, k);
  }

  /**
   * The unit test of the filtered copy, in mode RR: src is the run (i, i)
   * for i in [0, m) and the filter the run (i, i) for i in [x, y). The
   * filter maps m - x of the pairs (10 - x for the test's m = 10 and
   * y = x + 10); the reading of the doc comment keeps the other x, and the
   * condition as written keeps one pair when x is 0 and none otherwise.
   */
  lemma {:induction false} TestCounts(m: nat, x: nat, y: int)
    requires m <= y
    ensures |FilterMapped(Identity(0, m, 0), Some(Identity(x, y, 0)), RR)| == if m <= x then 0 else m - x
    ensures |Unfiltered(Identity(0, m, 0), Some(Identity(x, y, 0)), RR, NO_POS)| == if m <= x then m else x
    ensures |Unfiltered(Identity(0, m, 0), Some(Identity(x, y, 0)), RR, 0)| == if x == 0 && m > 0 then 1 else 0
    decreases m
  {
    if m > 0 {
      var k := m - 1;
      TestCounts(k, x, y);
      TestRunStep(k, x, y);
      FilteredStep(Identity(0, k, 0), Pair(k, k, 0), Identity(x, y, 0), RR);
    }
  }
}
