/**
 * ImplAlignmentSorted: a pairwise alignment stored as an ordered set of
 * pairs. The set's comparator decides both the iteration order and which
 * pairs count as the same element.
 */
module AlignmentSorted {
  import opened Pairs

  /** The four comparators the factory functions instantiate the set with. */
  datatype Order = ByRow | ByCol | ByRowCol | ByDiagonalCol

  /** The comparator's strict "less than". */
  function Less(o: Order, x: Pair, y: Pair): bool
  {
    match o
    case ByRow => x.row < y.row
    case ByCol => x.col < y.col
    case ByRowCol => x.row < y.row || (x.row == y.row && x.col < y.col)
    case ByDiagonalCol =>
      Diagonal(x) < Diagonal(y) || (Diagonal(x) == Diagonal(y) && x.col < y.col)
  }

  /** Two pairs the set treats as the same element: neither is less than the other. */
  predicate Equivalent(o: Order, x: Pair, y: Pair)
  {
    !Less(o, x, y) && !Less(o, y, x)
  }

  /** What the comparator looks at: two pairs are equivalent exactly when these agree. */
  predicate SameKey(o: Order, x: Pair, y: Pair)
  {
    match o
    case ByRow => x.row == y.row
    case ByCol => x.col == y.col
    case ByRowCol => x.row == y.row && x.col == y.col
    case ByDiagonalCol => Diagonal(x) == Diagonal(y) && x.col == y.col
  }

  lemma EquivalentIsSameKey(o: Order, x: Pair, y: Pair)
    ensures Equivalent(o, x, y) <==> SameKey(o, x, y)
  {
  }

  /** Every comparator is a strict weak ordering, as std::set requires. */
  lemma StrictWeakOrder(o: Order, x: Pair, y: Pair, z: Pair)
    ensures !Less(o, x, x)
    ensures Less(o, x, y) && Less(o, y, z) ==> Less(o, x, z)
    ensures Equivalent(o, x, y) && Equivalent(o, y, z) ==> Equivalent(o, x, z)
    ensures Less(o, x, y) && Equivalent(o, y, z) ==> Less(o, x, z)
    ensures Equivalent(o, x, y) && Less(o, y, z) ==> Less(o, x, z)
  {
  }

  /** The set's iteration order: strictly increasing under the comparator. */
  predicate Sorted(o: Order, ps: seq<Pair>)
  {
    forall i, j :: 0 <= i < j < |ps| ==> Less(o, ps[i], ps[j])
  }

  /** Under the row comparator the pairs iterate in strictly increasing row order. */
  lemma SortedByRowIsRowSorted(ps: seq<Pair>)
    ensures Sorted(ByRow, ps) <==> RowSorted(ps)
  {
  }

  /** Under the column comparator the pairs iterate in strictly increasing column order. */
  lemma SortedByColIsColSorted(ps: seq<Pair>)
    ensures Sorted(ByCol, ps) <==> ColSorted(ps)
  {
  }

  /** Two elements of a sorted set equivalent to the same pair are the same element. */
  lemma AtMostOneEquivalent(o: Order, ps: seq<Pair>, p: Pair, i: int, j: int)
    requires Sorted(o, ps) && 0 <= i < |ps| && 0 <= j < |ps|
    requires Equivalent(o, ps[i], p) && Equivalent(o, ps[j], p)
    ensures i == j
  {
    StrictWeakOrder(o, ps[i], p, ps[j]);
    assert Equivalent(o, ps[i], ps[j]);
  }

  /** std::set::find: the index of the element equivalent to p, or -1 (the end iterator). */
  function Find(o: Order, ps: seq<Pair>, p: Pair): (r: int)
    ensures -1 <= r < |ps|
    ensures r >= 0 ==> Equivalent(o, ps[r], p)
    ensures r == -1 <==> forall i :: 0 <= i < |ps| ==> !Equivalent(o, ps[i], p)
  {
    if |ps| == 0 then -1
    else if Equivalent(o, ps[0], p) then 0
    else
      var r := Find(o, ps[1..], p);
      assert forall i :: 1 <= i < |ps| ==> ps[i] == ps[1..][i - 1];
      if r == -1 then -1 else r + 1
  }

  /** std::set::insert of an element with no equivalent in the set. */
  function Insert(o: Order, ps: seq<Pair>, p: Pair): (r: seq<Pair>)
    requires Sorted(o, ps)
    requires forall i :: 0 <= i < |ps| ==> !Equivalent(o, ps[i], p)
    ensures Sorted(o, r)
    ensures multiset(r) == multiset(ps) + multiset{p}
  {
    if |ps| == 0 then [p]
    else if Less(o, p, ps[0]) then
      InsertFront(o, ps, p);
      [p] + ps
    else
      assert !Equivalent(o, ps[0], p);
      assert forall i :: 1 <= i < |ps| ==> ps[i] == ps[1..][i - 1];
      var rest := Insert(o, ps[1..], p);
      InsertBehind(o, ps, p, rest);
      [ps[0]] + rest
  }

  /** An element less than the first stays sorted in front. */
  lemma InsertFront(o: Order, ps: seq<Pair>, p: Pair)
    requires Sorted(o, ps) && |ps| > 0 && Less(o, p, ps[0])
    ensures Sorted(o, [p] + ps)
  {
    forall j | 0 < j < |ps| ensures Less(o, p, ps[j]) {
      StrictWeakOrder(o, p, ps[0], ps[j]);
    }
  }

  /** An element greater than the first goes into the rest, behind the first. */
  lemma InsertBehind(o: Order, ps: seq<Pair>, p: Pair, rest: seq<Pair>)
    requires Sorted(o, ps) && |ps| > 0 && !Less(o, p, ps[0]) && !Equivalent(o, ps[0], p)
    requires Sorted(o, rest) && multiset(rest) == multiset(ps[1..]) + multiset{p}
    ensures Sorted(o, [ps[0]] + rest)
    ensures multiset([ps[0]] + rest) == multiset(ps) + multiset{p}
  {
    assert Less(o, ps[0], p);
    forall x | x in rest ensures Less(o, ps[0], x) {
      assert x in multiset(rest);
      if x != p {
        assert x in multiset(ps[1..]);
        var k :| 0 <= k < |ps[1..]| && ps[1..][k] == x;
        assert ps[k + 1] == x;
      }
    }
    assert ps == [ps[0]] + ps[1..];
  }

  /** Erasing one element keeps the order of the others. */
  lemma EraseSorted(o: Order, ps: seq<Pair>, i: int)
    requires Sorted(o, ps) && 0 <= i < |ps|
    ensures Sorted(o, ps[..i] + ps[i + 1..])
    ensures multiset(ps[..i] + ps[i + 1..]) == multiset(ps) - multiset{ps[i]}
  {
    var r := ps[..i] + ps[i + 1..];
    forall a, b | 0 <= a < b < |r| ensures Less(o, r[a], r[b]) {
      var a' := if a < i then a else a + 1;
      var b' := if b < i then b else b + 1;
      assert r[a] == ps[a'] && r[b] == ps[b'];
    }
    assert ps == ps[..i] + [ps[i]] + ps[i + 1..];
  }

  /** In a strictly sorted list every element occurs once, so membership follows the multiset. */
  lemma SortedDistinct(o: Order, ps: seq<Pair>, x: Pair)
    requires Sorted(o, ps)
    ensures x in ps ==> multiset(ps)[x] == 1
  {
    if |ps| > 0 {
      assert forall i :: 1 <= i < |ps| ==> ps[i] == ps[1..][i - 1];
      SortedDistinct(o, ps[1..], x);
      assert ps == [ps[0]] + ps[1..];
      forall k | 0 <= k < |ps| - 1 ensures ps[1..][k] != ps[0] {
        assert Less(o, ps[0], ps[k + 1]);
      }
    }
  }

  /**
   * The key removeRowRegion searches for at row pos, ResiduePAIR(pos, NO_POS, 0),
   * finds a pair exactly when this holds.
   */
  predicate HitsRowKey(o: Order, p: Pair, pos: int)
  {
    match o
    case ByRow => p.row == pos
    case ByCol => p.col == NO_POS
    case ByRowCol => p.row == pos && p.col == NO_POS
    case ByDiagonalCol => p.row == pos && p.col == NO_POS
  }

  lemma RowKeyEquivalent(o: Order, p: Pair, pos: int)
    ensures Equivalent(o, p, Pair(pos, NO_POS, 0)) <==> HitsRowKey(o, p, pos)
  {
  }

  /** Some key of [lo, hi) finds p: the pairs removeRowRegion as written erases. */
  predicate HitsRowKeys(o: Order, p: Pair, lo: int, hi: int)
  {
    match o
    case ByRow => lo <= p.row < hi
    case ByCol => p.col == NO_POS && lo < hi
    case ByRowCol => lo <= p.row < hi && p.col == NO_POS
    case ByDiagonalCol => lo <= p.row < hi && p.col == NO_POS
  }

  class AlignmentSorted {
    const order: Order
    /** mPairs, in the set's iteration order. */
    var pairs: seq<Pair>
    var score: int
    var length: int
    var numGaps: int
    var changedLength: bool

    ghost predicate Valid()
      reads this
    {
      Sorted(order, pairs)
    }

    constructor (o: Order)
      ensures order == o && pairs == [] && score == 0 && Valid()
    {
      order := o;
      pairs := [];
      score, length, numGaps := 0, 0, 0;
      changedLength := true;
    }

    /**
     * addPair: a pair equivalent to one already stored is discarded and the
     * stored one kept; otherwise the pair joins the set.
     */
    method AddPair(p: Pair)
      requires Valid()
      modifies this
      ensures Valid()
      ensures (exists i :: 0 <= i < |old(pairs)| && Equivalent(order, old(pairs)[i], p)) ==>
        pairs == old(pairs) && changedLength == old(changedLength)
      ensures (forall i :: 0 <= i < |old(pairs)| ==> !Equivalent(order, old(pairs)[i], p)) ==>
        multiset(pairs) == multiset(old(pairs)) + multiset{p} && changedLength
      ensures score == old(score)
    {
      var i := Find(order, pairs, p);
      if i == -1 {
        changedLength := true;
        pairs := Insert(order, pairs, p);
      }
    }

    /** getPair: the stored pair equivalent to p, or the default ResiduePAIR (NO_POS, NO_POS, 0). */
    method GetPair(p: Pair) returns (r: Pair)
      requires Valid()
      ensures (exists i :: 0 <= i < |pairs| && Equivalent(order, pairs[i], p)) ==>
        r in pairs && Equivalent(order, r, p)
      ensures (forall i :: 0 <= i < |pairs| ==> !Equivalent(order, pairs[i], p)) ==>
        r == Pair(NO_POS, NO_POS, 0)
    {
      var i := Find(order, pairs, p);
      if i != -1 {
        r := pairs[i];
      } else {
        r := Pair(NO_POS, NO_POS, 0);
      }
    }

    /** removePair: the stored pair equivalent to p goes, if there is one; nothing else changes. */
    method RemovePair(p: Pair)
      requires Valid()
      modifies this
      ensures Valid() && score == old(score)
      ensures forall x :: x in pairs <==> x in old(pairs) && !Equivalent(order, x, p)
      ensures (forall i :: 0 <= i < |old(pairs)| ==> !Equivalent(order, old(pairs)[i], p)) ==> pairs == old(pairs)
    {
      var i := Find(order, pairs, p);
      if i != -1 {
        changedLength := true;
        EraseRemoves(order, pairs, i, p);
        pairs := pairs[..i] + pairs[i + 1..];
      }
    }

    /**
     * removeRowRegion as written: for each pos in [lo, hi) the element
     * equivalent to ResiduePAIR(pos, NO_POS, 0) is erased. Only under the
     * row comparator is that the pair at row pos.
     */
    method RemoveRowRegionAsWritten(lo: int, hi: int)
      requires Valid()
      modifies this
      ensures Valid() && score == old(score)
      ensures forall x :: x in pairs <==> x in old(pairs) && !HitsRowKeys(order, x, lo, hi)
    {
      var pos := lo;
      while pos < hi
        invariant Sorted(order, pairs) && score == old(score)
        invariant lo <= pos && (pos <= hi || pos == lo)
        invariant forall x :: x in pairs <==> x in old(pairs) && !HitsRowKeys(order, x, lo, pos)
        decreases hi - pos
      {
        var key := Pair(pos, NO_POS, 0);
        ghost var before := pairs;
        var i := Find(order, pairs, key);
        if i != -1 {
          changedLength := true;
          EraseRemoves(order, pairs, i, key);
          pairs := pairs[..i] + pairs[i + 1..];
        }
        assert forall x :: x in pairs <==> x in before && !Equivalent(order, x, key);
        forall x ensures HitsRowKeys(order, x, lo, pos + 1) <==> HitsRowKeys(order, x, lo, pos) || Equivalent(order, x, key) {
          HitsRowKeysStep(order, x, lo, pos);
        }
        pos := pos + 1;
      }
    }

    /** removeRowRegion as meant: exactly the pairs whose row lies in [lo, hi) go, whatever the comparator. */
    method RemoveRowRegion(lo: int, hi: int)
      requires Valid()
      modifies this
      ensures Valid() && score == old(score)
      ensures forall x :: x in pairs <==> x in old(pairs) && (x.row < lo || x.row >= hi)
    {
      var kept := [];
      var i := 0;
      while i < |pairs|
        invariant 0 <= i <= |pairs|
        invariant Sorted(order, kept)
        invariant forall x :: x in kept <==> x in pairs[..i] && (x.row < lo || x.row >= hi)
        invariant forall x :: x in kept ==> forall j :: i <= j < |pairs| ==> Less(order, x, pairs[j])
      {
        var p := pairs[i];
        assert pairs[..i + 1] == pairs[..i] + [p];
        if p.row < lo || p.row >= hi {
          kept := kept + [p];
        }
        i := i + 1;
      }
      assert pairs[..i] == pairs;
      changedLength := true;
      pairs := kept;
    }

    /** removeColRegion: exactly the pairs whose column lies in [lo, hi) go. */
    method RemoveColRegion(lo: int, hi: int)
      requires Valid()
      modifies this
      ensures Valid() && score == old(score)
      ensures forall x :: x in pairs <==> x in old(pairs) && (x.col < lo || x.col >= hi)
    {
      var kept := [];
      var i := 0;
      while i < |pairs|
        invariant 0 <= i <= |pairs|
        invariant Sorted(order, kept)
        invariant forall x :: x in kept <==> x in pairs[..i] && (x.col < lo || x.col >= hi)
        invariant forall x :: x in kept ==> forall j :: i <= j < |pairs| ==> Less(order, x, pairs[j])
      {
        var p := pairs[i];
        assert pairs[..i + 1] == pairs[..i] + [p];
        if p.col < lo || p.col >= hi {
          kept := kept + [p];
        }
        i := i + 1;
      }
      assert pairs[..i] == pairs;
      changedLength := true;
      pairs := kept;
    }
  }

  /** Erasing the element equivalent to p removes exactly the elements equivalent to p. */
  lemma EraseRemoves(o: Order, ps: seq<Pair>, i: int, p: Pair)
    requires Sorted(o, ps) && 0 <= i < |ps| && Equivalent(o, ps[i], p)
    ensures Sorted(o, ps[..i] + ps[i + 1..])
    ensures forall x :: x in ps[..i] + ps[i + 1..] <==> x in ps && !Equivalent(o, x, p)
  {
    EraseSorted(o, ps, i);
    var r := ps[..i] + ps[i + 1..];
    forall x ensures x in r <==> x in ps && !Equivalent(o, x, p) {
      SortedDistinct(o, ps, x);
      assert x in r <==> x in multiset(r);
      if x in ps && Equivalent(o, x, p) {
        var k :| 0 <= k < |ps| && ps[k] == x;
        AtMostOneEquivalent(o, ps, p, k, i);
      }
      if x in ps && !Equivalent(o, x, p) {
        assert x != ps[i];
      }
    }
  }

  /**
   * The input that shows removeRowRegion as written: in a column-ordered set
   * holding (3,3) and (5,6), removing rows [3,5) removes nothing, while the
   * pair at row 3 should go.
   */
  method RemoveRowRegionAsWrittenExample() returns (a: AlignmentSorted)
    ensures a.order == ByCol && Pair(3, 3, 0) in a.pairs && Pair(5, 6, 0) in a.pairs
  {
    a := new AlignmentSorted(ByCol);
    a.AddPair(Pair(3, 3, 0));
    assert forall i :: 0 <= i < |a.pairs| ==> a.pairs[i] in multiset(a.pairs);
    a.AddPair(Pair(5, 6, 0));
    assert Pair(3, 3, 0) in multiset(a.pairs) && Pair(5, 6, 0) in multiset(a.pairs);
    a.RemoveRowRegionAsWritten(3, 5);
  }

  /** One more key: the pairs hit by the keys of [lo, pos + 1) are those hit before and those equivalent to the key of pos. */
  lemma HitsRowKeysStep(o: Order, p: Pair, lo: int, pos: int)
    requires lo <= pos
    ensures HitsRowKeys(o, p, lo, pos + 1) <==> HitsRowKeys(o, p, lo, pos) || Equivalent(o, p, Pair(pos, NO_POS, 0))
  {
    RowKeyEquivalent(o, p, pos);
  }

  /** Under any comparator, the pairs with a real column that removeRowRegion as written keeps. */
  lemma RowKeysMissColumnOrders(o: Order, p: Pair, lo: int, hi: int)
    requires o != ByRow && p.col >= 0
    ensures !HitsRowKeys(o, p, lo, hi)
  {
  }

  /** Under the row comparator, removeRowRegion as written removes exactly the rows of [lo, hi). */
  lemma RowKeysHitRows(p: Pair, lo: int, hi: int)
    ensures HitsRowKeys(ByRow, p, lo, hi) <==> lo <= p.row < hi
  {
  }
}
