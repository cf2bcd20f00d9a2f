/**
 * ImplAlignmentVector: a pairwise alignment stored densely, slot i holding
 * the pair whose row is i (or nothing), with the row bounds kept tight.
 */
module AlignmentVector {
  import opened Pairs

  /** std::vector::resize in addPair allocates this many times the needed size. */
  const GROWTH_FACTOR: int := 2

  type Slots = seq<Option<Pair>>

  /** The pairs of a slot list, keyed by slot index. */
  function AlignedOf(s: Slots): map<int, Pair>
  {
    map i | 0 <= i < |s| && s[i].Some? :: s[i].value
  }

  predicate Occupied(s: Slots)
  {
    exists i :: 0 <= i < |s| && s[i].Some?
  }

  /** Slot i holds a pair at row i with a real column. */
  ghost predicate WellFormed(s: Slots)
  {
    forall i :: 0 <= i < |s| && s[i].Some? ==> s[i].value.row == i && s[i].value.col >= 0
  }

  /** Every occupied slot lies in [rf, rt) and every column in [cf, ct). */
  ghost predicate Within(s: Slots, rf: int, rt: int, cf: int, ct: int)
  {
    forall i :: 0 <= i < |s| && s[i].Some? ==> rf <= i < rt && cf <= s[i].value.col < ct
  }

  /**
   * The invariant of the dense storage: the row bounds are the first and one
   * past the last occupied slot, the column bounds enclose every column, and
   * an alignment without pairs has NO_POS row bounds.
   */
  ghost predicate ValidState(s: Slots, rf: int, rt: int, cf: int, ct: int)
  {
    WellFormed(s) &&
    if Occupied(s) then
      0 <= rf < rt <= |s| && s[rf].Some? && s[rt - 1].Some? && Within(s, rf, rt, cf, ct)
    else
      rf == NO_POS && rt == NO_POS
  }

  lemma InAlignedOf(s: Slots, i: int)
    ensures i in AlignedOf(s) <==> 0 <= i < |s| && s[i].Some?
  {
  }

  lemma AlignedOfSet(s: Slots, i: int, p: Pair)
    requires 0 <= i < |s|
    ensures AlignedOf(s[i := Some(p)]) == AlignedOf(s)[i := p]
  {
  }

  lemma AlignedOfUnset(s: Slots, i: int)
    requires 0 <= i < |s|
    ensures AlignedOf(s[i := None]) == AlignedOf(s) - {i}
  {
  }

  lemma AlignedOfPadded(s: Slots, n: nat)
    ensures AlignedOf(s + seq(n, _ => None)) == AlignedOf(s)
  {
    var t := s + seq(n, _ => None);
    assert forall i :: 0 <= i < |s| ==> t[i] == s[i];
    assert forall i :: |s| <= i < |t| ==> t[i].None?;
  }

  /** The map without the rows in [lo, hi). */
  function WithoutRows(m: map<int, Pair>, lo: int, hi: int): map<int, Pair>
  {
    map r | r in m && (r < lo || r >= hi) :: m[r]
  }

  /** The map without the pairs whose column lies in [lo, hi). */
  function WithoutCols(m: map<int, Pair>, lo: int, hi: int): map<int, Pair>
  {
    map r | r in m && (m[r].col < lo || m[r].col >= hi) :: m[r]
  }

  /** moved holds every pair of m shifted by the offsets, keyed by its new row, and nothing else. */
  ghost predicate MovedBy(moved: map<int, Pair>, m: map<int, Pair>, rowOffset: int, colOffset: int)
  {
    forall j :: (j in moved <==> j - rowOffset in m) &&
      (j in moved ==>
        moved[j] == Pair(m[j - rowOffset].row + rowOffset, m[j - rowOffset].col + colOffset, m[j - rowOffset].score))
  }

  /** r is the greatest aligned row not after pos. */
  ghost predicate IsLastAtOrBefore(m: map<int, Pair>, pos: int, r: int)
  {
    r in m && r <= pos && forall q :: q in m && q <= pos ==> q <= r
  }

  /** r is the least aligned row not before pos. */
  ghost predicate IsFirstAtOrAfter(m: map<int, Pair>, pos: int, r: int)
  {
    r in m && r >= pos && forall q :: q in m && q >= pos ==> r <= q
  }

  /** The slot-list step of addPair keeps the storage invariant. */
  lemma AddPairKeepsValid(s: Slots, rf: int, rt: int, cf: int, ct: int, p: Pair, n: nat)
    requires ValidState(s, rf, rt, cf, ct) && p.row >= 0 && p.col >= 0
    requires |s| + n > p.row
    ensures
      var t := (s + seq(n, _ => None))[p.row := Some(p)];
      var occupied := Occupied(s);
      ValidState(t,
                 if !occupied || p.row < rf then p.row else rf,
                 if !occupied || p.row + 1 > rt then p.row + 1 else rt,
                 if !occupied || p.col < cf then p.col else cf,
                 if !occupied || p.col + 1 > ct then p.col + 1 else ct)
      && AlignedOf(t) == AlignedOf(s)[p.row := p]
  {
    var u := s + seq(n, _ => None);
    assert forall i :: 0 <= i < |s| ==> u[i] == s[i];
    assert forall i :: |s| <= i < |u| ==> u[i].None?;
    AlignedOfPadded(s, n);
    AlignedOfSet(u, p.row, p);
    var t := u[p.row := Some(p)];
    assert t[p.row].Some?;
    assert forall i :: 0 <= i < |t| && t[i].Some? && i != p.row ==> i < |s| && t[i] == s[i];
  }

  /** The slot list moveAlignment builds from copy. */
  ghost predicate MovedSlots(copy: Slots, s: Slots, rowOffset: int, colOffset: int)
  {
    forall j :: 0 <= j < |s| ==>
      s[j] == (if 0 <= j - rowOffset < |copy| && copy[j - rowOffset].Some?
               then Some(Pair(j, copy[j - rowOffset].value.col + colOffset, copy[j - rowOffset].value.score))
               else None)
  }

  /** The slot-list step of moveAlignment keeps the storage invariant. */
  lemma MovedValid(copy: Slots, s: Slots, rf: int, rt: int, cf: int, ct: int, rowOffset: int, colOffset: int)
    requires ValidState(copy, rf, rt, cf, ct) && Occupied(copy) && rf + rowOffset >= 0
    requires forall i :: 0 <= i < |copy| && copy[i].Some? ==> copy[i].value.col + colOffset >= 0
    requires |s| >= rt + rowOffset && MovedSlots(copy, s, rowOffset, colOffset)
    ensures ValidState(s, rf + rowOffset, rt + rowOffset, cf + colOffset, ct + colOffset)
  {
    assert s[rf + rowOffset].Some? && s[rt - 1 + rowOffset].Some?;
    forall j | 0 <= j < |s| && s[j].Some?
      ensures s[j].value.row == j && s[j].value.col >= 0
      ensures rf + rowOffset <= j < rt + rowOffset && cf + colOffset <= s[j].value.col < ct + colOffset
    {
      var i := j - rowOffset;
      assert 0 <= i < |copy| && copy[i].Some?;
    }
  }

  /**
   * The state resetBoundaries starts from after slots have been emptied:
   * the bounds still enclose every occupied slot but need not be tight.
   */
  ghost predicate EnclosedState(s: Slots, rf: int, rt: int, cf: int, ct: int)
  {
    WellFormed(s) &&
    ((rf == NO_POS && rt == NO_POS && !Occupied(s)) ||
     (0 <= rf < rt <= |s| && Within(s, rf, rt, cf, ct)))
  }

  /** The slot loop of removeRowRegion: the slots of [lo, hi) inside the row bounds are emptied. */
  method EmptyRows(copy: Slots, rf: int, rt: int, cf: int, ct: int, lo: int, hi: int) returns (s: Slots)
    requires ValidState(copy, rf, rt, cf, ct)
    ensures AlignedOf(s) == WithoutRows(AlignedOf(copy), lo, hi)
    ensures EnclosedState(s, rf, rt, cf, ct)
  {
    var start := if lo < rf then rf else lo;
    var stop := if hi > rt then rt else hi;
    s := copy;
    var pos := start;
    while pos < stop
      invariant start <= pos && (pos == start || pos <= stop)
      invariant |s| == |copy|
      invariant forall i :: 0 <= i < |s| ==> s[i] == (if start <= i < pos then None else copy[i])
    {
      s := s[pos := None];
      pos := pos + 1;
    }
    forall r ensures r in AlignedOf(s) <==> r in WithoutRows(AlignedOf(copy), lo, hi) {
      InAlignedOf(s, r);
      InAlignedOf(copy, r);
      if 0 <= r < |s| && copy[r].Some? {
        assert Occupied(copy);
      }
    }
  }

  /** The slot loop of removeColRegion: inside the row bounds, the slots whose column lies in [lo, hi) are emptied. */
  method EmptyCols(copy: Slots, rf: int, rt: int, cf: int, ct: int, lo: int, hi: int) returns (s: Slots)
    requires ValidState(copy, rf, rt, cf, ct) && rf != NO_POS
    ensures AlignedOf(s) == WithoutCols(AlignedOf(copy), lo, hi)
    ensures EnclosedState(s, rf, rt, cf, ct)
  {
    s := copy;
    var pos := rf;
    while pos < rt
      invariant rf <= pos <= rt
      invariant |s| == |copy|
      invariant forall i :: 0 <= i < |s| ==>
        s[i] == (if rf <= i < pos && copy[i].Some? && lo <= copy[i].value.col < hi then None else copy[i])
    {
      if s[pos].Some? && lo <= s[pos].value.col < hi {
        s := s[pos := None];
      }
      pos := pos + 1;
    }
    assert AlignedOf(s) == WithoutCols(AlignedOf(copy), lo, hi);
  }

  /** A pair of copy reappears in s at its row plus the row offset. */
  lemma MovedForward(copy: Slots, s: Slots, rf: int, rt: int, cf: int, ct: int, rowOffset: int, colOffset: int, r: int)
    requires Within(copy, rf, rt, cf, ct) && rf + rowOffset >= 0
    requires |s| >= rt + rowOffset && MovedSlots(copy, s, rowOffset, colOffset)
    requires r in AlignedOf(copy)
    ensures r + rowOffset in AlignedOf(s)
  {
    InAlignedOf(copy, r);
    var j := r + rowOffset;
    assert 0 <= j < |s| && s[j].Some?;
    InAlignedOf(s, j);
  }

  /** A pair of s is a pair of copy moved by the offsets. */
  lemma MovedBack(copy: Slots, s: Slots, rowOffset: int, colOffset: int, j: int)
    requires WellFormed(copy) && MovedSlots(copy, s, rowOffset, colOffset)
    requires j in AlignedOf(s)
    ensures j - rowOffset in AlignedOf(copy)
    ensures AlignedOf(s)[j] == Pair(AlignedOf(copy)[j - rowOffset].row + rowOffset,
                                    AlignedOf(copy)[j - rowOffset].col + colOffset,
                                    AlignedOf(copy)[j - rowOffset].score)
  {
    InAlignedOf(s, j);
    var r := j - rowOffset;
    assert 0 <= r < |copy| && copy[r].Some?;
    InAlignedOf(copy, r);
  }

  /** The copy loop of moveAlignment: a fresh slot list of the given size holding every pair moved. */
  method MoveSlots(copy: Slots, needed: nat, rowOffset: int, colOffset: int) returns (s: Slots)
    requires forall i :: 0 <= i < |copy| && copy[i].Some? ==> 0 <= i + rowOffset < needed
    ensures |s| == needed && MovedSlots(copy, s, rowOffset, colOffset)
  {
    s := seq(needed, _ => None);
    var i := 0;
    while i < |copy|
      invariant 0 <= i <= |copy| && |s| == needed
      invariant forall j :: 0 <= j < needed ==>
        s[j] == (if 0 <= j - rowOffset < i && copy[j - rowOffset].Some?
                 then Some(Pair(j, copy[j - rowOffset].value.col + colOffset, copy[j - rowOffset].value.score))
                 else None)
    {
      if copy[i].Some? {
        var p := copy[i].value;
        s := s[i + rowOffset := Some(Pair(i + rowOffset, p.col + colOffset, p.score))];
      }
      i := i + 1;
    }
  }

  /** The slot-list part of moveAlignment: a fresh list, large enough for the moved rows, valid with the moved bounds. */
  method MoveState(copy: Slots, rf: int, rt: int, cf: int, ct: int, rowOffset: int, colOffset: int) returns (s: Slots)
    requires ValidState(copy, rf, rt, cf, ct) && Occupied(copy) && rf + rowOffset >= 0
    requires forall r :: r in AlignedOf(copy) ==> AlignedOf(copy)[r].col + colOffset >= 0
    ensures ValidState(s, rf + rowOffset, rt + rowOffset, cf + colOffset, ct + colOffset)
    ensures MovedBy(AlignedOf(s), AlignedOf(copy), rowOffset, colOffset)
  {
    var needed := if |copy| < rt + rowOffset then rt + rowOffset else |copy|;
    s := MoveSlots(copy, needed, rowOffset, colOffset);
    ColumnsStayReal(copy, colOffset);
    MovedValid(copy, s, rf, rt, cf, ct, rowOffset, colOffset);
    MovedMap(copy, s, rf, rt, cf, ct, rowOffset, colOffset);
  }

  /** The precondition of moveAlignment on columns, read off the slots. */
  lemma ColumnsStayReal(copy: Slots, colOffset: int)
    requires forall r :: r in AlignedOf(copy) ==> AlignedOf(copy)[r].col + colOffset >= 0
    ensures forall i :: 0 <= i < |copy| && copy[i].Some? ==> copy[i].value.col + colOffset >= 0
  {
    forall k | 0 <= k < |copy| && copy[k].Some? ensures copy[k].value.col + colOffset >= 0 {
      InAlignedOf(copy, k);
    }
  }

  /** The slot-list step of moveAlignment moves every pair by the offsets. */
  lemma MovedMap(copy: Slots, s: Slots, rf: int, rt: int, cf: int, ct: int, rowOffset: int, colOffset: int)
    requires WellFormed(copy) && Within(copy, rf, rt, cf, ct) && rf + rowOffset >= 0
    requires |s| >= rt + rowOffset && MovedSlots(copy, s, rowOffset, colOffset)
    ensures MovedBy(AlignedOf(s), AlignedOf(copy), rowOffset, colOffset)
  {
    var moved, m := AlignedOf(s), AlignedOf(copy);
    forall j
      ensures j in moved <==> j - rowOffset in m
      ensures j in moved ==>
        moved[j] == Pair(m[j - rowOffset].row + rowOffset, m[j - rowOffset].col + colOffset, m[j - rowOffset].score)
    {
      if j in moved {
        MovedBack(copy, s, rowOffset, colOffset, j);
      }
      if j - rowOffset in m {
        MovedForward(copy, s, rf, rt, cf, ct, rowOffset, colOffset, j - rowOffset);
      }
    }
  }

  class AlignmentVector {
    /** mPairs: slot i holds the pair with row i, or nothing. */
    var slots: Slots
    var rowFrom: int
    var rowTo: int
    var colFrom: int
    var colTo: int
    var score: int
    var length: int
    var numGaps: int
    var changedLength: bool

    /** The alignment as a partial map from row to pair. */
    function Aligned(): map<int, Pair>
      reads this
    {
      AlignedOf(slots)
    }

    predicate HasPairs()
      reads this
    {
      Occupied(slots)
    }

    ghost predicate Valid()
      reads this
    {
      ValidState(slots, rowFrom, rowTo, colFrom, colTo)
    }

    /**
     * The state resetBoundaries starts from after slots have been emptied:
     * the bounds still enclose every occupied slot but need not be tight.
     */
    ghost predicate Enclosed()
      reads this
    {
      EnclosedState(slots, rowFrom, rowTo, colFrom, colTo)
    }

    /** In a valid alignment the row bounds are the first and one past the last aligned row. */
    lemma BoundsAreTight()
      requires Valid() && HasPairs()
      ensures rowFrom in Aligned() && rowTo - 1 in Aligned()
      ensures forall r :: r in Aligned() ==> rowFrom <= r < rowTo && colFrom <= Aligned()[r].col < colTo
    {
    }

    constructor ()
      ensures Valid() && Aligned() == map[]
      ensures rowFrom == NO_POS && rowTo == NO_POS && score == 0
    {
      slots := [];
      rowFrom, rowTo, colFrom, colTo := NO_POS, NO_POS, NO_POS, NO_POS;
      score, length, numGaps := 0, 0, 0;
      changedLength := false;
    }

    /**
     * addPair: the pair takes the slot of its row, replacing any pair there;
     * the storage grows to cover the row; the bounds stay tight.
     */
    method AddPair(p: Pair)
      requires Valid() && p.row >= 0 && p.col >= 0
      modifies this
      ensures Valid()
      ensures Aligned() == old(Aligned())[p.row := p]
      ensures |slots| >= old(|slots|) && |slots| > p.row
      ensures score == old(score) && changedLength
    {
      // bounds update of ImplAlignment::addPair
      var rf, rt, cf, ct := rowFrom, rowTo, colFrom, colTo;
      if rf == NO_POS {
        rf, rt, cf, ct := p.row, p.row + 1, p.col, p.col + 1;
      } else {
        if p.row < rf { rf := p.row; }
        if p.row + 1 > rt { rt := p.row + 1; }
        if p.col < cf { cf := p.col; }
        if p.col + 1 > ct { ct := p.col + 1; }
      }
      var needed := if |slots| < p.row + 1 then p.row + 1 else |slots|;
      var n := if |slots| < needed then needed * GROWTH_FACTOR - |slots| else 0;
      AddPairKeepsValid(slots, rowFrom, rowTo, colFrom, colTo, p, n);
      slots := (slots + seq(n, _ => None))[p.row := Some(p)];
      rowFrom, rowTo, colFrom, colTo := rf, rt, cf, ct;
      changedLength := true;
    }

    /**
     * clear, as ImplAlignment::clear and clearContainer write it: the pairs,
     * length, score and gap count go, but the row and column bounds stay.
     */
    method ClearAsWritten()
      modifies this
      ensures slots == [] && score == 0 && length == 0 && numGaps == 0 && !changedLength
      ensures rowFrom == old(rowFrom) && rowTo == old(rowTo)
      ensures colFrom == old(colFrom) && colTo == old(colTo)
    {
      changedLength := false;
      length, score, numGaps := 0, 0, 0;
      slots := [];
    }

    /**
     * clear with the bounds reset to NO_POS, as the dot-list storage's clear
     * does: the result is the empty alignment.
     */
    method Clear()
      modifies this
      ensures Valid() && Aligned() == map[] && !HasPairs()
      ensures slots == [] && score == 0 && length == 0 && numGaps == 0 && !changedLength
      ensures rowFrom == NO_POS && rowTo == NO_POS && colFrom == NO_POS && colTo == NO_POS
    {
      changedLength := false;
      length, score, numGaps := 0, 0, 0;
      slots := [];
      rowFrom, rowTo, colFrom, colTo := NO_POS, NO_POS, NO_POS, NO_POS;
    }

    /**
     * removePair: whatever pair sits at the argument's row goes; the bounds
     * move inwards past emptied slots; removing the last pair clears the
     * alignment.
     */
    method RemovePair(p: Pair)
      requires Valid() && HasPairs()
      modifies this
      ensures Valid()
      ensures Aligned() == old(Aligned()) - {p.row}
      ensures HasPairs() ==> score == old(score)
      ensures !HasPairs() ==> score == 0 && slots == []
    {
      var s := slots;
      if rowFrom <= p.row < rowTo {
        AlignedOfUnset(s, p.row);
        s := s[p.row := None];
      } else {
        InAlignedOf(s, p.row);
      }
      assert AlignedOf(s) == old(Aligned()) - {p.row};
      var first, last := rowFrom, rowTo;
      while first < last && s[first].None?
        invariant rowFrom <= first <= last == rowTo <= |s|
        invariant forall i :: 0 <= i < |s| && s[i].Some? ==> first <= i < last
        decreases last - first
      {
        first := first + 1;
      }
      while last >= first && s[last - 1].None?
        invariant rowFrom <= first <= rowTo <= |s|
        invariant first - 1 <= last <= rowTo
        invariant first >= 1 || s[first].Some?
        invariant first < last ==> s[first].Some?
        invariant forall i :: 0 <= i < |s| && s[i].Some? ==> first <= i < last
        decreases last - first + 1
      {
        last := last - 1;
      }
      if first > last {
        assert AlignedOf(s) == map[];
        Clear();
      } else {
        slots, rowFrom, rowTo := s, first, last;
        assert slots[rowFrom].Some?;
      }
      changedLength := true;
    }

    /**
     * resetBoundaries as written: once every slot is empty, mRowFrom becomes
     * NO_POS but mRowTo keeps its old value (the assignment is written as a
     * comparison).
     */
    method ResetBoundariesAsWritten()
      requires Enclosed()
      modifies this
      ensures slots == old(slots) && score == old(score)
      ensures HasPairs() ==> Valid()
      ensures !HasPairs() && old(rowFrom) != NO_POS ==> rowFrom == NO_POS && rowTo == old(rowTo)
    {
      var maxSize := |slots|;
      if rowFrom == NO_POS || maxSize == 0 {
        return;
      }
      var first := rowFrom;
      while first < maxSize && slots[first].None?
        invariant rowFrom <= first <= maxSize
        invariant forall i :: 0 <= i < |slots| && slots[i].Some? ==> first <= i < rowTo
        decreases maxSize - first
      {
        first := first + 1;
      }
      if first >= maxSize {
        rowFrom := NO_POS;
        return;
      }
      var x := rowTo - 1;
      while x >= 0 && slots[x].None?
        invariant first - 1 <= x < rowTo
        invariant forall i :: 0 <= i < |slots| && slots[i].Some? ==> first <= i <= x
        decreases x
      {
        x := x - 1;
      }
      rowFrom, rowTo := first, x + 1;
    }

    /**
     * resetBoundaries with both bounds set to NO_POS once every slot is
     * empty: the row bounds become tight again.
     */
    method ResetBoundaries()
      requires Enclosed()
      modifies this
      ensures Valid()
      ensures slots == old(slots) && score == old(score)
      ensures colFrom == old(colFrom) && colTo == old(colTo)
    {
      var maxSize := |slots|;
      if rowFrom == NO_POS || maxSize == 0 {
        return;
      }
      var first := rowFrom;
      while first < maxSize && slots[first].None?
        invariant rowFrom <= first <= maxSize
        invariant forall i :: 0 <= i < |slots| && slots[i].Some? ==> first <= i < rowTo
        decreases maxSize - first
      {
        first := first + 1;
      }
      if first >= maxSize {
        rowFrom, rowTo := NO_POS, NO_POS;
        return;
      }
      var x := rowTo - 1;
      while x >= 0 && slots[x].None?
        invariant first - 1 <= x < rowTo
        invariant forall i :: 0 <= i < |slots| && slots[i].Some? ==> first <= i <= x
        decreases x
      {
        x := x - 1;
      }
      rowFrom, rowTo := first, x + 1;
    }

    /**
     * removeRowRegion: [lo, hi) is clamped to the row bounds and every pair
     * in it is deleted; exactly those pairs go, and the bounds are reset.
     */
    method RemoveRowRegion(lo: int, hi: int)
      requires Valid()
      modifies this
      ensures Valid()
      ensures Aligned() == WithoutRows(old(Aligned()), lo, hi)
      ensures score == old(score) && changedLength
    {
      assert Aligned() == AlignedOf(slots);
      var s := EmptyRows(slots, rowFrom, rowTo, colFrom, colTo, lo, hi);
      slots := s;
      assert Enclosed();
      ResetBoundaries();
      changedLength := true;
    }

    /**
     * removeColRegion: every pair whose column lies in [lo, hi) is deleted,
     * the others stay; an empty alignment is left alone.
     */
    method RemoveColRegion(lo: int, hi: int)
      requires Valid()
      modifies this
      ensures Valid()
      ensures Aligned() == WithoutCols(old(Aligned()), lo, hi)
      ensures score == old(score)
    {
      if rowFrom == NO_POS {
        assert Aligned() == map[];
        return;
      }
      assert Aligned() == AlignedOf(slots);
      var s := EmptyCols(slots, rowFrom, rowTo, colFrom, colTo, lo, hi);
      slots := s;
      assert Enclosed();
      ResetBoundaries();
      changedLength := true;
    }

    /**
     * mapRowToCol: NO_POS on an empty alignment; otherwise the column aligned
     * to pos, or with Left/Right the column of the nearest aligned row at or
     * before/after pos, NO_POS when there is none on that side.
     */
    method MapRowToCol(pos: int, search: Search) returns (col: int)
      requires Valid()
      ensures search == NoSearch ==> col == (if pos in Aligned() then Aligned()[pos].col else NO_POS)
      ensures search == Left ==>
        (exists r :: IsLastAtOrBefore(Aligned(), pos, r) && col == Aligned()[r].col) ||
        (col == NO_POS && forall q :: q in Aligned() ==> q > pos)
      ensures search == Right ==>
        (exists r :: IsFirstAtOrAfter(Aligned(), pos, r) && col == Aligned()[r].col) ||
        (col == NO_POS && forall q :: q in Aligned() ==> q < pos)
    {
      if rowFrom == NO_POS {
        return NO_POS;
      }
      if search == Left && pos >= rowTo {
        assert IsLastAtOrBefore(Aligned(), pos, rowTo - 1);
        return slots[rowTo - 1].value.col;
      }
      if search == Right && pos < rowFrom {
        assert IsFirstAtOrAfter(Aligned(), pos, rowFrom);
        return slots[rowFrom].value.col;
      }
      if pos < rowFrom || pos >= rowTo {
        return NO_POS;
      }
      if slots[pos].Some? {
        assert IsLastAtOrBefore(Aligned(), pos, pos) && IsFirstAtOrAfter(Aligned(), pos, pos);
        return slots[pos].value.col;
      }
      var p := pos;
      if search == NoSearch {
        return NO_POS;
      } else if search == Left {
        while p >= rowFrom && slots[p].None?
          invariant rowFrom - 1 <= p <= pos
          invariant forall q :: p < q <= pos ==> q !in Aligned()
          decreases p
        {
          p := p - 1;
        }
        if p < rowFrom {
          return NO_POS;
        }
        assert IsLastAtOrBefore(Aligned(), pos, p);
      } else {
        while p < rowTo && slots[p].None?
          invariant pos <= p <= rowTo
          invariant forall q :: pos <= q < p ==> q !in Aligned()
          decreases rowTo - p
        {
          p := p + 1;
        }
        if p >= rowTo {
          return NO_POS;
        }
        assert IsFirstAtOrAfter(Aligned(), pos, p);
      }
      col := slots[p].value.col;
    }

    /**
     * moveAlignment: every pair moves by the offsets into a fresh slot list
     * large enough for the new rows, and all four bounds shift with it.
     */
    method MoveAlignment(rowOffset: int, colOffset: int)
      requires Valid() && HasPairs() && rowFrom + rowOffset >= 0
      requires forall r :: r in Aligned() ==> Aligned()[r].col + colOffset >= 0
      modifies this
      ensures Valid()
      ensures MovedBy(Aligned(), old(Aligned()), rowOffset, colOffset)
      ensures rowFrom == old(rowFrom) + rowOffset && rowTo == old(rowTo) + rowOffset
      ensures colFrom == old(colFrom) + colOffset && colTo == old(colTo) + colOffset
      ensures score == old(score)
    {
      assert Aligned() == AlignedOf(slots);
      var s := MoveState(slots, rowFrom, rowTo, colFrom, colTo, rowOffset, colOffset);
      slots, rowFrom, rowTo, colFrom, colTo :=
        s, rowFrom + rowOffset, rowTo + rowOffset, colFrom + colOffset, colTo + colOffset;
    }
  }

  /**
   * The input that shows resetBoundaries as written: a single pair (3,3)
   * whose slot has been emptied leaves the bounds as (NO_POS, 4), which
   * describe a non-empty range for an alignment without pairs.
   */
  method ResetBoundariesAsWrittenExample() returns (v: AlignmentVector)
    ensures !v.HasPairs() && v.rowFrom == NO_POS && v.rowTo == 4 && !v.Valid()
  {
    v := new AlignmentVector();
    v.AddPair(Pair(3, 3, 0));
    InAlignedOf(v.slots, 3);
    v.BoundsAreTight();
    InAlignedOf(v.slots, 3);
    v.slots := v.slots[3 := None];
    v.ResetBoundariesAsWritten();
  }

  /**
   * The input that shows clear as written: after clearing an alignment that
   * held (0,0) the bounds still claim row 0, while the slot list is empty.
   */
  method ClearAsWrittenExample() returns (v: AlignmentVector)
    ensures !v.HasPairs() && v.slots == [] && v.rowFrom == 0 && v.rowTo == 1 && !v.Valid()
  {
    v := new AlignmentVector();
    v.AddPair(Pair(0, 0, 0));
    InAlignedOf(v.slots, 0);
    v.BoundsAreTight();
    v.ClearAsWritten();
  }
}
