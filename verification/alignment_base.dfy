/**
 * The storage-independent part of a pairwise alignment (ImplAlignment):
 * length and gap counting, the default mapping scans, row/column switching
 * and region removal by rebuilding. These work through the iterator and
 * addPair, so they are modelled on the alignment's pairs in iteration order.
 */
module AlignmentBase {
  import opened Pairs

  /** An alignment as the generic code observes it: its pairs and its score. */
  datatype Alignment = Alignment(pairs: seq<Pair>, score: int)

  /** A positive difference, or nothing. */
  function Excess(d: int): nat
  {
    if d > 0 then d else 0
  }

  /**
   * The gaps calculateLength counts after having seen a pair at
   * (lastRow, lastCol): every skipped row and every skipped column.
   */
  function GapsFrom(lastRow: int, lastCol: int, ps: seq<Pair>): nat
    decreases |ps|
  {
    if |ps| == 0 then 0
    else Excess(ps[0].row - lastRow - 1) + Excess(ps[0].col - lastCol - 1)
         + GapsFrom(ps[0].row, ps[0].col, ps[1..])
  }

  /**
   * calculateLength: length = aligned pairs + gaps. The walk starts at the
   * alignment's first row and column; an alignment without bounds has
   * length 0 and no gaps.
   */
  method CalculateLength(ps: seq<Pair>) returns (length: int, numGaps: int)
    ensures RowFrom(ps) == NO_POS || ColFrom(ps) == NO_POS ==> length == 0 && numGaps == 0
    ensures RowFrom(ps) != NO_POS && ColFrom(ps) != NO_POS ==>
              numGaps == GapsFrom(RowFrom(ps), ColFrom(ps), ps) && length == |ps| + numGaps
  {
    var rowLast := RowFrom(ps);
    var colLast := ColFrom(ps);
    length := 0;
    numGaps := 0;
    if rowLast == NO_POS || colLast == NO_POS {
      return;
    }
    var i := 0;
    while i < |ps|
      invariant 0 <= i <= |ps|
      invariant numGaps + GapsFrom(rowLast, colLast, ps[i..]) == GapsFrom(RowFrom(ps), ColFrom(ps), ps)
      invariant length == i + numGaps
    {
      assert ps[i..][1..] == ps[i + 1..];
      var p := ps[i];
      length := length + 1;
      var d := p.row - rowLast - 1;
      if d > 0 {
        length := length + d;
        numGaps := numGaps + d;
      }
      d := p.col - colLast - 1;
      if d > 0 {
        length := length + d;
        numGaps := numGaps + d;
      }
      rowLast := p.row;
      colLast := p.col;
      i := i + 1;
    }
    assert ps[|ps|..] == [];
  }

  /** After a pair strictly before the first pair of a monotone list, the gaps telescope. */
  lemma {:induction false} GapsTelescope(lastRow: int, lastCol: int, ps: seq<Pair>)
    requires |ps| > 0 && RowSorted(ps) && ColSorted(ps)
    requires lastRow < ps[0].row && lastCol < ps[0].col
    ensures GapsFrom(lastRow, lastCol, ps)
            == (ps[|ps| - 1].row - lastRow - |ps|) + (ps[|ps| - 1].col - lastCol - |ps|)
    decreases |ps|
  {
    if |ps| > 1 {
      GapsTelescope(ps[0].row, ps[0].col, ps[1..]);
    }
  }

  /** The row bounds of a row-sorted list are its first and last pair. */
  lemma SortedRowBounds(ps: seq<Pair>)
    requires |ps| > 0 && RowSorted(ps)
    ensures RowFrom(ps) == ps[0].row && RowTo(ps) == ps[|ps| - 1].row + 1
  {
    var n := |ps|;
    forall i | 0 <= i < n ensures ps[0].row <= ps[i].row {
      if 0 < i { assert ps[0].row < ps[i].row; }
    }
    MinRowAt(ps, 0);
    forall i | 0 <= i < n ensures ps[i].row <= ps[n - 1].row {
      if i < n - 1 { assert ps[i].row < ps[n - 1].row; }
    }
    MaxRowAt(ps, n - 1);
  }

  /** The column bounds of a column-sorted list are its first and last pair. */
  lemma SortedColBounds(ps: seq<Pair>)
    requires |ps| > 0 && ColSorted(ps)
    ensures ColFrom(ps) == ps[0].col && ColTo(ps) == ps[|ps| - 1].col + 1
  {
    var n := |ps|;
    forall i | 0 <= i < n ensures ps[0].col <= ps[i].col {
      if 0 < i { assert ps[0].col < ps[i].col; }
    }
    MinColAt(ps, 0);
    forall i | 0 <= i < n ensures ps[i].col <= ps[n - 1].col {
      if i < n - 1 { assert ps[i].col < ps[n - 1].col; }
    }
    MaxColAt(ps, n - 1);
  }

  /**
   * For an alignment whose rows and columns both increase, the length is
   * the row span plus the column span minus the pairs, and the gaps are
   * what the spans leave once the pairs are taken out of each.
   */
  lemma LengthOfAlignment(ps: seq<Pair>)
    requires |ps| > 0 && RowSorted(ps) && ColSorted(ps)
    ensures GapsFrom(RowFrom(ps), ColFrom(ps), ps)
            == (RowTo(ps) - RowFrom(ps) - |ps|) + (ColTo(ps) - ColFrom(ps) - |ps|)
    ensures |ps| + GapsFrom(RowFrom(ps), ColFrom(ps), ps)
            == (RowTo(ps) - RowFrom(ps)) + (ColTo(ps) - ColFrom(ps)) - |ps|
  {
    SortedRowBounds(ps);
    SortedColBounds(ps);
    var rest := ps[1..];
    assert GapsFrom(ps[0].row, ps[0].col, ps) == GapsFrom(ps[0].row, ps[0].col, rest);
    if |ps| > 1 {
      assert forall i :: 0 <= i < |rest| ==> rest[i] == ps[i + 1];
      assert RowSorted(rest) && ColSorted(rest);
      assert ps[0].row < rest[0].row && ps[0].col < rest[0].col;
      GapsTelescope(ps[0].row, ps[0].col, rest);
    }
  }

  /**
   * mapRowToCol, default version: the column of the first pair in
   * iteration order whose row is pos, NO_POS when there is none.
   */
  function MapRowToCol(ps: seq<Pair>, pos: int): (r: int)
    ensures (forall i :: 0 <= i < |ps| ==> ps[i].row != pos) ==> r == NO_POS
    ensures forall i :: 0 <= i < |ps| && ps[i].row == pos && (forall j :: 0 <= j < i ==> ps[j].row != pos)
              ==> r == ps[i].col
  {
    if |ps| == 0 then NO_POS
    else if ps[0].row == pos then ps[0].col
    else
      var r := MapRowToCol(ps[1..], pos);
      assert forall i :: 1 <= i < |ps| ==> ps[i] == ps[1..][i - 1];
      r
  }

  /** mapColToRow, default version: the mirror image of MapRowToCol. */
  function MapColToRow(ps: seq<Pair>, pos: int): (r: int)
    ensures (forall i :: 0 <= i < |ps| ==> ps[i].col != pos) ==> r == NO_POS
    ensures forall i :: 0 <= i < |ps| && ps[i].col == pos && (forall j :: 0 <= j < i ==> ps[j].col != pos)
              ==> r == ps[i].row
  {
    if |ps| == 0 then NO_POS
    else if ps[0].col == pos then ps[0].row
    else
      var r := MapColToRow(ps[1..], pos);
      assert forall i :: 1 <= i < |ps| ==> ps[i] == ps[1..][i - 1];
      r
  }

  /** A pair with row and column exchanged. */
  function Swap(p: Pair): Pair
  {
    Pair(p.col, p.row, p.score)
  }

  /** The pairs switchRowCol adds, in the order it adds them. */
  function Switched(ps: seq<Pair>): seq<Pair>
  {
    if |ps| == 0 then [] else [Swap(ps[0])] + Switched(ps[1..])
  }

  lemma {:induction false} SwitchedIndex(ps: seq<Pair>)
    ensures |Switched(ps)| == |ps|
    ensures forall i :: 0 <= i < |ps| ==> Switched(ps)[i] == Swap(ps[i])
  {
    if |ps| > 0 {
      SwitchedIndex(ps[1..]);
      assert forall i :: 1 <= i < |ps| ==> ps[i] == ps[1..][i - 1];
    }
  }

  /** Switching twice gives back the original pairs. */
  lemma {:induction false} SwitchedTwice(ps: seq<Pair>)
    ensures Switched(Switched(ps)) == ps
  {
    if |ps| > 0 {
      SwitchedTwice(ps[1..]);
      assert Switched(ps)[1..] == Switched(ps[1..]);
    }
  }

  /** After switching, the row mapping is the old column mapping and vice versa. */
  lemma {:induction false} SwitchedMaps(ps: seq<Pair>, pos: int)
    ensures MapRowToCol(Switched(ps), pos) == MapColToRow(ps, pos)
    ensures MapColToRow(Switched(ps), pos) == MapRowToCol(ps, pos)
  {
    if |ps| > 0 {
      SwitchedMaps(ps[1..], pos);
      assert Switched(ps)[1..] == Switched(ps[1..]);
    }
  }

  lemma SwitchedMinMax(ps: seq<Pair>)
    requires |ps| > 0
    ensures |Switched(ps)| == |ps|
    ensures MinRow(Switched(ps)) == MinCol(ps) && MaxRow(Switched(ps)) == MaxCol(ps)
    ensures MinCol(Switched(ps)) == MinRow(ps) && MaxCol(Switched(ps)) == MaxRow(ps)
  {
    SwitchedIndex(ps);
    var s := Switched(ps);
    var b :| 0 <= b < |ps| && ps[b].col == MinCol(ps);
    forall i | 0 <= i < |s| ensures s[b].row <= s[i].row {
      assert s[i].row == ps[i].col && s[b].row == ps[b].col;
      assert MinCol(ps) <= ps[i].col;
    }
    MinRowAt(s, b);
    var d :| 0 <= d < |ps| && ps[d].col == MaxCol(ps);
    forall i | 0 <= i < |s| ensures s[i].row <= s[d].row {
      assert s[i].row == ps[i].col && s[d].row == ps[d].col;
      assert MaxCol(ps) >= ps[i].col;
    }
    MaxRowAt(s, d);
    var f :| 0 <= f < |ps| && ps[f].row == MinRow(ps);
    forall i | 0 <= i < |s| ensures s[f].col <= s[i].col {
      assert s[i].col == ps[i].row && s[f].col == ps[f].row;
      assert MinRow(ps) <= ps[i].row;
    }
    MinColAt(s, f);
    var h :| 0 <= h < |ps| && ps[h].row == MaxRow(ps);
    forall i | 0 <= i < |s| ensures s[i].col <= s[h].col {
      assert s[i].col == ps[i].row && s[h].col == ps[h].row;
      assert MaxRow(ps) >= ps[i].row;
    }
    MaxColAt(s, h);
  }

  /** Switching exchanges the row and column bounds. */
  lemma SwitchedBounds(ps: seq<Pair>)
    ensures RowFrom(Switched(ps)) == ColFrom(ps) && RowTo(Switched(ps)) == ColTo(ps)
    ensures ColFrom(Switched(ps)) == RowFrom(ps) && ColTo(Switched(ps)) == RowTo(ps)
  {
    SwitchedIndex(ps);
    if |ps| > 0 {
      SwitchedMinMax(ps);
    }
  }

  /** Switching keeps the gap count: skipped rows become skipped columns. */
  lemma {:induction false} SwitchedGaps(lastRow: int, lastCol: int, ps: seq<Pair>)
    ensures GapsFrom(lastCol, lastRow, Switched(ps)) == GapsFrom(lastRow, lastCol, ps)
    decreases |ps|
  {
    if |ps| > 0 {
      SwitchedGaps(ps[0].row, ps[0].col, ps[1..]);
      assert Switched(ps)[1..] == Switched(ps[1..]);
    }
  }

  /**
   * The rebuilding loop of switchRowCol: every pair of the copy is added
   * back with row and column exchanged.
   */
  method SwitchPairs(ps: seq<Pair>) returns (r: seq<Pair>)
    ensures r == Switched(ps)
  {
    r := [];
    var i := 0;
    while i < |ps|
      invariant 0 <= i <= |ps|
      invariant r + Switched(ps[i..]) == Switched(ps)
    {
      assert ps[i..][1..] == ps[i + 1..];
      r := r + [Swap(ps[i])];
      i := i + 1;
    }
    assert ps[|ps|..] == [];
  }

  /**
   * switchRowCol as written: the copy's pairs come back switched, but the
   * clear() before the loop zeroes the score and nothing restores it.
   */
  method SwitchRowColAsWritten(a: Alignment) returns (r: Alignment)
    ensures r.pairs == Switched(a.pairs)
    ensures r.score == 0
  {
    var ps := SwitchPairs(a.pairs);
    r := Alignment(ps, 0);
  }

  /**
   * switchRowCol with the score kept, as removeRowRegion keeps it and as
   * the alignment tests expect: the switched alignment maps columns to rows,
   * has the exchanged bounds and the same length and score.
   */
  method SwitchRowCol(a: Alignment) returns (r: Alignment)
    ensures r.score == a.score
    ensures forall pos :: MapRowToCol(r.pairs, pos) == MapColToRow(a.pairs, pos)
    ensures forall pos :: MapColToRow(r.pairs, pos) == MapRowToCol(a.pairs, pos)
    ensures RowFrom(r.pairs) == ColFrom(a.pairs) && RowTo(r.pairs) == ColTo(a.pairs)
    ensures ColFrom(r.pairs) == RowFrom(a.pairs) && ColTo(r.pairs) == RowTo(a.pairs)
    ensures GapsFrom(RowFrom(r.pairs), ColFrom(r.pairs), r.pairs) == GapsFrom(RowFrom(a.pairs), ColFrom(a.pairs), a.pairs)
    ensures |r.pairs| == |a.pairs|
  {
    var ps := SwitchPairs(a.pairs);
    r := Alignment(ps, a.score);
    forall pos
      ensures MapRowToCol(r.pairs, pos) == MapColToRow(a.pairs, pos)
      ensures MapColToRow(r.pairs, pos) == MapRowToCol(a.pairs, pos)
    {
      SwitchedMaps(a.pairs, pos);
    }
    SwitchedBounds(a.pairs);
    SwitchedGaps(RowFrom(a.pairs), ColFrom(a.pairs), a.pairs);
    SwitchedIndex(a.pairs);
  }

  /** Applying the corrected switch twice restores the alignment. */
  lemma SwitchRowColTwice(a: Alignment)
    ensures Alignment(Switched(Switched(a.pairs)), a.score) == a
  {
    SwitchedTwice(a.pairs);
  }

  /** The pairs of ps, in order, whose row (onRows) or column lies outside [from, to). */
  function Outside(ps: seq<Pair>, onRows: bool, from: int, to: int): (r: seq<Pair>)
    ensures |r| <= |ps|
  {
    if |ps| == 0 then []
    else
      var last := ps[|ps| - 1];
      var x := if onRows then last.row else last.col;
      Outside(ps[..|ps| - 1], onRows, from, to) + (if x < from || x >= to then [last] else [])
  }

  /** A pair is kept by Outside exactly when it is a pair of ps outside the region. */
  lemma {:induction false} OutsideMembers(ps: seq<Pair>, onRows: bool, from: int, to: int, p: Pair)
    ensures p in Outside(ps, onRows, from, to) <==>
              p in ps && ((if onRows then p.row else p.col) < from || (if onRows then p.row else p.col) >= to)
    decreases |ps|
  {
    if |ps| > 0 {
      var init := ps[..|ps| - 1];
      OutsideMembers(init, onRows, from, to, p);
      assert ps == init + [ps[|ps| - 1]];
    }
  }

  /** Every pair Outside keeps is a pair of ps, so it stays below whatever ps stays below. */
  lemma {:induction false} OutsideSorted(ps: seq<Pair>, onRows: bool, from: int, to: int)
    requires RowSorted(ps)
    ensures RowSorted(Outside(ps, onRows, from, to))
    decreases |ps|
  {
    if |ps| > 0 {
      var init := ps[..|ps| - 1];
      var last := ps[|ps| - 1];
      OutsideSorted(init, onRows, from, to);
      var kept := Outside(init, onRows, from, to);
      forall q | q in kept
        ensures q.row < last.row
      {
        OutsideMembers(init, onRows, from, to, q);
        var k :| 0 <= k < |init| && init[k] == q;
        assert ps[k] == q;
      }
    }
  }

  /** The loop of removeRowRegion and removeColRegion: the pairs outside the region, in order. */
  method KeepOutside(ps: seq<Pair>, onRows: bool, from: int, to: int) returns (kept: seq<Pair>)
    ensures kept == Outside(ps, onRows, from, to)
  {
    kept := [];
    var i := 0;
    while i < |ps|
      invariant 0 <= i <= |ps|
      invariant kept == Outside(ps[..i], onRows, from, to)
    {
      var p := ps[i];
      var x := if onRows then p.row else p.col;
      assert ps[..i + 1][..i] == ps[..i];
      if x < from || x >= to {
        kept := kept + [p];
      }
      i := i + 1;
    }
    assert ps[..|ps|] == ps;
  }

  /**
   * removeRowRegion, generic version: the rebuilt alignment keeps exactly
   * the pairs whose row lies outside [from, to), in their order, and the score.
   */
  method RemoveRowRegion(a: Alignment, from: int, to: int) returns (r: Alignment)
    ensures r.score == a.score
    ensures r.pairs == Outside(a.pairs, true, from, to)
    ensures forall p :: p in r.pairs <==> p in a.pairs && (p.row < from || p.row >= to)
    ensures RowSorted(a.pairs) ==> RowSorted(r.pairs)
  {
    var kept := KeepOutside(a.pairs, true, from, to);
    forall p
      ensures p in kept <==> p in a.pairs && (p.row < from || p.row >= to)
    {
      OutsideMembers(a.pairs, true, from, to, p);
    }
    if RowSorted(a.pairs) {
      OutsideSorted(a.pairs, true, from, to);
    }
    r := Alignment(kept, a.score);
  }

  /**
   * removeColRegion, generic version: keeps exactly the pairs whose column
   * lies outside [from, to), in their order, and the score.
   */
  method RemoveColRegion(a: Alignment, from: int, to: int) returns (r: Alignment)
    ensures r.score == a.score
    ensures r.pairs == Outside(a.pairs, false, from, to)
    ensures forall p :: p in r.pairs <==> p in a.pairs && (p.col < from || p.col >= to)
    ensures RowSorted(a.pairs) ==> RowSorted(r.pairs)
  {
    var kept := KeepOutside(a.pairs, false, from, to);
    forall p
      ensures p in kept <==> p in a.pairs && (p.col < from || p.col >= to)
    {
      OutsideMembers(a.pairs, false, from, to, p);
    }
    if RowSorted(a.pairs) {
      OutsideSorted(a.pairs, false, from, to);
    }
    r := Alignment(kept, a.score);
  }
}
