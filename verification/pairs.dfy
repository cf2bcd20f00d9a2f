/**
 * Residue pairs, the sentinel position and the bounds of a pair list.
 * An alignment is observed as the list of its pairs in iteration order.
 */
module Pairs {

  /** Sentinel for "no position": positions proper are 0-based. */
  const NO_POS: int := -1

  /** A ResiduePAIR: an aligned row residue, column residue and score. */
  datatype Pair = Pair(row: int, col: int, score: int)

  datatype Option<T> = None | Some(value: T)

  /** The exception paths of the library become the Fail alternative. */
  datatype Result<T> = Ok(value: T) | Fail(reason: string)

  /** How mapRowToCol treats a row that is not aligned. */
  datatype Search = NoSearch | Left | Right

  /** std::max of two lengths. */
  function Longer(a: int, b: int): int
  {
    if a >= b then a else b
  }

  /** calculateDiagonal: the diagonal a pair lies on. */
  function Diagonal(p: Pair): int
  {
    p.col - p.row
  }

  /** Rows strictly increase along the list: the pairs form a partial map row -> col. */
  predicate RowSorted(ps: seq<Pair>)
  {
    forall i, j :: 0 <= i < j < |ps| ==> ps[i].row < ps[j].row
  }

  /** Columns strictly increase along the list. */
  predicate ColSorted(ps: seq<Pair>)
  {
    forall i, j :: 0 <= i < j < |ps| ==> ps[i].col < ps[j].col
  }

  /** Every coordinate is a real position (not NO_POS). */
  predicate Positioned(ps: seq<Pair>)
  {
    forall i :: 0 <= i < |ps| ==> ps[i].row >= 0 && ps[i].col >= 0
  }

  function MinRow(ps: seq<Pair>): (r: int)
    requires |ps| > 0
    ensures forall i :: 0 <= i < |ps| ==> r <= ps[i].row
    ensures exists i :: 0 <= i < |ps| && ps[i].row == r
  {
    if |ps| == 1 then ps[0].row
    else
      var m := MinRow(ps[1..]);
      assert forall i :: 1 <= i < |ps| ==> ps[i] == ps[1..][i - 1];
      if ps[0].row <= m then ps[0].row else m
  }

  function MaxRow(ps: seq<Pair>): (r: int)
    requires |ps| > 0
    ensures forall i :: 0 <= i < |ps| ==> ps[i].row <= r
    ensures exists i :: 0 <= i < |ps| && ps[i].row == r
  {
    if |ps| == 1 then ps[0].row
    else
      var m := MaxRow(ps[1..]);
      assert forall i :: 1 <= i < |ps| ==> ps[i] == ps[1..][i - 1];
      if ps[0].row >= m then ps[0].row else m
  }

  function MinCol(ps: seq<Pair>): (r: int)
    requires |ps| > 0
    ensures forall i :: 0 <= i < |ps| ==> r <= ps[i].col
    ensures exists i :: 0 <= i < |ps| && ps[i].col == r
  {
    if |ps| == 1 then ps[0].col
    else
      var m := MinCol(ps[1..]);
      assert forall i :: 1 <= i < |ps| ==> ps[i] == ps[1..][i - 1];
      if ps[0].col <= m then ps[0].col else m
  }

  function MaxCol(ps: seq<Pair>): (r: int)
    requires |ps| > 0
    ensures forall i :: 0 <= i < |ps| ==> ps[i].col <= r
    ensures exists i :: 0 <= i < |ps| && ps[i].col == r
  {
    if |ps| == 1 then ps[0].col
    else
      var m := MaxCol(ps[1..]);
      assert forall i :: 1 <= i < |ps| ==> ps[i] == ps[1..][i - 1];
      if ps[0].col >= m then ps[0].col else m
  }

  /** The row of pair k is the smallest row when no pair lies below it. */
  lemma MinRowAt(ps: seq<Pair>, k: int)
    requires 0 <= k < |ps| && forall i :: 0 <= i < |ps| ==> ps[k].row <= ps[i].row
    ensures MinRow(ps) == ps[k].row
  {
    var i :| 0 <= i < |ps| && ps[i].row == MinRow(ps);
    assert MinRow(ps) <= ps[k].row;
  }

  lemma MaxRowAt(ps: seq<Pair>, k: int)
    requires 0 <= k < |ps| && forall i :: 0 <= i < |ps| ==> ps[i].row <= ps[k].row
    ensures MaxRow(ps) == ps[k].row
  {
    var i :| 0 <= i < |ps| && ps[i].row == MaxRow(ps);
    assert MaxRow(ps) >= ps[k].row;
  }

  lemma MinColAt(ps: seq<Pair>, k: int)
    requires 0 <= k < |ps| && forall i :: 0 <= i < |ps| ==> ps[k].col <= ps[i].col
    ensures MinCol(ps) == ps[k].col
  {
    var i :| 0 <= i < |ps| && ps[i].col == MinCol(ps);
    assert MinCol(ps) <= ps[k].col;
  }

  lemma MaxColAt(ps: seq<Pair>, k: int)
    requires 0 <= k < |ps| && forall i :: 0 <= i < |ps| ==> ps[i].col <= ps[k].col
    ensures MaxCol(ps) == ps[k].col
  {
    var i :| 0 <= i < |ps| && ps[i].col == MaxCol(ps);
    assert MaxCol(ps) >= ps[k].col;
  }

  /** getRowFrom: the smallest row, NO_POS for an empty alignment. */
  function RowFrom(ps: seq<Pair>): int
  {
    if |ps| == 0 then NO_POS else MinRow(ps)
  }

  /** getRowTo: one past the largest row (exclusive), NO_POS for an empty alignment. */
  function RowTo(ps: seq<Pair>): int
  {
    if |ps| == 0 then NO_POS else MaxRow(ps) + 1
  }

  function ColFrom(ps: seq<Pair>): int
  {
    if |ps| == 0 then NO_POS else MinCol(ps)
  }

  function ColTo(ps: seq<Pair>): int
  {
    if |ps| == 0 then NO_POS else MaxCol(ps) + 1
  }

  /** rf, rt, cf and ct are the bounds of ps: getRowFrom, getRowTo, getColFrom, getColTo. */
  predicate BoundsOf(ps: seq<Pair>, rf: int, rt: int, cf: int, ct: int)
  {
    rf == RowFrom(ps) && rt == RowTo(ps) && cf == ColFrom(ps) && ct == ColTo(ps)
  }
}
