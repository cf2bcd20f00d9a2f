/**
 * ImplAlignandum: the part of an alignable object (a sequence or a profile)
 * that is independent of its residues: the full length, the active segment
 * [from, to) that aligners work on, and the mask flags of the positions.
 */
module Alignandum {
  import opened Pairs

  class Alignandum {
    var from: int
    var to: int
    var length: int
    var masked: seq<bool>

    /** There is one mask flag per residue. */
    ghost predicate Valid()
      reads this
    {
      |masked| == length
    }

    /** The constructor: no segment, no residues. */
    constructor ()
      ensures Valid()
      ensures from == NO_POS && to == NO_POS && length == 0 && masked == []
    {
      from, to, length, masked := NO_POS, NO_POS, 0, [];
    }

    /** getLength: the length of the active segment. */
    function GetLength(): int
      reads this
    {
      to - from
    }

    /** isMasked: the mask flag of a position. */
    function IsMasked(pos: int): bool
      reads this
      requires 0 <= pos < |masked|
    {
      masked[pos]
    }

    /**
     * useSegment: NO_POS as the start means the first residue, NO_POS as
     * the end means the last one, and an end beyond the residues is clipped.
     */
    method UseSegment(first: int, last: int)
      requires first <= last
      modifies this
      ensures length == old(length) && masked == old(masked)
      ensures from == (if first == NO_POS then 0 else first)
      ensures last == NO_POS ==> to == length
      ensures last != NO_POS ==> to == (if last <= length then last else length)
      ensures to <= length
      ensures first == NO_POS && last == NO_POS ==> GetLength() == length
      ensures first != NO_POS && last != NO_POS && last <= length ==> GetLength() == last - first
    {
      if first == NO_POS {
        from := 0;
      } else {
        from := first;
      }
      if last == NO_POS {
        to := length;
      } else {
        to := if last <= length then last else length;
      }
    }

    /**
     * setTrueLength: the residues become [0, newLength) and all of them are
     * active; the mask keeps its flags and new positions start unmasked.
     */
    method SetTrueLength(newLength: nat)
      modifies this
      ensures Valid()
      ensures from == 0 && to == newLength && length == newLength && GetLength() == newLength
      ensures forall p :: 0 <= p < newLength ==> IsMasked(p) == (p < |old(masked)| && old(masked)[p])
    {
      from := 0;
      to, length := newLength, newLength;
      masked := Resized(masked, newLength);
    }

    /** mask(pos): one position is excluded. */
    method Mask(pos: int)
      requires 0 <= pos < |masked|
      modifies this
      ensures from == old(from) && to == old(to) && length == old(length)
      ensures |masked| == |old(masked)| && IsMasked(pos)
      ensures forall p :: 0 <= p < |masked| && p != pos ==> IsMasked(p) == old(masked)[p]
    {
      masked := masked[pos := true];
    }

    /** mask(from, to): every position of [first, last) is excluded, the others keep their flag. */
    method MaskRange(first: int, last: int)
      requires first >= last || (0 <= first && last <= |masked|)
      modifies this
      ensures from == old(from) && to == old(to) && length == old(length)
      ensures |masked| == |old(masked)|
      ensures forall p :: 0 <= p < |masked| ==> IsMasked(p) == (first <= p < last || old(masked)[p])
    {
      var j := first;
      while j < last
        invariant first <= last ==> first <= j <= last
        invariant last < first ==> j == first
        invariant from == old(from) && to == old(to) && length == old(length)
        invariant |masked| == |old(masked)|
        invariant forall p :: 0 <= p < |masked| ==> masked[p] == (first <= p < j || old(masked)[p])
      {
        Mask(j);
        j := j + 1;
      }
    }
  }

  /** std::vector::resize with false as the fill value. */
  function Resized(flags: seq<bool>, n: nat): (r: seq<bool>)
    ensures |r| == n
    ensures forall p :: 0 <= p < n ==> r[p] == (p < |flags| && flags[p])
  {
    if n <= |flags| then flags[..n]
    else flags + seq(n - |flags|, _ => false)
  }
}
