/**
 * ImplAlignatum: one row of a multiple alignment as text. The row is the
 * representation string, residues interleaved with gap characters, together
 * with the residue numbers [from, to) of the first and one past the last
 * residue it shows.
 */
module Alignatum {
  import opened Pairs

  /** The gap character of the default translator. */
  const GAP: char := '-'

  /** A run of n gap characters; a loop `for (i = 0; i < n; i++)` adds none for n <= 0. */
  function Gaps(n: int): (r: seq<char>)
    ensures |r| == (if n > 0 then n else 0)
    ensures forall i :: 0 <= i < |r| ==> r[i] == GAP
  {
    seq(if n > 0 then n else 0, _ => GAP)
  }

  /** Every character is a gap. */
  predicate GapsOnly(x: seq<char>)
  {
    forall i :: 0 <= i < |x| ==> x[i] == GAP
  }

  /** The residues of a row: its characters other than the gap, in order. */
  function Residues(s: seq<char>): (r: seq<char>)
    ensures |r| <= |s|
    ensures forall i :: 0 <= i < |r| ==> r[i] != GAP
    decreases |s|
  {
    if |s| == 0 then []
    else Residues(s[..|s| - 1]) + (if s[|s| - 1] == GAP then [] else [s[|s| - 1]])
  }

  /** The number of gap characters of a row. */
  function GapCount(s: seq<char>): (n: nat)
    ensures n <= |s|
    ensures n == |s| <==> forall i :: 0 <= i < |s| ==> s[i] == GAP
    decreases |s|
  {
    if |s| == 0 then 0
    else
      var k := GapCount(s[..|s| - 1]);
      assert forall i :: 0 <= i < |s| - 1 ==> s[..|s| - 1][i] == s[i];
      k + (if s[|s| - 1] == GAP then 1 else 0)
  }

  /**
   * getResidueNumberNext: the number of the first residue at or after
   * string position pos, counting from `from`; NO_POS outside the string.
   */
  function NextNumber(s: seq<char>, from: int, pos: int): int
  {
    if pos < 0 || pos >= |s| then NO_POS else from + |Residues(s[..pos])|
  }

  /**
   * getResidueNumberPrevious: one past the number of the last residue at or
   * before string position pos, counting back from `to`; NO_POS outside the
   * string.
   */
  function PreviousNumber(s: seq<char>, to: int, pos: int): int
  {
    if pos < 0 || pos >= |s| then NO_POS else to - |Residues(s[pos + 1..])|
  }

  /** find_first_not_of(gap), or the length of the string when there is none. */
  function LeadingGaps(s: seq<char>): (n: nat)
    ensures n <= |s|
    ensures forall i :: 0 <= i < n ==> s[i] == GAP
    ensures n < |s| ==> s[n] != GAP
    decreases |s|
  {
    if |s| == 0 || s[0] != GAP then 0
    else
      var k := LeadingGaps(s[1..]);
      assert forall i :: 1 <= i < |s| ==> s[i] == s[1..][i - 1];
      1 + k
  }

  /** find_last_not_of(gap) + 1, which is 0 when there is none (npos + 1 wraps to 0). */
  function TrailingStart(s: seq<char>): (n: nat)
    ensures n <= |s|
    ensures forall i :: n <= i < |s| ==> s[i] == GAP
    ensures n > 0 ==> s[n - 1] != GAP
    decreases |s|
  {
    if |s| == 0 || s[|s| - 1] != GAP then |s|
    else
      var k := TrailingStart(s[..|s| - 1]);
      assert forall i :: 0 <= i < |s| - 1 ==> s[..|s| - 1][i] == s[i];
      k
  }

  /**
   * removeEndGaps on a string: the leading gaps are erased, then everything
   * after the last residue. What is left starts and ends with a residue, and
   * no residue is lost.
   */
  function Stripped(s: seq<char>): (r: seq<char>)
    ensures r == [] || (r[0] != GAP && r[|r| - 1] != GAP)
    ensures Residues(r) == Residues(s)
  {
    var lead := LeadingGaps(s);
    var e := TrailingStart(s[lead..]);
    var r := s[lead..lead + e];
    StripFrame(s, lead, e);
    assert r != [] ==> r[0] == s[lead] && r[|r| - 1] == s[lead..][e - 1];
    FramedResidues(s[..lead], r, s[lead + e..]);
    r
  }

  /** insertGaps on a string: count gap characters at position. */
  function Inserted(s: seq<char>, position: int, count: int): (r: seq<char>)
    requires 0 <= position <= |s|
    ensures |r| == |s| + |Gaps(count)|
    ensures Residues(r) == Residues(s)
  {
    var r := s[..position] + Gaps(count) + s[position..];
    ResiduesConcat(s[..position] + Gaps(count), s[position..]);
    ResiduesConcat(s[..position], Gaps(count));
    assert GapsOnly(Gaps(count));
    NoResiduesInGaps(Gaps(count));
    ResiduesConcat(s[..position], s[position..]);
    assert s[..position] + s[position..] == s;
    r
  }

  /**
   * std::string::erase(pos, n): n characters from pos, or every character
   * from pos on when fewer remain (a negative n, taken as an unsigned count,
   * is larger than any string).
   */
  function Erase(s: seq<char>, pos: int, n: int): (r: seq<char>)
    requires 0 <= pos <= |s|
    ensures pos <= |r| <= |s| && r[..pos] == s[..pos]
    ensures 0 <= n && pos + n <= |s| ==> |r| == |s| - n && r[pos..] == s[pos + n..]
    ensures n < 0 || pos + n >= |s| ==> |r| == pos
  {
    if n < 0 || pos + n >= |s| then s[..pos] else s[..pos] + s[pos + n..]
  }

  /** removeColumns as written: it erases position + count characters from position. */
  function RemovedAsWritten(s: seq<char>, position: int, count: int): seq<char>
    requires 0 <= position <= |s|
  {
    Erase(s, position, position + count)
  }

  /** removeColumns as intended: count characters from position. */
  function Removed(s: seq<char>, position: int, count: int): (r: seq<char>)
    requires 0 <= position <= |s|
    ensures 0 <= count && position + count <= |s| ==> |r| == |s| - count
  {
    Erase(s, position, count)
  }

  /**
   * The string mapOnAlignment builds before the unaligned characters: every
   * pair of the map, in iteration order, copies the character of its row to
   * the position of its column.
   */
  function Paint(canvas: seq<char>, s: seq<char>, m: seq<Pair>): (r: seq<char>)
    requires forall k :: 0 <= k < |m| ==> 0 <= m[k].row < |s| && 0 <= m[k].col < |canvas|
    ensures |r| == |canvas|
    decreases |m|
  {
    if |m| == 0 then canvas
    else
      var last := m[|m| - 1];
      Paint(canvas, s, m[..|m| - 1])[last.col := s[last.row]]
  }

  class Alignatum {
    var rep: seq<char>
    var from: int
    var to: int
    var length: int

    /** mLength is the length of the representation. */
    ghost predicate Valid()
      reads this
    {
      length == |rep|
    }

    /** The residue numbers [from, to) count exactly the residues shown. */
    ghost predicate Consistent()
      reads this
    {
      to == from + |Residues(rep)|
    }

    /**
     * The constructor from a string: a non-empty string without a first
     * residue number starts at 0; without a last residue number, `to` is
     * `from` plus the residues of the string.
     */
    constructor (representation: seq<char>, first: int, last: int)
      ensures Valid() && rep == representation
      ensures from == (if first == NO_POS && |representation| > 0 then 0 else first)
      ensures last != NO_POS ==> to == last
      ensures last == NO_POS ==> Consistent() && TrueLength() == |Residues(representation)|
    {
      rep := representation;
      from, to := first, last;
      length := |representation|;
      new;
      if from == NO_POS && length > 0 {
        from := 0;
      }
      if to == NO_POS {
        var ngaps := CountGaps();
        to := from + length - ngaps;
        GapsAndResidues(rep);
      }
    }

    /** getTrueLength: the number of residues between the residue numbers. */
    function TrueLength(): int
      reads this
    {
      to - from
    }

    /** countGaps: the gap characters of the representation. */
    method CountGaps() returns (n: nat)
      ensures n == GapCount(rep)
    {
      n := 0;
      var i := 0;
      while i < |rep|
        invariant 0 <= i <= |rep| && n == GapCount(rep[..i])
      {
        assert rep[..i + 1][..i] == rep[..i];
        if rep[i] == GAP {
          n := n + 1;
        }
        i := i + 1;
      }
      assert rep[..i] == rep;
    }

    /** addGaps: before gaps in front, after gaps at the back; the residue numbers stay. */
    method AddGaps(before: int, after: int)
      requires Valid()
      modifies this
      ensures Valid() && rep == Gaps(before) + old(rep) + Gaps(after)
      ensures from == old(from) && to == old(to)
      ensures Residues(rep) == Residues(old(rep)) && (Consistent() <==> old(Consistent()))
    {
      var x := GapRun(before);
      x := x + rep;
      var tail := GapRun(after);
      rep := x + tail;
      length := |rep|;
      PaddingKeepsResidues(old(rep), before, after);
    }

    /**
     * insertGaps: count gaps at position. std::string::insert throws
     * std::out_of_range for a position beyond the string (a negative one
     * converts to such a position).
     */
    method InsertGaps(position: int, count: int) returns (r: Outcome)
      requires Valid()
      modifies this
      ensures Valid() && from == old(from) && to == old(to)
      ensures r.Thrown? <==> position < 0 || position > |old(rep)|
      ensures r.Thrown? ==> rep == old(rep)
      ensures r.Done? ==> rep == Inserted(old(rep), position, count)
      ensures Residues(rep) == Residues(old(rep)) && (Consistent() <==> old(Consistent()))
    {
      var insertion := GapRun(count);
      if position < 0 || position > |rep| {
        return Thrown("out_of_range");
      }
      rep := rep[..position] + insertion + rep[position..];
      length := |rep|;
      r := Done;
    }

    /** removeEndGaps: the leading and trailing gaps are erased; the residue numbers stay. */
    method RemoveEndGaps()
      requires Valid()
      modifies this
      ensures Valid() && rep == Stripped(old(rep))
      ensures from == old(from) && to == old(to)
      ensures Consistent() <==> old(Consistent())
    {
      rep := rep[LeadingGaps(rep)..];
      rep := rep[..TrailingStart(rep)];
      length := |rep|;
    }

    /** removeColumns as written: position + count characters go, and mLength is not updated. */
    method RemoveColumnsAsWritten(position: int, count: int) returns (r: Outcome)
      modifies this
      ensures from == old(from) && to == old(to) && length == old(length)
      ensures r.Thrown? <==> position < 0 || position > |old(rep)|
      ensures r.Thrown? ==> rep == old(rep)
      ensures r.Done? ==> rep == RemovedAsWritten(old(rep), position, count)
    {
      if position < 0 || position > |rep| {
        return Thrown("out_of_range");
      }
      rep := Erase(rep, position, position + count);
      r := Done;
    }

    /** removeColumns: count characters go from position, and mLength follows. */
    method RemoveColumns(position: int, count: int) returns (r: Outcome)
      requires Valid()
      modifies this
      ensures Valid() && from == old(from) && to == old(to)
      ensures r.Thrown? <==> position < 0 || position > |old(rep)|
      ensures r.Thrown? ==> rep == old(rep)
      ensures r.Done? ==> rep == Removed(old(rep), position, count)
    {
      if position < 0 || position > |rep| {
        return Thrown("out_of_range");
      }
      rep := Erase(rep, position, count);
      length := |rep|;
      r := Done;
    }

    /** getResidueNumberNext: skip the leading gaps, then count the residues before pos. */
    method GetResidueNumberNext(pos: int) returns (r: int)
      ensures r == NextNumber(rep, from, pos)
    {
      if pos == NO_POS || pos < 0 || pos >= |rep| {
        return NO_POS;
      }
      var i := 0;
      while i < pos && rep[i] == GAP
        invariant 0 <= i <= pos && Residues(rep[..i]) == []
      {
        assert rep[..i + 1][..i] == rep[..i];
        i := i + 1;
      }
      r := from;
      while i < pos
        invariant 0 <= i <= pos && r == from + |Residues(rep[..i])|
      {
        assert rep[..i + 1][..i] == rep[..i];
        if rep[i] != GAP {
          r := r + 1;
        }
        i := i + 1;
      }
    }

    /** getResidueNumberPrevious: skip the trailing gaps, then count back the residues after pos. */
    method GetResidueNumberPrevious(pos: int) returns (r: int)
      ensures r == PreviousNumber(rep, to, pos)
    {
      if pos == NO_POS || pos < 0 || pos >= |rep| {
        return NO_POS;
      }
      var i := |rep| - 1;
      while i >= pos && rep[i] == GAP
        invariant pos - 1 <= i < |rep| && Residues(rep[i + 1..]) == []
      {
        ResiduesCons(rep, i);
        i := i - 1;
      }
      if i < pos {
        ResiduesCons(rep, pos);
        return to;
      }
      r := to;
      while i > pos
        invariant pos <= i < |rep| && r == to - |Residues(rep[i + 1..])|
      {
        ResiduesCons(rep, i);
        if rep[i] != GAP {
          r := r - 1;
        }
        i := i - 1;
      }
    }

    /**
     * mapOnAlignment (without unaligned characters): an empty map throws.
     * Otherwise the new row has max(newLength, getColTo) positions, every
     * pair copies the character of its row to its column and every other
     * position is a gap; from and to become the residue numbers, in the old
     * row, of the first and last aligned positions.
     */
    method MapOnAlignment(m: seq<Pair>, newLength: int) returns (r: Outcome)
      requires Valid()
      requires |m| > 0 ==> Positioned(m) && RowTo(m) <= |rep|
      modifies this
      ensures Valid()
      ensures r.Thrown? <==> |m| == 0
      ensures r.Thrown? ==> rep == old(rep) && from == old(from) && to == old(to)
      ensures r.Done? ==> |rep| == Longer(newLength, ColTo(m))
      ensures r.Done? ==> rep == Paint(Gaps(Longer(newLength, ColTo(m))), old(rep), m)
      ensures r.Done? ==> from == NextNumber(old(rep), old(from), RowFrom(m))
      ensures r.Done? ==> to == PreviousNumber(old(rep), old(to), RowTo(m) - 1)
    {
      if |m| == 0 {
        return Thrown("attempting to map an Alignatum object with an empty alignment");
      }
      var n := Longer(newLength, ColTo(m));
      var painted := Gaps(n);
      var rowFrom := RowFrom(m);
      var rowTo := RowTo(m);
      var first := GetResidueNumberNext(rowFrom);
      var last := GetResidueNumberPrevious(rowTo - 1);
      var k := 0;
      while k < |m|
        invariant 0 <= k <= |m| && painted == Paint(Gaps(n), rep, m[..k])
      {
        assert m[..k + 1][..k] == m[..k];
        painted := painted[m[k].col := rep[m[k].row]];
        k := k + 1;
      }
      assert m[..k] == m;
      from, to := first, last;
      rep := painted;
      length := |rep|;
      r := Done;
    }
  }

  /** The loop `for (i = 0; i < n; i++) x += gap`. */
  method GapRun(n: int) returns (x: seq<char>)
    ensures x == Gaps(n)
  {
    x := [];
    var i := 0;
    while i < n
      invariant (n > 0 ==> 0 <= i <= n) && (n <= 0 ==> i == 0) && x == Gaps(i)
    {
      x := x + [GAP];
      i := i + 1;
    }
  }

  /** How a call that may throw ended. */
  datatype Outcome = Done | Thrown(reason: string)

  /** The residues of a concatenation are those of its parts. */
  lemma {:induction false} ResiduesConcat(a: seq<char>, b: seq<char>)
    ensures Residues(a + b) == Residues(a) + Residues(b)
    decreases |b|
  {
    if |b| > 0 {
      var c := b[..|b| - 1];
      assert (a + b)[..|a + b| - 1] == a + c;
      ResiduesConcat(a, c);
    } else {
      assert a + b == a;
    }
  }

  /** A string of gaps holds no residue. */
  lemma {:induction false} NoResiduesInGaps(s: seq<char>)
    requires GapsOnly(s)
    ensures Residues(s) == []
    decreases |s|
  {
    if |s| > 0 {
      NoResiduesInGaps(s[..|s| - 1]);
    }
  }

  /** Reading from position i on: the character at i, then the rest. */
  lemma ResiduesCons(s: seq<char>, i: int)
    requires 0 <= i < |s|
    ensures Residues(s[i..]) == (if s[i] == GAP then [] else [s[i]]) + Residues(s[i + 1..])
  {
    assert s[i..] == [s[i]] + s[i + 1..];
    ResiduesConcat([s[i]], s[i + 1..]);
    assert [s[i]][..0] == [];
  }

  /** countGaps and the residues split the string: gaps + residues = length. */
  lemma {:induction false} GapsAndResidues(s: seq<char>)
    ensures GapCount(s) + |Residues(s)| == |s|
    decreases |s|
  {
    if |s| > 0 {
      GapsAndResidues(s[..|s| - 1]);
    }
  }

  /** Gaps around a string add no residue. */
  lemma FramedResidues(a: seq<char>, s: seq<char>, b: seq<char>)
    requires GapsOnly(a) && GapsOnly(b)
    ensures Residues(a + s + b) == Residues(s)
  {
    ResiduesConcat(a + s, b);
    ResiduesConcat(a, s);
    NoResiduesInGaps(a);
    NoResiduesInGaps(b);
  }

  /** addGaps adds no residue. */
  lemma PaddingKeepsResidues(s: seq<char>, before: int, after: int)
    ensures Residues(Gaps(before) + s + Gaps(after)) == Residues(s)
  {
    assert GapsOnly(Gaps(before)) && GapsOnly(Gaps(after));
    FramedResidues(Gaps(before), s, Gaps(after));
  }

  /** The parts removeEndGaps cuts off: the string is its leading gaps, the stripped part and its trailing gaps. */
  lemma StripFrame(s: seq<char>, lead: nat, e: nat)
    requires lead == LeadingGaps(s) && e == TrailingStart(s[lead..])
    ensures lead + e <= |s| && s == s[..lead] + s[lead..lead + e] + s[lead + e..]
    ensures GapsOnly(s[..lead]) && GapsOnly(s[lead + e..])
  {
    var t := s[lead..];
    forall i | lead + e <= i < |s|
      ensures s[i] == GAP
    {
      assert s[i] == t[i - lead];
    }
    Split3(s, lead, lead + e);
  }

  /** A string is its three consecutive slices. */
  lemma Split3(s: seq<char>, i: int, j: int)
    requires 0 <= i <= j <= |s|
    ensures s == s[..i] + s[i..j] + s[j..]
  {
    assert s[..i] + s[i..j] == s[..j];
    assert s[..j] + s[j..] == s;
  }

  /** Concatenation regrouped around a middle part. */
  lemma SeqRegroup(a: seq<char>, b: seq<char>, r: seq<char>, c: seq<char>, d: seq<char>)
    ensures a + (b + r + c) + d == (a + b) + r + (c + d)
  {
  }

  /**
   * addGaps keeps the residue numbering: the residue numbers seen from a
   * position of the old row are those seen from the same character in the
   * padded row.
   */
  lemma PaddingKeepsNumbers(s: seq<char>, from: int, to: int, before: int, after: int, pos: int)
    requires 0 <= pos < |s|
    ensures NextNumber(Gaps(before) + s + Gaps(after), from, pos + |Gaps(before)|) == NextNumber(s, from, pos)
    ensures PreviousNumber(Gaps(before) + s + Gaps(after), to, pos + |Gaps(before)|) == PreviousNumber(s, to, pos)
  {
    var g := Gaps(before);
    var t := g + s + Gaps(after);
    var p := pos + |g|;
    assert t[..p] == g + s[..pos];
    ResiduesConcat(g, s[..pos]);
    NoResiduesInGaps(g);
    assert t[p + 1..] == s[pos + 1..] + Gaps(after);
    ResiduesConcat(s[pos + 1..], Gaps(after));
    NoResiduesInGaps(Gaps(after));
  }

  /**
   * In a row whose residue numbers count its residues, the two numberings
   * meet: at a residue, Previous is one past Next (the residue's own
   * number); at a gap, both give the number of the next residue.
   */
  lemma NextMeetsPrevious(s: seq<char>, from: int, to: int, pos: int)
    requires to == from + |Residues(s)| && 0 <= pos < |s|
    ensures PreviousNumber(s, to, pos) == NextNumber(s, from, pos) + (if s[pos] == GAP then 0 else 1)
  {
    assert s == s[..pos] + s[pos..];
    ResiduesConcat(s[..pos], s[pos..]);
    ResiduesCons(s, pos);
  }

  /** The number of the next residue lies within [from, from + residues]. */
  lemma NextNumberBounds(s: seq<char>, from: int, pos: int)
    requires 0 <= pos < |s|
    ensures from <= NextNumber(s, from, pos) <= from + |Residues(s)|
  {
    assert s == s[..pos] + s[pos..];
    ResiduesConcat(s[..pos], s[pos..]);
  }

  /** A string made of gaps, a part that starts and ends with a residue, and gaps strips to that part. */
  lemma StrippedUnique(s: seq<char>, g1: seq<char>, r: seq<char>, g2: seq<char>)
    requires s == g1 + r + g2 && GapsOnly(g1) && GapsOnly(g2)
    requires r == [] || (r[0] != GAP && r[|r| - 1] != GAP)
    ensures Stripped(s) == r
  {
    var g := |g1|;
    if r == [] {
      assert forall i :: 0 <= i < |s| ==> s[i] == GAP;
      assert LeadingGaps(s) == |s|;
    } else {
      var n := LeadingGaps(s);
      assert s[g] == r[0];
      assert n == g;
      var t := s[g..];
      assert t == r + g2;
      var e := TrailingStart(t);
      assert t[|r| - 1] == r[|r| - 1];
      assert e == |r|;
      assert s[g..g + e] == r;
    }
  }

  /** Two runs of gaps make one. */
  lemma GapsOnlyConcat(a: seq<char>, b: seq<char>)
    requires GapsOnly(a) && GapsOnly(b)
    ensures GapsOnly(a + b)
  {
    forall i | 0 <= i < |a + b| ensures (a + b)[i] == GAP {
      if i >= |a| {
        assert (a + b)[i] == b[i - |a|];
      }
    }
  }

  /** Stripping ignores runs of gaps added on either side. */
  lemma StripIgnoresFrame(s: seq<char>, pb: seq<char>, pa: seq<char>)
    requires GapsOnly(pb) && GapsOnly(pa)
    ensures Stripped(pb + s + pa) == Stripped(s)
  {
    var lead := LeadingGaps(s);
    var e := TrailingStart(s[lead..]);
    var r := s[lead..lead + e];
    StripFrame(s, lead, e);
    assert Stripped(s) == r;
    var g1, g2 := s[..lead], s[lead + e..];
    GapsOnlyConcat(pb, g1);
    GapsOnlyConcat(g2, pa);
    SeqRegroup(pb, g1, r, g2, pa);
    StrippedUnique(pb + s + pa, pb + g1, r, g2 + pa);
  }

  /** removeEndGaps undoes addGaps. */
  lemma StripUndoesPadding(s: seq<char>, before: int, after: int)
    ensures Stripped(Gaps(before) + s + Gaps(after)) == Stripped(s)
  {
    StripIgnoresFrame(s, Gaps(before), Gaps(after));
  }

  /** removeEndGaps a second time changes nothing. */
  lemma StrippedIdempotent(s: seq<char>)
    ensures Stripped(Stripped(s)) == Stripped(s)
  {
    var r := Stripped(s);
    assert [] + r + [] == r;
    StrippedUnique(r, [], r, []);
  }

  /** removeColumns after insertGaps at the same place with the same count gives back the row. */
  lemma RemoveUndoesInsert(s: seq<char>, position: int, count: nat)
    requires 0 <= position <= |s|
    ensures Removed(Inserted(s, position, count), position, count) == s
  {
    var t := Inserted(s, position, count);
    assert t[..position] == s[..position];
    if position + count >= |t| {
      assert position == |s|;
    } else {
      assert t[position + count..] == s[position..];
    }
    assert s == s[..position] + s[position..];
  }

  /**
   * removeColumns as written does not undo insertGaps: after one gap is
   * inserted at position 1 of "ABCDE", removing one column there erases two
   * characters, the gap and the residue 'B'.
   */
  lemma RemoveColumnsOvershoots()
    ensures Inserted("ABCDE", 1, 1) == "A-BCDE"
    ensures RemovedAsWritten("A-BCDE", 1, 1) == "ACDE"
    ensures Removed("A-BCDE", 1, 1) == "ABCDE"
  {
    assert Gaps(1) == "-";
    assert "ABCDE"[..1] + "-" + "ABCDE"[1..] == "A-BCDE";
    assert "A-BCDE"[..1] + "A-BCDE"[3..] == "ACDE";
    assert "A-BCDE"[..1] + "A-BCDE"[2..] == "ABCDE";
  }

  /** Painting leaves the positions no pair maps to as they were. */
  lemma {:induction false} PaintElsewhere(canvas: seq<char>, s: seq<char>, m: seq<Pair>, c: int)
    requires forall k :: 0 <= k < |m| ==> 0 <= m[k].row < |s| && 0 <= m[k].col < |canvas|
    requires 0 <= c < |canvas| && forall k :: 0 <= k < |m| ==> m[k].col != c
    ensures Paint(canvas, s, m)[c] == canvas[c]
    decreases |m|
  {
    if |m| > 0 {
      PaintElsewhere(canvas, s, m[..|m| - 1], c);
    }
  }

  /** The last pair that maps to a column decides its character: that of the pair's row. */
  lemma {:induction false} PaintAt(canvas: seq<char>, s: seq<char>, m: seq<Pair>, k: int)
    requires forall j :: 0 <= j < |m| ==> 0 <= m[j].row < |s| && 0 <= m[j].col < |canvas|
    requires 0 <= k < |m| && forall j :: k < j < |m| ==> m[j].col != m[k].col
    ensures Paint(canvas, s, m)[m[k].col] == s[m[k].row]
    decreases |m|
  {
    if k < |m| - 1 {
      var init := m[..|m| - 1];
      assert init[k] == m[k];
      PaintAt(canvas, s, init, k);
    }
  }

  /**
   * For a map whose columns increase, the mapped row shows at each pair's
   * column the character of its row and a gap everywhere else.
   */
  lemma MappedRow(s: seq<char>, m: seq<Pair>, n: nat)
    requires ColSorted(m) && forall k :: 0 <= k < |m| ==> 0 <= m[k].row < |s| && 0 <= m[k].col < n
    ensures forall k :: 0 <= k < |m| ==> Paint(Gaps(n), s, m)[m[k].col] == s[m[k].row]
    ensures forall c :: 0 <= c < n && (forall k :: 0 <= k < |m| ==> m[k].col != c) ==> Paint(Gaps(n), s, m)[c] == GAP
  {
    forall k | 0 <= k < |m|
      ensures Paint(Gaps(n), s, m)[m[k].col] == s[m[k].row]
    {
      PaintAt(Gaps(n), s, m, k);
    }
    forall c | 0 <= c < n && (forall k :: 0 <= k < |m| ==> m[k].col != c)
      ensures Paint(Gaps(n), s, m)[c] == GAP
    {
      PaintElsewhere(Gaps(n), s, m, c);
    }
  }
}
