/**
 * ImplMultAlignment: a multiple alignment kept as one map per sequence,
 * from the columns of the multiple alignment (rows of the map) to the
 * residues of the sequence, together with the length of the multiple
 * alignment and a flag per column saying whether the last map added
 * aligned a residue there.
 */
module MultAlignment {
  import opened Pairs
  import HelpersAlignment

  /** How a call that may throw ended. */
  datatype Outcome = Done | Thrown(reason: string)

  /** Some pair of m lies on row c. */
  ghost predicate Covers(m: seq<Pair>, c: int)
  {
    exists k :: 0 <= k < |m| && m[k].row == c
  }

  /** Every row of m is a column of a multiple alignment of length n. */
  predicate RowsWithin(m: seq<Pair>, n: int)
  {
    forall k :: 0 <= k < |m| ==> 0 <= m[k].row < n
  }

  /** The aligned flags of n columns after updateAligned with map m. */
  ghost function AlignedFlags(n: nat, m: seq<Pair>): (flags: seq<bool>)
    ensures |flags| == n
    ensures forall c :: 0 <= c < n ==> flags[c] == Covers(m, c)
  {
    seq(n, c => Covers(m, c))
  }

  /**
   * row is what combineAlignment in mode CR makes of m and s: every pair of
   * row is made of a pair of m and a pair of s that agree, and when m is
   * sorted on columns and s on rows, every such agreeing couple is in row.
   */
  ghost predicate Combined(m: seq<Pair>, s: seq<Pair>, row: seq<Pair>)
  {
    (forall k :: 0 <= k < |row| ==> HelpersAlignment.FromMatch(HelpersAlignment.CR, m, s, row[k])) &&
    (HelpersAlignment.Sorted1(HelpersAlignment.CR, m) && HelpersAlignment.Sorted2(HelpersAlignment.CR, s) ==>
       forall a, b :: HelpersAlignment.Matches(HelpersAlignment.CR, m, s, a, b) ==>
         HelpersAlignment.Joint(HelpersAlignment.CR, m[a], s[b]) in row)
  }

  class MultAlignment {
    var rows: seq<seq<Pair>>
    var aligned: seq<bool>
    var length: int

    /** There is a flag for every column (eraseRow may leave more flags than columns). */
    ghost predicate Valid()
      reads this
    {
      0 <= length <= |aligned|
    }

    /** The constructor: no rows, length 0. */
    constructor ()
      ensures Valid()
      ensures rows == [] && aligned == [] && length == 0
    {
      rows, aligned, length := [], [], 0;
    }

    /** isAligned: the flag of a column; a column outside [0, length) throws. */
    function IsAligned(col: int): (r: Result<bool>)
      reads this
      requires Valid()
      ensures r.Ok? <==> 0 <= col < length
      ensures r.Ok? ==> r.value == aligned[col]
    {
      if col < 0 || col >= length then Fail("out-of-range access")
      else Ok(aligned[col])
    }

    /** operator[] and getRow: the map of one sequence; an empty alignment or a row out of range throws. */
    function GetRow(row: int): (r: Result<seq<Pair>>)
      reads this
      ensures r.Ok? <==> 0 <= row < |rows|
      ensures r.Ok? ==> r.value == rows[row]
      ensures |rows| == 0 ==> r == Fail("alignment is empty")
    {
      if |rows| == 0 then Fail("alignment is empty")
      else if row < 0 || row >= |rows| then Fail("out-of-range access")
      else Ok(rows[row])
    }

    /**
     * updateAligned: the flags are reset to length false entries and the
     * flag of every row of the map is set. The source indexes the flags
     * by those rows unchecked, so they must lie in [0, length).
     */
    method UpdateAligned(m: seq<Pair>)
      requires 0 <= length && RowsWithin(m, length)
      modifies this
      ensures Valid() && rows == old(rows) && length == old(length)
      ensures aligned == AlignedFlags(length, m)
    {
      var flags := seq(length, _ => false);
      var k := 0;
      while k < |m|
        invariant 0 <= k <= |m| && |flags| == length
        invariant forall c :: 0 <= c < length ==> flags[c] == Covers(m[..k], c)
      {
        flags := flags[m[k].row := true];
        k := k + 1;
        forall c | 0 <= c < length
          ensures flags[c] == Covers(m[..k], c)
        {
          CoversExtend(m, k - 1, c);
        }
      }
      assert m[..k] == m;
      aligned := flags;
    }

    /** add(map): the map becomes the last row; the length covers its rows, and the flags are its rows. */
    method Add(m: seq<Pair>)
      requires Valid() && forall k :: 0 <= k < |m| ==> 0 <= m[k].row
      modifies this
      ensures Valid() && rows == old(rows) + [m]
      ensures length == Longer(old(length), RowTo(m))
      ensures aligned == AlignedFlags(length, m)
      ensures GetRow(|rows| - 1) == Ok(m)
      ensures forall c :: 0 <= c < length ==> IsAligned(c) == Ok(Covers(m, c))
    {
      rows := rows + [m];
      length := Longer(length, RowTo(m));
      RowsBelowRowTo(m, length);
      UpdateAligned(m);
    }

    /**
     * add(mali, map): every sequence of src is mapped into this alignment
     * through map (combineAlignment in mode CR), and the results become new
     * rows. An empty src changes nothing.
     */
    method AddMali(src: seq<seq<Pair>>, m: seq<Pair>)
      requires Valid() && forall k :: 0 <= k < |m| ==> 0 <= m[k].row
      modifies this
      ensures Valid()
      ensures |src| == 0 ==> rows == old(rows) && length == old(length) && aligned == old(aligned)
      ensures |src| > 0 ==> |rows| == |old(rows)| + |src| && rows[..|old(rows)|] == old(rows)
      ensures |src| > 0 ==> length == Longer(old(length), RowTo(m)) && aligned == AlignedFlags(length, m)
      ensures |src| > 0 ==> forall x :: 0 <= x < |src| ==> Combined(m, src[x], rows[|old(rows)| + x])
    {
      if |src| == 0 {
        return;
      }
      var x := 0;
      while x < |src|
        invariant 0 <= x <= |src| && Valid()
        invariant length == old(length) && aligned == old(aligned)
        invariant |rows| == |old(rows)| + x && rows[..|old(rows)|] == old(rows)
        invariant forall y :: 0 <= y < x ==> Combined(m, src[y], rows[|old(rows)| + y])
      {
        var combined := HelpersAlignment.Combine(m, src[x], HelpersAlignment.CR);
        assert forall y :: 0 <= y < |rows| ==> (rows + [combined])[y] == rows[y];
        rows := rows + [combined];
        x := x + 1;
      }
      length := Longer(length, RowTo(m));
      RowsBelowRowTo(m, length);
      UpdateAligned(m);
    }

    /** eraseRow: one row is removed; the length drops to 0 when none is left. */
    method EraseRow(row: int) returns (r: Outcome)
      requires Valid()
      modifies this
      ensures Valid() && aligned == old(aligned)
      ensures r.Done? <==> 0 <= row < |old(rows)|
      ensures r.Thrown? ==> rows == old(rows) && length == old(length)
      ensures r.Done? ==> rows == old(rows[..row] + rows[row + 1..])
      ensures r.Done? ==> length == (if |rows| == 0 then 0 else old(length))
    {
      if |rows| == 0 {
        return Thrown("alignment is empty");
      }
      if row < 0 || row >= |rows| {
        return Thrown("out-of-range access");
      }
      rows := rows[..row] + rows[row + 1..];
      if |rows| == 0 {
        length := 0;
      }
      return Done;
    }

    /** clear: no rows, no flags, length 0. */
    method Clear()
      modifies this
      ensures Valid() && rows == [] && aligned == [] && length == 0
    {
      rows, aligned, length := [], [], 0;
    }
  }

  /** Taking one more pair of m covers its row as well. */
  lemma CoversExtend(m: seq<Pair>, k: int, c: int)
    requires 0 <= k < |m|
    ensures Covers(m[..k + 1], c) <==> Covers(m[..k], c) || m[k].row == c
  {
    if Covers(m[..k + 1], c) && m[k].row != c {
      var i :| 0 <= i < k + 1 && m[..k + 1][i].row == c;
      assert m[..k][i] == m[i];
    }
    if Covers(m[..k], c) {
      var i :| 0 <= i < k && m[..k][i].row == c;
      assert m[..k + 1][i] == m[i];
    }
    if m[k].row == c {
      assert m[..k + 1][k] == m[k];
    }
  }

  /** The rows of a map lie below its getRowTo, and so below any length at least that. */
  lemma RowsBelowRowTo(m: seq<Pair>, n: int)
    requires forall k :: 0 <= k < |m| ==> 0 <= m[k].row
    requires RowTo(m) <= n
    ensures RowsWithin(m, n)
  {
  }

  /** Setting a flag that was clear adds one to the count of set flags. */
  lemma {:induction false} CountSet(flags: seq<bool>, i: int)
    requires 0 <= i < |flags| && !flags[i]
    ensures HelpersAlignment.Count(flags[i := true]) == HelpersAlignment.Count(flags) + 1
    decreases i
  {
    if i > 0 {
      assert flags[i := true][1..] == flags[1..][i - 1 := true];
      CountSet(flags[1..], i - 1);
    }
  }

  /**
   * After updateAligned with a map that is sorted by row, the number of
   * aligned columns is the number of pairs of the map.
   */
  lemma {:induction false} AlignedCount(n: nat, m: seq<Pair>)
    requires RowSorted(m) && RowsWithin(m, n)
    ensures HelpersAlignment.Count(AlignedFlags(n, m)) == |m|
    decreases |m|
  {
    if |m| == 0 {
      NoneCounted(n);
    } else {
      var init := m[..|m| - 1];
      var last := m[|m| - 1];
      assert RowSorted(init) && RowsWithin(init, n);
      AlignedCount(n, init);
      var before := AlignedFlags(n, init);
      assert !Covers(init, last.row) by {
        forall k | 0 <= k < |init|
          ensures init[k].row != last.row
        {
          assert init[k] == m[k];
        }
      }
      CountSet(before, last.row);
      forall c | 0 <= c < n
        ensures before[last.row := true][c] == AlignedFlags(n, m)[c]
      {
        CoversExtend(m, |m| - 1, c);
        assert m[..|m| - 1] == init;
      }
      assert before[last.row := true] == AlignedFlags(n, m);
    }
  }

  /** No map covers nothing: all n flags are clear. */
  lemma {:induction false} NoneCounted(n: nat)
    ensures HelpersAlignment.Count(AlignedFlags(n, [])) == 0
    decreases n
  {
    if n > 0 {
      assert AlignedFlags(n, [])[1..] == AlignedFlags(n - 1, []);
      NoneCounted(n - 1);
    }
  }
}
