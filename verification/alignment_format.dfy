/**
 * AlignmentFormat: compact text-independent encodings of a pairwise
 * alignment. The blocks format stores ungapped diagonal runs as start
 * positions (relative to the alignment's first row and column) and sizes;
 * the emissions format stores, for each side, alternating counts of
 * emitted residues (positive) and gaps (negative).
 */
module AlignmentFormat {
  import opened Pairs
  import AlignmentBase

  /** The three vectors of the blocks format. */
  datatype BlockLists = BlockLists(rowStarts: seq<int>, colStarts: seq<int>, sizes: seq<int>)

  /** The total of a list of counts. */
  function Sum(s: seq<int>): int
    decreases |s|
  {
    if |s| == 0 then 0 else Sum(s[..|s| - 1]) + s[|s| - 1]
  }

  /** fill starts a new block when the row or the column advances by more than one. */
  predicate Breaks(p: Pair, q: Pair)
  {
    q.row - p.row > 1 || q.col - p.col > 1
  }

  /**
   * The blocks fill records for a list of pairs, with starts taken relative
   * to (rf, cf): there are as many row starts, column starts and sizes, and
   * none for no pairs.
   */
  function Encode(ps: seq<Pair>, rf: int, cf: int): (b: BlockLists)
    ensures |b.rowStarts| == |b.colStarts| == |b.sizes|
    ensures |b.sizes| == 0 <==> |ps| == 0
    decreases |ps|
  {
    if |ps| == 0 then BlockLists([], [], [])
    else if |ps| == 1 then BlockLists([ps[0].row - rf], [ps[0].col - cf], [1])
    else
      var n := |ps|;
      var b := Encode(ps[..n - 1], rf, cf);
      assert ps[..n - 1][0] == ps[0] && ps[..n - 1][n - 2] == ps[n - 2];
      Extend(b, ps[n - 2], ps[n - 1], rf, cf)
  }

  /**
   * One step of fill: pair q after pair p either opens a new block of size
   * one or lengthens the last block by one.
   */
  function Extend(b: BlockLists, p: Pair, q: Pair, rf: int, cf: int): (e: BlockLists)
    requires |b.rowStarts| == |b.colStarts| == |b.sizes| > 0
    ensures |e.rowStarts| == |e.colStarts| == |e.sizes| > 0
    ensures Breaks(p, q) ==> EndsAt(e, q, rf, cf)
    ensures EndsAt(b, p, rf, cf) && q.row == p.row + 1 && q.col == p.col + 1 ==> EndsAt(e, q, rf, cf)
    ensures e.rowStarts[0] == b.rowStarts[0] && e.colStarts[0] == b.colStarts[0]
  {
    if Breaks(p, q) then
      BlockLists(b.rowStarts + [q.row - rf], b.colStarts + [q.col - cf], b.sizes + [1])
    else
      var last := |b.sizes| - 1;
      var sizes := b.sizes[..last] + [b.sizes[last] + 1];
      assert sizes[..last] == b.sizes[..last] && b.sizes == b.sizes[..last] + [b.sizes[last]];
      BlockLists(b.rowStarts, b.colStarts, sizes)
  }

  /** One step of fill on the vectors as the loop holds them: the closed sizes and the open block's size. */
  lemma ExtendLists(b: BlockLists, rs: seq<int>, cs: seq<int>, sizes: seq<int>, size: int, p: Pair, q: Pair, rf: int, cf: int)
    requires b == BlockLists(rs, cs, sizes + [size]) && |rs| == |cs| == |sizes| + 1
    ensures Extend(b, p, q, rf, cf)
            == if Breaks(p, q) then BlockLists(rs + [q.row - rf], cs + [q.col - cf], sizes + [size] + [1])
               else BlockLists(rs, cs, sizes + [size + 1])
  {
    assert (sizes + [size])[..|sizes|] == sizes;
  }

  /** Encoding one more pair is one step of fill. */
  lemma EncodeNext(src: seq<Pair>, i: int, rf: int, cf: int)
    requires 1 <= i < |src|
    ensures Encode(src[..i + 1], rf, cf) == Extend(Encode(src[..i], rf, cf), src[i - 1], src[i], rf, cf)
  {
    var a := src[..i + 1];
    assert a[..i] == src[..i];
    assert a[i - 1] == src[i - 1] && a[i] == src[i];
  }

  /** Every block holds at least one pair. */
  lemma {:induction false} EncodePositive(ps: seq<Pair>, rf: int, cf: int)
    ensures forall k :: 0 <= k < |Encode(ps, rf, cf).sizes| ==> Encode(ps, rf, cf).sizes[k] >= 1
    decreases |ps|
  {
    if |ps| > 1 {
      var b := Encode(ps[..|ps| - 1], rf, cf);
      EncodePositive(ps[..|ps| - 1], rf, cf);
      var last := |b.sizes| - 1;
      if !Breaks(ps[|ps| - 2], ps[|ps| - 1]) {
        assert forall k :: 0 <= k < last ==> (b.sizes[..last] + [b.sizes[last] + 1])[k] == b.sizes[k];
      } else {
        assert forall k :: 0 <= k < |b.sizes| ==> (b.sizes + [1])[k] == b.sizes[k];
      }
    }
  }

  /** The block sizes add up to the number of pairs. */
  lemma {:induction false} EncodeSum(ps: seq<Pair>, rf: int, cf: int)
    ensures Sum(Encode(ps, rf, cf).sizes) == |ps|
    decreases |ps|
  {
    if |ps| > 1 {
      var b := Encode(ps[..|ps| - 1], rf, cf);
      EncodeSum(ps[..|ps| - 1], rf, cf);
      var last := |b.sizes| - 1;
      if !Breaks(ps[|ps| - 2], ps[|ps| - 1]) {
        assert (b.sizes[..last] + [b.sizes[last] + 1])[..last] == b.sizes[..last];
        assert b.sizes[..last] + [b.sizes[last]] == b.sizes;
      } else {
        assert (b.sizes + [1])[..|b.sizes|] == b.sizes;
      }
    }
  }

  /** The first block starts at the first pair. */
  lemma {:induction false} EncodeFirst(ps: seq<Pair>, rf: int, cf: int)
    requires |ps| > 0
    ensures Encode(ps, rf, cf).rowStarts[0] == ps[0].row - rf && Encode(ps, rf, cf).colStarts[0] == ps[0].col - cf
    decreases |ps|
  {
    if |ps| > 1 {
      EncodeFirst(ps[..|ps| - 1], rf, cf);
      assert ps[..|ps| - 1][0] == ps[0];
    }
  }

  /** When rows and columns both increase, the last block ends at the last pair. */
  lemma {:induction false} EncodeEndsAt(ps: seq<Pair>, rf: int, cf: int)
    requires |ps| > 0 && RowSorted(ps) && ColSorted(ps)
    ensures EndsAt(Encode(ps, rf, cf), ps[|ps| - 1], rf, cf)
    decreases |ps|
  {
    var n := |ps|;
    if n > 1 {
      var init := ps[..n - 1];
      assert RowSorted(init) && ColSorted(init);
      EncodeEndsAt(init, rf, cf);
      assert init[n - 2] == ps[n - 2];
      assert ps[n - 2].row < ps[n - 1].row && ps[n - 2].col < ps[n - 1].col;
    }
  }

  /** The last block of b ends at pair q. */
  predicate EndsAt(b: BlockLists, q: Pair, rf: int, cf: int)
  {
    var last := |b.sizes| - 1;
    last >= 0 && |b.rowStarts| == |b.colStarts| == |b.sizes|
    && b.rowStarts[last] + b.sizes[last] - 1 == q.row - rf
    && b.colStarts[last] + b.sizes[last] - 1 == q.col - cf
  }

  /** A diagonal run of n pairs from (row, col), with score 0. */
  function Diag(row: int, col: int, n: int): (r: seq<Pair>)
    ensures |r| == (if n > 0 then n else 0)
    ensures forall l :: 0 <= l < |r| ==> r[l] == Pair(row + l, col + l, 0)
    decreases n
  {
    if n <= 0 then [] else Diag(row, col, n - 1) + [Pair(row + n - 1, col + n - 1, 0)]
  }

  /** The pairs copy adds for the first n blocks of b, with starts taken relative to (rf, cf). */
  function Decode(b: BlockLists, n: nat, rf: int, cf: int): seq<Pair>
    requires n <= |b.rowStarts| && n <= |b.colStarts| && n <= |b.sizes|
  {
    if n == 0 then []
    else Decode(b, n - 1, rf, cf) + Diag(b.rowStarts[n - 1] + rf, b.colStarts[n - 1] + cf, b.sizes[n - 1])
  }

  /** The pairs of an alignment without their scores. */
  function Zeroed(ps: seq<Pair>): (r: seq<Pair>)
    ensures |r| == |ps|
    ensures forall k :: 0 <= k < |ps| ==> r[k] == Pair(ps[k].row, ps[k].col, 0)
    decreases |ps|
  {
    if |ps| == 0 then [] else Zeroed(ps[..|ps| - 1]) + [Pair(ps[|ps| - 1].row, ps[|ps| - 1].col, 0)]
  }

  /** The state of fill after i pairs: the closed blocks' sizes and the size of the open one. */
  ghost predicate Filling(src: seq<Pair>, i: int, rf: int, cf: int, rs: seq<int>, cs: seq<int>, sizes: seq<int>, size: int)
  {
    1 <= i <= |src| && Encode(src[..i], rf, cf) == BlockLists(rs, cs, sizes + [size])
  }

  /** The body of fill's loop: pair i either opens a block or lengthens the open one. */
  method FillStep(src: seq<Pair>, i: int, rf: int, cf: int, rs: seq<int>, cs: seq<int>, sizes: seq<int>, size: int)
    returns (rs': seq<int>, cs': seq<int>, sizes': seq<int>, size': int)
    requires i < |src| && Filling(src, i, rf, cf, rs, cs, sizes, size)
    ensures Filling(src, i + 1, rf, cf, rs', cs', sizes', size')
  {
    var row, col := src[i].row, src[i].col;
    var b := Encode(src[..i], rf, cf);
    EncodeNext(src, i, rf, cf);
    ExtendLists(b, rs, cs, sizes, size, src[i - 1], src[i], rf, cf);
    rs', cs', sizes', size' := rs, cs, sizes, size;
    if row - src[i - 1].row > 1 || col - src[i - 1].col > 1 {
      sizes' := sizes' + [size'];
      rs' := rs' + [row - rf];
      cs' := cs' + [col - cf];
      size' := 0;
    }
    size' := size' + 1;
  }

  /** The loop of AlignmentFormatBlocks::fill over the pairs of the alignment. */
  method EncodeBlocks(src: seq<Pair>, rf: int, cf: int) returns (b: BlockLists)
    ensures b == Encode(src, rf, cf)
  {
    if |src| == 0 {
      return BlockLists([], [], []);
    }
    var rowStarts := [src[0].row - rf];
    var colStarts := [src[0].col - cf];
    var sizes: seq<int> := [];
    var blockSize := 1;
    var i := 1;
    assert src[..1] == [src[0]];
    while i < |src|
      invariant Filling(src, i, rf, cf, rowStarts, colStarts, sizes, blockSize)
      decreases |src| - i
    {
      rowStarts, colStarts, sizes, blockSize := FillStep(src, i, rf, cf, rowStarts, colStarts, sizes, blockSize);
      i := i + 1;
    }
    assert src[..i] == src;
    b := BlockLists(rowStarts, colStarts, sizes + [blockSize]);
  }

  class Blocks {
    var rowFrom: int
    var rowTo: int
    var colFrom: int
    var colTo: int
    var rowStarts: seq<int>
    var colStarts: seq<int>
    var blockSizes: seq<int>

    /** The default constructor: no bounds, no blocks. */
    constructor ()
      ensures rowFrom == NO_POS && rowTo == NO_POS && colFrom == NO_POS && colTo == NO_POS
      ensures rowStarts == [] && colStarts == [] && blockSizes == []
    {
      rowFrom, rowTo, colFrom, colTo := NO_POS, NO_POS, NO_POS, NO_POS;
      rowStarts, colStarts, blockSizes := [], [], [];
    }

    /**
     * fill: the bounds of the alignment, then its blocks relative to its
     * first row and column; an empty alignment leaves no block.
     */
    method Fill(src: seq<Pair>)
      modifies this
      ensures BoundsOf(src, rowFrom, rowTo, colFrom, colTo)
      ensures BlockLists(rowStarts, colStarts, blockSizes) == Encode(src, RowFrom(src), ColFrom(src))
      ensures |src| == 0 ==> rowStarts == [] && colStarts == [] && blockSizes == []
    {
      rowFrom, rowTo, colFrom, colTo := RowFrom(src), RowTo(src), ColFrom(src), ColTo(src);
      var b := EncodeBlocks(src, rowFrom, colFrom);
      rowStarts, colStarts, blockSizes := b.rowStarts, b.colStarts, b.sizes;
    }

    /**
     * copy: the destination is cleared, then every block adds its run of
     * diagonal pairs. The source indexes the column starts and sizes by the
     * row starts' index unchecked, so there must be at least as many.
     */
    method Copy() returns (dest: seq<Pair>)
      requires |colStarts| >= |rowStarts| && |blockSizes| >= |rowStarts|
      ensures dest == Decode(BlockLists(rowStarts, colStarts, blockSizes), |rowStarts|, rowFrom, colFrom)
    {
      var b := BlockLists(rowStarts, colStarts, blockSizes);
      dest := [];
      var x := 0;
      while x < |rowStarts|
        invariant 0 <= x <= |rowStarts| && dest == Decode(b, x, rowFrom, colFrom)
      {
        var row := rowStarts[x] + rowFrom;
        var col := colStarts[x] + colFrom;
        var l := 0;
        while l < blockSizes[x]
          invariant 0 <= l && (blockSizes[x] >= 0 ==> l <= blockSizes[x]) && (blockSizes[x] < 0 ==> l == 0)
          invariant row == rowStarts[x] + rowFrom + l && col == colStarts[x] + colFrom + l
          invariant dest == Decode(b, x, rowFrom, colFrom) + Diag(rowStarts[x] + rowFrom, colStarts[x] + colFrom, l)
        {
          dest := dest + [Pair(row, col, 0)];
          l, row, col := l + 1, row + 1, col + 1;
        }
        assert blockSizes[x] < 0 ==> Diag(rowStarts[x] + rowFrom, colStarts[x] + colFrom, blockSizes[x]) == [];
        x := x + 1;
      }
    }
  }

  /** Decoding looks only at the blocks it decodes. */
  lemma {:induction false} DecodeSamePrefix(a: BlockLists, b: BlockLists, n: nat, rf: int, cf: int)
    requires n <= |a.rowStarts| && n <= |a.colStarts| && n <= |a.sizes|
    requires n <= |b.rowStarts| && n <= |b.colStarts| && n <= |b.sizes|
    requires a.rowStarts[..n] == b.rowStarts[..n] && a.colStarts[..n] == b.colStarts[..n] && a.sizes[..n] == b.sizes[..n]
    ensures Decode(a, n, rf, cf) == Decode(b, n, rf, cf)
    decreases n
  {
    if n > 0 {
      assert a.rowStarts[n - 1] == a.rowStarts[..n][n - 1];
      assert a.colStarts[n - 1] == a.colStarts[..n][n - 1];
      assert a.sizes[n - 1] == a.sizes[..n][n - 1];
      assert b.rowStarts[n - 1] == b.rowStarts[..n][n - 1];
      assert b.colStarts[n - 1] == b.colStarts[..n][n - 1];
      assert b.sizes[n - 1] == b.sizes[..n][n - 1];
      assert a.rowStarts[..n - 1] == a.rowStarts[..n][..n - 1];
      assert a.colStarts[..n - 1] == a.colStarts[..n][..n - 1];
      assert a.sizes[..n - 1] == a.sizes[..n][..n - 1];
      assert b.rowStarts[..n - 1] == b.rowStarts[..n][..n - 1];
      assert b.colStarts[..n - 1] == b.colStarts[..n][..n - 1];
      assert b.sizes[..n - 1] == b.sizes[..n][..n - 1];
      DecodeSamePrefix(a, b, n - 1, rf, cf);
    }
  }

  /** One more pair on a diagonal run. */
  lemma DiagGrow(row: int, col: int, n: nat)
    ensures Diag(row, col, n + 1) == Diag(row, col, n) + [Pair(row + n, col + n, 0)]
  {
  }

  /** Opening a block of size one decodes to one more pair. */
  lemma DecodeOpen(b: BlockLists, p: Pair, q: Pair, rf: int, cf: int)
    requires |b.rowStarts| == |b.colStarts| == |b.sizes| > 0 && Breaks(p, q)
    ensures var e := Extend(b, p, q, rf, cf);
            Decode(e, |e.rowStarts|, rf, cf) == Decode(b, |b.rowStarts|, rf, cf) + [Pair(q.row, q.col, 0)]
  {
    var e := Extend(b, p, q, rf, cf);
    var m := |b.sizes|;
    assert e.rowStarts[..m] == b.rowStarts[..m] && e.colStarts[..m] == b.colStarts[..m] && e.sizes[..m] == b.sizes[..m];
    DecodeSamePrefix(e, b, m, rf, cf);
    assert Diag(q.row, q.col, 1) == [Pair(q.row, q.col, 0)];
  }

  /** Lengthening the last block, which ends at p, by the pair diagonally after p decodes to one more pair. */
  lemma DecodeGrow(b: BlockLists, p: Pair, q: Pair, rf: int, cf: int)
    requires |b.rowStarts| == |b.colStarts| == |b.sizes| > 0 && !Breaks(p, q)
    requires EndsAt(b, p, rf, cf) && b.sizes[|b.sizes| - 1] >= 0 && q.row == p.row + 1 && q.col == p.col + 1
    ensures var e := Extend(b, p, q, rf, cf);
            Decode(e, |e.rowStarts|, rf, cf) == Decode(b, |b.rowStarts|, rf, cf) + [Pair(q.row, q.col, 0)]
  {
    var e := Extend(b, p, q, rf, cf);
    var m := |b.sizes|;
    assert e.rowStarts == b.rowStarts && e.colStarts == b.colStarts;
    assert e.sizes[..m - 1] == b.sizes[..m - 1];
    DecodeSamePrefix(e, b, m - 1, rf, cf);
    DiagGrow(b.rowStarts[m - 1] + rf, b.colStarts[m - 1] + cf, b.sizes[m - 1]);
  }

  /** Removing the last pair of a list. */
  lemma ZeroedLast(ps: seq<Pair>)
    requires |ps| > 0
    ensures Zeroed(ps) == Zeroed(ps[..|ps| - 1]) + [Pair(ps[|ps| - 1].row, ps[|ps| - 1].col, 0)]
  {
  }

  /** One step of the round trip: if b decodes to the first pairs, extending it by q decodes to one more. */
  lemma DecodeExtend(b: BlockLists, e: BlockLists, p: Pair, q: Pair, rf: int, cf: int, before: seq<Pair>, after: seq<Pair>)
    requires |b.rowStarts| == |b.colStarts| == |b.sizes| > 0 && e == Extend(b, p, q, rf, cf)
    requires Decode(b, |b.rowStarts|, rf, cf) == before && after == before + [Pair(q.row, q.col, 0)]
    requires !Breaks(p, q) ==> EndsAt(b, p, rf, cf) && b.sizes[|b.sizes| - 1] >= 0 && q.row == p.row + 1 && q.col == p.col + 1
    ensures Decode(e, |e.rowStarts|, rf, cf) == after
  {
    if Breaks(p, q) {
      DecodeOpen(b, p, q, rf, cf);
    } else {
      DecodeGrow(b, p, q, rf, cf);
    }
  }

  /**
   * fill followed by copy gives back the pairs (with score 0) of an
   * alignment whose rows and columns both increase, whatever the origin
   * the starts are taken relative to.
   */
  lemma {:induction false} BlocksRoundTrip(ps: seq<Pair>, rf: int, cf: int)
    requires RowSorted(ps) && ColSorted(ps)
    ensures var b := Encode(ps, rf, cf); Decode(b, |b.rowStarts|, rf, cf) == Zeroed(ps)
    decreases |ps|
  {
    var n := |ps|;
    if n == 1 {
      RoundTripOne(ps, rf, cf);
    } else if n > 1 {
      var init := ps[..n - 1];
      assert RowSorted(init) && ColSorted(init);
      BlocksRoundTrip(init, rf, cf);
      RoundTripStep(ps, init, rf, cf);
    }
  }

  /** The round trip of a single pair. */
  lemma RoundTripOne(ps: seq<Pair>, rf: int, cf: int)
    requires |ps| == 1
    ensures var b := Encode(ps, rf, cf); Decode(b, |b.rowStarts|, rf, cf) == Zeroed(ps)
  {
    var b := Encode(ps, rf, cf);
    assert b == BlockLists([ps[0].row - rf], [ps[0].col - cf], [1]);
    assert Decode(b, 1, rf, cf) == Diag(ps[0].row, ps[0].col, 1);
    assert Diag(ps[0].row, ps[0].col, 1) == [Pair(ps[0].row, ps[0].col, 0)];
    ZeroedLast(ps);
  }

  /** The round trip of all pairs but the last extends to all pairs. */
  lemma RoundTripStep(ps: seq<Pair>, init: seq<Pair>, rf: int, cf: int)
    requires |ps| > 1 && RowSorted(ps) && ColSorted(ps) && init == ps[..|ps| - 1]
    requires var b := Encode(init, rf, cf); Decode(b, |b.rowStarts|, rf, cf) == Zeroed(init)
    ensures var e := Encode(ps, rf, cf); Decode(e, |e.rowStarts|, rf, cf) == Zeroed(ps)
  {
    var n := |ps|;
    var b := Encode(init, rf, cf);
    var p, q := ps[n - 2], ps[n - 1];
    assert init[n - 2] == p;
    EncodeNext(ps, n - 1, rf, cf);
    assert ps[..n] == ps;
    if !Breaks(p, q) {
      GrowFacts(ps, init, rf, cf);
    }
    ZeroedLast(ps);
    DecodeExtend(b, Encode(ps, rf, cf), p, q, rf, cf, Zeroed(init), Zeroed(ps));
  }

  /** Without a break, the last block of the first pairs ends at the one before last, and the last pair follows it diagonally. */
  lemma GrowFacts(ps: seq<Pair>, init: seq<Pair>, rf: int, cf: int)
    requires |ps| > 1 && RowSorted(ps) && ColSorted(ps) && init == ps[..|ps| - 1]
    requires !Breaks(ps[|ps| - 2], ps[|ps| - 1])
    ensures var b := Encode(init, rf, cf);
            EndsAt(b, ps[|ps| - 2], rf, cf) && b.sizes[|b.sizes| - 1] >= 0
            && ps[|ps| - 1].row == ps[|ps| - 2].row + 1 && ps[|ps| - 1].col == ps[|ps| - 2].col + 1
  {
    var n := |ps|;
    assert RowSorted(init) && ColSorted(init) && init[n - 2] == ps[n - 2];
    EncodeEndsAt(init, rf, cf);
    EncodePositive(init, rf, cf);
    assert ps[n - 2].row < ps[n - 1].row && ps[n - 2].col < ps[n - 1].col;
  }

  /** For an alignment whose rows and columns increase, the first block starts at offset (0, 0). */
  lemma FirstBlockAtOrigin(ps: seq<Pair>)
    requires |ps| > 0 && RowSorted(ps) && ColSorted(ps)
    ensures var b := Encode(ps, RowFrom(ps), ColFrom(ps)); b.rowStarts[0] == 0 && b.colStarts[0] == 0
  {
    AlignmentBase.SortedRowBounds(ps);
    AlignmentBase.SortedColBounds(ps);
    EncodeFirst(ps, RowFrom(ps), ColFrom(ps));
  }

  // ---------------------------------------------------------------------
  // parseList and the list writer of operator<<

  /** find_first_not_of(",", i), with the string's length standing for npos. */
  function SkipCommas(s: seq<char>, i: nat): (j: nat)
    requires i <= |s|
    ensures i <= j <= |s|
    ensures forall k :: i <= k < j ==> s[k] == ','
    ensures j < |s| ==> s[j] != ','
    decreases |s| - i
  {
    if i == |s| || s[i] != ',' then i else SkipCommas(s, i + 1)
  }

  /** find_first_of(",", i), with the string's length standing for npos. */
  function ToComma(s: seq<char>, i: nat): (j: nat)
    requires i <= |s|
    ensures i <= j <= |s|
    ensures forall k :: i <= k < j ==> s[k] != ','
    ensures j < |s| ==> s[j] == ','
    decreases |s| - i
  {
    if i == |s| || s[i] == ',' then i else ToComma(s, i + 1)
  }

  predicate IsDigit(c: char)
  {
    '0' <= c <= '9'
  }

  /** The number of leading decimal digits. */
  function DigitRun(t: seq<char>): (n: nat)
    ensures n <= |t|
    ensures forall k :: 0 <= k < n ==> IsDigit(t[k])
    ensures n < |t| ==> !IsDigit(t[n])
    decreases |t|
  {
    if |t| == 0 || !IsDigit(t[0]) then 0
    else
      var n := DigitRun(t[1..]);
      assert forall k :: 1 <= k < |t| ==> t[k] == t[1..][k - 1];
      1 + n
  }

  /** The value of a string of decimal digits. */
  function DecimalValue(d: seq<char>): int
    decreases |d|
  {
    if |d| == 0 then 0
    else DecimalValue(d[..|d| - 1]) * 10 + (d[|d| - 1] as int - '0' as int)
  }

  /** atoi on a token without white space: an optional sign, then the leading digits; 0 when there are none. */
  function Atoi(t: seq<char>): int
  {
    if |t| > 0 && t[0] == '-' then -DecimalValue(t[1..][..DigitRun(t[1..])])
    else if |t| > 0 && t[0] == '+' then DecimalValue(t[1..][..DigitRun(t[1..])])
    else DecimalValue(t[..DigitRun(t)])
  }

  /** The integers parseList reads from position i on: atoi of each comma-free field. */
  function Parsed(s: seq<char>, i: nat): seq<int>
    requires i <= |s|
    decreases |s| - i
  {
    var a := SkipCommas(s, i);
    if a == |s| then [] else
      var b := ToComma(s, a);
      [Atoi(s[a..b])] + Parsed(s, b)
  }

  /**
   * parseList: the fields of the token between commas, skipping empty
   * ones, each read by atoi and appended to dest. The token is what
   * `input >> str` reads, so it holds no white space.
   */
  method ParseList(str: seq<char>, dest: seq<int>) returns (r: seq<int>)
    ensures r == dest + Parsed(str, 0)
  {
    r := dest;
    var lastPos := SkipCommas(str, 0);
    var pos := ToComma(str, lastPos);
    while lastPos < |str|
      invariant lastPos <= pos <= |str| && lastPos == SkipCommas(str, lastPos) && pos == ToComma(str, lastPos)
      invariant r + Parsed(str, lastPos) == dest + Parsed(str, 0)
      decreases |str| - lastPos
    {
      r := r + [Atoi(str[lastPos..pos])];
      lastPos := SkipCommas(str, pos);
      pos := ToComma(str, lastPos);
    }
  }

  /** The decimal digits of n, most significant first. */
  function Digits(n: nat): (d: seq<char>)
    ensures |d| > 0 && forall k :: 0 <= k < |d| ==> IsDigit(d[k])
    decreases n
  {
    if n < 10 then [('0' as int + n) as char]
    else Digits(n / 10) + [('0' as int + n % 10) as char]
  }

  /** How operator<< writes an integer. */
  function Show(x: int): (t: seq<char>)
    ensures |t| > 0 && t[0] != ','
    ensures forall k :: 0 <= k < |t| ==> t[k] != ','
  {
    if x < 0 then "-" + Digits(-x) else Digits(x)
  }

  /** std::copy to an ostream_iterator with "," as delimiter: every integer followed by a comma. */
  function Written(xs: seq<int>): seq<char>
    decreases |xs|
  {
    if |xs| == 0 then [] else Show(xs[0]) + "," + Written(xs[1..])
  }

  /** The digits of n read back as n. */
  lemma {:induction false} DigitsValue(n: nat)
    ensures DecimalValue(Digits(n)) == n
    decreases n
  {
    if n >= 10 {
      DigitsValue(n / 10);
      var d := Digits(n);
      assert d[..|d| - 1] == Digits(n / 10);
    }
  }

  /** A run of digits is read whole. */
  lemma {:induction false} DigitRunAll(d: seq<char>)
    requires forall k :: 0 <= k < |d| ==> IsDigit(d[k])
    ensures DigitRun(d) == |d|
    decreases |d|
  {
    if |d| > 0 {
      DigitRunAll(d[1..]);
    }
  }

  /** atoi reads back what operator<< writes. */
  lemma AtoiShow(x: int)
    ensures Atoi(Show(x)) == x
  {
    var d := Digits(if x < 0 then -x else x);
    DigitRunAll(d);
    if x < 0 {
      assert Show(x)[0] == '-' && Show(x)[1..] == d;
      assert d[..DigitRun(d)] == d;
      DigitsValue(-x);
    } else {
      assert Show(x) == d && d[0] != '-' && d[0] != '+';
      assert d[..DigitRun(d)] == d;
      DigitsValue(x);
    }
  }

  /** Skipping commas in a suffix t of s, which starts at d, is skipping them in s. */
  lemma {:induction false} SkipShift(s: seq<char>, t: seq<char>, d: nat, i: nat)
    requires d <= |s| && s[d..] == t && i <= |t|
    ensures SkipCommas(s, d + i) == d + SkipCommas(t, i)
    ensures ToComma(s, d + i) == d + ToComma(t, i)
    decreases |t| - i
  {
    if i < |t| {
      assert s[d + i] == t[i];
      SkipShift(s, t, d, i + 1);
    }
  }

  /** parseList of a suffix t of s, which starts at d, does not see what comes before it: from t's position i, at s's position j. */
  lemma {:induction false} ParsedShift(s: seq<char>, t: seq<char>, d: nat, i: nat, j: nat)
    requires d <= |s| && s[d..] == t && i <= |t| && j == d + i
    ensures Parsed(s, j) == Parsed(t, i)
    decreases |t| - i
  {
    SkipShift(s, t, d, i);
    var a := SkipCommas(t, i);
    if a < |t| {
      var b := ToComma(t, a);
      SkipShift(s, t, d, a);
      var a', b' := d + a, d + b;
      assert s[a'..b'] == t[a..b];
      ParsedShift(s, t, d, b, b');
      ParsedField(s, j, a', b');
      ParsedField(t, i, a, b);
      SameField(s[a'..b'], t[a..b], Parsed(s, b'), Parsed(t, b));
    } else {
      ParsedEnd(s, j);
      ParsedEnd(t, i);
    }
  }

  /** No field is left once only commas remain. */
  lemma ParsedEnd(s: seq<char>, i: nat)
    requires i <= |s| && SkipCommas(s, i) == |s|
    ensures Parsed(s, i) == []
  {
  }

  /** Equal fields followed by equal rests parse alike. */
  lemma SameField(x: seq<char>, y: seq<char>, u: seq<int>, v: seq<int>)
    requires x == y && u == v
    ensures [Atoi(x)] + u == [Atoi(y)] + v
  {
  }

  /** One field of parseList: the digits between the skipped commas and the next comma. */
  lemma ParsedField(s: seq<char>, i: nat, a: nat, b: nat)
    requires i <= |s| && a == SkipCommas(s, i) && a < |s| && b == ToComma(s, a)
    ensures Parsed(s, i) == [Atoi(s[a..b])] + Parsed(s, b)
  {
  }

  /** A comma before the next field is skipped. */
  lemma ParsedComma(s: seq<char>, i: nat)
    requires i < |s| && s[i] == ','
    ensures Parsed(s, i) == Parsed(s, i + 1)
  {
    assert SkipCommas(s, i) == SkipCommas(s, i + 1);
  }

  /** parseList reads back the list operator<< writes. */
  lemma {:induction false} ParseListRoundTrip(xs: seq<int>)
    ensures Parsed(Written(xs), 0) == xs
    decreases |xs|
  {
    if |xs| > 0 {
      var w := Written(xs[1..]);
      assert Written(xs) == Show(xs[0]) + ("," + w);
      FirstField(xs[0], w);
      ParseListRoundTrip(xs[1..]);
      assert [xs[0]] + xs[1..] == xs;
    }
  }

  /** A written integer followed by a comma is read back before whatever follows. */
  lemma FirstField(x: int, w: seq<char>)
    ensures Parsed(Show(x) + ("," + w), 0) == [x] + Parsed(w, 0)
  {
    var t := Show(x);
    var c := "," + w;
    var s := t + c;
    assert s[..|t|] == t && s[|t|..] == c && s[|t|] == ',';
    assert SkipCommas(s, 0) == 0;
    ToCommaAt(s, t);
    ParsedField(s, 0, 0, |t|);
    assert s[0..|t|] == t;
    AtoiShow(x);
    ParsedShift(s, c, |t|, 0, |t|);
    ParsedComma(c, 0);
    assert c[1..] == w;
    ParsedShift(c, w, 1, 0, 1);
  }

  /** The first field of a string that starts with a comma-free part followed by a comma is that part. */
  lemma ToCommaAt(s: seq<char>, t: seq<char>)
    requires |t| < |s| && s[..|t|] == t && s[|t|] == ','
    requires forall k :: 0 <= k < |t| ==> t[k] != ','
    ensures ToComma(s, 0) == |t|
  {
    assert forall k :: 0 <= k < |t| ==> s[k] == t[k];
  }
}
