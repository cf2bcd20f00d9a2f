/**
 * ImplPhyloMatrixSymmetric: a symmetric distance matrix without its
 * diagonal, stored as the strict lower triangle in row-major order.
 * Cell (r, c) with r > c lives at index r * (r - 1) / 2 + c.
 */
module PhyloMatrixSymmetric {

  /** The index getIndex reports for a diagonal cell, which is not stored. */
  const NO_INDEX: nat := 0

  /** The number of cells in the rows before row r: row k holds k cells. */
  function Tri(r: nat): nat
  {
    if r == 0 then 0 else Tri(r - 1) + (r - 1)
  }

  /** Tri is the closed form the source computes: r * (r - 1) / 2. */
  lemma {:induction false} TriFormula(r: nat)
    ensures Tri(r) == r * (r - 1) / 2
  {
    if r > 0 {
      TriFormula(r - 1);
      assert r * (r - 1) == (r - 1) * (r - 2) + 2 * (r - 1);
    }
  }

  /** calculateSize: the storage a matrix of width w needs, w * (w - 1) / 2. */
  function Size(w: nat): nat
  {
    Tri(w)
  }

  /** Row r of the triangle holds r cells. */
  lemma TriStep(r: nat)
    ensures Tri(r + 1) == Tri(r) + r
  {
  }

  lemma {:induction false} TriMonotone(r: nat, s: nat)
    requires r <= s
    ensures Tri(r) + (s - r) <= Tri(s) || r == 0
    ensures Tri(r) <= Tri(s)
    decreases s - r
  {
    if r < s {
      TriMonotone(r, s - 1);
    }
  }

  /** getIndex: the storage index of cell (row, col); the diagonal gives NO_INDEX. */
  function Index(row: nat, col: nat): nat
  {
    if row == col then NO_INDEX
    else if row > col then Tri(row) + col
    else Tri(col) + row
  }

  /** Cell (r, c) with c < r lies in the block of row r: [Tri(r), Tri(r + 1)). */
  lemma IndexInRow(r: nat, c: nat)
    requires c < r
    ensures Tri(r) <= Index(r, c) < Tri(r + 1)
  {
    TriStep(r);
  }

  /** The block of the triangle an index falls into is unique. */
  lemma RowUnique(index: nat, r1: nat, r2: nat)
    requires Tri(r1) <= index < Tri(r1 + 1)
    requires Tri(r2) <= index < Tri(r2 + 1)
    ensures r1 == r2
  {
    if r1 < r2 {
      TriMonotone(r1 + 1, r2);
    } else if r2 < r1 {
      TriMonotone(r2 + 1, r1);
    }
  }

  /** The matrix is symmetric: (r, c) and (c, r) share their storage. */
  lemma IndexSymmetric(r: nat, c: nat)
    ensures Index(r, c) == Index(c, r)
  {
  }

  /** Off the diagonal, distinct cells of the lower triangle have distinct indices. */
  lemma IndexInjective(r1: nat, c1: nat, r2: nat, c2: nat)
    requires c1 < r1 && c2 < r2 && Index(r1, c1) == Index(r2, c2)
    ensures r1 == r2 && c1 == c2
  {
    IndexInRow(r1, c1);
    IndexInRow(r2, c2);
    RowUnique(Index(r1, c1), r1, r2);
  }

  /**
   * Every off-diagonal cell of a matrix of width w lies inside its storage,
   * and so does a diagonal cell once the storage holds a slot NO_INDEX.
   */
  lemma IndexInStorage(w: nat, r: nat, c: nat)
    requires r < w && c < w && (r != c || 2 <= w)
    ensures Index(r, c) < Size(w)
  {
    if r == c {
      TriMonotone(2, w);
    } else {
      var hi, lo := if r > c then r else c, if r > c then c else r;
      IndexInRow(hi, lo);
      TriMonotone(hi + 1, w);
    }
  }

  /** A diagonal cell shares its slot NO_INDEX with cell (1, 0), and no other off-diagonal cell does. */
  lemma DiagonalAliases(i: nat, r: nat, c: nat)
    requires c < r
    ensures Index(i, i) == Index(r, c) <==> r == 1 && c == 0
  {
    IndexInRow(r, c);
    if r > 1 {
      TriMonotone(2, r);
    }
  }

  /**
   * getRow: the row of the triangle block that holds index, found by
   * walking the block starts 0, 1, 3, 6, ...
   */
  method GetRow(index: nat) returns (row: nat)
    ensures row >= 1 && Tri(row) <= index < Tri(row + 1)
  {
    var r: nat := 1;
    var rowIndex: nat := 0;
    while index >= rowIndex
      invariant r >= 1 && rowIndex == Tri(r)
      invariant r == 1 || Tri(r - 1) <= index
      decreases index + 1 - rowIndex
    {
      TriStep(r);
      rowIndex := rowIndex + r;
      r := r + 1;
    }
    row := r - 1;
  }

  /** getColumn: the offset of index inside its row block. */
  method GetColumn(index: nat) returns (col: nat)
    ensures exists row :: row >= 1 && col < row && Index(row, col) == index
  {
    var row := GetRow(index);
    TriStep(row);
    col := index - Index(row, 0);
    assert Index(row, col) == index;
  }

  /** getRow and getColumn invert getIndex on the off-diagonal cells. */
  lemma RowColumnInvert(r: nat, c: nat, row: nat)
    requires c < r
    requires Tri(row) <= Index(r, c) < Tri(row + 1)
    ensures row == r && Index(r, c) - Index(row, 0) == c
  {
    IndexInRow(r, c);
    RowUnique(Index(r, c), r, row);
  }

  /** Exchanging rows a and b maps x to its partner; other rows stay. */
  function Swapped(a: nat, b: nat, x: nat): nat
  {
    if x == a then b else if x == b then a else x
  }

  /** The row of the cell whose value (r, c) holds once rows a and b have exchanged the columns of [lo, hi). */
  function SourceRow(a: nat, b: nat, lo: nat, hi: nat, r: nat, c: nat): nat
  {
    if lo <= c < hi then Swapped(a, b, r) else r
  }

  /** The column of that cell. */
  function SourceCol(a: nat, b: nat, lo: nat, hi: nat, r: nat, c: nat): nat
  {
    if lo <= r < hi then Swapped(a, b, c) else c
  }

  class PhyloMatrixSymmetric {
    var width: nat
    var size: nat
    var matrix: array<int>

    ghost predicate Valid()
      reads this
    {
      size == Size(width) && size <= matrix.Length
    }

    /**
     * operator() / getElement: the value in the slot getIndex gives cell
     * (row, col). A diagonal cell reads slot NO_INDEX, which needs a
     * storage of at least one cell.
     */
    function Get(row: nat, col: nat): int
      reads this, matrix
      requires Valid() && row < width && col < width && (row != col || 2 <= width)
    {
      IndexInStorage(width, row, col);
      matrix[Index(row, col)]
    }

    /** The constructor: a matrix of the given width, every cell set to the default value. */
    constructor (w: nat, defaultValue: int)
      ensures Valid() && width == w && fresh(matrix)
      ensures forall r: nat, c: nat :: r < w && c < w && r != c ==> Get(r, c) == defaultValue
    {
      var m := new int[Size(w)];
      var i := 0;
      while i < m.Length
        invariant 0 <= i <= m.Length
        invariant forall k :: 0 <= k < i ==> m[k] == defaultValue
      {
        m[i] := defaultValue;
        i := i + 1;
      }
      width, size, matrix := w, Size(w), m;
      new;
      forall r: nat, c: nat | r < w && c < w && r != c ensures Get(r, c) == defaultValue {
        IndexInStorage(w, r, c);
      }
    }

    /**
     * The copy constructor: the rows of src are walked in storage order, and
     * the running counter equals getIndex of the cell it copies.
     */
    constructor Copy(src: PhyloMatrixSymmetric)
      requires src.Valid()
      ensures Valid() && width == src.width && fresh(matrix)
      ensures forall r: nat, c: nat :: r < width && c < width && r != c ==> Get(r, c) == src.Get(r, c)
    {
      var w := src.width;
      var m := new int[Size(w)];
      var index := 0;
      var i := 1;
      while i < w
        invariant 1 <= i && index == Tri(i) && (i <= w || w == 0)
        invariant index <= m.Length == Size(w) <= src.matrix.Length
        invariant forall k :: 0 <= k < index ==> m[k] == src.matrix[k]
      {
        TriMonotone(i + 1, w);
        var j := 0;
        while j < i
          invariant 0 <= j <= i && index == Tri(i) + j && Tri(i + 1) <= m.Length
          invariant forall k :: 0 <= k < index ==> m[k] == src.matrix[k]
        {
          IndexInStorage(w, i, j);
          m[index] := src.matrix[Index(i, j)];
          index := index + 1;
          j := j + 1;
        }
        i := i + 1;
      }
      width, size, matrix := w, Size(w), m;
      new;
      forall r: nat, c: nat | r < w && c < w && r != c ensures Get(r, c) == src.Get(r, c) {
        IndexInStorage(w, r, c);
        TriMonotone(w, i);
      }
    }

    /**
     * setElement: cell (row, col), and so (col, row), takes the value; every
     * cell with another slot keeps its own. A diagonal cell writes slot
     * NO_INDEX, which is the slot of cell (1, 0).
     */
    method Set(row: nat, col: nat, value: int)
      requires Valid() && row < width && col < width && (row != col || 2 <= width)
      modifies matrix
      ensures Valid() && Get(row, col) == value && Get(col, row) == value
      ensures row == col ==> Get(1, 0) == value
      ensures forall r: nat, c: nat :: r < width && c < width && (r != c || 2 <= width) && Index(r, c) != Index(row, col) ==>
        Get(r, c) == old(Get(r, c))
    {
      IndexInStorage(width, row, col);
      matrix[Index(row, col)] := value;
    }

    /** The distance between row and col, with the diagonal, which is not stored, reading 0. */
    function Distance(row: nat, col: nat): int
      reads this, matrix
      requires Valid() && row < width && col < width
    {
      if row == col then 0 else Get(row, col)
    }

    /**
     * setElement as the diagonal's exclusion from the matrix means it: an
     * off-diagonal cell, and its mirror, take the value, every other cell
     * keeps its distance, and a diagonal cell is left at distance 0.
     */
    method SetDistance(row: nat, col: nat, value: int)
      requires Valid() && row < width && col < width
      modifies matrix
      ensures Valid()
      ensures row != col ==> Distance(row, col) == value && Distance(col, row) == value
      ensures forall r: nat :: r < width ==> Distance(r, r) == 0
      ensures forall r: nat, c: nat :: r < width && c < width && r != c && Index(r, c) != Index(row, col) ==>
        Distance(r, c) == old(Distance(r, c))
      ensures row == col ==> matrix[..] == old(matrix[..])
    {
      if row != col {
        Set(row, col, value);
      }
    }

    /** shrink: the last row and column are dropped; the other cells keep their values. */
    method Shrink()
      requires Valid() && width >= 1
      modifies this
      ensures Valid() && width == old(width) - 1 && matrix == old(matrix)
      ensures size == old(size) - width
      ensures forall r: nat, c: nat :: r < width && c < width && r != c ==> Get(r, c) == old(Get(r, c))
    {
      TriStep(width - 1);
      width := width - 1;
      size := size - width;
    }

    /**
     * swap: rows (and columns) a and b exchange places. Cell (a, b) is its
     * own mirror image and stays; the three loops skip columns a and b.
     */
    method Swap(row1: nat, row2: nat)
      requires Valid() && row1 < width && row2 < width
      modifies matrix
      ensures Valid()
      ensures forall r: nat, c: nat :: r < width && c < width && r != c ==>
        Get(r, c) == old(Get(Swapped(row1, row2, r), Swapped(row1, row2, c)))
    {
      var a, b := row1, row2;
      if b < a {
        a, b := b, a;
      }
      ghost var m0 := matrix[..];
      SwapColumns(a, b, 0, a);
      ghost var m1 := matrix[..];
      SwapColumns(a, b, a + 1, b);
      ghost var m2 := matrix[..];
      SwapColumns(a, b, b + 1, width);
      SwapsCompose(matrix[..], m2, m1, m0, a, b, width);
      forall r: nat, c: nat | r < width && c < width && r != c
        ensures Get(r, c) == old(Get(Swapped(row1, row2, r), Swapped(row1, row2, c)))
      {
        assert Swapped(row1, row2, r) == Swapped(a, b, r) && Swapped(row1, row2, c) == Swapped(a, b, c);
      }
    }

    /** One of the three loops of swap: rows a and b exchange their cells in the columns of [lo, hi). */
    method SwapColumns(a: nat, b: nat, lo: nat, hi: nat)
      requires Valid() && a <= b < width && hi <= width
      requires !(lo <= a < hi) && !(lo <= b < hi)
      modifies matrix
      ensures Valid()
      ensures SwappedFrom(matrix[..], old(matrix[..]), a, b, lo, hi, width)
    {
      ghost var m0 := matrix[..];
      SwappedFromNothing(m0, a, b, lo, lo, width);
      var i := lo;
      while i < hi
        invariant lo <= i && (i <= hi || i == lo)
        invariant i == lo ==> matrix[..] == m0
        invariant SwappedFrom(matrix[..], m0, a, b, lo, i, width)
      {
        IndexInStorage(width, a, i);
        IndexInStorage(width, b, i);
        ghost var m := matrix[..];
        var x, y := Index(a, i), Index(b, i);
        var t := matrix[x];
        matrix[x] := matrix[y];
        matrix[y] := t;
        SwapStep(matrix[..], m, m0, a, b, lo, i, i + 1, width);
        i := i + 1;
      }
      if hi < lo {
        SwappedFromNothing(m0, a, b, lo, hi, width);
      }
    }
  }

  /**
   * Writing a diagonal cell as written overwrites the distance of cells
   * (1, 0) and (0, 1); the corrected write leaves it.
   */
  method DiagonalWriteAliases() returns (written: int, intended: int)
    ensures written == 5 && intended == 1
  {
    var m := new PhyloMatrixSymmetric(2, 1);
    m.Set(0, 0, 5);
    written := m.Get(1, 0);
    var n := new PhyloMatrixSymmetric(2, 1);
    n.SetDistance(0, 0, 5);
    intended := n.Distance(1, 0);
  }

  /** Cell (r, c) of m holds the value its source cell has in m0. */
  ghost predicate CellFrom(m: seq<int>, m0: seq<int>, a: nat, b: nat, lo: nat, hi: nat, w: nat, r: nat, c: nat)
  {
    Index(r, c) < |m| &&
    SourceRow(a, b, lo, hi, r, c) < w && SourceCol(a, b, lo, hi, r, c) < w &&
    SourceRow(a, b, lo, hi, r, c) != SourceCol(a, b, lo, hi, r, c) &&
    Index(SourceRow(a, b, lo, hi, r, c), SourceCol(a, b, lo, hi, r, c)) < |m0| &&
    m[Index(r, c)] == m0[Index(SourceRow(a, b, lo, hi, r, c), SourceCol(a, b, lo, hi, r, c))]
  }

  /**
   * m holds m0 with the cells of rows a and b exchanged in the columns of
   * [lo, hi): every off-diagonal cell reads the value of its source cell.
   */
  ghost predicate SwappedFrom(m: seq<int>, m0: seq<int>, a: nat, b: nat, lo: nat, hi: nat, w: nat)
  {
    |m| == |m0| && Size(w) <= |m| &&
    forall r: nat, c: nat :: r < w && c < w && r != c ==> CellFrom(m, m0, a, b, lo, hi, w, r, c)
  }

  /** Before the first column nothing has moved. */
  lemma SwappedFromNothing(m0: seq<int>, a: nat, b: nat, lo: nat, hi: nat, w: nat)
    requires Size(w) <= |m0| && hi <= lo
    ensures SwappedFrom(m0, m0, a, b, lo, hi, w)
  {
    forall r: nat, c: nat | r < w && c < w && r != c ensures CellFrom(m0, m0, a, b, lo, hi, w, r, c) {
      IndexInStorage(w, r, c);
    }
  }

  /** Exchanging cells (a, i) and (b, i) extends the swapped columns by column i. */
  lemma SwapStep(m': seq<int>, m: seq<int>, m0: seq<int>, a: nat, b: nat, lo: nat, i: nat, next: nat, w: nat)
    requires next == i + 1
    requires a <= b < w && lo <= i < w && i != a && i != b && !(lo <= a <= i) && !(lo <= b <= i)
    requires SwappedFrom(m, m0, a, b, lo, i, w)
    requires Index(a, i) < |m| && Index(b, i) < |m|
    requires m' == m[Index(a, i) := m[Index(b, i)]][Index(b, i) := m[Index(a, i)]]
    ensures SwappedFrom(m', m0, a, b, lo, next, w)
  {
    forall r: nat, c: nat | r < w && c < w && r != c ensures CellFrom(m', m0, a, b, lo, next, w, r, c) {
      assert CellFrom(m, m0, a, b, lo, i, w, a, i) && CellFrom(m, m0, a, b, lo, i, w, b, i);
      assert CellFrom(m, m0, a, b, lo, i, w, r, c);
      SwapStepCell(m', m, m0, a, b, lo, i, next, w, r, c);
    }
  }

  /** SwapStep for one cell: the two exchanged cells take each other's source, the others keep theirs. */
  lemma SwapStepCell(m': seq<int>, m: seq<int>, m0: seq<int>, a: nat, b: nat, lo: nat, i: nat, next: nat, w: nat, r: nat, c: nat)
    requires next == i + 1
    requires a <= b < w && lo <= i < w && i != a && i != b && !(lo <= a <= i) && !(lo <= b <= i)
    requires r < w && c < w && r != c && |m| == |m0|
    requires CellFrom(m, m0, a, b, lo, i, w, a, i) && CellFrom(m, m0, a, b, lo, i, w, b, i)
    requires CellFrom(m, m0, a, b, lo, i, w, r, c)
    requires m' == m[Index(a, i) := m[Index(b, i)]][Index(b, i) := m[Index(a, i)]]
    ensures CellFrom(m', m0, a, b, lo, next, w, r, c)
  {
    SameCell(a, i, r, c);
    SameCell(b, i, r, c);
    var x, y := Index(a, i), Index(b, i);
    if (r == b && c == i) || (r == i && c == b) {
      assert Index(r, c) == y && m'[y] == m[x];
      assert Index(SourceRow(a, b, lo, next, r, c), SourceCol(a, b, lo, next, r, c)) == x;
    } else if (r == a && c == i) || (r == i && c == a) {
      assert Index(r, c) == x && m'[x] == m[y];
      assert Index(SourceRow(a, b, lo, next, r, c), SourceCol(a, b, lo, next, r, c)) == y;
    } else {
      assert Index(r, c) != x && Index(r, c) != y;
      assert SourceRow(a, b, lo, next, r, c) == SourceRow(a, b, lo, i, r, c);
      assert SourceCol(a, b, lo, next, r, c) == SourceCol(a, b, lo, i, r, c);
    }
  }

  /** The three loops of swap together exchange rows a and b. */
  lemma SwapsCompose(m3: seq<int>, m2: seq<int>, m1: seq<int>, m0: seq<int>, a: nat, b: nat, w: nat)
    requires a <= b < w
    requires SwappedFrom(m1, m0, a, b, 0, a, w)
    requires SwappedFrom(m2, m1, a, b, a + 1, b, w)
    requires SwappedFrom(m3, m2, a, b, b + 1, w, w)
    ensures forall r: nat, c: nat :: r < w && c < w && r != c ==>
      Index(r, c) < |m3| && Swapped(a, b, r) != Swapped(a, b, c) && Index(Swapped(a, b, r), Swapped(a, b, c)) < |m0| &&
      m3[Index(r, c)] == m0[Index(Swapped(a, b, r), Swapped(a, b, c))]
  {
    forall r: nat, c: nat | r < w && c < w && r != c
      ensures Index(r, c) < |m3| && Swapped(a, b, r) != Swapped(a, b, c) && Index(Swapped(a, b, r), Swapped(a, b, c)) < |m0| &&
        m3[Index(r, c)] == m0[Index(Swapped(a, b, r), Swapped(a, b, c))]
    {
      assert CellFrom(m3, m2, a, b, b + 1, w, w, r, c);
      var r2, c2 := SourceRow(a, b, b + 1, w, r, c), SourceCol(a, b, b + 1, w, r, c);
      assert CellFrom(m2, m1, a, b, a + 1, b, w, r2, c2);
      var r1, c1 := SourceRow(a, b, a + 1, b, r2, c2), SourceCol(a, b, a + 1, b, r2, c2);
      assert CellFrom(m1, m0, a, b, 0, a, w, r1, c1);
      var r0, c0 := SourceRow(a, b, 0, a, r1, c1), SourceCol(a, b, 0, a, r1, c1);
      SameCell(r0, c0, Swapped(a, b, r), Swapped(a, b, c));
    }
  }

  /** Two off-diagonal cells share their storage exactly when they are the same unordered pair. */
  lemma SameCell(r1: nat, c1: nat, r2: nat, c2: nat)
    requires r1 != c1 && r2 != c2
    ensures Index(r1, c1) == Index(r2, c2) <==> (r1 == r2 && c1 == c2) || (r1 == c2 && c1 == r2)
  {
    if Index(r1, c1) == Index(r2, c2) {
      var h1, l1 := if r1 > c1 then r1 else c1, if r1 > c1 then c1 else r1;
      var h2, l2 := if r2 > c2 then r2 else c2, if r2 > c2 then c2 else r2;
      IndexInjective(h1, l1, h2, l2);
    }
  }
}
