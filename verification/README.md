# alignlib core, modelled in Dafny

alignlib is a C++ library for aligning biological sequences. This project
models the core of that library and proves properties of the model:

- **Pairwise alignments.** A pairwise alignment is a set of residue pairs
  (row residue, column residue, score) with bounds, a score and a length.
  The library keeps it in three storages: a dense vector indexed by row, an
  ordered set with a pluggable comparator, and a dot list that is sorted and
  indexed by row on demand. The generic alignment code counts length and
  gaps, switches rows and columns, maps rows to columns and removes regions.
- **Alignment helpers.** These combine, copy, filter, fill, score, split and
  complement alignments. The two compact formats are the blocks format and
  the emissions format.
- **Dynamic-programming aligner.** This is the full-matrix aligner with
  affine gaps in local, wrapped and global mode, together with its
  trace-back. It is paired with the iterative aligner, which recursively
  searches the regions before and after every accepted hit.
- **Alignable objects.** These are segments and masks.
- **Rows and multiple alignments.** An alignatum is one row of a multiple
  alignment as text. The multiple alignment itself is kept as one map per
  sequence.
- **Supporting structures.** These are the banded iterator over a
  dynamic-programming matrix, the symmetric distance matrix stored as a
  lower triangle, and the bottom-up binary tree.

The model follows the library's own structure:

- One Dafny module per source file, plus `FilterReadings`, which models the unit test's reading of the filtered copy beside the doc comment's.
- A `class` wherever the library updates an object's fields in place:
  - the alignment storages;
  - the alignable object;
  - the alignatum;
  - the multiple alignment;
  - the aligner;
  - the iterator;
  - the distance matrix;
  - the tree.
- Methods with loop invariants wherever the library loops.
- Functions and lemmas for the specifications those methods are proved
  against.

The shared conventions:

- Positions are unbounded integers, and `NO_POS` is -1.
- An alignment is observed as the sequence of its pairs in iteration order.
- The library's exceptions become the failure alternative of a result type.

Several operations, as written, do not do what their comments, their
callers or the library's tests expect. For each of them the project keeps
two versions:

- a member modelling the code as written, with a lemma or example that
  shows the discrepancy on a concrete input;
- the corrected member, with the intended property proved, which the rest
  of the model uses.

They are listed under Findings.

## Model

| member | source | states |
|---|---|---|
| AlignmentBase.CalculateLength | src/ImplAlignment.cpp:167-209 | an alignment without bounds has length 0 and no gaps; otherwise the gaps are the rows and columns skipped between consecutive pairs, starting from the first row and column, and the length is the number of pairs plus the gaps |
| AlignmentBase.LengthOfAlignment | src/ImplAlignment.cpp:189-207 | for pairs increasing in row and column, the gaps are the row span plus the column span minus twice the pairs, so the length is the row span plus the column span minus the pairs |
| AlignmentBase.MapRowToCol | src/ImplAlignment.cpp:243-260 | NO_POS when no pair has row pos; otherwise the column of the first such pair in iteration order |
| AlignmentBase.MapColToRow | src/ImplAlignment.cpp:268-283 | NO_POS when no pair has column pos; otherwise the row of the first such pair in iteration order |
| AlignmentBase.SwitchPairs | src/ImplAlignment.cpp:218-228 | the rebuilt pair list is the original one with row and column exchanged in every pair, in the same order |
| AlignmentBase.SwitchedTwice | src/ImplAlignment.cpp:213-234 | switching rows and columns twice gives back the original pairs |
| AlignmentBase.SwitchedMaps | src/ImplAlignment.cpp:213-234 | after switching, mapRowToCol answers what mapColToRow answered before, and vice versa, for every position |
| AlignmentBase.SwitchedBounds | src/ImplAlignment.cpp:213-234 | switching exchanges the row bounds with the column bounds |
| AlignmentBase.SwitchedGaps | src/ImplAlignment.cpp:189-207 | switching keeps the number of gaps counted by calculateLength |
| AlignmentBase.SwitchRowColAsWritten | src/ImplAlignment.cpp:213-234 | as written, the pairs come back switched but the score is 0, because clear() resets it and nothing restores it |
| AlignmentBase.SwitchRowCol | src/ImplAlignment.cpp:213-234 | the corrected switch keeps the score, maps columns to rows and rows to columns, exchanges the row and column bounds, and keeps the number of pairs and of gaps |
| AlignmentBase.SwitchRowColTwice | src/ImplAlignment.cpp:213-234 | applying the corrected switch twice restores the alignment, score included |
| AlignmentBase.RemoveRowRegion | src/ImplAlignment.cpp:288-309 | the kept pairs are the subsequence of the pairs whose row lies outside [from, to), so a pair is kept exactly when it was present with its row outside the region, in its old order; the score is kept, and a row-sorted alignment stays row-sorted |
| AlignmentBase.RemoveColRegion | src/ImplAlignment.cpp:314-336 | the kept pairs are the subsequence of the pairs whose column lies outside [from, to), so a pair is kept exactly when it was present with its column outside the region, in its old order; the score is kept, and a row-sorted alignment stays row-sorted |
| AlignmentBase.OutsideMembers | src/ImplAlignment.cpp:288-336 | the pairs a region removal keeps are exactly the pairs present whose row (or column) lies outside the region |
| AlignmentBase.OutsideSorted | src/ImplAlignment.cpp:288-336 | a region removal keeps a row-sorted alignment row-sorted |
| Alignandum.Alignandum.constructor | src/ImplAlignandum.cpp:40-45 | a new object has no segment (both ends NO_POS), no residues and no mask flags |
| Alignandum.Alignandum.UseSegment | src/ImplAlignandum.cpp:93-106 | NO_POS as the start selects the first residue, NO_POS as the end selects the last one, an end beyond the residues is clipped; the residues and the mask are unchanged, and getLength is the segment's width |
| Alignandum.Alignandum.SetTrueLength | src/ImplAlignandum.cpp:127-132 | the residues become [0, newLength), all of them active; the mask keeps its flags and new positions are unmasked |
| Alignandum.Alignandum.Mask | src/ImplAlignandum.cpp:75-78 | exactly the given position becomes masked, every other flag and the segment are unchanged |
| Alignandum.Alignandum.MaskRange | src/ImplAlignandum.cpp:67-72 | a position is masked afterwards exactly when it lies in [first, last) or was masked before; the segment is unchanged |
| Alignandum.Resized | src/ImplAlignandum.cpp:127-132 | the resized mask has the new length; a position keeps its flag when it existed before, and is unmasked otherwise |
| AlignmentVector.AlignmentVector.constructor | src/ImplAlignmentVector.cpp:47-50 | a new vector holds no pairs, has NO_POS row bounds and score 0 |
| AlignmentVector.AlignmentVector.BoundsAreTight | src/ImplAlignmentVector.cpp:194-199 | in every valid non-empty state the first and the last row of the bounds hold a pair, and every pair lies within the row and column bounds |
| AlignmentVector.AlignmentVector.AddPair | src/ImplAlignmentVector.cpp:122-139 | the pair replaces whatever pair its row held, every other row is unchanged, the slot vector grows to cover the row, the bounds stay tight and the score is unchanged |
| AlignmentVector.AlignmentVector.RemovePair | src/ImplAlignmentVector.cpp:186-205 | the pair's row loses its pair and nothing else changes; the row bounds shrink to the first and last remaining pair, and removing the last pair clears the alignment |
| AlignmentVector.AlignmentVector.ClearAsWritten | src/ImplAlignmentVector.cpp:220-225 | as written, clear() empties the slots and zeroes length, score and gap count but leaves the row and column bounds as they were |
| AlignmentVector.ClearAsWrittenExample | src/ImplAlignment.cpp:86-94 | a vector whose one pair at row 0 was cleared is left empty with row bounds (0, 1), a state that breaks the vector's invariant |
| AlignmentVector.AlignmentVector.Clear | src/ImplAlignmentVector.cpp:220-225 | the corrected clear empties the alignment and sets all four bounds to NO_POS, as the matrix storage does |
| AlignmentVector.AlignmentVector.ResetBoundariesAsWritten | src/ImplAlignmentVector.cpp:267-291 | as written, when every slot is empty mRowFrom becomes NO_POS but mRowTo keeps its old value, because the line meant to reset it compares instead of assigning |
| AlignmentVector.ResetBoundariesAsWrittenExample | src/ImplAlignmentVector.cpp:283 | a vector whose slots are all empty ends with bounds (NO_POS, 4), which breaks the vector's invariant |
| AlignmentVector.AlignmentVector.ResetBoundaries | src/ImplAlignmentVector.cpp:267-291 | the corrected reset leaves the pairs, the score and the column bounds alone and makes the row bounds tight again, NO_POS for both when no pair is left |
| AlignmentVector.AlignmentVector.RemoveRowRegion | src/ImplAlignmentVector.cpp:293-316 | exactly the pairs whose row lies in [lo, hi) are removed, the row bounds are tight again, the column bounds still enclose every pair, and the score is unchanged |
| AlignmentVector.AlignmentVector.RemoveColRegion | src/ImplAlignmentVector.cpp:321-338 | exactly the pairs whose column lies in [lo, hi) are removed, the row bounds are tight again, the column bounds still enclose every pair, and the score is unchanged |
| AlignmentVector.AlignmentVector.MapRowToCol | src/ImplAlignmentVector.cpp:228-263 | without search, the column of the pair at row pos or NO_POS; with LEFT, the column of the last aligned row at or before pos, NO_POS when none; with RIGHT, the column of the first aligned row at or after pos, NO_POS when none |
| AlignmentVector.AlignmentVector.MoveAlignment | src/ImplAlignmentVector.cpp:142-172 | every pair moves by the row and column offsets, each bound moves by its offset, and the score is unchanged |
| AlignmentVector.AddPairKeepsValid | src/ImplAlignmentVector.cpp:122-139 | placing a pair in the grown slot vector keeps the vector's invariant, with the bounds widened to take in the new pair |
| AlignmentVector.EmptyRows | src/ImplAlignmentVector.cpp:303-309 | the rebuilt slots hold exactly the pairs whose row lies outside [lo, hi) |
| AlignmentVector.EmptyCols | src/ImplAlignmentVector.cpp:328-332 | the rebuilt slots hold exactly the pairs whose column lies outside [lo, hi) |
| AlignmentSorted.StrictWeakOrder | src/ImplAlignmentSorted.cpp:38-78 | each of the four comparators is irreflexive and transitive, and its equivalence (neither pair before the other) is transitive and compatible with it, as std::set requires |
| AlignmentSorted.EquivalentIsSameKey | src/ImplAlignmentSorted.cpp:38-78 | two pairs are equivalent under a comparator exactly when they agree on its key: the row, the column, the row and column, or the diagonal and column |
| AlignmentSorted.SortedByRowIsRowSorted | src/ImplAlignmentSorted.cpp:38-45 | a set under the row comparator iterates in strictly increasing rows, and conversely |
| AlignmentSorted.SortedByColIsColSorted | src/ImplAlignmentSorted.cpp:47-54 | a set under the column comparator iterates in strictly increasing columns, and conversely |
| AlignmentSorted.AtMostOneEquivalent | src/ImplAlignmentSorted.cpp:38-78 | a sorted set holds at most one pair of each key |
| AlignmentSorted.Find | src/ImplAlignmentSorted.cpp:209 | find answers the position of the stored pair with the key of p, and -1 exactly when no stored pair has that key |
| AlignmentSorted.Insert | src/ImplAlignmentSorted.cpp:216 | inserting a pair whose key is new keeps the set sorted and adds exactly that pair |
| AlignmentSorted.AlignmentSorted.constructor | src/ImplAlignmentSorted.cpp:114-117 | a new set with the chosen comparator holds no pairs and has score 0 |
| AlignmentSorted.AlignmentSorted.AddPair | src/ImplAlignmentSorted.cpp:204-217 | a pair whose key is already present is discarded and the old pair kept; otherwise exactly the new pair is added; the set stays sorted and the score unchanged |
| AlignmentSorted.AlignmentSorted.GetPair | src/ImplAlignmentSorted.cpp:222-230 | the stored pair with the key of p, or the default pair (NO_POS, NO_POS, 0) when there is none |
| AlignmentSorted.AlignmentSorted.RemovePair | src/ImplAlignmentSorted.cpp:234-246 | exactly the stored pair with the key of p is removed, nothing when there is none; the set stays sorted and the score unchanged |
| AlignmentSorted.AlignmentSorted.RemoveRowRegionAsWritten | src/ImplAlignmentSorted.cpp:252-266 | as written, a pair is removed exactly when it is equivalent to a probe (pos, NO_POS, 0) for some pos in [from, to), which only the row comparator makes a row test |
| AlignmentSorted.RowKeysMissColumnOrders | src/ImplAlignmentSorted.cpp:252-266 | under the column, row-and-column and diagonal comparators no pair with a real column matches any probe, so removeRowRegion removes nothing |
| AlignmentSorted.RemoveRowRegionAsWrittenExample | src/ImplAlignmentSorted.cpp:255-265 | a column-sorted set holding (3,3) and (5,6) still holds both after removing rows [3, 5), although the pair at row 3 lies in the region |
| AlignmentSorted.RowKeysHitRows | src/ImplAlignmentSorted.cpp:38-45 | under the row comparator a probe for some pos in [from, to) matches a pair exactly when its row lies in [from, to) |
| AlignmentSorted.AlignmentSorted.RemoveRowRegion | src/ImplAlignmentSorted.cpp:252-266 | the corrected region removal keeps a pair exactly when its row lies outside [from, to), under every comparator; the set stays sorted and the score unchanged |
| AlignmentSorted.AlignmentSorted.RemoveColRegion | src/ImplAlignmentSorted.cpp:272-294 | a pair is kept exactly when its column lies outside [from, to); the set stays sorted and the score unchanged |
| AlignmentMatrix.BelowIsWeakOrder | src/ImplAlignmentMatrix.cpp:277-310 | the row comparison of the quick-sort, and the row-then-column order, are irreflexive, asymmetric and their "not before" relation is transitive |
| AlignmentMatrix.Swap | src/ImplAlignmentMatrix.cpp:286-288 | exchanging two dots changes only those two slots and keeps the multiset of the sorted range |
| AlignmentMatrix.Partition | src/ImplAlignmentMatrix.cpp:284-303 | after the median is moved to the front and the scan ends, every dot left of the split point sorts before the pivot, none right of it does, the range is a permutation of what it was and nothing outside it moved; when the range ends with its maximum the split point is not the last slot |
| AlignmentMatrix.SortDotsByRow | src/ImplAlignmentMatrix.cpp:277-310 | the recursive quick-sort leaves the range [from,to] ordered by the key, as a permutation of its old contents, with everything outside untouched |
| AlignmentMatrix.SortDots | src/ImplAlignmentMatrixRow.cpp:112-117 | sorting the whole vector orders it and keeps its multiset of dots |
| AlignmentMatrix.UpdateBoundaries | src/ImplAlignmentMatrix.cpp:170-200 | the bounds become the smallest row and column and one past the largest row and column of the dots, or NO_POS for none |
| AlignmentMatrix.EliminateDuplicates | src/ImplAlignmentMatrix.cpp:350-392 | the kept dots are the input with every dot dropped that repeats the cell of the dot kept just before it, and the bounds are those of the kept dots |
| AlignmentMatrix.DedupKeepsInput | src/ImplAlignmentMatrix.cpp:369-386 | every kept dot is one of the input dots |
| AlignmentMatrix.DedupKeepsCells | src/ImplAlignmentMatrix.cpp:369-386 | dropping neighbour duplicates loses no cell: the kept dots cover exactly the input's cells (apart from the starting sentinel cell) |
| AlignmentMatrix.DedupNoRepeats | src/ImplAlignmentMatrix.cpp:369-386 | no two consecutive kept dots share a cell |
| AlignmentMatrix.DedupOrdered | src/ImplAlignmentMatrix.cpp:369-386 | eliminating duplicates keeps a sorted vector sorted |
| AlignmentMatrix.DedupStrict | src/ImplAlignmentMatrix.cpp:350-392 | on a vector sorted by row and then column the kept dots are strictly increasing, so no cell appears twice |
| AlignmentMatrix.RowOnlyKeepsDuplicates | src/ImplAlignmentMatrixRow.cpp:112-117 | a vector sorted by row only, as sortDots leaves it, can still hold the same cell twice after eliminateDuplicates: (1,4),(1,2),(1,5),(1,3),(1,2) is row-sorted and survives unchanged |
| AlignmentMatrix.WithoutRemovesEvery | src/ImplAlignmentMatrix.cpp:203-220 | the erase loop removes every dot equal to the given one and keeps all others with their multiplicities |
| AlignmentMatrix.RemoveDots | src/ImplAlignmentMatrix.cpp:203-224 | removing a pair erases all its copies and resets the bounds to those of the remaining dots |
| AlignmentMatrixRow.RowThenColIsByRow | src/ImplAlignmentMatrixRow.cpp:108-117 | a vector sorted by row and then column is sorted by row |
| AlignmentMatrixRow.BuildIndex | src/ImplAlignmentMatrixRow.cpp:122-147 | the index has one slot per row below rowTo, and each slot holds the position of the first dot of that row, or NODOT when the row has none |
| AlignmentMatrixRow.SortedCopy | src/ImplAlignmentMatrixRow.cpp:112-117 | the sorted copy is a permutation of the dots ordered by row and then column |
| AlignmentMatrixRow.Recalculate | src/ImplAlignmentMatrix.cpp:407-433 | sorting, eliminating duplicates and indexing leave a duplicate-free vector drawn from the input that covers the same cells, with tight bounds and a first-dot index |
| AlignmentMatrixRow.AlignmentMatrixRow.constructor | src/ImplAlignmentMatrix.cpp:57-63 | a new matrix is empty with NO_POS bounds, zero score and length |
| AlignmentMatrixRow.AlignmentMatrixRow.AddPair | src/ImplAlignmentMatrix.cpp:149-154 | adding a pair appends it and marks the length as stale |
| AlignmentMatrixRow.AlignmentMatrixRow.GetPair | src/ImplAlignmentMatrix.cpp:158-167 | returns a stored pair with the requested row if there is one, else the empty pair (NO_POS,NO_POS,0) |
| AlignmentMatrixRow.AlignmentMatrixRow.RemovePair | src/ImplAlignmentMatrix.cpp:203-224 | every copy of the pair is removed, the bounds are recomputed and the length is marked stale |
| AlignmentMatrixRow.AlignmentMatrixRow.Clear | src/ImplAlignmentMatrix.cpp:227-241 | clearing empties the dots, resets all bounds to NO_POS and the score and length to zero |
| AlignmentMatrixRow.AlignmentMatrixRow.CalculateLength | src/ImplAlignmentMatrix.cpp:407-433 | the length becomes the number of dots before de-duplication, the gap count zero, and the dots become duplicate-free and indexed while covering the same cells |
| AlignmentMatrixRow.AlignmentMatrixRow.MapRowToCol | src/ImplAlignmentMatrixRow.cpp:97-105 | returns NO_POS when no dot lies in the row, and otherwise a column of that row that is the smallest one |
| AlignmentMatrixRow.MapRowToColMeaning | src/ImplAlignmentMatrixRow.cpp:97-105 | reading the first dot of the row through the index gives the smallest column of that row among the original dots, or NO_POS |
| PhyloMatrixSymmetric.TriFormula | src/ImplPhyloMatrixSymmetric.cpp:46 | the storage size width*(width-1)/2 is the number of cells strictly below the diagonal, built row by row |
| PhyloMatrixSymmetric.IndexInRow | src/ImplPhyloMatrixSymmetric.cpp:140-155 | an off-diagonal cell whose larger coordinate is r is stored inside the block of row r |
| PhyloMatrixSymmetric.RowUnique | src/ImplPhyloMatrixSymmetric.cpp:158-169 | every storage index falls in exactly one row block |
| PhyloMatrixSymmetric.IndexSymmetric | src/ImplPhyloMatrixSymmetric.cpp:149-152 | (row, col) and (col, row) are stored in the same slot |
| PhyloMatrixSymmetric.IndexInjective | src/ImplPhyloMatrixSymmetric.cpp:140-155 | distinct lower-triangle cells have distinct storage indices |
| PhyloMatrixSymmetric.IndexInStorage | src/ImplPhyloMatrixSymmetric.cpp:140-155 | every off-diagonal cell of a matrix of a given width is stored inside its width*(width-1)/2 slots, and so is a diagonal cell (slot NO_INDEX) once the width is at least 2 |
| PhyloMatrixSymmetric.DiagonalAliases | src/ImplPhyloMatrixSymmetric.cpp:140-155 | a diagonal cell gets the slot NO_INDEX = 0 of cell (1, 0), and of no other lower-triangle cell |
| PhyloMatrixSymmetric.SameCell | src/ImplPhyloMatrixSymmetric.cpp:140-155 | two off-diagonal cells share a slot exactly when they are the same unordered pair of rows |
| PhyloMatrixSymmetric.GetRow | src/ImplPhyloMatrixSymmetric.cpp:158-169 | the returned row is the one whose block [row*(row-1)/2, row*(row+1)/2) contains the index |
| PhyloMatrixSymmetric.GetColumn | src/ImplPhyloMatrixSymmetric.cpp:173-176 | the returned column is that of a lower-triangle cell stored at the index |
| PhyloMatrixSymmetric.RowColumnInvert | src/ImplPhyloMatrixSymmetric.cpp:158-176 | getRow and getColumn recover the row and column of a cell from its storage index |
| PhyloMatrixSymmetric.PhyloMatrixSymmetric.constructor | src/ImplPhyloMatrixSymmetric.cpp:41-57 | a new matrix of the given width holds the default value in every off-diagonal cell |
| PhyloMatrixSymmetric.PhyloMatrixSymmetric.Copy | src/ImplPhyloMatrixSymmetric.cpp:59-82 | the copy has the source's width and the source's value in every off-diagonal cell |
| PhyloMatrixSymmetric.PhyloMatrixSymmetric.Set | src/ImplPhyloMatrix.cpp:231-234 | setElement through getIndex: the cell and its mirror take the value and every cell with another slot keeps its own; a diagonal cell, accepted once the width is at least 2, writes slot NO_INDEX, so cell (1, 0) takes the value |
| PhyloMatrixSymmetric.PhyloMatrixSymmetric.SetDistance | src/ImplPhyloMatrixSymmetric.cpp:146-147 | corrected: an off-diagonal cell and its mirror take the value, every other off-diagonal cell keeps its distance, the diagonal reads 0 and a diagonal write changes nothing |
| PhyloMatrixSymmetric.DiagonalWriteAliases | src/ImplPhyloMatrix.cpp:231-234 | on a width-2 matrix of 1s, writing 5 to (0, 0) as written makes cell (1, 0) read 5, while the corrected write leaves it at 1 |
| PhyloMatrixSymmetric.PhyloMatrixSymmetric.Shrink | src/ImplPhyloMatrixSymmetric.cpp:85-94 | the last row and column are dropped, the size shrinks by the new width and every remaining cell keeps its value |
| PhyloMatrixSymmetric.PhyloMatrixSymmetric.Swap | src/ImplPhyloMatrixSymmetric.cpp:97-137 | after the swap every cell (r, c) holds what the cell with rows row_1 and row_2 exchanged held before |
| PhyloMatrixSymmetric.PhyloMatrixSymmetric.SwapColumns | src/ImplPhyloMatrixSymmetric.cpp:126-133 | one of the three loops exchanges the cells of the two rows in the columns of its range and touches nothing else |
| PhyloMatrixSymmetric.SwapsCompose | src/ImplPhyloMatrixSymmetric.cpp:121-133 | the three loops that skip columns row_1 and row_2 together exchange the two rows and columns completely |
| Iterator2DBanded.Iterator2DBanded.constructor | src/ImplIterator2DBanded.cpp:63-75 | the iterator keeps the band, and its ranges are set by the corrected resetRanges: a row or column is in range exactly when it holds a cell of the band inside both windows |
| Iterator2DBanded.Iterator2DBanded.ResetRangesAsWritten | src/ImplIterator2DBanded.cpp:96-106 | as written: rows from max(row.from, col.from + upper) to min(row.to, col.to - upper), columns from max(row.from + lower, col.from) to min(row.to - lower, col.to); with diagonals read as col - row these are not the ends of the band |
| Iterator2DBanded.Iterator2DBanded.ResetRanges | src/ImplIterator2DBanded.cpp:96-106 | corrected: the row range is exactly the rows of the row window that hold a cell of the band inside the column window, and the column range likewise |
| Iterator2DBanded.BandRowsExact | src/ImplIterator2DBanded.cpp:42-52 | a row is in [max(row.from, col.from - upper), min(row.to, col.to - lower)) exactly when it holds a cell of the band inside both windows (no row when the column window is empty) |
| Iterator2DBanded.BandColsExact | src/ImplIterator2DBanded.cpp:42-52 | a column is in [max(col.from, row.from + lower), min(col.to, row.to + upper)) exactly when it holds a cell of the band inside both windows (no column when the row window is empty) |
| Iterator2DBanded.ResetRangesAsWrittenMisses | src/ImplIterator2DBanded.cpp:100-103 | with the band [0, 2] the ranges as written leave out row 0 (cell (0, 1)) on the windows [0, 10) and [0, 10), and column 6 (cell (4, 6)) on the windows [0, 5) and [0, 10); the corrected ranges hold both |
| Iterator2DBanded.Iterator2DBanded.ColFront | src/ImplIterator2DBanded.cpp:160-166 | for a non-zero row a non-zero answer is the first column of that row inside the band and not before colFrom |
| Iterator2DBanded.Iterator2DBanded.ColBack | src/ImplIterator2DBanded.cpp:168-174 | for a non-zero row a non-zero answer is the last column of that row inside the band and not after colTo |
| Iterator2DBanded.Iterator2DBanded.ColSpan | src/ImplIterator2DBanded.cpp:134-142 | the span [col_begin, col_end) of a row holds exactly its columns inside the band |
| Iterator2DBanded.Iterator2DBanded.RowFrontAsWritten | src/ImplIterator2DBanded.cpp:144-150 | row_front as written returns col + lower, which is a first in-band position only with the roles of row and column exchanged |
| Iterator2DBanded.Iterator2DBanded.RowBackAsWritten | src/ImplIterator2DBanded.cpp:152-158 | row_back as written returns col + upper, a last in-band position only with the roles of row and column exchanged |
| Iterator2DBanded.Iterator2DBanded.RowFront | src/ImplIterator2DBanded.cpp:144-150 | corrected row_front: a non-zero answer is the first row whose cell in the column lies in the band |
| Iterator2DBanded.Iterator2DBanded.RowBack | src/ImplIterator2DBanded.cpp:152-158 | corrected row_back: a non-zero answer is the last row whose cell in the column lies in the band |
| Iterator2DBanded.Iterator2DBanded.RowSpan | src/ImplIterator2DBanded.cpp:125-132 | with the corrected ends the span [row_begin, row_end) of a column holds exactly its rows inside the band, agreeing with the column spans |
| Iterator2DBanded.Iterator2DBanded.RowSpanAsWrittenDisagrees | src/ImplIterator2DBanded.cpp:144-158 | with the band [0, 2] cell (3, 5) is in the column span of row 3 but not in the row span of column 5 as written, while the corrected span contains it |
| Tree.Root | src/ImplTree.cpp:129-136 | following parent links from a node ends at a node at or above it that has no parent |
| Tree.PostOrder | src/ImplTree.cpp:248-259 | the post-order walk of a node is non-empty and ends with the node itself |
| Tree.PostOrderBounded | src/ImplTree.cpp:248-259 | the walk of a node visits only nodes numbered at most the node (children are created before their parent) |
| Tree.NumChildrenCountsLeaves | src/ImplTree.cpp:165-166 | the numChildren count kept by joinNodes equals the number of leaves under the node |
| Tree.PostOrderChildrenFirst | src/ImplTree.cpp:255-258 | the walk lists both children of every joined node before the node |
| Tree.AboveChain | src/ImplTree.cpp:129-136 | the ancestors of a node form a single chain |
| Tree.PostOrderBelow | src/ImplTree.cpp:248-259 | every node the walk of k visits has k among its ancestors |
| Tree.SubtreesDisjoint | src/ImplTree.cpp:138-169 | the two subtrees of a joined node share no node |
| Tree.PostOrderDistinct | src/ImplTree.cpp:248-259 | the walk visits each node at most once |
| Tree.BelowInPostOrder | src/ImplTree.cpp:248-259 | every node that has k among its ancestors is visited by the walk of k |
| Tree.RootAbove | src/ImplTree.cpp:129-136 | findRoot ends at an ancestor of the node |
| Tree.CompleteTree | src/ImplTree.cpp:90-92 | once all 2n-1 nodes are in use the last node joined is the root of every node and its walk visits them all |
| Tree.JoinKeepsForest | src/ImplTree.cpp:138-169 | joining two distinct roots into the next free node keeps the tree well formed and replaces the two roots by the new node |
| Tree.VisitStep | src/ImplTree.cpp:230-242 | popping a node and pushing its left and then its right child leaves the same walk still owed, less the node just output |
| Tree.Tree.constructor | src/ImplTree.cpp:39-44 | with leaves the tree has 2n-1 slots, the first n of them parentless leaves, and the next node to join is n; without leaves it stays empty |
| Tree.Tree.SetNumLeaves | src/ImplTree.cpp:74-84 | the node array is reallocated with 2n-1 slots, the first n being leaves with one child count and no links, and joining restarts at node n |
| Tree.Allocate | src/ImplTree.cpp:185-200 | recordLeaves makes the first n nodes parentless, childless leaves that count one leaf each |
| Tree.Tree.FindRoot | src/ImplTree.cpp:129-136 | returns the node without a parent reached from the given node by parent links |
| Tree.Tree.JoinNodes | src/ImplTree.cpp:138-169 | the next free node becomes the parent of the two nodes (or of their roots with map_parents) with the given edge weights and their summed leaf counts, its id is returned and the counter advances |
| Tree.Tree.JoinRoots | src/ImplTree.cpp:157-168 | the stores of joinNodes on two distinct roots give exactly the joined node array |
| Tree.JoinArray | src/ImplTree.cpp:157-166 | the five stores of joinNodes keep the tree well formed and replace the two roots by the new node |
| Tree.Tree.TraversePostOrder | src/ImplTree.cpp:248-259 | appends to the list exactly the post-order walk of the node |
| Tree.Tree.NodesDepthFirstFinish | src/ImplTree.cpp:262-271 | returns the post-order walk from the root |
| Tree.Tree.NodesDepthFirstVisit | src/ImplTree.cpp:220-245 | the stack walk returns the root, then the walk of its right subtree, then that of its left one |
| Tree.VisitWalk | src/ImplTree.cpp:224-244 | the stack walk from a node lists the node and then, recursively, its right and its left subtree |
| Tree.Tree.NodesLeaves | src/ImplTree.cpp:205-217 | returns the leaves 0 to n-1 in order |
| HelpersAlignment.Combine | src/HelpersAlignment.cpp:421-491 | every emitted pair joins a pair of each alignment whose shared coordinates agree, and when both inputs are sorted on that coordinate every such match is emitted |
| HelpersAlignment.CombineMatchStep | src/HelpersAlignment.cpp:437-488 | in sorted inputs a match is the only match of either of its two pairs, so advancing both iterators loses none |
| HelpersAlignment.CombineSkipFirst | src/HelpersAlignment.cpp:437-488 | a pair of the first alignment whose key is below the current key of the second cannot match any later pair, so advancing past it loses nothing |
| HelpersAlignment.CopyWindow | src/HelpersAlignment.cpp:181-236 | the destination is the subsequence of src made of the pairs inside the half-open row and column windows and the inclusive diagonal window, so it keeps their order and holds each wanted pair of src; NO_POS bounds and an inverted diagonal window filter nothing |
| HelpersAlignment.ClampInvisible | src/HelpersAlignment.cpp:195-208 | replacing a NO_POS window bound by the bound of src keeps the same pairs |
| HelpersAlignment.CopyFilteredAsWritten | src/HelpersAlignment.cpp:292-328 | as written the destination is the subsequence of src whose coordinate the filter maps to 0, so every pair the filter does not map (NO_POS) is dropped |
| HelpersAlignment.CopyFiltered | src/HelpersAlignment.cpp:292-328 | corrected: the destination is the subsequence of src whose coordinate the filter does not map (all of src without a filter), so order is kept and sortedness carries over |
| HelpersAlignment.CopyFilteredEmptyFilter | src/HelpersAlignment.cpp:310-325 | with an empty filter the condition as written drops the pair (1,1) while the intended one keeps it |
| FilterReadings.CopyFilteredAsTested | tests/test_HelpersAlignment.cpp:124-138 | the reading of the unit test: the destination is the subsequence of src whose coordinate the filter maps (all of src without a filter), so order is kept and sortedness carries over |
| FilterReadings.ReadingsSplit | src/HelpersAlignment.cpp:291-328 | under a filter the reading of the doc comment and the reading of the test together keep every pair of src exactly once |
| FilterReadings.TestCounts | tests/test_HelpersAlignment.cpp:124-138 | on the test's runs (i, i) for i in [0, m) filtered by (i, i) for i in [x, y), the test's reading keeps m - x pairs, the doc comment's reading x, and the condition as written one pair when x is 0 and none otherwise |
| FilterReadings.FilterMappedMembers | tests/test_HelpersAlignment.cpp:124-138 | under the test's reading a pair is copied exactly when it is in src and the filter maps its coordinate |
| HelpersAlignment.AddAlignment | src/HelpersAlignment.cpp:333-349 | all pairs of src are added after those of dest and the scores add up |
| HelpersAlignment.MappedMembers | src/HelpersAlignment.cpp:353-384 | the added pairs are exactly the images of src's pairs under the map, less those whose mapped coordinate is NO_POS |
| HelpersAlignment.AddMapped | src/HelpersAlignment.cpp:353-384 | the mapped pairs of src are added in order after dest's pairs and the scores add up |
| HelpersAlignment.FillIdentity | src/HelpersAlignment.cpp:1132-1145 | the pairs (i, i + offset) for i in [from, to) are added after dest's pairs |
| HelpersAlignment.IdentityMaps | src/HelpersAlignment.cpp:1132-1145 | the identity run is sorted, maps each row of [from, to) to row + offset and nothing else, and is its own inverse on columns |
| HelpersAlignment.FillExplicit | src/HelpersAlignment.cpp:1366-1394 | a pair is added exactly for each column with a residue in both strings, at the residue numbers counted so far on each side; the added pairs are sorted |
| HelpersAlignment.CalculateAffineScore | src/HelpersAlignment.cpp:1435-1469 | the pairs are kept and the score becomes the affine score of the alignment |
| HelpersAlignment.AffineDecomposes | src/HelpersAlignment.cpp:1450-1467 | the affine score is the sum of the pair scores, plus gop for every row or column gap opened, plus gep for every gap position |
| HelpersAlignment.MergeSorted | src/HelpersAlignment.cpp:1249-1363 | the pairs read from two run-length strings are strictly increasing in rows and columns, start after the given residues and have score 0 |
| HelpersAlignment.FillCompressed | src/HelpersAlignment.cpp:1249-1363 | the pairs added are exactly the columns of the two expanded run-length strings that hold a residue on both sides, numbered from the start residues |
| HelpersAlignment.CompressedIdentity | src/HelpersAlignment.cpp:1249-1363 | a single residue run of length n on both sides reads as the identity run of n pairs on their diagonal |
| HelpersAlignment.InsertResidues | src/HelpersAlignment.cpp:1518-1527 | residues [lastRes, currentRes) are paired with the combined columns from current on, and the next free column is returned |
| HelpersAlignment.FillSummation | src/HelpersAlignment.cpp:1583-1648 | both maps into the combined alignment are strictly increasing, the two residues of every aligned pair of src share one combined column, and no other column is shared; the residues of each map are, in order, those before the first aligned pair when its use-end flag is set, then per aligned pair the skipped residues since the previous one when the other side's insert-gaps flag is set and the aligned residue itself, then those from after the last aligned pair up to the length when the use-end flag is set |
| HelpersAlignment.ReceivedMembers | src/HelpersAlignment.cpp:1530-1648 | a residue is in a map of the summation exactly when it is aligned in src, or lies between two consecutive aligned residues with gaps inserted, or lies before the first or after the last aligned residue (below the length) with the ends used |
| HelpersAlignment.ReceivedAligned | src/HelpersAlignment.cpp:1530-1648 | with no gaps inserted and no ends used, each map of the summation holds just the aligned residues of its side, in the order of src |
| HelpersAlignment.SplitAtGaps | src/HelpersAlignment.cpp:1695-1735 | the fragments concatenate to src and a new fragment starts exactly where the step in rows or columns (as selected) exceeds the maximal gap width |
| HelpersAlignment.SplitAtIntersections | src/HelpersAlignment.cpp:1740-1805 | the fragments concatenate to src1, only the last can be empty, and each cut lies where a pair of src2 has a key between the last pair before and the first pair after the cut; when both alignments are strictly sorted on their keys, the converse holds too: no fragment has a key of src2 between two of its consecutive pairs |
| HelpersAlignment.ComplementFillsGaps | src/HelpersAlignment.cpp:1811-1845 | in an alignment sorted by row and column every added pair has score 0, lies strictly between its first and last pairs and uses a row and a column no pair of the alignment uses |
| HelpersAlignment.ComplementAlignment | src/HelpersAlignment.cpp:1811-1845 | the added pairs fill, on the diagonal, each gap between consecutive pairs that has the same positive length, at most max_length, in rows and columns |
| MultAlignment.AlignedFlags | alignlib/ImplMultAlignment.cpp:166-175 | the flags have one entry per column and a column is flagged exactly when some pair of the map has it as its row |
| MultAlignment.MultAlignment.constructor | alignlib/ImplMultAlignment.cpp:61-64 | a new multiple alignment has no rows, no flags and length 0 |
| MultAlignment.MultAlignment.IsAligned | alignlib/ImplMultAlignment.cpp:156-162 | a column outside [0, length) is an out-of-range error; otherwise its flag is returned |
| MultAlignment.MultAlignment.GetRow | alignlib/ImplMultAlignment.cpp:110-131 | an empty alignment, or a row outside [0, number of rows), is an error; otherwise the map of that sequence is returned |
| MultAlignment.MultAlignment.UpdateAligned | alignlib/ImplMultAlignment.cpp:166-175 | the flags are rebuilt with one entry per column, set exactly for the rows of the map, and nothing else changes |
| MultAlignment.MultAlignment.Add | alignlib/ImplMultAlignment.cpp:209-216 | the map becomes the last row, the length grows to cover its rows, and a column is aligned exactly when the map covers it |
| MultAlignment.MultAlignment.AddMali | alignlib/ImplMultAlignment.cpp:180-204 | an empty source changes nothing; otherwise each of its rows is appended after the old rows, which are kept, as its combination with the map: every new pair joins a map pair and a row pair that agree, and with both sorted every agreeing couple is joined; the length and flags follow the map |
| MultAlignment.MultAlignment.EraseRow | alignlib/ImplMultAlignment.cpp:142-153 | an existing row is removed and the others keep their order, the length becoming 0 when no row is left; a row out of range (or any row of an empty alignment) is an error that changes nothing |
| MultAlignment.MultAlignment.Clear | alignlib/ImplMultAlignment.cpp:134-139 | no rows, no flags, length 0 |
| MultAlignment.AlignedCount | alignlib/ImplMultAlignment.cpp:166-175 | after updateAligned with a map sorted by row, the number of aligned columns equals the number of pairs of the map |
| MultAlignment.NoneCounted | alignlib/ImplMultAlignment.cpp:170-171 | with an empty map no column is aligned |
| Alignatum.Gaps | src/ImplAlignatum.cpp:314-324 | the gap loop adds max(n, 0) gap characters and nothing else |
| Alignatum.GapCount | src/ImplAlignatum.cpp:355-366 | the gap count is at most the length and equals it exactly when the row holds only gaps |
| Alignatum.LeadingGaps | src/ImplAlignatum.cpp:342 | find_first_not_of: the leading run of gaps ends at the first residue or at the end of the row |
| Alignatum.TrailingStart | src/ImplAlignatum.cpp:343 | find_last_not_of + 1: everything from there on is a gap and the character before it is a residue |
| Alignatum.Stripped | src/ImplAlignatum.cpp:341-345 | the stripped row is empty or starts and ends with a residue, and keeps every residue |
| Alignatum.Erase | src/ImplAlignatum.cpp:350-352 | std::string::erase keeps the prefix and drops n characters, or everything from pos when fewer remain |
| Alignatum.Alignatum.constructor | src/ImplAlignatum.cpp:102-116 | a non-empty row without a first residue number starts at 0, and without a last one the true length is the number of residues |
| Alignatum.Alignatum.CountGaps | src/ImplAlignatum.cpp:355-366 | returns the number of gap characters of the row |
| Alignatum.GapsAndResidues | src/ImplAlignatum.cpp:355-366 | gaps and residues together make up the whole row |
| Alignatum.Alignatum.AddGaps | src/ImplAlignatum.cpp:314-324 | the row is framed by the given numbers of gaps; residues and residue numbers are unchanged |
| Alignatum.PaddingKeepsNumbers | src/ImplAlignatum.cpp:314-324 | after addGaps every character keeps the residue numbers seen from it in both directions |
| Alignatum.Alignatum.InsertGaps | src/ImplAlignatum.cpp:329-337 | count gaps are inserted at the position and the residues stay; a position outside the row is an out-of-range error that changes nothing |
| Alignatum.Alignatum.RemoveEndGaps | src/ImplAlignatum.cpp:341-345 | leading and trailing gaps are erased, leaving a row that starts and ends with a residue, with the residue numbers unchanged |
| Alignatum.StrippedUnique | src/ImplAlignatum.cpp:341-345 | a row made of gaps, a core starting and ending with a residue, and gaps strips to exactly that core |
| Alignatum.StripUndoesPadding | src/ImplAlignatum.cpp:314-345 | removeEndGaps undoes addGaps |
| Alignatum.StrippedIdempotent | src/ImplAlignatum.cpp:341-345 | removing the end gaps twice is the same as once |
| Alignatum.Alignatum.RemoveColumnsAsWritten | src/ImplAlignatum.cpp:350-352 | as written, position + count characters are erased from the position and the stored length is left stale |
| Alignatum.RemoveColumnsOvershoots | src/ImplAlignatum.cpp:350-352 | inserting one gap at position 1 of "ABCDE" and removing one column there erases two characters ("ACDE") instead of restoring "ABCDE" |
| Alignatum.Alignatum.RemoveColumns | src/ImplAlignatum.cpp:350-352 | corrected: count characters are erased from the position and the length follows; an invalid position is an error that changes nothing |
| Alignatum.RemoveUndoesInsert | src/ImplAlignatum.cpp:329-352 | with the corrected removeColumns, removing the columns just inserted restores the row |
| Alignatum.Alignatum.GetResidueNumberNext | src/ImplAlignatum.cpp:370-385 | returns the residue number seen from the left: the first residue number plus the residues before the position |
| Alignatum.Alignatum.GetResidueNumberPrevious | src/ImplAlignatum.cpp:388-403 | returns the residue number seen from the right: the last residue number minus the residues after the position |
| Alignatum.NextMeetsPrevious | src/ImplAlignatum.cpp:370-403 | when the residue numbers span the residues, the two numberings agree: at a residue the previous number is one past the next one, at a gap they are equal |
| Alignatum.NextNumberBounds | src/ImplAlignatum.cpp:370-385 | the number seen from the left lies between the first residue number and that plus the number of residues |
| Alignatum.Alignatum.MapOnAlignment | src/ImplAlignatum.cpp:143-210 | an empty map is an error that changes nothing; otherwise the row is rebuilt with max(new_length, colTo) positions, each pair copying its old row's character to its column, and the residue numbers are those of the first and last mapped row |
| Alignatum.MappedRow | src/ImplAlignatum.cpp:170-179 | for a map increasing in columns the new row shows each pair's character at its column and gaps everywhere else |
| Alignatum.PaintAt | src/ImplAlignatum.cpp:170-179 | of several pairs mapped to one column, the last decides its character |
| AlignmentFormat.Encode | src/AlignmentFormat.cpp:86-131 | the three block lists have equal length and are empty exactly for an empty alignment |
| AlignmentFormat.Extend | src/AlignmentFormat.cpp:113-127 | a step of more than one row or column opens a new block at the pair; a diagonal step lengthens the last block, which then ends at the pair |
| AlignmentFormat.EncodePositive | src/AlignmentFormat.cpp:113-130 | every block holds at least one pair |
| AlignmentFormat.EncodeSum | src/AlignmentFormat.cpp:86-131 | the block sizes add up to the number of pairs |
| AlignmentFormat.EncodeFirst | src/AlignmentFormat.cpp:107-109 | the first block starts at the first pair, relative to the origin |
| AlignmentFormat.FirstBlockAtOrigin | src/AlignmentFormat.cpp:86-131 | for an alignment increasing in rows and columns the first block starts at offset (0, 0) from its bounds |
| AlignmentFormat.EncodeBlocks | src/AlignmentFormat.cpp:97-130 | the fill loop builds exactly the block encoding of the pairs |
| AlignmentFormat.Blocks.constructor | src/AlignmentFormat.cpp:62-65 | a new format has NO_POS bounds and no blocks |
| AlignmentFormat.Blocks.Fill | src/AlignmentFormat.cpp:86-131 | the bounds become those of the alignment and the blocks its encoding relative to its first row and column; an empty alignment leaves no blocks |
| AlignmentFormat.Blocks.Copy | src/AlignmentFormat.cpp:134-147 | the destination receives, block after block, the diagonal run of each block's size from its start plus the bounds |
| AlignmentFormat.BlocksRoundTrip | src/AlignmentFormat.cpp:86-147 | for an alignment increasing in rows and columns, copy after fill gives back exactly its pairs (with score 0), whatever the origin |
| AlignmentFormat.SkipCommas | src/AlignmentFormat.cpp:168 | find_first_not_of(","): everything skipped is a comma and the character reached is not |
| AlignmentFormat.ToComma | src/AlignmentFormat.cpp:169 | find_first_of(","): the field holds no comma and ends at a comma or at the end |
| AlignmentFormat.DigitRun | src/AlignmentFormat.cpp:171-176 | atoi reads the longest run of leading decimal digits |
| AlignmentFormat.ParseList | src/AlignmentFormat.cpp:162-177 | every non-empty comma-separated field of the token is read by atoi and appended to dest in order |
| AlignmentFormat.AtoiShow | src/AlignmentFormat.cpp:149-177 | atoi reads back every integer as operator<< writes it |
| AlignmentFormat.ParseListRoundTrip | src/AlignmentFormat.cpp:149-177 | parseList reads back exactly the list operator<< writes, field by field with trailing commas |
| FormatEmissions.Emissions.constructor | src/AlignmentFormat.cpp:192-197 | a new format has NO_POS bounds and empty emission lists |
| FormatEmissions.Emissions.Copy | src/AlignmentFormat.cpp:289-392 | without a first row or column copy fails; otherwise the destination receives exactly one pair for each column in which both sequences emit, numbered by the residues each has emitted so far |
| FormatEmissions.CopyRound | src/AlignmentFormat.cpp:311-388 | one round of the loop keeps the pairs still owed and shrinks the counts left to read; when a list ends, every owed pair has been emitted |
| FormatEmissions.SkipGaps | src/AlignmentFormat.cpp:331-343 | columns that are gaps on both sides are skipped without advancing either sequence or emitting |
| FormatEmissions.RowOnly | src/AlignmentFormat.cpp:350-364 | columns where only the row sequence emits advance the row by their number and emit nothing |
| FormatEmissions.ColOnly | src/AlignmentFormat.cpp:371-385 | columns where only the column sequence emits advance the column by their number and emit nothing |
| FormatEmissions.EmittedSorted | src/AlignmentFormat.cpp:289-392 | the emitted pairs are strictly increasing in rows and columns, start at or after the first residues and have score 0 |
| FormatEmissions.EmittedLength | src/AlignmentFormat.cpp:289-392 | no more pairs are emitted than either sequence has columns |
| FormatEmissions.EmissionsThroughBlocks | src/AlignmentFormat.cpp:86-147 | an alignment read from the emissions format survives fill and copy through the blocks format unchanged |
| AlignatorDP.CellAt | src/ImplAlignatorDPFull.cpp:435-473 | the best score of a cell is at least both gap scores and equals one of them or the diagonal score plus the cell's match score; in local mode a non-positive best is clipped to 0 |
| AlignatorDP.Recurrence | src/ImplAlignatorDPFull.cpp:435-460 | the scan's arithmetic on c, e, s and the rolling arrays computes exactly the recurrence's values and gap flags for the cell |
| AlignatorDP.Initial | src/ImplAlignatorDPFull.cpp:154-171 | startUp leaves TB_STOP in every entry of the trace matrix |
| AlignatorDP.CellTrace | src/ImplAlignatorDPFull.cpp:462-486 | a cell writes nothing when local mode clips it; otherwise TB_INSERTION when the vertical gap is best (also on the cell above for an extended gap), else TB_DELETION when the horizontal gap is (also on the cell to the left), else TB_MATCH |
| AlignatorDP.RowStartTrace | src/ImplAlignatorDPFull.cpp:394-408 | a wrapped row that takes over a positive score marks the column -1 entry of the row before with TB_WRAP |
| AlignatorDP.WrapOnlyOnBorder | src/ImplAlignatorDPFull.cpp:380-495 | TB_WRAP is only ever written to the column -1 entry of a row, and never outside wrapped mode |
| AlignatorDP.BestIsFirstMaximum | src/ImplAlignatorDPFull.cpp:497-512 | the best score is at least its initial value and every eligible cell's score; the best cell is NO_POS when no eligible cell beats the initial value, else the first eligible cell in row order with the greatest score |
| AlignatorDP.TraceMove | src/ImplAlignatorDPFull.cpp:248-268 | a deletion moves left (and up at the first columns), an insertion moves up, a match records its cell with the cell's score and moves diagonally, and TB_WRAP moves to the last column of the same row |
| AlignatorDP.WalkOn | src/ImplAlignatorDPFull.cpp:242-272 | one step of the trace-back keeps the pairs collected so far plus those of the rest of the walk equal to the whole walk, and ends it when the row leaves the matrix |
| AlignatorDP.PathShape | src/ImplAlignatorDPFull.cpp:242-272 | the pairs of a trace-back are cells of the matrix carrying their scores, in strictly decreasing rows, and without TB_WRAP also in strictly decreasing columns |
| AlignatorDP.AlignResult | src/ImplAlignatorDPFull.cpp:280-520 | nothing is aligned exactly when no eligible cell beats the initial score; otherwise the alignment's score beats it and every eligible cell's, and its pairs are scored matrix cells in strictly decreasing rows, and in local and global mode strictly decreasing columns |
| AlignatorDP.StepAsWritten | src/ImplAlignatorDPFull.cpp:248-268 | as written TB_WRAP moves to col_back(row), one past the last column |
| AlignatorDP.WrapTraceBackLoops | src/ImplAlignatorDPFull.cpp:264-266 | in wrapped mode with scores 10, 10, -100 against one column the trace-back as written returns to the same TB_WRAP entry forever, while the corrected one yields the pairs (1,0) and (0,0) with score 20 |
| AlignatorDP.AlignatorDPFull.constructor | src/ImplAlignatorDPFull.cpp:90-102 | a new aligner keeps the mode and penalties and has no best cell |
| AlignatorDP.MakeAlignatorDPFull | src/ImplAlignatorDPFull.cpp:62-69 | the factory uses the same gap penalties for rows and columns and the same end-gap flags on both left ends and both right ends |
| AlignatorDP.AlignatorDPFull.StartUp | src/ImplAlignatorDPFull.cpp:132-172 | fresh rolling arrays for columns -1 to C, a trace matrix of TB_STOP entries with a row -1 block and a leading entry per row, and no best cell |
| AlignatorDP.AlignatorDPFull.Initialise | src/ImplAlignatorDPFull.cpp:318-364 | the border initialisation per mode leaves the state in which no row is done |
| AlignatorDP.AlignatorDPFull.StartRow | src/ImplAlignatorDPFull.cpp:380-426 | the row start sets the left border c, the gap score e and the diagonal s of column 0 as the recurrence defines them for the mode |
| AlignatorDP.AlignatorDPFull.WrapAround | src/ImplAlignatorDPFull.cpp:394-404 | mCC[-1] takes the previous row's last score when positive, else 0, and the trace gets its TB_WRAP mark |
| AlignatorDP.AlignatorDPFull.Step | src/ImplAlignatorDPFull.cpp:431-512 | one cell computes the recurrence, writes its trace entries, saves its scores in the rolling arrays and updates the best cell |
| AlignatorDP.AlignatorDPFull.Consider | src/ImplAlignatorDPFull.cpp:497-512 | the best cell is replaced only by an eligible cell with a strictly greater score |
| AlignatorDP.AlignatorDPFull.Record | src/ImplAlignatorDPFull.cpp:462-486 | the trace entries of the cell become those the recurrence prescribes |
| AlignatorDP.AlignatorDPFull.Fill | src/ImplAlignatorDPFull.cpp:318-515 | after the scan every row is done: the trace matrix and the best cell are those of the recurrence |
| AlignatorDP.AlignatorDPFull.FillRow | src/ImplAlignatorDPFull.cpp:380-515 | one row of the scan, from the row start through every column, takes the state from i rows done to i+1 |
| AlignatorDP.AlignatorDPFull.TraceBack | src/ImplAlignatorDPFull.cpp:188-275 | without a best cell nothing is traced; otherwise the walk from the best cell is returned with the best score, or an out-of-range error when it leaves the trace matrix |
| AlignatorDP.AlignatorDPFull.PerformAlignment | src/ImplAlignatorDPFull.cpp:280-520 | the result is the recurrence's outcome against the initial score, and the trace matrix and best cell are those of the full recurrence |
| HelpersAlignator.InsideBounds | src/HelpersAlignator.cpp:103-106 | the bounds of an alignment lying in the current segments lie in those segments, so the regions before and after it are sub-segments |
| HelpersAlignator.Hits | src/HelpersAlignator.cpp:71-122 | every accepted sub-alignment scores above min_score, has pairs and lies in the segments; none is accepted exactly when a segment is inverted or the first alignment does not beat min_score |
| HelpersAlignator.Final | src/HelpersAlignator.cpp:114-116 | the objects are left with segments that end where the original ones ended, unchanged when nothing was accepted |
| HelpersAlignator.HitsCollinear | src/HelpersAlignator.cpp:107-116 | of any two accepted sub-alignments one lies strictly before the other in both sequences, so the merged pairs never cross |
| HelpersAlignator.IterativeAlignmentStep | src/HelpersAlignator.cpp:71-122 | dest receives the pairs of every accepted sub-alignment in the order they are found, with their scores added; inverted segments leave dest unchanged; the objects keep their residues and end with the segments of the last region searched |
| HelpersAlignator.SearchAround | src/HelpersAlignator.cpp:107-116 | after an accepted alignment the search runs in the region before it and then in the region after it |
| HelpersAlignator.IterativeAlignment | src/HelpersAlignator.cpp:150-174 | dest receives the merged sub-alignments and both objects get their old segments set again through useSegment, so an object that had a segment gets it back, while one with no segment (NO_POS, NO_POS) ends with all its residues, (0, length) |
| HelpersAlignator.Clone | src/HelpersAlignator.cpp:137-138 | the clone is a new object with the same segment, length and mask |
| HelpersAlignator.IterativeAlignmentOfClones | src/HelpersAlignator.cpp:125-147 | dest receives the merged sub-alignments of the objects' segments, and the objects themselves are left untouched |

## Left out

- Stream input and output are not modelled. This covers the text rendering of alignments, the emission strings and the tokens of the blocks format: an emission list is the sequence of integers its stream yields. Debug output is left out too.
- AlignmentFormatEmissions::fill is not modelled. As written it uses `col_from` and `col_to`, which it never declares, and assigns string streams to strings, so its intended output is not determined.
- Parsing an integer with atoi is modelled without overflow. A digit run becomes its unbounded value.
- Scores, which are doubles in the library, are modelled as unbounded integers. Positions are unbounded integers with no 32-bit wrap-around.
- `NO_POS` and `NO_NODE` are modelled as -1. Their definitions are not part of this model.
- ImplAlignment::addPair and ImplAlignment::getRowFrom are not part of this model:
  - addPair is assumed to make the row bounds the tight range of the rows;
  - addPair is assumed to widen the column bounds to cover the new column;
  - the vector storage relies on both assumptions.
- ImplAlignatorDP.cpp, ImplIterator2D.cpp and the ImplAlignatorDPFull header are not part of this model:
  - the layout of the trace matrix is assumed: a leading block for row -1 and a leading entry per row for column -1;
  - the scorer is assumed to be the score matrix S;
  - the initial best score is a parameter.
- AlignatorDP.AlignatorDPFull.PerformAlignment: the aligner works on segments starting at the first residue. Segment offsets and the iterator over a sub-window are not modelled.
- The number of gaps (`ngaps`) the aligner reports is not modelled.
- AlignatorDP.AlignatorDPFull.TraceBack: a trace-back that reads outside the trace matrix ends with an out-of-range result. The library reads unchecked memory there. The same result covers a TB_MATCH step at a column below 0, where the library also asks the scorer for a cell outside the score matrix.
- HelpersAlignator.IterativeAlignmentStep:
  - the aligner is a function of the two active segments;
  - it is required to keep every alignment that beats the threshold inside those segments;
  - it is also required to give such an alignment at least one pair;
  - with an aligner that breaks either requirement, the recursion of the library need not end.
- HelpersAlignator.IterativeAlignmentStep: an accepted alignment without pairs is not modelled. Its bounds are NO_POS, so useSegment (src/ImplAlignandum.cpp:93-106, with assertions off) makes the next windows [from_1, length) and [0, to_1). These need not be smaller than the current ones, so the library may recurse without end. A full dynamic-programming aligner in global mode can return such an alignment when its best cell is reached through insertions only.
- HelpersAlignator.IterativeAlignment requires the same confined aligner, including the pair on every accepted alignment, and so inherits the gap of HelpersAlignator.IterativeAlignmentStep for an accepted alignment without pairs.
- HelpersAlignator.IterativeAlignmentOfClones requires the same confined aligner, including the pair on every accepted alignment, and so inherits the gap of HelpersAlignator.IterativeAlignmentStep for an accepted alignment without pairs.
- HelpersAlignator.IterativeAlignmentStep: the objects are required to be distinct. Aliasing of the two non-const arguments is not modelled.
- The alignable object is modelled through its segment, length and mask only. Residues, profiles and their scoring are not modelled.
- Alignatum.Alignatum.MapOnAlignment: the `unaligned_chars` option is not modelled. That option fills the gaps between aligned residues with the unaligned residues, converting upper-case letters. The row is written with gaps only.
- HelpersAlignment.ComplementAlignment returns the pairs it adds, and takes the original alignment's pairs as its input.
- Tree.Allocate: unjoined nodes are assumed to start value-initialised, with no parent and no children, because NODE_INFO's default constructor is not part of this model; joinNodes itself never sets the parent of the new node.
- PhyloMatrixSymmetric.PhyloMatrixSymmetric.Set requires a width of at least 2 for a diagonal cell, and so does Get. In a narrower matrix the slot NO_INDEX lies outside the empty storage, where the library reads and writes unchecked memory.
- AlignmentMatrix.RemoveDots and AlignmentMatrixRow.AlignmentMatrixRow.RemovePair: equality of two pairs is assumed to compare row, column and score, because the definition of the pair equality operator is not part of this model (only its declaration is).
- AlignmentVector.AlignmentVector.MoveAlignment requires a non-empty alignment. The library shifts the `NO_POS` bounds of an empty one.
- The row index of the sorted dot list is a sequence, not an array. The dot list is sorted in a fresh array copy that replaces the list.
- Releasing memory is not modelled, and neither are exceptions other than the failure results.
- Binding generation, build scripts, file indexing and the remaining aligners, scorers and profiles are not part of this model.
- The aligner test fixture (a 15-residue sequence aligned to itself scoring 150) depends on a scorer that is not part of this model.

## Findings

| source | as written | input that shows it | evidently intended | confidence | as-written member | corrected member |
|---|---|---|---|---|---|---|
| src/ImplAlignment.cpp:213-234 | switchRowCol clears the alignment before re-adding the switched pairs, so the score is reset to 0 | any alignment with a non-zero score | the switched alignment keeps its score, as removeRowRegion does | not executed | AlignmentBase.SwitchRowColAsWritten | AlignmentBase.SwitchRowCol |
| src/ImplAlignmentVector.cpp:283 | resetBoundaries tests `mRowTo == NO_POS` after setting mRowFrom, so an emptied vector keeps its old upper bound | the single pair (3,3) whose slot is emptied leaves bounds (NO_POS, 4) | both bounds become NO_POS when no slot holds a pair | not executed | AlignmentVector.ResetBoundariesAsWrittenExample | AlignmentVector.AlignmentVector.ResetBoundaries |
| src/ImplAlignmentVector.cpp:220-225 | clear empties the slots but leaves the row bounds | clearing an alignment holding (0,0) leaves bounds (0, 1) | clear resets the bounds to NO_POS, as the dot-list storage does | not executed | AlignmentVector.ClearAsWrittenExample | AlignmentVector.AlignmentVector.Clear |
| src/ImplAlignmentSorted.cpp:255-265 | removeRowRegion looks up the key (row, NO_POS), which matches a stored pair only under the row comparator | a column-ordered set holding (3,3) and (5,6); removing rows [3,5) removes nothing | every pair whose row lies in the region is removed | not executed | AlignmentSorted.RemoveRowRegionAsWrittenExample | AlignmentSorted.AlignmentSorted.RemoveRowRegion |
| src/ImplAlignmentMatrixRow.cpp:112-117 | sortDots sorts by row only, so eliminateDuplicates, which drops only neighbours, keeps repeated dots | dots (1,4), (1,2), (1,5), (1,3), (1,2) | dots sorted by row and then column, with every duplicate dropped | not executed | AlignmentMatrix.RowOnlyKeepsDuplicates | AlignmentMatrixRow.Recalculate |
| src/ImplAlignatum.cpp:350-352 | removeColumns erases from position to position + count, not count characters | "ABCDE" with one gap inserted at 1, then one column removed at 1, gives "ACDE" | removing the columns just inserted restores the row | not executed | Alignatum.RemoveColumnsOvershoots | Alignatum.RemoveUndoesInsert |
| src/ImplIterator2DBanded.cpp:100-103 | resetRanges sets the rows to [max(row.from, col.from + upper), min(row.to, col.to - upper)) and the columns to end at min(row.to - lower, col.to), which are not the ends of the band under the diagonal col - row stated at :43 | band [0, 2]: on windows [0, 10) and [0, 10) the rows are [2, 8), leaving out cell (0, 1); on the row window [0, 5) and the column window [0, 10) the columns are [0, 5), leaving out cell (4, 6) | the rows are [max(row.from, col.from - upper), min(row.to, col.to - lower)) and the columns [max(col.from, row.from + lower), min(col.to, row.to + upper)), exactly the rows and columns holding cells of the band inside both windows | not executed | Iterator2DBanded.ResetRangesAsWrittenMisses | Iterator2DBanded.Iterator2DBanded.ResetRanges |
| src/ImplIterator2DBanded.cpp:144-158 | row_front and row_back return col + lower and col + upper, the column formulas with row and column exchanged | band [0, 2]: cell (3, 5) is in the column span of row 3 but not in the row span of column 5 | the rows of a column are col - upper to col - lower, agreeing with the column spans | not executed | Iterator2DBanded.Iterator2DBanded.RowSpanAsWrittenDisagrees | Iterator2DBanded.Iterator2DBanded.RowSpan |
| src/HelpersAlignment.cpp:292-328 | the filtered copyAlignment keeps a pair only when the filter maps its coordinate to 0 | an empty filter and the pair (1,1): the pair is dropped | a pair is kept exactly when the filter does not map its coordinate, as the doc comment at :291 says; the unit test at tests/test_HelpersAlignment.cpp:124-138 expects the opposite reading, keeping exactly the mapped pairs (FilterReadings.CopyFilteredAsTested, counted by FilterReadings.TestCounts). The doc comment is followed because the code drops a pair when the filter answers, which matches the comment if "no position" were 0 | not executed | HelpersAlignment.CopyFilteredEmptyFilter | HelpersAlignment.CopyFiltered |
| src/ImplAlignatorDPFull.cpp:264-266 | TB_WRAP moves the trace-back to col_back(row), one past the last column, where it reads the wrap entry of the next row | wrapped mode, one column, scores 10, 10, -100, gaps -10/-1, initial score 0: the trace-back revisits the same TB_WRAP entry forever | TB_WRAP moves to the last column, giving the pairs (1,0) and (0,0) with score 20 | not executed | AlignatorDP.WrapTraceBackLoops | AlignatorDP.TraceMove |
| src/ImplPhyloMatrixSymmetric.cpp:140-147 | getIndex gives a diagonal cell NO_INDEX = 0, which is the slot of cell (1, 0), so the accessors read that distance for a diagonal cell and a diagonal write overwrites it | a width-2 matrix of 1s: setting (0, 0) to 5 makes cell (1, 0) read 5 | the diagonal is not part of the matrix: it reads 0 and writing it changes no cell, as the neighbour-joining caller assumes | not executed | PhyloMatrixSymmetric.DiagonalWriteAliases | PhyloMatrixSymmetric.PhyloMatrixSymmetric.SetDistance |
