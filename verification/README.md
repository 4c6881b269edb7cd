# Sudoku DLX solver — a Dafny model

This project models the core of a Sudoku solver. The solver reduces an n x n
puzzle with b x b blocks (n = b²) to an exact-cover problem and solves it
with Knuth's Dancing Links (Algorithm X). The Dafny model follows that core
step by step:

- **Matrix** (`matrix.dfy`, with the index arithmetic in `layout.dfy`):
  `buildExactCoverMatrix` with its four constraint loops. The model proves
  that the n³ x 4n² boolean matrix has, in row `i` = r·n² + c·n + v, true
  entries in exactly four columns:
  - the cell column r·n + c;
  - the row-digit column n² + r·n + v;
  - the column-digit column 2n² + c·n + v;
  - the box-digit column 3n² + box·n + v.
  Every column then has exactly n true entries.
- **Fabric** (`fabric.dfy`, with its loop invariants in `build.dfy`):
  `buildDLXLinkedList` on an arena of index links. The arena holds the
  sequences `L R U D C S` and one (value, row, col) triple per node. Index 0
  is the root and 1..4n² are the column headers. A ghost `View` lists the
  active headers in ring order and the vertical ring of every column.
- **Cover and uncover** (`rings.dfy`, `arena.dfy`, `cover.dfy`, `choose.dfy`):
  `coverColumn` and `uncoverColumn`, as a list of primitive splices.
  - Covering keeps the fabric linked and exact for a view without the
    covered column.
  - Uncovering straight afterwards gives back the identical arena. This
    holds for the closed header ring the model builds. On the fabric as the
    source builds it, covering and then uncovering the last column also moves
    the root's left link from the root to the last header.
- **The root's left link** (`rootleft.dfy`): the source never sets it to the
  last header (see Findings). The model proves that nothing else depends on
  that link. The builder and every splice except removing the root neither
  read it nor write it differently. So two arenas that differ only in that
  link still differ only there after building, covering or uncovering.
- **Search** (`search.dfy`, with exact-cover facts in `partition.dfy`):
  `searchDLX` and its solution limit. It picks the first column of least
  size, and every level leaves the arena as it found it. Each grid it
  records is painted from an exact cover that extends the clues and the
  rows on the stack.
- **Clues and grids** (`clues.dfy`, `grid.dfy`): `findNodeForClue`,
  `applyInitialConstraints` and `mapSolutionToGrid`.
- **Solver** (`solver.dfy`, with the sudoku theorem in `valid.dfy`): the
  constructor's perfect-square check and `solve`. The model proves that
  every grid `solve` returns is a solved sudoku. Each such grid also:
  - holds the digit of every clue that was applied;
  - holds a different digit at every given cell whose clue was skipped;
  - and a clue is skipped only for a reason: its digit is above n, or an
    applied clue from an earlier cell (in row-major order) already puts that
    digit in the cell's grid row, grid column or block. So for a puzzle
    whose givens are digits 1..n without such repeats, every grid keeps
    every given digit.

Pointers become indices into the arena. The `solution` and `fixedClues` slot
arrays become the explicit lists `sol` and `clues`, whose lengths are the
search depth and the clue count.

## Model

| member | source | states |
|---|---|---|
| Rings.RingRemove | sudoku.cpp:59-60 | splicing a member out of a well-formed ring leaves a well-formed ring of exactly the other members, one shorter, and the spliced member's neighbours point at each other |
| Rings.UnlinkFromRing | sudoku.cpp:65-66 | removing the k-th member of a ring by splicing leaves the ring of the members before and after it, in order |
| Rings.RelinkUndoesUnlink | sudoku.cpp:79-80 | a spliced-out member keeps its own links, and relinking it restores both link sequences exactly |
| Arena.OpStep | sudoku.cpp:59-67 | one allowed splice keeps the arena linked to the updated view (header list and column rings, with sizes equal to ring lengths), and undoing it restores the arena exactly |
| Arena.AllLinked | sudoku.cpp:57-70 | a list of allowed splices keeps the arena linked to the view it computes |
| Arena.UndoLast | sudoku.cpp:72-85 | undoing the last splice of an allowed list gives back exactly the arena before that splice |
| Arena.DistinctOpsAllOK | sudoku.cpp:61-69 | distinct splices of nodes, each allowed at the start, stay allowed when done one after another |
| Cover.CoverEffect | sudoku.cpp:57-70 | after covering c the arena is linked and exact for a view whose header list is the old one without c; c's own vertical ring is unchanged |
| Cover.CoverKeepsOwnColumn | sudoku.cpp:61-69 | covering c never changes c's own vertical ring |
| Cover.CoverOpsOtherColumns | sudoku.cpp:63-68 | every node a cover of c unlinks lies in a column other than c |
| Cover.CoverColumn | sudoku.cpp:57-70 | the link walk of coverColumn performs exactly the cover's splice list: c out of the header ring, then the other nodes of c's rows out of their columns |
| Cover.UnlinkRow | sudoku.cpp:63-68 | the inner walk of coverColumn unlinks a row's other nodes one by one and leaves the row links alone |
| Cover.RelinkRow | sudoku.cpp:76-81 | the inner walk of uncoverColumn relinks a row's other nodes in reverse order, back to the state before the unlinking |
| Cover.UncoverColumn | sudoku.cpp:72-85 | uncovering c straight after covering it gives back exactly the arena before the cover (all links and sizes) |
| Choose.ColsOfWalk | sudoku.cpp:112-113 | walking right from a node visits the columns of its row other than its own, each once |
| Choose.CoverOthers | sudoku.cpp:111-113 | covering the columns of a chosen row's other nodes leaves exactly the active headers not in that row (or the row's own column) |
| Choose.UncoverOthers | sudoku.cpp:117-121 | walking left and uncovering each column restores the arena from before the row's covers |
| Search.FirstMinUnique | sudoku.cpp:101-105 | the first strictly least column is unique |
| Search.MinColumn | sudoku.cpp:101-105 | the chosen column has the least size among active headers, and every header before it in ring order is strictly larger |
| Search.LeafCover | sudoku.cpp:92-98 | when the header ring is empty, the clues plus the stacked rows are an exact cover |
| Search.ResultsAppend | sudoku.cpp:109-122 | the results of trying the column's rows one after another compose: counts add, grids append, each with its exact cover |
| Search.Search | sudoku.cpp:87-125 | the arena comes back exactly as on entry; the count never passes the limit and does not move once the limit is reached; one grid per count; each new grid is the grid painted from stack rows then clues of an exact cover extending clues and stack |
| Search.Branch | sudoku.cpp:107-124 | covering a column, trying each of its rows and uncovering restores the arena; results as for Search |
| Matrix.CellConstraint | sudoku.cpp:129-140 | the first loop sets exactly the cell column r·n + c of every row |
| Matrix.RowConstraint | sudoku.cpp:142-157 | the second loop sets exactly the row-digit column n² + r·n + v of every row |
| Matrix.ColConstraint | sudoku.cpp:159-167 | the third loop sets exactly the column-digit column 2n² + c·n + v of every row |
| Matrix.BoxConstraint | sudoku.cpp:169-185 | the fourth loop, with its cursor jumps, sets exactly the box-digit column 3n² + box·n + v of every row |
| Matrix.BuildExactCoverMatrix | sudoku.cpp:127-186 | the result is n³ x 4n², and entry (i, j) is true exactly when j is one of the four columns of i's (row, col, digit) |
| Layout.RowParts | sudoku.cpp:130-140 | every matrix row index decomposes into (row, col, digit) below n and is recovered from them |
| Layout.ColumnRanges | sudoku.cpp:127-186 | the four constraint groups occupy the disjoint ranges [0, n²), [n², 2n²), [2n², 3n²) and [3n², 4n²) |
| Layout.ColumnsListed | sudoku.cpp:127-186 | column j has row i in its list of rows exactly when j is one of i's four columns |
| Layout.RowCount | sudoku.cpp:127-186 | every matrix row has exactly four true entries, in strictly increasing columns |
| Layout.ColumnCount | sudoku.cpp:127-186 | every column has exactly n true entries, in n distinct rows |
| Fabric.MakeHeaders | sudoku.cpp:192-217 | the root and nc headers form the right ring in column order; each header has an empty vertical ring and size 0; the root's size is -1 |
| Build.AttachedColumnRing | sudoku.cpp:263-270 | a new node joins the well-formed ring of its column as that ring's last member, just above the header, and the ring stays well formed |
| Build.AttachedRowRing | sudoku.cpp:259-262 | a new node joins the well-formed ring of its row as the member after the row's last node, and the ring stays well formed |
| Build.AttachedFacts | sudoku.cpp:247-271 | the new node carries its column and triple. It extends its column's ring by one member and that column's size by one. It extends its row's ring, or is a ring of its own when it is the row's first node. Every other size and link is kept |
| Fabric.Attach | sudoku.cpp:247-271 | for the builder's pointers `top` and `prev`: the new node is appended at the end of the arena and carries `top` and the triple. It closes `top`'s ring as its last member, and `top`'s size grows by one. It closes the row ring after `prev`, or forms a ring of its own when `prev` is null. No other size or link changes |
| Fabric.NextIdTriple | sudoku.cpp:219-241 | the three id counters, starting at (0, 1, 1), hold matrix row i's (digit, row, col) triple after row i's step |
| Fabric.AddRow | sudoku.cpp:222-273 | after matrix row i: each true entry of rows 0..i has one node, in row-major order, carrying its column and its row's triple. Each finished row is a closed ring. Each column ring lists its nodes in increasing order, with a size equal to its count so far. The header ring is untouched |
| Fabric.AddRows | sudoku.cpp:219-274 | after all rows, the fabric with the root's left link set is linked and exact with every column active in order, and stands for the matrix. Every column ring is in increasing node order, and the root's size stays -1 |
| Fabric.TripleOnBoard | sudoku.cpp:250-252 | the triple of every matrix row addresses a cell of the grid and holds a digit 1..n |
| Fabric.BuildDLXLinkedList | sudoku.cpp:188-277 | with the header ring closed, the fabric is linked and exact with every column active in order. Each node stands for one matrix row, carries that row's triple and sits in exactly that row's true columns. Every row with a true entry has one ring, in increasing column order. Nodes are made in matrix-row order, so each column's ring, which is in increasing node order, runs down the matrix rows in order; its size is its true-entry count. The root's size is -1 |
| Fabric.BuildAsWritten | sudoku.cpp:188-277 | as written, the root's left link stays at the root, so with at least one column no header list makes the header ring well formed; with that link set, the fabric is as in BuildDLXLinkedList |
| RootLeft.OpIgnoresRootLeft | sudoku.cpp:59-60 | a header splice of any column but the root, or a node splice, and their undos (sudoku.cpp:65-66, 79-84) keep two arenas that differ only in the root's left link differing only there |
| RootLeft.AllIgnoreRootLeft | sudoku.cpp:57-70 | the same for any list of splices that never removes the root |
| RootLeft.CoverIgnoresRootLeft | sudoku.cpp:57-70 | covering any column keeps two arenas that differ only in the root's left link differing only there |
| RootLeft.AttachedIgnoresRootLeft | sudoku.cpp:247-271 | attaching a node keeps two arenas that differ only in the root's left link differing only there, and leaves that link as it was |
| RootLeft.StepIgnoresRootLeft | sudoku.cpp:243-273 | one matrix entry does the same to two stages that differ only in the root's left link |
| RootLeft.UptoIgnoresRootLeft | sudoku.cpp:219-274 | the builder, started from headers that differ only in the root's left link, reaches arenas that differ only there, with the same bookkeeping, and never changes that link |
| RootLeft.BuildsAgree | sudoku.cpp:188-277 | the build as written, with the root's left link set to the last header afterwards, is exactly the build that sets it right after the headers |
| Fabric.RootLeftUnlinked | sudoku.cpp:195-216 | a root with a right neighbour whose left link points at itself is no ring |
| Build.UptoDone | sudoku.cpp:222-274 | the finished build is linked, exact and stands for the matrix, with nodes in matrix-row order; its column rings are in increasing node order and the root's size is -1 |
| Build.DoneRowOrder | sudoku.cpp:222-248 | the builder walks the matrix row by row and appends each node, so a node made later never stands for an earlier matrix row |
| Build.BuiltDone | sudoku.cpp:267 | every header's size is the count of true entries in its column |
| Partition.ExactSets | sudoku.cpp:92-98 | row sets that are pairwise disjoint and cover 1..nc are exactly those where each column is in exactly one set |
| Partition.ExactCoverUnique | sudoku.cpp:92-98 | chosen rows are an exact cover exactly when every column belongs to exactly one of them |
| Partition.CoversDone | sudoku.cpp:92 | with no active header left, the chosen rows are an exact cover |
| Clues.AliveClashes | sudoku.cpp:281-291 | a row is still reachable through the rings exactly when it shares no column with the chosen rows |
| Clues.FindNodeForClue | sudoku.cpp:279-294 | null exactly when no reachable node places the digit in the cell; otherwise the first such node in header-ring, then down-ring order |
| Clues.SkippedClue | sudoku.cpp:305-307 | a digit no reachable node places clashes with the clues wherever it could go |
| Clues.ApplyClue | sudoku.cpp:305-316 | either the clue list is unchanged and every placement of the digit clashes with it, or one non-clashing node placing the digit is appended; the fabric stays consistent |
| Clues.CoverClueRow | sudoku.cpp:309-315 | covering a found clue's column and then its row's other columns leaves a consistent fabric whose active headers are those not covered by the clues so far |
| Clues.CluesBeforeExact | sudoku.cpp:297-320 | of the clue cells, which come in row-major order, the first CluesBefore(at, r, c) are exactly those before (r, c): the clues applied when (r, c) was reached |
| Clues.ClashesPrefix | sudoku.cpp:309-315 | a row that clashes with the first clues clashes with all of them: clues are only ever added |
| Clues.SkipStays | sudoku.cpp:309-312 | applying a clue at (i, j) leaves alone the clues that were applied before any earlier cell |
| Clues.CellKept | sudoku.cpp:303-307 | a cell that yields no clue (empty, or digit skipped) extends the record of applied and skipped cells; a skipped digit's every placement clashes with the clues applied so far |
| Clues.CellRecorded | sudoku.cpp:311-312 | a cell whose clue is found is recorded with its node, in row-major order |
| Clues.ApplyCell | sudoku.cpp:302-317 | one cell of applyInitialConstraints: the clue list is unchanged or grows by exactly one node, placing the cell's digit; a skipped digit clashes with the clues applied before the cell |
| Clues.ApplyRow | sudoku.cpp:300-318 | one row of the grid, cell by cell; the clue list only grows at its end |
| Clues.ApplyInitialConstraints | sudoku.cpp:296-320 | the fabric stays consistent; every applied clue places the digit given in its cell, the cells come in row-major order, each once; every given cell not applied has all placements of its digit clashing with the clues applied before that cell was reached |
| Grid.Empty | sudoku.cpp:94 | the fresh grid is n x n and all zero |
| Grid.CellLastWriter | sudoku.cpp:322-328 | a cell holds the digit of the last node written to it |
| Grid.CellUntouched | sudoku.cpp:322-328 | a cell no node writes keeps 0 |
| Grid.FillCells | sudoku.cpp:322-328 | a grid that agrees cell by cell with the painting is the painting |
| Grid.Paint | sudoku.cpp:324-327 | writing nodes one by one extends the painting by those nodes |
| Grid.MapSolutionToGrid | sudoku.cpp:322-328 | the grid is painted from the stacked rows first and the clues last, each at (row-1, col-1) |
| Valid.FabricIsSudoku | sudoku.cpp:188-277 | in the built sudoku fabric, every node's triple lies in the grid, and its row's columns are exactly the four constraints of that triple |
| Valid.FabricPlacements | sudoku.cpp:219-274 | conversely, every placement of a digit 1..n in a cell has a node carrying it: each matrix row has a true entry |
| Valid.CellEntry | sudoku.cpp:129-140 | the matrix row of any placement has a true entry, its cell column, and carries that placement's triple |
| Valid.SameKind | sudoku.cpp:127-186 | a column two placements share is the same constraint of both |
| Valid.HeadsMeet | sudoku.cpp:127-186 | two placements that meet a constraint are in one cell, or put one digit in one grid row, grid column or block: the converse of the four constraints |
| Valid.NodesMeet | sudoku.cpp:188-277 | two nodes of the sudoku fabric whose rows share a column are in conflict in that sense |
| Valid.CellWriter | sudoku.cpp:322-328 | in a grid painted from an exact cover, every cell is written by a chosen row whose triple targets it, and holds that row's digit |
| Valid.SameDigitSameCell | sudoku.cpp:92-98 | two cells of that grid in one row, column or box with the same digit are the same cell |
| Valid.CoverIsSolved | sudoku.cpp:92-98 | a grid painted from an exact cover of the sudoku fabric is a solved sudoku (every cell 1..n, rows, columns and boxes without repeats), and each chosen row's digit stands in its cell |
| Solver.ISqrt | sudoku.cpp:44 | the integer square root: r² ≤ x < (r+1)² |
| Solver.NoSquareRoot | sudoku.cpp:53-54 | a number strictly between two consecutive squares is no square |
| Solver.NewSolver | sudoku.cpp:42-55 | a solver is made exactly when the size is a perfect square, and then its block size squared is the grid size; otherwise the error names the size |
| Solver.ClueKept | sudoku.cpp:326-327 | an applied clue's digit stands in its cell of every found grid |
| Solver.SkipDiffers | sudoku.cpp:305-307 | a skipped given cell holds a different digit from the one given in every found grid |
| Solver.FoundSolves | sudoku.cpp:92-98 | a found grid is solved, keeps every applied clue and differs from every skipped one |
| Solver.BuildSudoku | sudoku.cpp:348-352 | the fabric built with the header ring closed (see Findings) is consistent, has every column active and no row chosen, and is a sudoku fabric on the grid: every row a placement, and every placement of a digit 1..n in a cell a row |
| Solver.SkipReason | sudoku.cpp:303-307 | a given cell without an applied clue holds a digit above n, or repeats the digit of an applied clue from an earlier cell in its grid row, grid column or block |
| Solver.EarlierClue | sudoku.cpp:303-315 | a node placing a skipped digit shares a column with a clue applied from an earlier cell |
| Solver.MeetInUnit | sudoku.cpp:303-315 | that clue, from another cell, puts the same digit in the cell's grid row, grid column or block |
| Solver.AllSkipReasons | sudoku.cpp:296-320 | every skipped given cell has such a reason |
| Solver.ConflictFreeKept | sudoku.cpp:296-320 | when the givens are digits 1..n that repeat in no grid row, grid column or block, every given cell has an applied clue and every found grid keeps every given digit |
| Solver.GivenApplied | sudoku.cpp:303-312 | in such a puzzle no given cell is skipped |
| Solver.SolveOn | sudoku.cpp:351-354 | at most `limit` grids, each solving the puzzle in the sense above; every skipped given cell has its reason (digit above n, or an earlier applied clue with that digit in its row, column or block) |
| Solver.AllSolve | sudoku.cpp:354 | every grid the search records solves the puzzle |
| Solver.Solve | sudoku.cpp:330-355 | the error occurs exactly when the row count or the first row's length is not n, reporting both; otherwise at most `limit` grids, each a solved sudoku that keeps every applied clue and differs at every skipped given cell. Every skipped given cell has its reason: a digit above n, or an earlier applied clue with that digit in its row, column or block. So when the givens are conflict free, every grid keeps every given digit |

## Left out

- `printGrid` and `printSolutions` are console output only and are not modelled.
- `std::sqrt` in the constructor is modelled as an integer square root (`ISqrt`); no floating point.
- Solver.NewSolver: requires size >= 1. For size 0 the source builds a degenerate solver, and for a negative size the cast of a NaN is undefined.
- Solver.NewSolver: the model's integers are unbounded, so it does not model 32-bit `int` overflow. In the source, `4 * exactCoverRows` (sudoku.cpp:190) overflows once 4·size³ ≥ 2³¹, and `size * cellCount` (sudoku.cpp:46) once size³ ≥ 2³¹. The first perfect squares affected are 841 and 1296. Both are undefined behaviour in C++. The model describes the source only while 4·size³ < 2³¹: for sizes up to 812, which includes every perfect square up to 784.
- Solve: the limit is a `nat`, because a negative limit reaches `reserve` in the source.
- Solve: requires rows after the first to have length n when the dimension check passes. The source reads them unchecked.
- Grid.MapSolutionToGrid: the slot arrays' null-terminator scans are replaced by explicit lists. The scans read one slot past the end when the stack or the clue list is full.
- `reserve`, `unique_ptr` ownership and the move/copy members of the class are not behavioural and are not modelled.
- The getters and the const size fields are the fields of the immutable `Solver` datatype; `DefaultSize` and `DefaultLimit` hold the defaults 9 and 10.
- The triple of a node is set once when the node is created. The zero-initialised triple of the root and headers is kept but not read.
- Search.Search, Search.Branch, Solver.SolveOn and Solver.Solve: state soundness and the limit, not completeness. They do not prove that every solution is found when the limit allows. For Solve, the empty list `Ok([])` also meets the contract.
- Solver.BuildSudoku: builds the fabric with the header ring closed (the corrected member of the Findings row), not the fabric as written. The two differ only in the root's left link. The source writes that link (sudoku.cpp:60, 84) but never reads it. RootLeft.BuildsAgree and RootLeft.CoverIgnoresRootLeft prove that the difference stays confined to that link. The link walks themselves are stated on the closed ring only.
- Solver.Solve: runs on the fabric with the header ring closed, as Solver.BuildSudoku does. It finds the same grids as the source, because the search never reads the root's left link. This rests on the lemmas in `rootleft.dfy` and on the fact that no walk reads that link; the model states neither search on the fabric as written.
- Solve: repeatability is not stated as a lemma. Dafny cannot compare two method calls. The model keeps no state between calls, and every call rebuilds the matrix and fabric from the puzzle.
- Two equal clues in one grid row, grid column or block are not an error in the source: the later one is skipped. The model keeps that behaviour: its grids differ from the skipped clue at that cell, and Solver.SkipReasons names the earlier clue that caused the skip.

## Findings

| source | as written | input that shows it | evidently intended | confidence | as-written member | corrected member |
|---|---|---|---|---|---|---|
| sudoku.cpp:195-216 | the root's left link is set to the root and never updated while the headers are appended, so the header ring is only linked rightwards | any size, e.g. n = 1 (four headers): after the build, root.left == root although root.right == header 1 | root.left points at the last header, closing the doubly linked header ring. The search never reads root.left, and builds and splices keep the two fabrics differing only there (RootLeft.BuildsAgree, RootLeft.CoverIgnoresRootLeft) | not executed | Fabric.BuildAsWritten | Fabric.BuildDLXLinkedList |
