# Verified models of the workloads and the instruction codec

The repository is an out-of-order RISC-V processor with its test bench. This project models
the C programs that serve as workloads and the C++ instruction codec of the test bench, and
proves what each of them computes. Sizes and moduli that the sources fix with a macro or a
constant are parameters here; the source's own values are instances.

* `ModularArithmetic.dfy`, `Transform.dfy`, `NumberTheoreticTransform.dfy` - the in-place
  recursive transform of `test_progs/dft.c` over the integers modulo m. `Transform` has the
  transform as a naive sum, the even/odd split, orthogonality, inversion and the convolution
  theorem, for every power-of-two length, every modulus above 2 and every root whose power at
  half the length is -1. The program's methods follow. Its `byte` is a 16-bit `short`, here a
  subset type, so that every assignment proves that nothing wrapped.
* `EditDistance.dfy` - the table of `test_progs/min_distance.c` against scripts of
  insertions, deletions and substitutions at any position.
* `Counting.dfy`, `KnightsTour.dfy` - the backtracking of `test_progs/backtrack.c`.
* `Reachability.dfy`, `SearchOrder.dfy`, `MatrixGraph.dfy`, `MatrixBfs.dfy`, `MatrixDfs.dfy`, `ListBfs.dfy`,
  `BubbleSort.dfy` - the searches of `test_progs/bfs.c` and `test_progs/graph.c`, and the
  linked-list sort of the latter. The two files build the same matrix graph, modelled once. The
  searches are proved to visit the vertices in one order that the graph alone determines.
* `MatrixMultRec.dfy` - the recursive product of `test_progs/matrix_mult_rec.c` with its
  static counters as fields of an object.
* `HeapBlocks.dfy`, `TjMalloc.dfy`, `TjMallocAsWritten.dfy`, `TjMallocRuns.dfy` - the allocator
  of `test_progs/tj_malloc.h`, as its comments describe it and as it is written.
* `RiscvInst.dfy`, `RiscvRoundTrip.dfy`, `RiscvLiterals.dfy` - `decode`, `analyze`, `select`, `assign` and
  `encode` of `testbench/riscv_inst.h` on 32-bit vectors, against the instruction patterns and
  immediate macros of `ISA.svh`; formats as in sections 2.2 and 2.3 of the RISC-V
  Unprivileged ISA manual, version 20191213. `RiscvLiterals` has the tables once more in numbers,
  op by op, with one whole word for each.

Results where the code does not do what its comments or callers expect:

* **The allocator mixes units.** `p + p->size` on a `Header*` moves 8 bytes per byte of
  payload, a merge does not count the swallowed header, and the split subtracts in 32 bits.
  `TjMallocAsWritten` keeps that arithmetic and shows exactly when each operation leaves blocks
  and list in order: `tj_free` if and only if neither adjacency test fires (on a list of base
  alone the upper test may fire and changes nothing); `tj_malloc` if and only if what it takes has
  exactly the requested size and, for a request of 0 bytes, base is alone on the list. This covers
  a `base` header below and above the heap; from above, the upper test can also drop `base` off
  the list. `TjMallocRuns` has the whole calls with their scans and the growth through `tj_free`:
  from the initial heap on, a state stays valid call by call exactly until the first such event.
  Three calls suffice, whatever the sizes: allocate, give back, and ask for less
  (`tj_malloc(16)`, `tj_free`, `tj_malloc(4)`, say). It is not just a leak: joining two
  blocks always makes the one that grows overlap another, and a cut never hands out a block that is
  new, off the list, inside the used heap and clear of the other blocks. With just a header to spare
  the block handed out stays on the list, as the first fit of the next such request; and the size
  field of a new header can lie on the link of a free block, which it then overwrites.
* **The allocator its comments describe** ("merge if exactly adjacent", byte addresses, the
  header counted, no remainder smaller than a header) is `TjMalloc`, with each changed line marked
  DEVIATION; it carries the full invariant, word alignment included, and with nothing live the used
  heap is one free block again. There `base` matches a request of 0 bytes and no
  other, which is why its requests are at least one byte.
* **Stores lose their sign.** `encode` writes six of the seven high immediate bits of a
  store, so a word comes back from `decode` and `encode` if and only if it is not a store with
  bit 31 set.
* **JAL is selected in the wrong layout.** `select` picks the U immediate for it; a jump
  offset survives if and only if it is 0, 0x22222, 0x44444 or 0x66666; 8 comes back as 0x8000.
* **The decoder is looser than ISA.svh** on JALR (any funct3, as in 0x00001067) and WFI (any rd
  and rs1), and on nothing else.
* **The static counters are never reset.** A matrix product starts in the row where the
  previous one left the static i, and computes only the rows from there on: main's 3 by 3 product,
  done twice, comes out as zeros the second time. What is computed is the whole product if and only
  if the product is zero in the rows before.

Addresses are numbers, NULL is 0, and a queue, stack or statics object stands for the globals of
the source. Allocation succeeds in the graph programs.

## Model

| member | source | states |
|---|---|---|
| NumberTheoreticTransform.SourceParamsValid | test_progs/dft.c:13-18 | the constants 8, 17, 2, 9, 15 meet every requirement of the theorems: 2 is a root with 2^4 = -1, 9 its inverse, 15 the inverse of 8 |
| NumberTheoreticTransform.ModuloM | test_progs/dft.c:20-28 | for every short, negative ones included, the remainder in [0, m) |
| NumberTheoreticTransform.FitsShort | test_progs/dft.c:47-49 | sums and products of reduced values stay inside 16 bits |
| NumberTheoreticTransform.Split | test_progs/dft.c:37-40 | x and y receive exactly the even and the odd entries, in order |
| NumberTheoreticTransform.Combine | test_progs/dft.c:47-48 | the two values written in a pass are outputs i and i + len/2 of the transform by definition |
| NumberTheoreticTransform.Merge | test_progs/dft.c:44-50 | from transformed halves, a becomes the transform by definition of the original entries; the rest of a is untouched |
| NumberTheoreticTransform.Dft | test_progs/dft.c:30-53 | a[j] becomes the sum of old a[i] * root^(i*j) mod m for every j < len, in place, nothing beyond len changes, and all entries stay reduced |
| NumberTheoreticTransform.ToPoly | test_progs/dft.c:55-66 | a holds the n low two's-complement bits of x, least significant first |
| NumberTheoreticTransform.PointwiseProduct | test_progs/dft.c:76-78 | the reduced product of two transform entries is the transform of the cyclic convolution |
| NumberTheoreticTransform.PointwiseMultiply | test_progs/dft.c:76-78 | after the loop a holds, mod m, the transform of the cyclic convolution of the two inputs |
| NumberTheoreticTransform.ScaleAndEvaluate | test_progs/dft.c:81-89 | scaling recovers every coefficient of the vector that was transformed, and the result is its value at w mod m |
| NumberTheoreticTransform.ConvolutionValue | test_progs/dft.c:83-87 | the value at w of the cyclic convolution is the product of the values |
| NumberTheoreticTransform.Mult | test_progs/dft.c:68-90 | the whole pipeline yields the product of the two bit polynomials at w mod m; for w = 2 this is (x mod 2^n) * (y mod 2^n) mod m |
| NumberTheoreticTransform.MultSource | test_progs/dft.c:68-90 | with the program's constants, for all shorts: (x mod 256) * (y mod 256) mod 17 |
| Transform.StopsExactlyAtOne | test_progs/dft.c:32-34 | the stop root == 1 fires exactly when the length is 1 |
| Transform.RootOfHalf | test_progs/dft.c:42-43 | the reduced square of the root meets the same requirement for half the length |
| Transform.Butterfly | test_progs/dft.c:47-48 | outputs j and j + len/2 of the naive sum from the naive sums of the even and odd entries |
| Transform.EvalSplit | test_progs/dft.c:37-40 | a polynomial is its even part at z^2 plus z times its odd part at z^2 |
| Transform.DftSumIsEval | test_progs/dft.c:46-50 | the naive sum is the polynomial of the entries evaluated at root^j |
| Transform.Orthogonality | test_progs/dft.c:80-84 | the powers of root^d sum to 0 mod m for 0 < d < len |
| Transform.RowsAreOrthogonal | test_progs/dft.c:80-84 | row p of the transform and row l of the inverse transform have product len if p = l, else 0 |
| Transform.Inversion | test_progs/dft.c:73-84 | transform, transform with the inverse root, scale by the inverse of the length: any vector is restored mod m |
| Transform.ConvolutionTheorem | test_progs/dft.c:76-78 | the transform of the cyclic convolution is the pointwise product of the transforms |
| Transform.EvalShift | test_progs/dft.c:76-86 | at a root of unity, rotating the coefficients by i multiplies the value by z^i |
| Transform.EvalBits | test_progs/dft.c:55-66 | the bits of x evaluated at 2 give x mod 2^n, for negative x too |
| EditDistance.Strlen | test_progs/min_distance.c:8-12 | the index of the first NUL; everything before it is the word |
| EditDistance.Neighbours | test_progs/min_distance.c:24-31 | adjacent table entries differ by at most one |
| EditDistance.MatchNeedsNoMinimum | test_progs/min_distance.c:26-29 | exchange argument: copying the diagonal on a match equals the minimum over all three neighbours |
| EditDistance.OneEditLowersByAtMostOne | test_progs/min_distance.c:24-31 | words that differ in at most one character at any position have distances to every word that differ by at most one |
| EditDistance.NoScriptIsShorter | test_progs/min_distance.c:14-33 | every edit script between two words is at least as long as the table's value |
| EditDistance.ShortestScript | test_progs/min_distance.c:14-33 | a script of exactly that length exists |
| EditDistance.DistanceIsLeastEdits | test_progs/min_distance.c:14-33 | the table's value is the least length over all edit scripts |
| EditDistance.FillBorders | test_progs/min_distance.c:19-22 | the border row and column hold the distances to the empty word |
| EditDistance.Cell | test_progs/min_distance.c:26-29 | an inner cell from its three neighbours, for prefixes of two words |
| EditDistance.FillRow | test_progs/min_distance.c:25-30 | one pass completes the next row with the distances of prefixes and keeps all rows above |
| EditDistance.MinDistance | test_progs/min_distance.c:14-33 | for all NUL-terminated words, the least number of insertions, deletions and substitutions |
| EditDistance.ZeroIffEqual | test_progs/min_distance.c:14-33 | the value is 0 if and only if the words are equal |
| EditDistance.Symmetric | test_progs/min_distance.c:14-33 | the value is symmetric in the two words |
| EditDistance.TriangleInequality | test_progs/min_distance.c:14-33 | going through a third word is never shorter |
| EditDistance.LengthBounds | test_progs/min_distance.c:14-33 | the value lies between the difference of the lengths and the longer length |
| KnightsTour.MoveTable | test_progs/backtrack.c:50-51 | the two tables list exactly the moves of a knight, none twice |
| KnightsTour.TriedInOrder | test_progs/backtrack.c:50-51 | the eight moves in the order in which they are tried, in numbers |
| KnightsTour.OneFirstCompletion | test_progs/backtrack.c:76-79 | the completion that is first in the order in which moves are tried is determined |
| KnightsTour.FirstOfPrefix | test_progs/backtrack.c:76-86 | when no earlier move leads to a complete tour, the first completion through this move is the first of all |
| KnightsTour.SafeMeansUnvisited | test_progs/backtrack.c:20-22 | on a board that shows a tour, isSafe accepts exactly the unvisited cells of the board |
| KnightsTour.TourLength | test_progs/backtrack.c:72-73 | a tour has at most N*N cells, and with N*N cells it visits the whole board |
| KnightsTour.NextCell | test_progs/backtrack.c:76-79 | every completion continues with one of the eight moves the loop tries |
| KnightsTour.SolveKTUtil | test_progs/backtrack.c:70-89 | returns 1 if and only if the partial tour on the board can be completed; then the board shows the completion that is first in the order of the moves, otherwise it is cell by cell as on entry |
| KnightsTour.SolveKT | test_progs/backtrack.c:39-66 | for every N >= 1, 1 if and only if a tour of the whole board from (0, 0) exists |
| KnightsTour.CompleteTourFillsTheBoard | test_progs/backtrack.c:70-89 | on success the numbers 0..N*N-1 each stand on exactly one cell and no cell is left at -1 |
| KnightsTour.NoTourOnThree | test_progs/backtrack.c:10 | the program's 3 by 3 board has no tour |
| KnightsTour.SolveKTSource | test_progs/backtrack.c:39-66 | the program's own call returns 0 |
| Reachability.ShortenPath | test_progs/bfs.c:93-103 | every path ends with one edge after a path that is shorter by one |
| Reachability.ClosedIsReachableSet | test_progs/graph.c:136-161 | a closed set of reachable vertices that holds the start is the reachable set |
| Reachability.RoomForOneMore | test_progs/bfs.c:98-101 | while a vertex is undiscovered there is a free slot |
| Reachability.Discover | test_progs/bfs.c:98-101 | inserting an unvisited neighbour keeps the queue in order of distance, within one of the vertex being scanned |
| Reachability.FinishVertex | test_progs/bfs.c:98-103 | when no unvisited neighbour is left the next vertex of the queue can be scanned |
| Reachability.PathsAreNoShorter | test_progs/bfs.c:83-103 | when the queue has run empty, every path to a vertex is at least as long as its recorded distance |
| Reachability.DiscoveryComplete | test_progs/bfs.c:83-103 | the order of removal lists exactly the vertices reachable from the start, once each, by shortest distance |
| SearchOrder.TakeTurn | test_progs/bfs.c:98-101 | discovering the first undiscovered neighbour keeps the vertices in the order of their first parents and, as siblings, of their rank |
| SearchOrder.NewParent | test_progs/bfs.c:98-101 | a vertex discovered from the vertex being scanned has no edge from any vertex before that |
| SearchOrder.OneBreadthFirstOrder | test_progs/bfs.c:83-103 | two breadth-first orders of the same vertices, by first parent and then by rank, are equal |
| SearchOrder.OneDepthFirstOrder | test_progs/graph.c:297-306 | two depth-first orders of the same vertices are equal |
| SearchOrder.SourceBreadthFirst | test_progs/bfs.c:111-135 | the only order for the graph of main is 0, 1, 2, 3, 4 |
| SearchOrder.SourceDepthFirst | test_progs/graph.c:313-335 | the only order for the graph of DFS_test is 0, 1, 4, 2, 3 |
| MatrixGraph.Graph.AddVertex | test_progs/bfs.c:58-63 | one more vertex with its label, unvisited; earlier vertices stay, and pairs drawn before become edges only through the new vertex |
| MatrixGraph.Graph.AddEdge | test_progs/bfs.c:66-69 | for any two indices of the matrix, exactly the pair and its reverse are drawn; they are edges at once if both vertices exist, and otherwise as soon as they do |
| MatrixGraph.Graph.GetAdjUnvisitedVertex | test_progs/bfs.c:72-81 | the smallest unvisited neighbour, or -1 exactly when all neighbours are visited |
| MatrixGraph.Graph.Mark | test_progs/bfs.c:99 | exactly one vertex becomes visited, and the log of marked vertices grows by it |
| MatrixGraph.Graph.ResetVisited | test_progs/bfs.c:106-108 | no vertex is left visited |
| MatrixGraph.BuildSource | test_progs/bfs.c:114-132 | five vertices and exactly the six edges with their reverses |
| MatrixBfs.Queue.Insert | test_progs/bfs.c:41-44 | the history of the queue grows by one at its end, without reusing a slot |
| MatrixBfs.Queue.RemoveData | test_progs/bfs.c:46-49 | returns the oldest entry not yet removed; the history stays |
| MatrixBfs.Queue.IsQueueEmpty | test_progs/bfs.c:51-53 | true if and only if everything inserted has been removed |
| Reachability.DiscoveredCount | test_progs/bfs.c:83-103 | the number of insertions equals the number of visited vertices and never exceeds vertexCount |
| MatrixBfs.Scan | test_progs/bfs.c:98-101 | the inner loop discovers every neighbour of the removed vertex and moves on to the next |
| MatrixBfs.Traverse | test_progs/bfs.c:86-103 | rear + 1 = front + queueItemCount = number visited throughout; at the end the history is the breadth-first order and is entirely removed |
| MatrixBfs.BreadthFirstSearch | test_progs/bfs.c:83-109 | on a fresh queue: the vertices reachable from 0, and only these, leave it once each, nearest first, ordered by their first parent and, among the neighbours of one vertex, smallest first; edges unchanged, all flags cleared |
| MatrixBfs.SearchSource | test_progs/bfs.c:111-135 | main: the vertices leave the queue in the order 0, 1, 2, 3, 4 |
| MatrixDfs.Stack.Push | test_progs/graph.c:249-251 | the item goes on top, within the bounds of the array |
| MatrixDfs.Stack.Pop | test_progs/graph.c:253-255 | the top item is returned and removed |
| MatrixDfs.Stack.Peek | test_progs/graph.c:257-259 | the top item is returned and stays |
| MatrixDfs.PushKeeps | test_progs/graph.c:302-305 | going to an unvisited neighbour keeps the stack a simple path of visited vertices from 0 and leaves room on it |
| MatrixDfs.PopKeeps | test_progs/graph.c:300-301 | a vertex leaves the stack only with all its neighbours visited |
| MatrixDfs.BehindTop | test_progs/graph.c:297-306 | a vertex marked after the top of the stack has no unmarked neighbour |
| MatrixDfs.PushLogs | test_progs/graph.c:302-305 | marking the smallest unmarked neighbour of the top goes on in depth-first order |
| MatrixDfs.StackHeight | test_progs/graph.c:297-306 | the stack is no taller than the number of visited vertices |
| MatrixDfs.Step | test_progs/graph.c:297-306 | each pass either pops, with nothing newly visited, or visits and pushes one new vertex; the invariant stays |
| MatrixDfs.Traverse | test_progs/graph.c:292-306 | the loop ends, by unvisited count and then stack height, with exactly the vertices reachable from 0 logged, in depth-first order |
| MatrixDfs.DepthFirstSearch | test_progs/graph.c:289-311 | the vertices are marked once each, all and only the reachable ones, each being the smallest unmarked neighbour of the last marked vertex that has one; by a log that the reset does not wipe; afterwards flags and stack are clear and edges unchanged |
| MatrixDfs.SearchSource | test_progs/graph.c:313-335 | DFS_test: the vertices are marked in the order 0, 1, 4, 2, 3 |
| ListBfs.Queue.constructor | test_progs/graph.c:74-79 | an empty queue |
| ListBfs.Queue.IsEmpty | test_progs/graph.c:81-86 | true if and only if the queue holds nothing |
| ListBfs.Queue.Enqueue | test_progs/graph.c:88-99 | appends, except that at the last slot the value is dropped and the drop is counted |
| ListBfs.Queue.Dequeue | test_progs/graph.c:101-120 | -1 on empty, else the oldest value; emptying the queue resets both ends |
| ListBfs.Graph.constructor | test_progs/graph.c:46-60 | no edges and nothing visited |
| ListBfs.Graph.AddEdge | test_progs/graph.c:62-72 | one new node at the front of each of the two lists, so exactly the edge and its reverse are added; flags unchanged |
| ListBfs.Expand | test_progs/graph.c:150-159 | after the inner loop every neighbour of the vertex is visited, the new ones queued once each, in the order of its list |
| ListBfs.Traverse | test_progs/graph.c:137-160 | with at most as many vertices as slots nothing is ever dropped, across all resets, exactly the reachable vertices end up visited, and they leave the queue nearest first, by first parent and list order |
| ListBfs.Bfs | test_progs/graph.c:136-161 | for at most 40 vertices and clear flags, visited ends as the set of vertices reachable from the start, visited nearest first, by first parent and, among the neighbours of one vertex, in the order of its list |
| ListBfs.HeadIsNext | test_progs/graph.c:150-157 | the first unvisited vertex of the list is the neighbour that comes next |
| ListBfs.LinkedTo | test_progs/graph.c:64-66 | the new neighbour comes before all others of its vertex, each of which moves back by one |
| ListBfs.OneListOrder | test_progs/graph.c:136-161 | the lists and the start determine the order of the visits |
| ListBfs.BfsTest | test_progs/graph.c:163-174 | bfs_test visits 0, 2, 1, 4, 3 and never vertex 5 |
| BubbleSort.Swap | test_progs/graph.c:188-192 | two neighbouring data values are exchanged and no link is touched |
| BubbleSort.Advance | test_progs/graph.c:207-210 | one comparison carries the maximum of the prefix one node on and keeps the settled suffix |
| BubbleSort.Compare | test_progs/graph.c:207-211 | one comparison of the inner loop keeps the loop's invariant one node on |
| BubbleSort.Pass | test_progs/graph.c:203-213 | the maximum of the open part settles at its end, which is returned; without a swap the whole list is sorted; no null link is followed |
| BubbleSort.BubbleSort | test_progs/graph.c:194-216 | terminates with the data sorted and a permutation of the old data, the chain of nodes unchanged |
| MatrixMultRec.FrameCount | test_progs/matrix_mult_rec.c:26-50 | from any position inside the matrices, exactly one frame more remains than from the next position |
| MatrixMultRec.PendingStep | test_progs/matrix_mult_rec.c:31-50 | one frame takes exactly its own product term off what is pending for each cell |
| MatrixMultRec.Product.MultiplyMatrixRec | test_progs/matrix_mult_rec.c:15-50 | every pending term is added exactly once although all frames go on after their recursive call; i ends advanced by the number of entered frames, past row1 |
| MatrixMultRec.FromTheStart | test_progs/matrix_mult_rec.c:24 | from (0, 0, 0) there are row1*(col2*(col1+1)+1) frames and the whole product is pending |
| MatrixMultRec.MultiplyMatrix | test_progs/matrix_mult_rec.c:53-73 | nothing on a shape mismatch, whatever the shapes; otherwise a * b in the rows from the static i on and zero in the rows before, which is all of a * b if and only if that is zero in the rows before i |
| MatrixMultRec.ProductTwice | test_progs/matrix_mult_rec.c:53-73 | main's 3 by 3 product done twice in one run: the first is a * b, the second all zeros |
| MatrixMultRec.FirstProduct | test_progs/matrix_mult_rec.c:63 | the first product adds a * b to c and leaves the static i at row1*(col2*(col1+1)+1) |
| HeapBlocks.TilesGrow | test_progs/tj_malloc.h:80-83 | a block on top of the used heap keeps the tiling |
| HeapBlocks.TilesMerge | test_progs/tj_malloc.h:58-70 | merging two adjacent blocks with the header counted keeps the tiling |
| HeapBlocks.TilesSplit | test_progs/tj_malloc.h:115-119 | cutting a block behind its remainder keeps the tiling |
| HeapBlocks.NextBlock | test_progs/tj_malloc.h:80-83 | in a tiled region a block is followed by a block, with no gap |
| HeapBlocks.BlockAligned | test_progs/tj_malloc.h:91-95 | with whole words as sizes, every header and payload has the alignment of the heap |
| HeapBlocks.StopsExactlyAtGap | test_progs/tj_malloc.h:51-55 | the scan of tj_free leaves its loop at the gap of the block in address order and nowhere else, wherever base lies |
| HeapBlocks.GapExists | test_progs/tj_malloc.h:51-55 | such a gap exists, so the scan ends within one lap |
| HeapBlocks.FindPlace | test_progs/tj_malloc.h:48-55 | the scan of tj_free terminates at the free block, or base, behind which the freed block belongs in address order |
| HeapBlocks.OneGap | test_progs/tj_malloc.h:51-55 | that place is the only one |
| HeapBlocks.ApartIsCoalesced | test_progs/tj_malloc.h:56-72 | no free block ends where another free block begins |
| HeapBlocks.LapFollowsLinks | test_progs/tj_malloc.h:111 | following next from freep meets every member of the list before it is back at freep |
| TjMalloc.Allocator.constructor | test_progs/tj_malloc.h:29-39 | an untouched heap without a list is a valid state with nothing live |
| TjMalloc.Allocator.InitList | test_progs/tj_malloc.h:104-109 | the list of base alone |
| TjMalloc.Allocator.JoinUpper | test_progs/tj_malloc.h:58-65 | the freed block leaves the live blocks and stands before its successor, merged if and only if exactly adjacent |
| TjMalloc.Allocator.JoinLower | test_progs/tj_malloc.h:67-72 | the predecessor links to the block or swallows it, and the ring is whole, ordered and coalesced again |
| TjMalloc.Allocator.Insert | test_progs/tj_malloc.h:48-75 | exactly this block stops being live, joined with the neighbours it touches at its place in the list; freep is the member of the old list in front of that place |
| TjMalloc.Allocator.Free | test_progs/tj_malloc.h:42-76 | out-of-heap addresses are refused without change; a live block stops being live, no other live block or heap bound changes, and freep is the member of the old list behind which the block belongs |
| TjMalloc.Allocator.GetMoreMem | test_progs/tj_malloc.h:78-86 | fails exactly when memory is short, else a fitting free block exists afterwards, even if the new chunk was merged below |
| TjMalloc.Allocator.TakeWhole | test_progs/tj_malloc.h:113-120 | an exact block leaves the list and becomes live with its size; freep is the member in front of it |
| TjMalloc.Allocator.TakeEnd | test_progs/tj_malloc.h:115-120 | the end of a larger block becomes a live block of its own; the list keeps its order and stays coalesced, and freep is the member in front of the block that was cut |
| TjMalloc.Allocator.LapIsOver | test_progs/tj_malloc.h:126 | back at freep without success means that no free block is big enough |
| TjMalloc.Allocator.Scan | test_progs/tj_malloc.h:111-129 | the endless loop terminates: one lap finds a block or grows the heap once, after which a lap finds one; the first fitting block behind freep serves the request, from its end, and freep moves to the member in front of it; NULL if and only if nothing fits and memory is short |
| TjMalloc.Allocator.Malloc | test_progs/tj_malloc.h:88-130 | NULL exactly for oversized requests or when nothing fits and memory is short; otherwise a new live block of the rounded size inside the heap, on a word boundary of it, all other live blocks unchanged; it comes from the first fitting free block behind freep, which moves to the member in front of that block; the heap grows, by this block alone, only when none fits, and then the list is as before and freep its last member, or the one before when that ends at the new block |
| TjMalloc.GrownServes | test_progs/tj_malloc.h:126-128 | after a growth only the block on top of the heap fits, and serving the request leaves the list as it was before the growth |
| TjMalloc.FreedOnTop | test_progs/tj_malloc.h:80-84 | the block on top of the heap goes to the end of the list, into its last block if that ends there |
| TjMalloc.FitsMeansServable | test_progs/tj_malloc.h:112-117 | big enough means exact, or that cutting the request and a header off leaves a block |
| TjMalloc.Allocator.BaseMatchesOnlyZero | test_progs/tj_malloc.h:108-114 | base is big enough for a request of 0 bytes and for no other |
| TjMalloc.Allocator.BlocksPartitionTheHeap | test_progs/tj_malloc.h:30-32 | in every valid state free and live blocks with headers are disjoint and fill the used heap exactly, used plus available is the heap size, and no two free blocks are adjacent |
| TjMalloc.Allocator.AllFreeIsOneBlock | test_progs/tj_malloc.h:56-72 | with nothing live, the list of a used heap is base and one block that fills all of it |
| TjMallocAsWritten.NeighboursNeverJoin | test_progs/tj_malloc.h:58 | with the code's arithmetic blocks that are neighbours are never recognised as such |
| TjMallocAsWritten.DisjointIff | test_progs/tj_malloc.h:58-72 | after tj_free the blocks are pairwise disjoint if and only if no adjacency test has joined two of them: a join always makes an overlap |
| TjMallocAsWritten.FreeIff | test_progs/tj_malloc.h:58-72 | as written, with base below or above the heap, tj_free keeps the heap tiled and the list through base in order if and only if neither adjacency test fires, or only the upper one on a list of base alone; then it inserts the block and changes no size |
| TjMallocAsWritten.FreeLosesHeaders | test_progs/tj_malloc.h:58-72 | tj_free keeps the sum of all payload sizes; each join of two blocks removes exactly one block, whose eight bytes of header no block accounts for any more |
| TjMallocAsWritten.TilesTotal | test_progs/tj_malloc.h:30-32 | the blocks of a tiled region account for all its bytes, headers included |
| TjMallocAsWritten.CutKeepsBytes | test_progs/tj_malloc.h:115-119 | a cut that lands on a new address turns the payload of the block into two payloads and a header |
| TjMallocAsWritten.MallocIff | test_progs/tj_malloc.h:112-120 | as written, tj_malloc keeps them if and only if the size found is exact and, should base itself be taken, base is alone; an exact block leaves the list |
| TjMallocAsWritten.SafeIff | test_progs/tj_malloc.h:112-120 | the block handed out is not live, off the list, inside the used heap and clear of all other blocks if and only if the size found is exact |
| TjMallocAsWritten.OnlySafePlace | test_progs/tj_malloc.h:115-119 | a new header with its bytes to itself can only stand behind what remains of the block that is cut, and inside it |
| TjMallocAsWritten.OneHeaderToSpare | test_progs/tj_malloc.h:115-119 | with exactly a header to spare the block handed out stays on the list, exact for the next such request |
| TjMallocAsWritten.SplitExample | test_progs/tj_malloc.h:116-118 | 4 bytes from a block of 16: the header handed out lies behind the used heap |
| TjMallocAsWritten.FreeExample | test_progs/tj_malloc.h:58-61 | a free block is merged across a live block |
| TjMallocAsWritten.DropExample | test_progs/tj_malloc.h:58-72 | with base above the heap, a freed block takes over base's link and base drops off the list |
| TjMallocRuns.TakenAligned | test_progs/tj_malloc.h:112-124 | whatever is taken, header, size word and payload keep the alignment of the block it is taken from |
| TjMallocRuns.OverwrittenLinks | test_progs/tj_malloc.h:118 | storing to a word keeps the links of the list if and only if no link stands there, or the same one |
| TjMallocRuns.UpperLinks | test_progs/tj_malloc.h:58-65 | after the upper join the links follow the new order of the list everywhere but in front of the freed block |
| TjMallocRuns.Allocator.constructor | test_progs/tj_malloc.h:29-39 | the initial statics are a valid state with the list of base alone to come |
| TjMallocRuns.Allocator.HeadersApart | test_progs/tj_malloc.h:34-38 | in a sound state headers stand on words and never overlap |
| TjMallocRuns.Allocator.JoinUpper | test_progs/tj_malloc.h:58-65 | sizes and links after the upper test, whichever way it goes |
| TjMallocRuns.Allocator.JoinLower | test_progs/tj_malloc.h:67-72 | the headers then hold exactly the blocks and the list of FreeIff |
| TjMallocRuns.Allocator.Insert | test_progs/tj_malloc.h:48-75 | from a sound state, the state is in order afterwards if and only if the tests are harmless at the block's place; then exactly this block stops being live; freep is the member of the old list in front of that place |
| TjMallocRuns.Allocator.Free | test_progs/tj_malloc.h:42-76 | tj_free as written: a valid state stays valid if and only if the address is refused or the tests are harmless; what the headers hold, and freep, are given either way |
| TjMallocRuns.Allocator.GetMoreMem | test_progs/tj_malloc.h:78-86 | NULL without change exactly when memory is short; otherwise the new block passes through tj_free with the same condition |
| TjMallocRuns.Allocator.Take | test_progs/tj_malloc.h:112-124 | what is taken, in 32 bits, and handed out; freep is the member in front of it; the state is in order afterwards if and only if it was exact; the links of the list survive if and only if the store of the new size field hits none of them, and are given either way |
| TjMallocRuns.OneFirstFit | test_progs/tj_malloc.h:111-112 | the first member of at least the size, on the lap behind freep, is determined |
| TjMallocRuns.Allocator.KeepsByCases | test_progs/tj_malloc.h:111-128 | the condition under which tj_malloc keeps order, for a first fit and for none |
| TjMallocRuns.Allocator.Scan | test_progs/tj_malloc.h:111-129 | the scan as written terminates or goes astray in growth; it serves from the first fit, freep moving to the member in front of it, else from the new block, freep then being the last member of the list; order is kept if and only if the condition holds, and the links if and only if no store overwrites one |
| TjMallocRuns.Allocator.Malloc | test_progs/tj_malloc.h:88-130 | tj_malloc as written, for every request including 0: a valid state stays valid if and only if the request is refused or the first fit is exact or, with none, memory is short or the growth is harmless; the result, its alignment, the live blocks, freep and the links in each case |
| TjMallocRuns.ThreeCalls | test_progs/tj_malloc.h:112-119 | from the initial heap, any block given back and any smaller request after it end out of order, with the address handed out computed in headers, and the link of base lost if the new size field lies on it; with just a header to spare the same block is the first fit again |
| TjMallocRuns.FiveCalls | test_progs/tj_malloc.h:58-61 | from the initial heap, a state in which tj_free merges across a live block, and makes an overlap, is reached for every size of the first block |
| TjMallocRuns.SixCalls | test_progs/tj_malloc.h:118 | from the initial heap, a cut after harmless calls overwrites the link of another free block with a size (20, 32 and 16 bytes allocated, the last and the first freed, 4 asked for, say) |
| RiscvInst.Inst.Decode | testbench/riscv_inst.h:130-520 | the op is the one that accepts the word, INVALID if there is none; all other fields as functions of the word and the earlier fields, including the format and immediate kind that an unknown opcode leaves in place |
| RiscvInst.OneAccepts | testbench/riscv_inst.h:140-518 | no word is accepted by two ops |
| RiscvInst.OneAnswer | testbench/riscv_inst.h:140-518 | an op that accepts the word, or INVALID when none does, is the only answer to it |
| RiscvInst.AcceptRow | ISA.svh:90-154 | an op accepts a word exactly by the opcode of its group and its funct fields, and WFI by its one code |
| RiscvInst.Inst.DecodeOpcode | testbench/riscv_inst.h:140-518 | the outer switch with its inner ones finds the answer to the word: an op whose pattern it has, or INVALID when no pattern fits |
| RiscvInst.Inst.DecodeImmediate | testbench/riscv_inst.h:275-337 | the inner switches of the immediate opcode answer the immediate or shift op with these funct fields, INVALID only when there is none |
| RiscvInst.Inst.DecodeArithmetic | testbench/riscv_inst.h:338-439 | the switch on the combined key answers the arithmetic op with this funct7 and funct3, INVALID only when there is none |
| RiscvInst.KeyParts | testbench/riscv_inst.h:341 | the combined key determines funct7 and funct3 |
| RiscvInst.Inst.Analyze | testbench/riscv_inst.h:522-586 | register fields, and the immediate by the macros of ISA.svh (shift amounts apart) |
| RiscvInst.Inst.Assign | testbench/riscv_inst.h:597-604 | exactly the six selected fields are taken over |
| RiscvInst.Inst.Select | testbench/riscv_inst.h:606-889 | for every op with a case the selection agrees with the bit pattern of ISA.svh; other ops leave it undefined |
| RiscvInst.Inst.Encode | testbench/riscv_inst.h:891-958 | the accumulated word is the word of the format |
| RiscvRoundTrip.DecodesExactly | testbench/riscv_inst.h:140-518 | decode answers an op if and only if the word has its pattern, JALR and WFI being recognised by fewer bits |
| RiscvRoundTrip.LooserThanIsa | ISA.svh:90-154 | a word has the pattern of ISA.svh if and only if decode answers the op and, for JALR, funct3 is 0, and for WFI, rd and rs1 are 0 |
| RiscvRoundTrip.UpperImmediate | ISA.svh:203-207 | the stored U immediate is the macro's value shifted right by 12 |
| RiscvRoundTrip.EncodeAfterDecode | testbench/riscv_inst.h:891-958 | every valid word comes back, except that a store loses bit 31 |
| RiscvRoundTrip.DecodeThenEncode | testbench/riscv_inst.h:130-958 | the two calls on one object give back every valid word, except that a store loses bit 31 |
| RiscvRoundTrip.EncodeUndoesDecodeIff | testbench/riscv_inst.h:891-958 | a valid word comes back if and only if it is not a store with bit 31 set |
| RiscvRoundTrip.WordBeyondIsa | testbench/riscv_inst.h:140-518 | 0x00001067 is answered as JALR although ISA.svh has no such word |
| RiscvRoundTrip.NegativeStoreIsLost | testbench/riscv_inst.h:921-923 | sw x2, -4(x1) comes back with a positive offset |
| RiscvRoundTrip.JumpOffsetIsLost | testbench/riscv_inst.h:750-754 | jal x1, 8 is encoded as 0x000080ef, whose offset is 0x8000 |
| RiscvRoundTrip.RoundTripStore | testbench/riscv_inst.h:916-923 | a selected store gives back op, registers and offset if and only if the offset is not negative |
| RiscvRoundTrip.RoundTripJal | testbench/riscv_inst.h:750-754 | a selected JAL gives back its offset if and only if it is one of four values |
| RiscvRoundTrip.DecodeAfterEncode | testbench/riscv_inst.h:597-958 | for every selectable op, registers below 32 and canonical immediate: the op comes back, and the carried fields do if and only if a store offset is not negative and a jump offset is one of four |
| RiscvRoundTrip.AssembleThenDecode | testbench/riscv_inst.h:597-958 | the same for the calls of select, assign, encode and decode in their order, for every selectable op |
| RiscvLiterals.BranchPatterns | ISA.svh:94-99 | the bit pattern of each branch op, in numbers |
| RiscvLiterals.LoadPatterns | ISA.svh:100-104 | the bit pattern of each load op, in numbers |
| RiscvLiterals.StorePatterns | ISA.svh:105-107 | the bit pattern of each store op, in numbers |
| RiscvLiterals.ImmediatePatterns | ISA.svh:108-113 | the bit pattern of each immediate op, in numbers |
| RiscvLiterals.ShiftPatterns | ISA.svh:114-116 | the bit pattern of each shift op, in numbers |
| RiscvLiterals.ArithmeticPatterns | ISA.svh:117-134 | the bit pattern of each arithmetic op, in numbers |
| RiscvLiterals.BranchWords | testbench/riscv_inst.h:169-210 | one whole word for each branch op, which decode answers with it and with no other op |
| RiscvLiterals.LoadWords | testbench/riscv_inst.h:211-247 | one whole word for each load op, which decode answers with it and with no other op |
| RiscvLiterals.StoreWords | testbench/riscv_inst.h:248-274 | one whole word for each store op, which decode answers with it and with no other op |
| RiscvLiterals.ImmediateWords | testbench/riscv_inst.h:275-337 | one whole word for each immediate op, which decode answers with it and with no other op |
| RiscvLiterals.ShiftWords | testbench/riscv_inst.h:309-336 | one whole word for each shift op, which decode answers with it and with no other op |
| RiscvLiterals.ArithmeticWords | testbench/riscv_inst.h:338-439 | one whole word for each arithmetic op, which decode answers with it and with no other op |
| RiscvLiterals.OtherWords | testbench/riscv_inst.h:140-518 | one whole word each for LUI, AUIPC, JAL, JALR and WFI |
| RiscvLiterals.BranchSelection | testbench/riscv_inst.h:763-799 | the fields selected for each branch op, in numbers |
| RiscvLiterals.LoadSelection | testbench/riscv_inst.h:800-830 | the fields selected for each load op, in numbers |
| RiscvLiterals.StoreSelection | testbench/riscv_inst.h:831-848 | the fields selected for each store op, in numbers |
| RiscvLiterals.ImmediateSelection | testbench/riscv_inst.h:610-645 | the fields selected for each immediate op, in numbers |
| RiscvLiterals.ShiftSelection | testbench/riscv_inst.h:646-667 | the fields selected for each shift op, in numbers |
| RiscvLiterals.ArithmeticSelection | testbench/riscv_inst.h:679-878 | the fields selected for each arithmetic op, in numbers |
| RiscvLiterals.OtherSelection | testbench/riscv_inst.h:606-889 | the fields selected for LUI, AUIPC, JAL, JALR and WFI, in numbers |
| RiscvLiterals.SlicesOfI | ISA.svh:203 | the I immediate bit by bit, the sign in all high bits |
| RiscvLiterals.SlicesOfS | ISA.svh:204 | the S immediate bit by bit, the sign in all high bits |
| RiscvLiterals.SlicesOfB | ISA.svh:205 | the B immediate bit by bit, the sign in all high bits |
| RiscvLiterals.SlicesOfU | ISA.svh:206 | the U immediate bit by bit, the low twelve zero |
| RiscvLiterals.SlicesOfJ | ISA.svh:207 | the J immediate bit by bit, the sign in all high bits |
| RiscvLiterals.StoreOffsetComesBack | ISA.svh:204 | every offset of a store, negative ones included, is read back from the word with all seven high bits of the S format |
| RiscvLiterals.JumpOffsetComesBack | ISA.svh:207 | every even jump offset, negative ones included, is read back from its word in the J layout |
| RiscvLiterals.DecodedKind | testbench/riscv_inst.h:140-518 | a valid word is decoded with the format and immediate kind of its op, JAL with the J layout; without an immediate the earlier value stays |
| RiscvLiterals.DecodedNegativeStore | testbench/riscv_inst.h:546-554 | sw x2, -4(x1): registers, format and the offset 0xfffffffc |
| RiscvLiterals.DecodedJump | testbench/riscv_inst.h:573-583 | jal x1, -8: the offset is 0xfffffff8 |
| RiscvLiterals.DecodedBranch | testbench/riscv_inst.h:555-565 | beq x1, x2, -8: registers, format and offset |
| RiscvLiterals.DecodedAdd | testbench/riscv_inst.h:338-439 | add x3, x1, x2: registers and format, and the immediate stays as it was |
| RiscvLiterals.DecodedLoad | testbench/riscv_inst.h:532-545 | lw x5, -4(x6): registers, format and offset |
| RiscvLiterals.DecodedShift | testbench/riscv_inst.h:534-535 | srai x7, x8, 31: registers, format and amount |
| RiscvLiterals.DecodedUpperWord | testbench/riscv_inst.h:566-572 | lui x7, 0xabcde: register, format and the unshifted immediate |

## Left out

- TjMalloc.Allocator.JoinUpper: adjacency and the merged size are in bytes with the header counted, as the comments intend; the code's arithmetic is in TjMallocAsWritten.
- TjMalloc.Allocator.JoinLower: likewise.
- TjMalloc.Allocator.TakeEnd: the new header stands behind the remainder in bytes, as intended; the code's position is in TjMallocAsWritten and TjMallocRuns.
- TjMalloc.Allocator.Scan: a block with less than a header to spare is passed over, where the code takes it and underflows; TjMallocRuns has the code's test.
- TjMalloc.Allocator.Free: an address inside the heap must belong to a live block; freeing anything else is undefined in C.
- TjMalloc.Allocator.Malloc: requests are at least one byte, see BaseMatchesOnlyZero; TjMallocRuns.Allocator.Malloc takes 0 as well. The position of base relative to the heap is arbitrary, but not touching it.
- TjMallocRuns.Allocator.constructor: base and heap have the same alignment to words; a misaligned header is undefined in C. Links and sizes are two maps, which HeadersApart justifies while the state is sound; the one store outside the headers in use, in Take, is modelled on both.
- TjMallocRuns.Allocator.Free: an address inside the heap must belong to a live block, as in TjMalloc; a heap has at most 0x10000000 bytes.
- TjMallocRuns.Allocator.Scan: what the scan does after its growth has gone astray, on a list out of order, is not modelled; neither are calls on a state that is out of order.
- MatrixBfs.BreadthFirstSearch: a second search on the same globals, which never reset rear and front, is not modelled.
- MatrixMultRec.Product.MultiplyMatrixRec: integers are unbounded; signed overflow is undefined in C. The result matrix is distinct from the operands, as in the only caller.
- MatrixMultRec.FirstProduct: likewise.
- MatrixGraph.Graph.AddVertex: allocation succeeds.
- RiscvInst.Inst.Decode: the mnemonic string, which nothing else reads, is not modelled; neither are is_nop, sign and sign64, which are one-line tests and casts.
- BubbleSort.BubbleSort: insertAtTheBegin, which builds the list, is not modelled.
- The main functions, debug printing, tj_calloc's memset and towers, which for num >= 1 returns 0 and does nothing else.
- The programs basic_malloc.c, omegalul.c, mergesort.c, quicksort.c, insertionsort.c, sort_search.c, priority_queue.c, outer_product.c, fc_forward.c and alexnet.c are not modelled.
- The user interface of the test bench, its generated simulator code and its output formatting: input and output.
- The processor itself: its Verilog sources are not part of this model.
