# symPACK symbolic phase and UPC++ function tokens

Dafny models of two components, with proofs of what they promise. `dafny verify dfyconfig.toml` checks
everything.

**symPACK, symbolic phase.** A sparse symmetric matrix is a graph in compressed columns, whole or split
over ranks. The project models the elimination tree construction with path compression, sequential and
pipelined over ranks; the postorder walk, child sorting and the ordering they are composed into; the
supernodal tree; the counts of the factor's nonzeros by column and row; and the operations of the
distributed graph: expansion to full storage, restriction to the lower triangle, permutation, redistribution
by supernodes, gathering. The reference notions are independent of the algorithms: the elimination tree is
defined by connectivity through smaller vertices, fill by symbolic elimination, a distributed graph by the
columns it gathers to. Arrays of vertices have an unused slot 0, as the 1-based original does; columns and
rows are numbered from `base`.

**symPACK, driver kernels.** The half-stored symmetric product in the driver's right-hand side generator and
solution check, over exact arithmetic.

**UPC++, function tokens.** A function pointer travels as a distance into a code segment, which lies at
another address on every rank. The project models the segment map, the sorted caches in front of it, the
collective calls that give segments an index shared by all ranks, and the bit packing on the wire.

Classes stand for the original's objects (`ETree`, `Ordering`, `SparseMatrixGraph`,
`DistSparseMatrixGraph`, `Process` for the static members of `segmap_cache`, `SegmapCache` for a thread's
part), methods with loops for its loops. A collective call is a method over the objects or the storage of
all ranks; all-to-all, gather, reduce, broadcast and send/receive are ideal functions on the sequence of
ranks, with receive buffers in rank order. What the loader reports, the ordering back end's permutation
and the supernode partition are parameters.

## What the code does not keep

Eight promises hold only under a condition, which is proved exact; an input where each fails is given.

- A column with a single entry is skipped by the tree construction (symPACK/src/ETree.cpp:344). The array
  is the tree of the stored pattern if and only if no such column holds an off-diagonal entry
  (`ConstructedTrees.ConstructionIsExact`, `FailingInputs.EdgeIsLost`); storing every diagonal is enough.
- `ToSymmetric` counts diagonal entries only when they are kept but copies them always
  (symPACK/src/DistSparseMatrixGraph.cpp:1103 and 1123): `Restriction.RestrictedIsValid`,
  `FailingInputs.DiagonalIsNotCounted`. The flag is read off column 1 alone
  (symPACK/include/sympack/impl/DistSparseMatrix_impl.hpp:556-573), so the input can arise.
- `RedistributeSupernodal` forgets the rows of a rank's last column when the rank's new block starts
  beyond its old one (symPACK/src/DistSparseMatrixGraph.cpp:674): `Redistributing.PlanRows`,
  `Redistributing.RedistributionPreservesGraph`, `FailingInputs.RowsAreLeftOver`. With diagonals stored the
  condition is that a rank that owns columns gets a block that starts no later than its last old column.
- Its column counts are unsigned: when a first rank without columns should get some, or one with columns
  should keep none, a column number wraps around (symPACK/src/DistSparseMatrixGraph.cpp:667-677). They are
  right if and only if the first ranks without columns are the same before and after:
  `Redistributing.CountsRightEverywhere`, `FailingInputs.MinusOneColumn`.
- `permute_` of a graph that is not expanded neither counts nor sends a diagonal entry unless diagonals are
  kept (symPACK/src/DistSparseMatrixGraph.cpp:546), so a stored one is lost and no inverse brings it back:
  `RoundTrips.PermutationRoundTrip`, `Collectives.DistributedRoundTrip`, `FailingInputs.DiagonalIsDropped`.
- A failing `verify_segment` takes the verified flag away on the ranks that named the segment, and only
  there (upcxx-2023.9.0/src/ccs.cpp:1059); a later successful call then renumbers the segment on some ranks
  only, and from there indices mean different segments. `IndexAgreement.VerifySegmentKeepsAgreement`
  says exactly when, `SplitIndices.IndexMeansTwoSegments` gives the run. `verify_all` always keeps
  agreement.
- `verify_segment` tests the limit on indices one too late (upcxx-2023.9.0/src/ccs.cpp:1053): the table has as
  many slots as the limit says (upcxx-2023.9.0/src/backend/gasnet/runtime.cpp:875), and with all of them used the
  next index is stored past its end (upcxx-2023.9.0/src/ccs.cpp:1056). `Processes.Process.FinishSegment` says
  exactly when, `FullTable.LastStoreIsOutside` gives a run for every table size. `verify_all` tests in time
  (upcxx-2023.9.0/src/ccs.cpp:1159), but its scan for new segments (upcxx-2023.9.0/src/ccs.cpp:1143) and the lookup by
  index (upcxx-2023.9.0/src/ccs.hpp:398-402) look at the slot after the last used one, which a full table does
  not have: `Processes.Process.FinishAll`, `FunctionTokens.ReadsPastTheTable`.
- `SortChildren` on a tree that is not postordered yet postorders it first and leaves the keys where they
  were (symPACK/src/ETree.cpp:123-125 and 206-212), so keys and ordering part: `KeyMoves.KeysFollowOrdering`,
  `KeyMoves.TwoRootsTurnTwice`. On a postordered tree they always move together.

Further places where code and comments part: the header calls the distributed construction "not working"
(symPACK/include/sympack/ETree.hpp:38), yet with diagonals stored it computes the same tree;
`SegmapCache.Activate`'s assumption that a segment is not cached yet
(upcxx-2023.9.0/src/ccs.cpp:921-922) does not hold when verification is enforced or a token is made by index,
and repeated entries turn out to do no harm; `ExpandSymmetric` appends mirrored rows in reverse and does not
sort again when the graph is marked as sorted, so sortedness is not claimed.

## Assumptions

Both tree constructions, `RedistributeSupernodal` and the nonzero counts number from 1. Segments of one
process have a gap between any two and distinct non-zero hashes, nothing is unloaded, and cache properties are about pointers
strictly inside a segment: the cache search takes `end` as part of a segment and the scan takes neither
end. Cached victims are found if no segment ends where another starts (`CacheTables.VictimIsFound`).
`SortChildren` needs a vertex: on an empty tree the original writes in front of the array of links
(symPACK/src/ETree.cpp:157, with no root found). The nonzero counts take the tree to be that of the graph, as it is
when every diagonal entry is stored.

## Model

| member | source | states |
|---|---|---|
| EliminationTrees.EtreeIsForest | symPACK/src/ETree.cpp:334-381 | a parent array whose every parent is the least larger vertex joined to its child is a forest with larger parents |
| EliminationTrees.EtreeExists | symPACK/src/ETree.cpp:334-381 | every graph has a parent array that meets that definition |
| EliminationTrees.EtreeIsUnique | symPACK/src/ETree.cpp:334-381 | at most one parent array meets that definition, so "the right tree" is one array |
| EliminationTrees.JoinedIsAncestor | symPACK/src/ETree.cpp:334-381 | in a symmetric graph, whatever is joined to j through vertices up to k > j is a proper ancestor of j |
| EliminationTrees.EtreeCharacterised | symPACK/src/ETree.cpp:334-381 | a forest is the elimination tree if and only if every edge leads from a vertex to an ancestor and every child is attached to its parent by an edge from its subtree |
| VirtualForest.Redirected | symPACK/src/ETree.cpp:364-374 | compressing one step of a walk moves no vertex to another root than i |
| VirtualForest.LinkNeighbour | symPACK/src/ETree.cpp:359-376 | the walk with path compression ends, sets the parent of at most the one root it reaches, and puts exactly that root's tree under i |
| TreeConstruction.LinkStep | symPACK/src/ETree.cpp:359-376 | the loop invariant: the compressed forest keeps the components and roots of the graph read so far, every root is the maximum of its component, every other vertex has its final parent |
| TreeConstruction.LinkedIsEtree | symPACK/src/ETree.cpp:334-381 | when all columns are in, the parent array is the elimination tree |
| ConstructedTrees.ConstructionIsExact | symPACK/src/ETree.cpp:344 | skipping single-entry columns: the array built is the tree of the whole pattern if and only if no such column holds an entry above the diagonal |
| FailingInputs.EdgeIsLost | symPACK/src/ETree.cpp:344 | an input: one edge, no diagonal, and the construction gives two roots |
| ConstructedTrees.ConstructionIsTheTreeOfTheOrdering | symPACK/src/ETree.cpp:334-381 | with diagonals stored, the array built through an ordering is the elimination tree of the graph relabelled by that ordering |
| ConstructedTrees.SameColumnsSameTree | symPACK/src/ETree.cpp:344-378 | the order of rows inside columns has no influence on the array |
| ETrees.ETree.ConstructETree | symPACK/src/ETree.cpp:317-393 | refuses a graph that is not expanded; otherwise leaves in parent the tree of the edges it takes, columns read through perm and rows through invp |
| ETrees.ETree.BuildParents | symPACK/src/ETree.cpp:334-381 | the two nested loops establish the tree of the ordered columns |
| ETrees.ETree.ConstructDistributed | symPACK/src/ETree.cpp:227-314 | the rank-to-rank pipeline over any number of ranks, some owning nothing, leaves on every rank the tree of the gathered graph |
| DistributedTree.DistributedEqualsSequential | symPACK/src/ETree.cpp:227-393 | for every split before and after permuting, and whatever the row order, the pipelined construction on the permuted graph gives the array the sequential one gives on the gathered graph with that ordering |
| Fill.NonzeroIsJoined | symPACK/src/ETree.cpp:344-378 | a nonzero of the factor joins its row and column through smaller vertices |
| Fill.FillPath | symPACK/src/ETree.cpp:344-378 | an entry below the diagonal is a nonzero of the symbolic factor if and only if its row and column are joined through vertices smaller than the column |
| Fill.ParentIsFirstNonzero | symPACK/src/ETree.cpp:344-378 | the parent of j is the first nonzero below the diagonal of column j of the factor, 0 if there is none |
| Fill.RowStructure | symPACK/src/ETree.cpp:344-378 | the nonzeros of a row of the factor are the tree paths up from its matrix entries, so every nonzero has its row as a proper ancestor of its column |
| SubtreeIntervals.FirstGivesIntervals | symPACK/include/sympack/impl/symPACKMatrixBase_impl.hpp:449-459 | on a postordered tree the first descendants handed up by the vertices make every subtree the interval from its first descendant to itself |
| LeastAncestors.StepUp | symPACK/include/sympack/impl/symPACKMatrixBase_impl.hpp:499-507 | a link leads to an ancestor, passes none that is not done, and leads to the first vertex of a chain or to the ancestor looked for |
| LeastAncestors.HalvingFits | symPACK/include/sympack/impl/symPACKMatrixBase_impl.hpp:499-507 | path halving keeps that |
| LeastAncestors.LinkingFits | symPACK/include/sympack/impl/symPACKMatrixBase_impl.hpp:530-538 | so does linking only the first vertex of each chain past the vertex that is done, although the other vertices keep links to themselves |
| LeastAncestors.FindLca | symPACK/include/sympack/impl/symPACKMatrixBase_impl.hpp:499-507 | the search with path halving ends at the least ancestor of the last leaf that is not done, which is the least common ancestor with the vertex in progress |
| RowSubtrees.LeafMeets | symPACK/include/sympack/impl/symPACKMatrixBase_impl.hpp:475-517 | an entry whose column lies in no earlier subtree of the row adds to the row exactly the path below that ancestor |
| RowSubtrees.PathLength | symPACK/include/sympack/impl/symPACKMatrixBase_impl.hpp:485-515 | the difference of two levels is the length of the path between them |
| RowCounts.LeafKeepsWeights | symPACK/include/sympack/impl/symPACKMatrixBase_impl.hpp:479-516 | one more at the entry and one less where the paths meet: every subtree sum stays the number of rows met in the subtree, up to what leaves and parents account for |
| RowCounts.ParentPays | symPACK/include/sympack/impl/symPACKMatrixBase_impl.hpp:530-534 | one less at the parent of a vertex that is done accounts for that vertex in the sums of its ancestors and of no other vertex |
| FactorCounts.RowMet | symPACK/include/sympack/impl/symPACKMatrixBase_impl.hpp:461-539 | once all columns are read, a row is met in the subtree of an earlier vertex if and only if the factor has that nonzero |
| FactorCounts.SumIsColumnCount | symPACK/include/sympack/impl/symPACKMatrixBase_impl.hpp:461-548 | the sum of the weights over a subtree is then the number of nonzeros of the factor in the column of its root, diagonal included |
| FactorCounts.AllHanded | symPACK/include/sympack/impl/symPACKMatrixBase_impl.hpp:541-548 | adding up along the parents gives every vertex the sum of its subtree |
| ColumnCounts.ReadEntry | symPACK/include/sympack/impl/symPACKMatrixBase_impl.hpp:467-525 | one entry with its three branches keeps what links, last leaves, weights and row counts say |
| ColumnCounts.CountNonzeros | symPACK/include/sympack/impl/symPACKMatrixBase_impl.hpp:420-549 | on a postordered elimination tree, cc and rc are the numbers of nonzeros of every column and row of the symbolic factor, diagonal included |
| FactorCounting.GetLColRowCount | symPACK/include/sympack/impl/symPACKMatrixBase_impl.hpp:404-563 | postorders the tree if need be, refuses a graph that is not expanded, and counts for the graph under the resulting ordering |
| Orderings.Ordering.RebuildPerm | symPACK/src/Ordering.cpp:207-211 | perm becomes the inverse of invp, whatever it held |
| Orderings.Ordering.Compose | symPACK/src/Ordering.cpp:1301-1314 | invp becomes the composition of the old invp with the relabelling, and perm its inverse |
| Orderings.Ordering.GetRelativeInvp | symPACK/src/Ordering.cpp:1289-1299 | the result is the permutation that leads from the earlier labelling to this one |
| Relabelling.EquivalentReordering | symPACK/src/ETree.cpp:59-119 | relabelling a graph by a numbering in which children precede parents turns its elimination tree into the relabelled tree |
| ChildListsBuild.ListsAreChildLists | symPACK/src/ETree.cpp:70-88 | the first-son and brother lists contain every vertex exactly once, under its parent |
| ChildListsBuild.LastHasLeastKey | symPACK/src/ETree.cpp:150-184 | the last child of a list built by keys has the least key of its siblings |
| Postordering.LinkChildren | symPACK/src/ETree.cpp:70-88 | the backward loop leaves child lists in ascending order in the two arrays |
| Postordering.LinkChildrenByKey | symPACK/src/ETree.cpp:140-184 | the backward loop with last sons leaves child lists by keys in the two arrays |
| TreeWalk.BTreeToPO | symPACK/src/ETree.cpp:24-56 | the stack walk ends, never needs more than n slots and numbers the vertices in the order of the child lists, whatever the link of the last root holds |
| TreeWalk.ChainIsShort | symPACK/src/ETree.cpp:24-56 | the open vertices form a chain of the tree, so the stack has room |
| Postorders.WalkIsPostorder | symPACK/src/ETree.cpp:24-56 | that numbering is a permutation that puts children before parents and every subtree in one interval ending at its root |
| Postordering.RelabelParents | symPACK/src/ETree.cpp:92-96 | the target becomes the source tree relabelled by the numbering |
| Postordering.PermuteKeys | symPACK/src/ETree.cpp:206-210 | the keys are moved by the numbering, in place |
| ETrees.ETree.PostOrderTree | symPACK/src/ETree.cpp:59-119 | does nothing on an empty or postordered tree; else poparent is the tree relabelled by a postorder and the ordering is composed with it |
| ETrees.ETree.SortChildren | symPACK/src/ETree.cpp:122-225 | renumbers by keys: poparent, keys and ordering are moved by one permutation; a tree that is not postordered yet is postordered first, which moves tree and ordering and not the keys; it stays inside its arrays if and only if there is a vertex |
| ETrees.ETree.SortPostordered | symPACK/src/ETree.cpp:132-222 | the part after the first postorder: the new numbering is the walk of the lists built by keys |
| Reorderings.PostOrderKeepsTree | symPACK/src/ETree.cpp:59-119 | after PostOrderTree, poparent is the tree that construction from scratch gives under the composed ordering |
| Reorderings.SortKeepsTree | symPACK/src/ETree.cpp:122-225 | so it is after one SortChildren |
| Reorderings.RunKeepsTree | symPACK/src/ETree.cpp:59-225 | and after any number of them: perm and invp stay inverse and poparent stays the tree of the graph under the composed ordering |
| Reorderings.RenamedIsPostordered | symPACK/src/ETree.cpp:122-225 | after each of them the numbering is a postorder of its own tree |
| Reorderings.LeastKeyBeforeParent | symPACK/src/ETree.cpp:150-222 | the child numbered just before its parent has the least key among its siblings |
| Reorderings.PostOrderOfSiblings | symPACK/src/ETree.cpp:70-100 | PostOrderTree numbers siblings in their old order |
| Reorderings.SortedSiblings | symPACK/src/ETree.cpp:140-222 | SortChildren numbers the smaller of two siblings after the larger if and only if its key is below those of all siblings larger than itself; of two roots the larger comes first whatever the keys |
| KeyMoves.KeysFollowOrdering | symPACK/src/ETree.cpp:122-225 | on a tree that is not marked as postordered, SortChildren moves keys and ordering alike if and only if the parents are those of one tree numbered in postorder already |
| KeyMoves.TwoRootsTurnTwice | symPACK/src/ETree.cpp:122-125 | an input with the numberings both calls produce: two trees are numbered the other way round first, and then keys and ordering are moved by different permutations |
| CountsInRuns.NonzeroRenamed | symPACK/src/ETree.cpp:122-225 | the symbolic factor of the graph under the new ordering is the old factor renamed |
| CountsInRuns.SortKeepsCounts | symPACK/include/sympack/impl/symPACKMatrix_impl.hpp:1163-1175 | the column counts that SortChildren takes as keys and moves along are the column counts under the ordering it leaves, so later steps may go on using them |
| CountsInRuns.RunKeepsCounts | symPACK/include/sympack/impl/symPACKMatrix_impl.hpp:1163-1175 | the same over any number of child sortings |
| ETrees.ETree.ToSupernodalETree | symPACK/src/ETree.cpp:400-426 | the parent of a supernode is the supernode of the parent of its last column, 0 for a root |
| Supernodes.QuotientIsForest | symPACK/src/ETree.cpp:400-426 | a supernode's parent is 0 or larger |
| Supernodes.SupernodalAncestors | symPACK/src/ETree.cpp:400-426 | when the columns of each supernode form a chain, t is an ancestor-or-self of s if and only if a column of t is an ancestor-or-self of the last column of s |
| SparseGraphs.CscDetermined | symPACK/src/DistSparseMatrixGraph.cpp:1141-1209 | column pointers and rows are determined by the base and the columns |
| Exchange.CountPass | symPACK/src/DistSparseMatrixGraph.cpp:516-560 | the counting pass counts, for every rank, what the rule sends there |
| Exchange.PackPass | symPACK/src/DistSparseMatrixGraph.cpp:565-600 | the packing pass writes, slot for slot, exactly what was counted: every rank's segment holds its entries in order |
| Exchange.ReceivedIsPart | symPACK/src/DistSparseMatrixGraph.cpp:955-1024 | what a rank receives, in rank order, is what all ranks together send to it, in column order |
| Expansion.NewPointers | symPACK/src/DistSparseMatrixGraph.cpp:1026-1046 | the new pointers give every column its old width plus what arrived for it |
| Expansion.ShiftColumns | symPACK/src/DistSparseMatrixGraph.cpp:1050-1060 | the backward shift overwrites no entry before it is read: every column's old rows end up at the end of its wider slot |
| Expansion.Unpack | symPACK/src/DistSparseMatrixGraph.cpp:1062-1070 | the received rows fill the rest of every slot from right to left, each new place once |
| Expansion.ExpandLocal | symPACK/src/DistSparseMatrixGraph.cpp:1026-1074 | in-place expansion of one rank: every column is its received rows in reverse followed by its old rows |
| DistExpansion.GatheredExpansion | symPACK/src/DistSparseMatrixGraph.cpp:929-1082 | gathering after every rank has expanded gives the columns of the sequential expansion of the gathered graph |
| ExpansionExact.ExpansionIsExact | symPACK/src/DistSparseMatrixGraph.cpp:250-296 | from lower-triangular storage the result stores (i, j) as often as (i, j) or (j, i) was stored, and nothing else |
| ExpansionExact.ExpansionIsSymmetric | symPACK/src/DistSparseMatrixGraph.cpp:250-296 | the expanded pattern is symmetric |
| SortedRows.SortEdges | symPACK/src/DistSparseMatrixGraph.cpp:482-489 | every column is sorted, pointers stay |
| SortedRows.SortedIsUnique | symPACK/src/DistSparseMatrixGraph.cpp:482-489 | sorted rows are determined by their multiset, so it does not matter which sort runs |
| GraphClasses.SparseMatrixGraph.ExpandSymmetric | symPACK/src/DistSparseMatrixGraph.cpp:167-306 | the gathered graph is expanded; rows are sorted only if they were not marked as sorted |
| Collectives.ExpandSymmetric | symPACK/src/DistSparseMatrixGraph.cpp:929-1082 | all ranks: count, pack, exchange, expand; the gathered result is the expansion of the gathered graph, sorted if it was not marked so |
| Collectives.ExpansionCommutesWithGathering | symPACK/src/DistSparseMatrixGraph.cpp:167-306 | the sequential and the distributed expansion give the same colptr and rowind, element for element, for graphs marked as sorted and for others |
| ArrivalOrder.ExpandedInOrder | symPACK/src/DistSparseMatrixGraph.cpp:955-1070 | before any sorting an expanded column is its new rows and then its old ones: the new ones are the columns left of it that store it, the last one first |
| Restriction.PassesAgree | symPACK/src/DistSparseMatrixGraph.cpp:1098-1128 | the counting and the filling pass agree on a column if and only if no diagonal entry goes uncounted |
| Restriction.RestrictLocal | symPACK/src/DistSparseMatrixGraph.cpp:1086-1134 | pointers are the sums of the first pass, rows what the second pass pushes |
| Restriction.RestrictedIsValid | symPACK/src/DistSparseMatrixGraph.cpp:1086-1134 | the result is consistent storage of the lower triangle if and only if diagonals are kept or none is stored |
| FailingInputs.DiagonalIsNotCounted | symPACK/src/DistSparseMatrixGraph.cpp:1098-1128 | an input: a diagonal entry in column 2 only, so that diagonals are not kept; two rows are stored and the pointers leave room for one |
| Restriction.RestrictUndoesExpand | symPACK/src/DistSparseMatrixGraph.cpp:929-1134 | on one rank of a graph marked as sorted, ToSymmetric after ExpandSymmetric restores colptr and rowind exactly if and only if diagonals are kept or none is stored |
| Collectives.RestrictUndoesExpandEverywhere | symPACK/src/DistSparseMatrixGraph.cpp:929-1134 | the same on every rank, with what really arrives from the others: all ranks get their arrays back if and only if that holds on each |
| Collectives.RestrictUndoesSortedExpandEverywhere | symPACK/src/DistSparseMatrixGraph.cpp:929-1134 | when the graph was not marked as sorted, all ranks get their pointers back and their columns sorted if and only if diagonals are kept or none is stored |
| Gathering.AllGatherStructure | symPACK/src/DistSparseMatrixGraph.cpp:1141-1209 | joined pointers, moved rank by rank, and joined rows store the gathered columns |
| PermutingExact.RuleHits | symPACK/src/DistSparseMatrixGraph.cpp:530-556 | an entry is sent to (lab[c], lab[r]) exactly once if it is (c, r) and to be kept in place, or (r, c) and to be mirrored because only the lower triangle is stored, and never otherwise |
| Permuting.LandLocal | symPACK/src/DistSparseMatrixGraph.cpp:600-625 | counting, prefix sums and filling store the received entries by column in order of arrival |
| PermutingExact.PermutedTimes | symPACK/src/DistSparseMatrixGraph.cpp:510-638 | entry (lab[c], lab[r]) is stored after permuting as often as the entries that map to it were stored before |
| Collectives.Permute | symPACK/src/DistSparseMatrixGraph.cpp:510-638 | all ranks: every edge lands once on the rank that owns its new column under the new split |
| ArrivalOrder.PermutedInOrder | symPACK/src/DistSparseMatrixGraph.cpp:565-625 | on a graph that is not marked as sorted the rows of every permuted column come in the order of the old columns, and inside each in the order of storage |
| RoundTrips.RoundTripKeepsRows | symPACK/src/DistSparseMatrixGraph.cpp:510-638 | permuting there and back keeps the rows of every column, up to their order, if and only if the graph is expanded, or lower triangular with its diagonal entries kept or absent |
| RoundTrips.PermutationRoundTrip | symPACK/src/DistSparseMatrixGraph.cpp:510-638 | permuting by a permutation and then by its inverse restores the columns if and only if that holds and every column is sorted |
| FailingInputs.DiagonalIsDropped | symPACK/src/DistSparseMatrixGraph.cpp:546 | an input: a diagonal entry in column 2 only, so that diagonals are not kept; whatever the permutation, going there and back loses it |
| RoundTrips.DistDetermined | symPACK/src/DistSparseMatrixGraph.cpp:510-638 | equal gathered columns on one split mean equal arrays on every rank |
| Collectives.DistributedRoundTrip | symPACK/src/DistSparseMatrixGraph.cpp:510-638 | permuting there and back, over any split in between, restores every rank's arrays if and only if the same holds of the gathered graph |
| DistGraphClasses.DistSparseMatrixGraph.ToSymmetric | symPACK/src/DistSparseMatrixGraph.cpp:1086-1134 | one rank's object: restricted if it was expanded, unchanged if not |
| DistGraphClasses.ExpandSymmetric | symPACK/src/DistSparseMatrixGraph.cpp:929-1082 | the objects of all ranks after the collective call, flags included |
| DistGraphClasses.Permute | symPACK/src/DistSparseMatrixGraph.cpp:510-638 | the objects of all ranks after permuting onto a new split |
| DistGraphClasses.AllGatherStructure | symPACK/src/DistSparseMatrixGraph.cpp:1141-1209 | the gathered object has the flags of the team and the gathered columns |
| DistGraphClasses.RedistributeSupernodal | symPACK/src/DistSparseMatrixGraph.cpp:643-921 | the objects of all ranks own whole supernodes; they gather to the same graph if and only if every rank counted its rows right |
| Redistributing.Supernodal.Destination | symPACK/src/DistSparseMatrixGraph.cpp:700-706 | the scan over ranks finds the one that gets the column's supernode |
| Redistributing.CountsAreRight | symPACK/src/DistSparseMatrixGraph.cpp:667-677 | on 32-bit unsigned column numbers, the columns before and after the part that stays are counted right if and only if no block that ends before the first column meets one that owns columns |
| Redistributing.CountsRightEverywhere | symPACK/src/DistSparseMatrixGraph.cpp:667-677 | on all ranks together: if and only if the first ranks without columns are the same before and after |
| FailingInputs.MinusOneColumn | symPACK/src/DistSparseMatrixGraph.cpp:667-677 | an input: a first rank without columns that should get one counts minus one column to send |
| Redistributing.PlanCounts | symPACK/src/DistSparseMatrixGraph.cpp:670-679 | the column counts cut the old block by the new one: before, kept and after add up, and the kept part is the overlap |
| Redistributing.PlanRows | symPACK/src/DistSparseMatrixGraph.cpp:674 | the row count before the kept part is right if and only if the new block starts no later than the rank's last column or that column is empty |
| Redistributing.BookColumns | symPACK/src/DistSparseMatrixGraph.cpp:690-770 | sizes and displacements per destination are those of the columns that go there |
| Redistributing.SendLocal | symPACK/src/DistSparseMatrixGraph.cpp:681-815 | every other rank is sent the pointers and rows of exactly the overlap with its new block |
| Redistribution.MergePointers | symPACK/src/DistSparseMatrixGraph.cpp:807-862 | the in-place merge: shifted, offset and inserted pieces become the pointers of the new block |
| Redistribution.MergeRows | symPACK/src/DistSparseMatrixGraph.cpp:866-917 | the rows become those received from earlier ranks, the kept ones and those from later ranks |
| Redistributing.MergeLocal | symPACK/src/DistSparseMatrixGraph.cpp:797-917 | one rank ends with exactly the storage of its new columns if and only if it counted its rows right |
| Slices.SlicesGather | symPACK/src/DistSparseMatrixGraph.cpp:643-921 | ranks that store consecutive slices of a graph gather to it |
| Redistributing.RedistributionPreservesGraph | symPACK/src/DistSparseMatrixGraph.cpp:643-921 | the gathered graph is unchanged if and only if every rank counted right |
| FailingInputs.RowsAreLeftOver | symPACK/src/DistSparseMatrixGraph.cpp:674 | an input: the middle one of three ranks moves on from its only column, and the graph changes |
| Redistributing.RedistributeSupernodal | symPACK/src/DistSparseMatrixGraph.cpp:643-921 | the whole call, with the split it leaves |
| SymmetricProducts.BlockIsRow | symPACK/driver/utils.hpp:62-75 | adding an entry and its mirror image, column by column, adds up to a row of the full symmetric matrix times the vector |
| SymmetricProducts.SumOverRanksIsProduct | symPACK/driver/utils.hpp:43-83 | however the columns are split, the ranks' sums add up to that product |
| SymmetricProducts.FullMeans | symPACK/driver/utils.hpp:67-77 | the full matrix is symmetric and its lower triangle holds the stored values, 0 where nothing is stored |
| SymmetricProducts.RowTimesMeans | symPACK/driver/utils.hpp:67-77 | a row times the zero vector is 0, and adding d at position j of a vector adds d times the element in column j |
| Kernels.BlockLayout | symPACK/driver/utils.hpp:63-77 | the vectors of a block lie one after the other: position i of vector k is at k * n + i - 1 |
| Kernels.LocalRhs | symPACK/driver/utils.hpp:43-79 | the loops of generate_rhs on one rank compute its share |
| Kernels.LocalAx | symPACK/driver/utils.hpp:107-129 | the loops of check_solution on one rank compute the same share |
| Kernels.GenerateRhs | symPACK/driver/utils.hpp:43-83 | position i of vector k of the right-hand side is row i of the full symmetric matrix times vector k of the given block |
| Kernels.CheckSolution | symPACK/driver/utils.hpp:107-137 | position i of vector k of what is left is row i of the full symmetric matrix times vector k of what was found, less that position of the right-hand side; all of it vanishes if and only if the right-hand side is that product |
| Kernels.CheckTrueSolution | symPACK/driver/utils.hpp:43-137 | the right-hand side made from a solution leaves no residual for it |
| WireTokens.TokenRoundTrip | upcxx-2023.9.0/src/global_fnptr.hpp:124-163 | reading after writing gives back token and rest of the stream if and only if the token is in the asserted range |
| WireTokens.WordLayout | upcxx-2023.9.0/src/global_fnptr.hpp:124-141 | the words written: a plain offset, or bit 63, the index in bits 48 to 62 and the offset below, or bit 63 and the offset followed by the hash |
| WireTokens.StreamsDetermineTokens | upcxx-2023.9.0/src/global_fnptr.hpp:124-163 | the three encodings never collide: one stream comes from one sequence of tokens |
| Segments.RebuildGrows | upcxx-2023.9.0/src/ccs.cpp:538-557 | rebuilding loses no segment, flag or index and gives none to a new segment |
| Segments.InheritRestores | upcxx-2023.9.0/src/ccs.cpp:538-557 | a freshly loaded segment that the old map had gets all flags and the index back |
| Processes.Process.Rebuild | upcxx-2023.9.0/src/ccs.cpp:538-557 | the nested loops compute the rebuilt map |
| CacheTables.VictimIsFound | upcxx-2023.9.0/src/ccs.cpp:949-956 | the search for an eviction victim finds it if and only if no cached segment ends where it starts |
| SegmentCaches.StoredMeans | upcxx-2023.9.0/src/ccs.cpp:926-953 | a new entry goes behind the last while there is room, and in a full table over the victim: its place in the one table, and the first entry that ends at its start or later in the other |
| CacheTables.PointerHitIsTheScan | upcxx-2023.9.0/src/ccs.hpp:140-162 | for a pointer strictly inside a segment the address table hits exactly when the segment is cached, with what a scan of the map finds |
| CacheTables.IndexHitIsTheScan | upcxx-2023.9.0/src/ccs.hpp:164-167 | the same for the table of indexed segments, offset and index |
| CacheTables.TokenHitIsTheScan | upcxx-2023.9.0/src/ccs.hpp:300-308 | a hash is found exactly when cached, with the address the map has for it |
| SegmentCaches.SegmapCache.Store | upcxx-2023.9.0/src/ccs.cpp:939-966 | the address and token tables keep the same segments, each sorted, over appends and round-robin evictions |
| SegmentCaches.SegmapCache.Activate | upcxx-2023.9.0/src/ccs.cpp:924-968 | the segment is marked and its one kind of entry replaces the right victim |
| SegmentCaches.LookupMeans | upcxx-2023.9.0/src/ccs.cpp:894-916 | a map lookup of a pointer strictly inside a segment reports start, end, hash and index of that segment and marks it and no other; one into a segment that cannot be relocated is refused and marks nothing; any other is a miss |
| SegmentCaches.SegmapCache.TryInactive | upcxx-2023.9.0/src/ccs.cpp:894-916 | the linear scan, activating what it finds; a segment that cannot be relocated is refused |
| SegmentCaches.SegmapCache.SearchCache | upcxx-2023.9.0/src/ccs.hpp:149-162 | tables of an earlier epoch are dropped, those of this one searched |
| SegmentCaches.SegmapCache.SearchMap | upcxx-2023.9.0/src/ccs.hpp:169-185 | one more try on a rebuilt map; the hit is what a scan of the resulting map gives |
| SegmentCaches.SegmapCache.SearchMapIdent | upcxx-2023.9.0/src/ccs.hpp:310-332 | the same by hash |
| SegmentCaches.SegmapCache.Tokenize | upcxx-2023.9.0/src/ccs.hpp:238-278 | whatever is cached: a pointer into the primary segment gets its distance from there; else one strictly inside a usable segment with an index gets a token by an index whose slot holds that segment (the one the map has, if cached indices are current), and one inside a segment without an index is refused if verification is enforced and gets distance and hash if not; one into a segment that cannot be relocated ends the program unless the segment is cached |
| SegmentCaches.SegmapCache.TokenizeHashed | upcxx-2023.9.0/src/ccs.hpp:187-213 | the token by hash of a pointer inside a usable segment does not depend on what is cached; one into a segment that cannot be relocated ends the program unless the segment is cached |
| SegmentCaches.SegmapCache.TokenizeIndexed | upcxx-2023.9.0/src/ccs.hpp:215-236 | the token names the segment by an index whose table slot holds it, or is empty for a segment without one or where there is none; a pointer into a segment that cannot be relocated ends the program unless the segment is cached |
| SegmentCaches.SegmapCache.Detokenize | upcxx-2023.9.0/src/ccs.hpp:294-372 | whatever is cached: a single token is a distance from the primary segment, one by index a distance from what its slot holds, and one by hash ends the program exactly when neither the map nor the loader has the hash and is else the distance from the segment that has it |
| CachesInRuns.FinishSegmentKeepsCaches | upcxx-2023.9.0/src/ccs.cpp:1040-1058 | verify_segment leaves the caches true; their indices stay the map's unless it renumbers a segment |
| CachesInRuns.FinishAllKeepsCaches | upcxx-2023.9.0/src/ccs.cpp:1105-1170 | verify_all leaves the caches true and gives no segment a second index |
| Verification.AnyOrderIsUnanimity | upcxx-2023.9.0/src/ccs.cpp:994-1000 | in whatever order hashes are combined, the reduction says whether all ranks contributed one hash |
| Processes.Process.FinishSegment | upcxx-2023.9.0/src/ccs.cpp:1040-1064 | the second half of verify_segment on one rank: what it records, when it throws, that it stores past the index table exactly when one more index is needed and the table is full, and that the number of indices otherwise stays within the table; the program's own test for this comes one index later |
| RecordedOutcomes.FinishSegmentMeans | upcxx-2023.9.0/src/ccs.cpp:1040-1062 | what verify_segment records, segment by segment and field by field: others stay, a failure clears verified and sets bad verification, a success on an unverified segment does the opposite and gives it the next index and slot |
| RecordedOutcomes.FinishWithoutSegment | upcxx-2023.9.0/src/ccs.cpp:1040-1064 | a rank whose map has no segment with the hash records nothing |
| RecordedOutcomes.AddsIndexMeans | upcxx-2023.9.0/src/ccs.cpp:1047-1056 | one more index is needed exactly for a successful call on a segment not verified yet |
| Processes.Process.FinishAll | upcxx-2023.9.0/src/ccs.cpp:1105-1170 | the second half of verify_all on one rank: flags, new indices in order of hash, epoch; it ends the program exactly when checks are compiled in and the segment that starts where the program does is judged unverified, or when new indices are more than the free slots and there are free slots; it reads past the index table exactly when the program passes, the table is full and a new segment is looked for; otherwise it keeps the number of indices within the table |
| RecordedOutcomes.JudgedFlags | upcxx-2023.9.0/src/ccs.cpp:1105-1126 | a segment on the list takes the reduced answer as its flags, one not listed is marked bad unless judged before, and nothing else of it changes |
| RecordedOutcomes.FinishAllMeans | upcxx-2023.9.0/src/ccs.cpp:1132-1170 | a segment keeps its index unless it is verified and its start is not in the table; then it gets one of the new slots, and that slot holds its start |
| IndexAgreement.VerifySegmentKeepsAgreement | upcxx-2023.9.0/src/ccs.cpp:1002-1066 | verify_segment keeps all ranks naming the same segments if and only if it is not a successful call on a segment verified on some ranks only |
| IndexAgreement.VerifySegmentKeepsUniform | upcxx-2023.9.0/src/ccs.cpp:1002-1066 | from uniform flags they stay uniform if and only if the call succeeds or no rank pointed into a segment it had verified |
| VerifyingAll.NewIdents | upcxx-2023.9.0/src/ccs.cpp:1136-1156 | the segments a rank numbers are those all ranks have loaded and no index names yet |
| VerifyingAll.VerifyAllKeepsAgreement | upcxx-2023.9.0/src/ccs.cpp:1068-1173 | verify_all keeps agreement from any state of the flags, indexes every segment loaded everywhere, and leaves exactly those verified |
| IndexRuns.StepKeepsAgreement | upcxx-2023.9.0/src/ccs.cpp:1002-1173 | a step of a run, with growth before and during it, keeps agreement if and only if it does not split the ranks |
| IndexRuns.RunAgreesUnlessSplit | upcxx-2023.9.0/src/ccs.cpp:1002-1173 | a whole run stays in agreement if and only if none of its steps splits the ranks |
| IndexRuns.RunKeepsAgreement | upcxx-2023.9.0/src/ccs.cpp:1002-1173 | no run in which failing calls name only segments not verified yet ever leaves agreement |
| IndexRuns.RunFromTheStartAgrees | upcxx-2023.9.0/src/ccs.cpp:1002-1173 | in particular none that starts from maps as loaded and empty tables |
| IndexRuns.IndexNamesOneSegment | upcxx-2023.9.0/src/ccs.hpp:398-402 | while ranks agree, an index leads on every rank to the same segment at its own address |
| IndexRuns.SlotNamesOneSegment | upcxx-2023.9.0/src/ccs.hpp:398-402 | so does every slot of the table that holds a segment on one rank, also one from an earlier verification |
| FullTable.LastStoreIsOutside | upcxx-2023.9.0/src/ccs.cpp:1052-1056 | a run on one rank for a table of any size: as many segments as it has slots, loaded and verified one by one, make the last call store past its end |
| SplitIndices.IndexMeansTwoSegments | upcxx-2023.9.0/src/ccs.cpp:1040-1062 | a concrete run of four calls on two ranks after which index 2 means different segments |
| RecordedOutcomes.AbortsOnBadSegment | upcxx-2023.9.0/src/ccs.cpp:1011-1027 | a step of verify_segment ends the program if and only if some rank's pointer lies strictly inside a segment that cannot be relocated |
| RecordedOutcomes.SucceedsMeans | upcxx-2023.9.0/src/ccs.cpp:1028-1037 | a call succeeds if and only if there is one hash such that every rank's pointer lies strictly inside a segment with it |
| RecordedOutcomes.IndicesNeeded | upcxx-2023.9.0/src/ccs.cpp:1136-1159 | verify_all lengthens the table of every agreeing rank by as many slots as there are segments loaded everywhere and not named yet |
| ProcessTeams.FinishesExactly | upcxx-2023.9.0/src/ccs.cpp:1128-1159 | when one agreeing rank can finish verify_all, and when it looks past its full table, by what is loaded where |
| ProcessTeams.VerifySegment | upcxx-2023.9.0/src/ccs.cpp:1002-1066 | the objects of all ranks after verify_segment: the program ends exactly when some rank's pointer lies strictly inside a segment of its rebuilt map that cannot be relocated, verified or not; else a store goes past some rank's full table exactly when that rank needs one more index; else the call returns on all ranks exactly when all point into a segment of one hash, throws on all if not, and every table has room for its indices |
| ProcessTeams.VerifyAll | upcxx-2023.9.0/src/ccs.cpp:1068-1173 | the objects of all ranks after verify_all; on agreeing ranks the call finishes everywhere exactly when each rank has slots for all segments loaded everywhere and not named yet and, where checks are compiled in, every segment that starts where the rank's program does is loaded on all ranks |
| FunctionTokens.ReadsPastTheTable | upcxx-2023.9.0/src/ccs.hpp:398-402 | a lookup that its assertion lets pass is outside the table if and only if it asks for the slot after the last used one and the table is full |
| FunctionTokens.TokenLeadsBack | upcxx-2023.9.0/src/ccs.hpp:238-372 | on one rank, resolving leads every token there may be for a pointer strictly inside a segment back to the pointer |
| FunctionTokens.TokenLeadsToSameCode | upcxx-2023.9.0/src/ccs.hpp:238-372 | while ranks agree, every token one rank may make, cached older indices included, leads on another to the same distance into the same segment |
| FunctionTokens.PointerTravels | upcxx-2023.9.0/src/global_fnptr.hpp:124-163 | the same over the wire |

## Left out

- Integer widths: 32- and 64-bit indices other than the column counts of the redistribution, byte counts of messages and their overflow; integers are unbounded except for the words on the wire.
- Capacity and aliasing of vectors: a resize is a fresh array with the old content; `std::sort`, `std::upper_bound` and `std::lower_bound` are functions with their specified results.
- Collectives.Permute: takes one permutation of all vertices as labels; the variants with another base or no permutation are not modelled separately.
- ETrees.ETree.ConstructETree: the original looks at the expanded flag on rank 0 only and broadcasts the result; one construction stands for all ranks.
- ETrees.ETree.PostOrderTree: the optional copy of the numbering into a caller's array is the returned array.
- Redistributing.RedistributeSupernodal: counts entries where the original counts bytes; what follows a wrong column count is not modelled.
- FactorCounting.GetLColRowCount: the graph is numbered from 1 already, and the missing diagonal entries the original adds first, which it then never looks at, are not added; one rank counts and the broadcast is left out, as is the variant that passes the arrays from rank to rank.
- Segments.RebuildGrows: segments are never unloaded, and two segments of one map never share a hash, which the original marks as bad segments.
- SegmentCaches.SegmapCache.Tokenize: says nothing of the token for a pointer at the very end of a segment, nor for one into a segment that cannot be relocated but was cached by detokenizing.
- FunctionTokens.PointerTravels: offsets are numbers that 64-bit words stand for; the words are given, in the ranges the encoder asserts.
- Kernels.GenerateRhs: exact arithmetic instead of floating point, any block of vectors instead of the alternating one, numbering from 1 only.
- Locks, atomics and concurrent lookups: other threads appear only as rebuilds of the map between the halves of a collective step.
- The second solution check of the driver, and the norm of the residual.
- `SetKeepDiag`, `SetBaseval`, `SetExpanded`, `DistributeGraph`, `BroadcastGraph`, `GatherStructure`: single passes or plain data transfer.
- The `nnz` fields, which the two graph classes update by different conventions.
- `DeepestFirst`, which computes local arrays and discards them; the disjoint-set helper of the tree class.
- Ordering back ends (minimum degree, nested dissection, Cuthill-McKee), factorization and solve.
- Reading segments from program headers, hashing code, symbol lookup and debug tables.
- RPC, futures, personas, device memory and the rest of the UPC++ runtime.
