# TACSAssembler node numbering and connectivity graphs

This project models the integer bookkeeping at the core of `TACSAssembler`, the
object in TACS that owns a finite-element mesh on one process of a parallel run.
The model covers:

- **Ownership range and local slots.** Each process owns a contiguous range
  `[ownerRange[rank], ownerRange[rank+1])` of global node numbers. It also
  references further nodes, the external (ghost) nodes, that other processes
  own.
- **Three-band slot layout.** The local slots `0 .. numNodes-1` come in three
  contiguous bands, in this order:
  1. the external nodes numbered below the owned range;
  2. the owned nodes;
  3. the external nodes numbered above the owned range.
- **Dependent nodes.** A connectivity entry `-(d+1)` names dependent node `d`.
  A dependent node is a weighted combination of independent nodes listed in a
  separate table.

The model is split into these modules:

- **Sorting**: the sorted lists and permutations every other module uses.
- **Numbering**: the slot map (`SlotMap`) and the two translations between
  global numbers and slots, `getLocalNodeNum` and `getGlobalNodeNum`.
- **Csr**: compressed-row tables, the prefix-sum and shift-back passes, and
  the contract of `SortAndUniquifyCSR`.
- **ExtNodes**: `computeExtNodes`, which builds the sorted external node list.
- **GraphSpec, Graph, NodeGraph**: the node-to-element graph and the full and
  reduced node-to-node graphs.
  - GraphSpec states what these graphs are, as sets over the elements after
    dependent-node expansion.
  - Graph and NodeGraph build them with the source's counting and filling
    loops.
- **Ordering**: `computeMatReordering` behind a permutation oracle, the
  coupling nodes, and the two-pass interior/coupling numbering of
  `computeReordering`.
- **Reorder, MeshReorder**: how a new numbering is applied, including the
  exchange of new numbers with the owners of external nodes. They also cover
  `getReordering` and `reorderVec`.
- **Setup**: the setter validation loops, the element maxima, the boundary
  condition filter, and the sizes of the scratch buffers (`initialize`,
  `getDataPointers`).
- **FEMatSplit**: the local/coupling split that `createFEMat` computes once.
- **Assembler**: the class `TacsAssembler`, whose fields the setters,
  `computeExtNodes`, `computeReordering`, `initialize` and the `create*`
  methods update in place. It is guarded by the lifecycle flag
  `meshInitialized`.

The cross-process parts are method inputs:

- `recvNodes`: the owned nodes that other processes reference;
- `newNumberOf`: the new number each owner gives its nodes;
- `ownerRange`.

The external ordering libraries are oracles that return permutations.

## Model

| member | source | states |
|---|---|---|
| Sorting.UniqueSort | src/TACSAssembler.c:677 | uniqueSort's result is strictly increasing and holds exactly the values of its input |
| Sorting.StrictlyIncreasingUnique | src/TACSAssembler.c:677 | two strictly increasing lists with the same members are equal, so the sorted external list is determined by its member set |
| Sorting.BinarySearch | src/TACSAssembler.c:1122-1123 | bsearch over a strictly increasing list returns an index holding the key, or -1 exactly when the key is absent |
| Sorting.BinarySearchAt | src/TACSAssembler.c:1122-1123 | searching a strictly increasing list for its k-th entry finds index k |
| Sorting.Inverse | src/TACSAssembler.c:1030-1034 | the inverse of a permutation of [0,n) is a permutation with `q[p[k]] == k` and `p[q[k]] == k` |
| Sorting.InverseUnique | src/TACSAssembler.c:1043-1047 | any q with `q[p[k]] == k` for every k is the inverse of the permutation p |
| Sorting.Positions | src/TACSAssembler.c:1587-1627 | for a dense numbering `rnodes` of nr slots, the slot numbered r is found, and `q[rnodes[j]] == j` for every numbered slot j |
| Numbering.LocalNodeNum | src/TACSAssembler.c:1099-1149 | getLocalNodeNum returns -1 for every negative (dependent) number; an owned node maps into [extNodeOffset, extNodeOffset+numOwned); a found slot is below numNodes |
| Numbering.GlobalNodeNum | src/TACSAssembler.c:1163-1209 | getGlobalNodeNum returns -1 for a slot at or past numNodes and a non-negative global number for every slot below it |
| Numbering.LocalOfGlobal | src/TACSAssembler.c:1099-1209 | for every slot s below numNodes, `getLocalNodeNum(getGlobalNodeNum(s)) == s` |
| Numbering.GlobalOfLocal | src/TACSAssembler.c:1099-1209 | for every global number x that getLocalNodeNum resolves, `getGlobalNodeNum(getLocalNodeNum(x)) == x` |
| Numbering.LocalNodeNumFound | src/TACSAssembler.c:1104-1146 | getLocalNodeNum succeeds exactly on the owned numbers and the listed external numbers; a non-owned number absent from the list, or any number while no list is set, gives -1 |
| Csr.TidyRow | src/TACSAssembler.c:1490 | a row after SortAndUniquifyCSR is strictly increasing and holds exactly the row's old entries, less the diagonal when nodiag is set |
| Csr.SortAndUniquifyCsr | src/TACSAssembler.c:1308 | the table stays a CSR table of the same rows; each row is sorted and duplicate-free and keeps exactly its entries, less the diagonal under nodiag |
| Csr.PrefixSum | src/TACSAssembler.c:1266-1268 | the counting array becomes its running sums, so entry k+1 is entry k plus the old count k+1 |
| Csr.ShiftBack | src/TACSAssembler.c:1302-1305 | after the fill pass has advanced each cursor to the end of its row, shifting by one restores the row starts with rowp[0] = 0 |
| Csr.CanonicalRows | src/TACSAssembler.c:1489-1490 | the canonical table (rows in order, each row sorted) is a CSR table whose row i holds exactly the set rows[i] |
| Csr.RowsDetermineCsr | src/TACSAssembler.c:1489-1490 | a CSR table whose rows are sorted and hold exactly the sets rows[i] is the canonical table, so the table the ordering routine receives depends on the graph alone |
| ExtNodes.ExternalOf | src/TACSAssembler.c:648-674 | the entries kept from a list are exactly the non-negative numbers outside the owned range that occur in it |
| ExtNodes.AppendExternal | src/TACSAssembler.c:648-658 | one gathering loop appends exactly the external entries of its list to the buffer, leaving the earlier part unchanged |
| ExtNodes.CollectExternal | src/TACSAssembler.c:631-674 | the buffer holds the external entries of the connectivity followed by those of the dependent-node table |
| ExtNodes.CountBelow | src/TACSAssembler.c:692-696 | extNodeOffset counts the leading list entries that lie below the owned range; every later entry lies above it |
| ExtNodes.ComputeExtNodes | src/TACSAssembler.c:627-698 | the external list is strictly increasing and contains exactly the non-negative non-owned numbers referenced by the connectivity or the dependent-node table; numNodes = numOwned + numExt, and extNodeOffset counts the entries below the range |
| ExtNodes.ExternalListIsUniqueSort | src/TACSAssembler.c:677 | any strictly increasing list with exactly those members is the list uniqueSort builds |
| ExtNodes.ExtNodesResolve | src/TACSAssembler.c:627-698 | after computeExtNodes every non-negative connectivity entry and every independent node has a local slot |
| GraphSpec.ElementTable | src/TACSAssembler.c:1242-1263 | the table of slots per element has one row per element, and every slot in it is below numNodes |
| GraphSpec.ElementSlotsBelow | src/TACSAssembler.c:1242-1263 | every slot an element touches, after dependent-node expansion, is a slot of the map |
| Graph.ExpandDependent | src/TACSAssembler.c:1252-1260 | the slots of dependent node d are the slots of its independent nodes, in table order |
| Graph.ExpandElement | src/TACSAssembler.c:1242-1263 | walking an element yields its expanded slot list, every slot below numNodes |
| Graph.CountIncidences | src/TACSAssembler.c:1242-1263 | the counting pass records, for each slot s, how many times s occurs over all elements |
| Graph.CountSlots | src/TACSAssembler.c:1243-1261 | adding one per occurrence of each slot of an element turns the counts of a stream into the counts of that stream followed by the element's slots |
| Graph.CountElement | src/TACSAssembler.c:1242-1262 | counting element i turns the counts of elements 0 .. i-1 into the counts of elements 0 .. i |
| Graph.Place | src/TACSAssembler.c:1276-1299 | one insertion writes element e at the row cursor and advances that cursor by one, changing nothing else |
| Graph.FillIncidences | src/TACSAssembler.c:1276-1299 | after the fill pass each cursor sits at the next row's start, and row s holds exactly the elements whose slot list contains s |
| Graph.FillElement | src/TACSAssembler.c:1276-1299 | filling element i carries the fill-pass state (cursors, sound and complete rows) from the first i elements to the first i + 1 |
| Graph.IncStep | src/TACSAssembler.c:1276-1299 | filling one more element keeps the fill invariant: cursors, soundness and completeness of the rows filled so far |
| Graph.ElementRoom | src/TACSAssembler.c:1266-1299 | before an element is placed, every row cursor still has room before the next row start for that element's occurrences of the row's slot |
| Graph.IncDone | src/TACSAssembler.c:1276-1305 | once all elements are placed, every cursor equals the next row start and the rows are exactly the incidence sets |
| Graph.IncidenceBucket | src/TACSAssembler.c:1276-1305 | element x is in the filled row i iff slot i occurs in element x |
| Graph.IncidenceRowsAre | src/TACSAssembler.c:1276-1314 | after sorting, row i of the table holds exactly the elements that touch slot i |
| Graph.CountedBuckets | src/TACSAssembler.c:1266-1268 | the prefix sums of the counts give row starts whose widths are the occurrence counts |
| Graph.NodeToElementCsr | src/TACSAssembler.c:1227-1314 | computeNodeToElementCSR yields a CSR table (rowp[0] = 0, non-decreasing) whose row n is the sorted, duplicate-free set of elements that reference slot n directly or through a dependent node |
| NodeGraph.ReduceElement | src/TACSAssembler.c:1540-1563 | an element contributes the reduced numbers of its numbered slots (rnodes >= 0), in order |
| NodeGraph.ElementCounts | src/TACSAssembler.c:1540-1563 | nodeCount[e] is the number of numbered slots of element e |
| NodeGraph.CountOverGathered | src/TACSAssembler.c:1567-1575 | the row size estimate, summed over a node's elements, equals the length of the gathered row |
| NodeGraph.EstimateRows | src/TACSAssembler.c:1567-1575 | rowp[r+1] is the estimate for the slot numbered r |
| NodeGraph.EstimateLayout | src/TACSAssembler.c:1578-1580 | the prefix sums of the estimates lay out the rows with widths exactly the gathered row lengths |
| NodeGraph.WriteElement | src/TACSAssembler.c:1595-1624 | writing an element into row r splices its reduced slots at the row cursor and advances the cursor by their number |
| NodeGraph.FillRow | src/TACSAssembler.c:1587-1627 | row r receives the reduced slots of all elements of its node, and the other rows' cursors stay put |
| NodeGraph.FillRows | src/TACSAssembler.c:1587-1633 | every row r fills exactly its reserved block with its gathered entries |
| NodeGraph.GatheredNeighbours | src/TACSAssembler.c:1587-1627 | the entries gathered for slot i are exactly the reduced numbers of the slots that share an element with i |
| NodeGraph.ReducedNodeToNodeCsr | src/TACSAssembler.c:1519-1706 | the reduced graph has one sorted, duplicate-free row per reduced number r, holding exactly the reduced numbers of the slots sharing an element with the slot numbered r, less r under nodiag |
| NodeGraph.NodeToNodeCsr | src/TACSAssembler.c:1341-1497 | the full graph has, for each slot i, a sorted, duplicate-free row holding exactly the slots sharing an element with i, less i under nodiag |
| NodeGraph.IdentityRows | src/TACSAssembler.c:1341-1497 | the full graph is the reduced graph under the identity numbering |
| NodeGraph.NeighboursShareElement | src/TACSAssembler.c:1341-1497 | j is in row i iff some element touches both i and j |
| NodeGraph.NeighbourSymmetric | src/TACSAssembler.c:1341-1497 | the full graph is symmetric |
| NodeGraph.SelfNeighbour | src/TACSAssembler.c:1341-1497 | without nodiag, i is in its own row iff some element touches i |
| NodeGraph.ReducedIsInduced | src/TACSAssembler.c:1519-1706 | the reduced graph is the full graph restricted to numbered slots, and every column lies in [0, nrnodes) |
| NodeGraph.ReducedSymmetric | src/TACSAssembler.c:1519-1706 | the reduced graph is symmetric |
| Ordering.InvertPermutation | src/TACSAssembler.c:1043-1047 | the inverse loop yields a permutation q with `q[p[k]] == k` and `p[q[k]] == k` |
| Ordering.ComputeMatReordering | src/TACSAssembler.c:1014-1084 | perm and newVars are mutually inverse permutations; RCM fills newVars from the oracle, AMD/ND/TACS_AMD fill perm from the oracle, NATURAL gives the identity; newVars is NewVarsOf of the table |
| Ordering.NewVarsOf | src/TACSAssembler.c:1014-1084 | the new_vars of the routine is a permutation: the identity under NATURAL, the inverse of the oracle's perm under AMD, ND and TACS_AMD |
| Ordering.GraphOrder | src/TACSAssembler.c:1014-1084 | the ordering of a graph given by its rows is a permutation of its vertices |
| Ordering.GraphOrderOfTable | src/TACSAssembler.c:827-835 | new_vars for any sorted CSR table of a graph equals the ordering of that graph |
| Ordering.BlockOrder | src/TACSAssembler.c:827-835 | the ordering of the reduced graph of the slots flagged by f is a permutation of their count |
| Ordering.NumberKeptDense | src/TACSAssembler.c:818-824 | numbering the kept slots in order gives a dense numbering of their count, strictly increasing over the kept slots |
| Ordering.NumberInOrder | src/TACSAssembler.c:818-824 | the non-negative marks become 0, 1, 2, ... in slot order, the -1 marks stay, and the count is the number of kept slots |
| Ordering.NumberUnnumbered | src/TACSAssembler.c:857-868 | in the owned band the -1 marks are numbered in order and the numbered ones become -1; outside the band everything is -1 |
| Ordering.RenumberSecond | src/TACSAssembler.c:857-868 | after the second numbering the work array is the in-order numbering of exactly the owned slots the first pass left out, and the count is their number |
| Ordering.PlaceNumbers | src/TACSAssembler.c:842-847 | each numbered slot receives offset plus the ordering's new number of its reduced number; others keep their value |
| Ordering.ComputeCouplingNodes | src/TACSAssembler.c:1726-1823 | the coupling list is strictly increasing, has length of the unique received nodes plus numExt, and holds exactly the external slots and the owned slots another process references; it equals CouplingNodes |
| Ordering.CouplingNodes | src/TACSAssembler.c:1726-1823 | the coupling slots in increasing order: each slot below numNodes, exactly the external slots and the owned slots another process references |
| Ordering.AppendRun | src/TACSAssembler.c:1785-1803 | a run of consecutive slots is appended after the existing list |
| Ordering.AppendSlots | src/TACSAssembler.c:1785-1803 | the received owned nodes are appended as their local slots |
| Ordering.CouplingNodesShape | src/TACSAssembler.c:1781-1803 | the three appended parts form a strictly increasing list holding exactly the coupling slots |
| Ordering.CouplingListIncreasing | src/TACSAssembler.c:1781-1803 | the external slots below, the referenced owned slots and the external slots above follow one another in increasing order |
| Ordering.InteriorFlags | src/TACSAssembler.c:778-815 | the first-pass slots are the owned slots that are not coupling under DIRECT_SCHUR and not next to a coupling slot under APPROXIMATE_SCHUR |
| Ordering.CouplingFlags | src/TACSAssembler.c:857-868 | the second-pass slots are exactly the owned slots the first pass skipped |
| Ordering.MarkSlots | src/TACSAssembler.c:791-796 | the listed slots are marked -1 and the rest keep their mark |
| Ordering.MarkNeighbours | src/TACSAssembler.c:806-811 | every slot that shares an element with a coupling slot is marked -1 |
| Ordering.InitialMarks | src/TACSAssembler.c:778-811 | the marks are 0 exactly on the interior slots and -1 elsewhere |
| Ordering.NewOwnedNumbers | src/TACSAssembler.c:764-901 | on one process newNodeNums is new_vars of the node-to-node graph (no diagonal under ND), a permutation of [0, numNodes); on several, each interior slot gets ownerStart plus the ordering of the interior reduced graph at its reduced number, each other owned slot ownerStart plus the interior count plus the ordering of its own reduced graph; this is a bijection onto the owned range, interior slots taking exactly the lower numbers |
| Ordering.TwoPasses | src/TACSAssembler.c:818-901 | first-pass slots take ownerStart plus the ordering of their reduced graph at their reduced number, second-pass slots ownerStart plus the first count plus the ordering of theirs; together a bijection onto the owned range, first-pass numbers below the second |
| Ordering.RunPasses | src/TACSAssembler.c:818-901 | both blocks are placed through the ordering of their reduced graphs, from ownerStart and from ownerStart plus the first count |
| Ordering.FirstPass | src/TACSAssembler.c:818-852 | the interior slots are numbered 0, 1, ... in slot order, and each gets ownerStart plus the ordering of the interior reduced graph at its number |
| Ordering.SecondPass | src/TACSAssembler.c:857-901 | the first block keeps its numbers, and each remaining owned slot gets ownerStart plus the first count plus the ordering of their reduced graph at its number |
| Ordering.PlaceBlock | src/TACSAssembler.c:870-897 | each flagged slot gets base plus the ordering of the flagged slots' reduced graph at its number, others keep their value; nothing is ordered when none is flagged |
| Ordering.SecondPassFlags | src/TACSAssembler.c:857-868 | renumbering the first-pass marks selects exactly the owned slots not in the first pass |
| Ordering.OrderNumbered | src/TACSAssembler.c:827-835 | the result is new_vars of the reduced graph of the numbered slots, that is BlockOrder, a permutation of their count |
| Ordering.BlockNumbers | src/TACSAssembler.c:842-847 | placed numbers lie in [base, base+count) and are distinct |
| Ordering.TwoPhaseBijection | src/TACSAssembler.c:842-897 | two placed blocks that split the owned band form a bijection onto the owned range, the first block below the second |
| Ordering.OwnedOnto | src/TACSAssembler.c:764-901 | numbers distinct and in range on the owned band take every number of the owned range |
| Ordering.PlacedBand | src/TACSAssembler.c:926-931 | numbers placed on owned slots survive any change outside the owned band |
| Ordering.AdditiveSchwarzOneBlock | src/TACSAssembler.c:870-876 | under ADDITIVE_SCHWARZ no owned slot is left for the second pass, and the first pass takes all numOwned slots |
| Reorder.AnswerRequests | src/TACSAssembler.c:911-914 | each requested owned node is replaced by the new number of its slot |
| Reorder.OwnedAnswers | src/TACSAssembler.c:911-914 | under an owned-band bijection, the answers are owned numbers and distinct for distinct requests |
| Reorder.CopyShifted | src/TACSAssembler.c:926-931 | one copy loop writes entries [from, to) of the received numbers shift places on and leaves the rest |
| Reorder.ApplyExtNumbers | src/TACSAssembler.c:926-931 | the external slots take the owners' numbers in list order, and the owned band is kept |
| Reorder.WithExtRenumbering | src/TACSAssembler.c:926-931 | with owned-band bijection and distinct non-owned external answers, newNodeNums is injective and non-negative |
| Reorder.RenumberEntries | src/TACSAssembler.c:949-956 | each non-negative connectivity entry becomes `newNodeNums[getLocalNodeNum(x)]`; dependent entries are untouched |
| Reorder.RenumberNodes | src/TACSAssembler.c:937-946 | each independent node of the dependent table becomes the new number of its slot |
| Reorder.RenumberedSameNode | src/TACSAssembler.c:937-966 | renumbering is injective and keeps the sign of each entry |
| Reorder.RenumberedExtList | src/TACSAssembler.c:969-978 | the external list becomes the sorted new numbers of the external slots |
| Reorder.Gather | src/TACSAssembler.c:969-974 | one loop copies the new numbers of one external band into the list |
| Reorder.RenumberedExtLayout | src/TACSAssembler.c:969-978 | the re-sorted external list still forms a well-formed three-band slot map with the same extNodeOffset |
| Reorder.GetReordering | src/TACSAssembler.c:2109-2123 | getReordering gives one new number per owned node, the identity offset without a reordering |
| Reorder.ReorderingIsPermutation | src/TACSAssembler.c:2109-2123 | less the range start, getReordering is a permutation of [0, numOwned) |
| Reorder.CopyBlock | src/TACSAssembler.c:2162-2164 | block from of the old vector is copied to block to, and nothing else changes |
| Reorder.BlocksApart | src/TACSAssembler.c:2155-2165 | distinct blocks do not overlap |
| Reorder.ReorderVec | src/TACSAssembler.c:2135-2169 | owned block i moves to position perm[i]; equivalently block j takes old block inverse(perm)[j]; the tail is unchanged |
| Reorder.MoveBlocks | src/TACSAssembler.c:2155-2165 | the outer loop moves every block from the copy to its new position |
| MeshReorder.RenumberedList | src/TACSAssembler.c:937-956 | each entry of a list is renumbered independently |
| MeshReorder.RenumberedRegistered | src/TACSAssembler.c:937-978 | a node with a slot before the reordering has a slot under its new number after it |
| MeshReorder.ExtSlotListed | src/TACSAssembler.c:969-974 | the new number of each external slot is in the new external list |
| MeshReorder.ReorderedResolved | src/TACSAssembler.c:937-978 | the renumbered mesh and slot map are again resolved: every reference has a slot |
| MeshReorder.RenumberList | src/TACSAssembler.c:937-956 | the loops renumber the stored lists entry by entry |
| MeshReorder.RenumberBcs | src/TACSAssembler.c:959-966 | each boundary condition's node becomes the new number of its slot |
| MeshReorder.ReorderMesh | src/TACSAssembler.c:937-978 | connectivity, dependent table, boundary conditions and external list move to the new numbers, every node keeps a slot, and boundary conditions stay owned |
| MeshReorder.ExternalAnswers | src/TACSAssembler.c:918-921 | the owners' answer for each external node is its new number |
| MeshReorder.ExternalAnswersBands | src/TACSAssembler.c:918-931 | the answers are distinct; those for nodes below the range stay below it and those above stay above |
| MeshReorder.WithExtValid | src/TACSAssembler.c:926-931 | the completed numbering is fit for the reordering: injective, owned-band bijection, external bands kept |
| MeshReorder.PermutationOwned | src/TACSAssembler.c:764-773 | on one process a permutation is an owned-band bijection |
| MeshReorder.NewNodeNumbers | src/TACSAssembler.c:764-931 | newNodeNums is fit for the reordering (a permutation on one process), its owned slots carry the numbers the ordering routine determines (OrderedNumbers), the external slots hold the owners' answers, and the answers to requests are owned new numbers |
| MeshReorder.OwnedNumbers | src/TACSAssembler.c:752-901 | the owned slots receive the numbers the ordering routine determines for the coupling list (OrderedNumbers), a bijection onto the owned range; on one process a permutation |
| MeshReorder.OrderedOwnedBand | src/TACSAssembler.c:918-931 | filling in the external slots keeps the ordering's numbers on the owned band |
| MeshReorder.CompleteNumbers | src/TACSAssembler.c:918-931 | the owned numbers are kept and each external slot takes its owner's new number |
| MeshReorder.FillExternal | src/TACSAssembler.c:926-931 | the external bands take the received numbers in list order; the owned band is kept |
| MeshReorder.Answers | src/TACSAssembler.c:911-914 | each request is answered with an owned new number |
| MeshReorder.ReorderAll | src/TACSAssembler.c:744-986 | computeReordering after computeExtNodes numbers the owned slots as the ordering routine determines (OrderedNumbers), gives the external slots the owners' numbers, and moves the mesh, boundary conditions and external list to the new numbers, with the answers |
| MeshReorder.MoveToNumbers | src/TACSAssembler.c:937-986 | moving to a chosen numbering gives the renumbered slot map, mesh and boundary conditions, keeps the bands and counts, and keeps every boundary condition owned |
| MeshReorder.ReorderOutcomeShape | src/TACSAssembler.c:911-982 | the reordering keeps the slot bands, element and dependent counts, and its numbering is an owned-band bijection |
| Setup.CheckSizes | src/TACSAssembler.c:310-320 | the size check succeeds iff every element's node count matches its connectivity row length |
| Setup.CheckRows | src/TACSAssembler.c:327-343 | the range check succeeds iff every entry lies in [lo, hi) |
| Setup.ElementMaxima | src/TACSAssembler.c:382-405 | setElements stops at the first element whose displacement count differs from varsPerNode, and the maxima are over the elements before it |
| Setup.MaxOrZeroIsMax | src/TACSAssembler.c:382-405 | the running maximum bounds every element and is attained, or is 0 |
| Setup.MaxSnoc | src/TACSAssembler.c:382-405 | one more element updates the running maximum exactly as the loop does |
| Setup.NodesWithinMembers | src/TACSAssembler.c:523-528 | addBCs keeps exactly the listed nodes in the owned range |
| Setup.OwnedBcs | src/TACSAssembler.c:523-528 | one condition of nbcs dofs is added for each owned node, in order |
| Setup.DataPointersFit | src/TACSAssembler.c:2084-2101 | the segments getDataPointers carves do not overlap and fit inside dataSize |
| Setup.MatSegmentCovers | src/TACSAssembler.c:1965-1972 | the last segment holds both a square element matrix and the spatial-derivative block |
| Setup.MaxIndepNodes | src/TACSAssembler.c:1916-1938 | maxElementIndepNodes is at least maxElementNodes, bounds every element's independent-node count, and is attained |
| Setup.ElementIndepNodes | src/TACSAssembler.c:1921-1932 | the inner loop counts an element's nodes with dependent nodes expanded |
| Setup.IndepCountSlots | src/TACSAssembler.c:1921-1932 | that count equals the length of the element's expanded slot list |
| Setup.ValidConnectivityMisreported | src/TACSAssembler.c:344 | as written, a valid connectivity can report the same value as a size mismatch or a range failure |
| Setup.InitializeMisreported | src/TACSAssembler.c:1977 | as written, a successful initialize can report the same value as a refused call |
| FEMatSplit.CouplingPositions | src/TACSAssembler.c:2451-2458 | all_nodes holds each coupling slot's position in the coupling list and -1 elsewhere |
| FEMatSplit.CouplingPositionsDense | src/TACSAssembler.c:2451-2458 | those positions are a dense numbering of the coupling slots |
| FEMatSplit.ComplementCount | src/TACSAssembler.c:2448 | nlocal_nodes = numNodes - ncoupling_nodes counts the non-coupling slots |
| FEMatSplit.NumberComplement | src/TACSAssembler.c:2485-2497 | the non-coupling slots are numbered 0, 1, ... in order and listed in local_nodes; the coupling slots become -1 |
| FEMatSplit.FlaggedPositionsInverse | src/TACSAssembler.c:2485-2497 | local_nodes and the new all_nodes are mutually inverse |
| FEMatSplit.Compose | src/TACSAssembler.c:2474-2478 | `perm_x[i] = x[perm_x[i]]` composes the ordering with the list |
| FEMatSplit.GlobalNumbers | src/TACSAssembler.c:2507-2511 | tacs_x[i] is the global number of perm_x[i] |
| FEMatSplit.SplitPermutation | src/TACSAssembler.c:2420-2430 | the local list followed by the coupling list is a permutation of all slots |
| FEMatSplit.ComputeSplit | src/TACSAssembler.c:2367-2518 | NATURAL_ORDER is replaced by TACS_AMD_ORDER; under TACS_AMD local then coupling is amd_order_interface's ordering of the graph without diagonal; otherwise the coupling list is its slots ordered on their reduced graph and the local list likewise; local then coupling is a permutation, the coupling part is exactly the coupling slots, and the tacs lists hold the global numbers |
| FEMatSplit.WholeGraphSplit | src/TACSAssembler.c:2387-2434 | under TACS_AMD local then coupling is exactly the routine's ordering of the node graph without diagonal; its first numNodes - ncoupling entries are the local slots and the rest the coupling slots |
| FEMatSplit.CouplingLast | src/TACSAssembler.c:2417-2430 | an ordering placing the coupling slots last splits into local and coupling parts |
| FEMatSplit.SeparateSplit | src/TACSAssembler.c:2435-2518 | the coupling list is CouplingOrder and the local list LocalOrder (diagonal dropped under ND), and together they are a permutation split at ncoupling |
| FEMatSplit.OrderCoupling | src/TACSAssembler.c:2451-2482 | the ordered coupling list is the coupling slots read through new_vars of their reduced graph (CouplingOrder), each coupling slot once |
| FEMatSplit.OrderLocal | src/TACSAssembler.c:2485-2511 | the ordered local list is the non-coupling slots, numbered in order, read through new_vars of their reduced graph (LocalOrder): nlocal distinct non-coupling slots |
| FEMatSplit.OrderedSlots | src/TACSAssembler.c:2460-2482 | the slots a dense numbering picks, in the ordering's order: one entry per reduced number |
| FEMatSplit.OrderedSlotsPicked | src/TACSAssembler.c:2474-2478 | the ordered list holds each picked slot exactly once and nothing else |
| FEMatSplit.ComposedOrder | src/TACSAssembler.c:2460-2482 | `perm_x[i] = x[perm_x[i]]` with perm from computeMatReordering on any sorted table of the reduced graph gives OrderedSlots |
| FEMatSplit.OrderPicked | src/TACSAssembler.c:2460-2511 | building the reduced graph, ordering it and composing gives OrderedSlots of the picked slots |
| FEMatSplit.CouplingNumbering | src/TACSAssembler.c:2451-2458 | all_nodes before the flip is a dense numbering of the coupling slots by their list position, -1 elsewhere |
| FEMatSplit.CouplingNumberingIs | src/TACSAssembler.c:2451-2458 | the array the loops build is that numbering |
| FEMatSplit.CouplingPositionsAre | src/TACSAssembler.c:2451-2478 | the slot numbered r by all_nodes is coupling_nodes[r] |
| FEMatSplit.CouplingPicked | src/TACSAssembler.c:2460-2482 | the slots the coupling numbering picks are the coupling slots, all below numNodes |
| FEMatSplit.LocalFlags | src/TACSAssembler.c:2485-2497 | a slot is local iff it is not in the coupling list |
| FEMatSplit.LocalFlagsOf | src/TACSAssembler.c:2485-2497 | the -1 slots of all_nodes are exactly the local slots, n minus the coupling count of them |
| FEMatSplit.KeptPositionsAre | src/TACSAssembler.c:2485-2497 | the in-order numbering of the local slots points back to local_nodes |
| FEMatSplit.LocalPicked | src/TACSAssembler.c:2485-2511 | the slots the local numbering picks lie below numNodes and outside the coupling list |
| Assembler.GlobalNodeNumIncreasing | src/TACSAssembler.c:1163-1209 | getGlobalNodeNum is strictly increasing over the slots |
| Assembler.GlobalIndices | src/TACSAssembler.c:2299-2309 | createMat's indices are the global numbers of the slots, strictly increasing, each mapping back to its slot |
| Assembler.ExtWithinTotal | src/TACSAssembler.c:613-698 | the external list of a validated mesh lies in the ranges of the other processes, and is empty on one process |
| Assembler.ResolvedShapes | src/TACSAssembler.c:937-978 | a resolved mesh has consistent pointer arrays, non-negative independent nodes, and every reference covered by a slot |
| Assembler.CheckElements | src/TACSAssembler.c:364-418 | setElements' status is 0 iff every element matches varsPerNode and the connectivity sizes, else 1, and the maxima are as ElementMaxima gives |
| Assembler.ReorderAfterInitializePasses | src/TACSAssembler.c:733 | the as-written guard lets a reordering through after initialize; the corrected guard does not |
| Assembler.ReorderGuardPasses | src/TACSAssembler.c:727-738 | the corrected guard passes only when the as-written one does, and exactly when also not initialized |
| Assembler.TacsAssembler.constructor | src/TACSAssembler.c:34-139 | a new assembler has nothing set, no external nodes, zero maxima, and numOwnedNodes from the owner range |
| Assembler.TacsAssembler.SetElementConnectivity | src/TACSAssembler.c:282-344 | refused (1, no change) after initialize or once external nodes exist; otherwise the arrays are installed, and the status is 1 on a size mismatch, -1 on an entry outside [-numDependentNodes, total), 0 otherwise |
| Assembler.TacsAssembler.SetElements | src/TACSAssembler.c:357-421 | refused after initialize; otherwise the elements are installed with their maxima, status 0 iff the displacement counts and connectivity sizes match |
| Assembler.TacsAssembler.SetDependentNodes | src/TACSAssembler.c:436-496 | refused after initialize or once external nodes exist; otherwise 0 and installed iff every independent node is in [0, total), else 1 |
| Assembler.TacsAssembler.AddBCs | src/TACSAssembler.c:502-529 | nothing after initialize; otherwise the owned listed nodes are appended in order with varsPerNode dofs when none are given |
| Assembler.TacsAssembler.ComputeExtNodes | src/TACSAssembler.c:613-698 | refused (1, no change) after initialize or without connectivity; otherwise 0, and the external list is strictly increasing with exactly the referenced external numbers |
| Assembler.TacsAssembler.ComputeReordering | src/TACSAssembler.c:724-990 | refused without connectivity, with the external list set, or after initialize; otherwise the external list is the uniqueSort of the referenced external numbers, newNodeIndices holds the numbers the ordering routine determines on the owned slots, and the mesh, boundary conditions, external list and answers are as ReorderAll states |
| Assembler.TacsAssembler.ReorderExternal | src/TACSAssembler.c:744-986 | once computeExtNodes has run, newNodeIndices holds the ordering routine's numbers on the owned slots (OrderedNumbers) and the fields end as ReorderAll states |
| Assembler.TacsAssembler.InstallReordering | src/TACSAssembler.c:937-982 | the renumbered slot map, mesh, boundary conditions and newNodeIndices are stored |
| Assembler.TacsAssembler.Initialize | src/TACSAssembler.c:1881-1977 | refused (1, no change) when initialized, when elements or connectivity are missing, or when dependent nodes are declared but not set; otherwise 0, the flag is set, extDistIndices holds the external list, maxElementIndepNodes is the maximum independent count, and dataSize/idataSize are the scratch sizes |
| Assembler.TacsAssembler.InitializeMesh | src/TACSAssembler.c:1902-1976 | once the guards pass: 0, the flag is set, the external list is computed if missing and moved to extDistIndices, and the maxima and scratch sizes are computed |
| Assembler.TacsAssembler.FinishInitialize | src/TACSAssembler.c:1908-1976 | the flag is set, the external list moves to extDistIndices, and the maxima and scratch sizes are computed |
| Assembler.TacsAssembler.MarkInitialized | src/TACSAssembler.c:1910 | the flag is set and tacsExtNodeNums moves to extDistIndices |
| Assembler.TacsAssembler.SetWorkSizes | src/TACSAssembler.c:1916-1975 | maxElementIndepNodes, dataSize and idataSize are as the sizing rules give |
| Assembler.TacsAssembler.GetReordering | src/TACSAssembler.c:2109-2123 | the old-to-new map is a permutation of the owned range, the identity without a reordering |
| Assembler.TacsAssembler.ReorderVector | src/TACSAssembler.c:2135-2169 | without a reordering nothing changes; with one, owned block i moves to its new position and the tail is unchanged |
| Assembler.TacsAssembler.CreateVec | src/TACSAssembler.c:2267-2277 | nothing before initialize; otherwise a layout of varsPerNode blocks over the owned nodes and extDistIndices |
| Assembler.TacsAssembler.CreateMat | src/TACSAssembler.c:2291-2326 | nothing before initialize; otherwise the global indices of all slots (computed once) and the full node-to-node graph with diagonal |
| Assembler.TacsAssembler.CreateFEMat | src/TACSAssembler.c:2361-2548 | nothing before initialize; the split is computed on the first call only and kept afterwards; it is a permutation of the slots with the coupling slots last and their global numbers, ordered as SplitOf states (NATURAL_ORDER taken as TACS_AMD_ORDER) |
| Assembler.TacsAssembler.StoreSplit | src/TACSAssembler.c:2519-2540 | the split is kept for later calls and nothing else changes |

## Left out

- MPI is not modelled. The exchanges are method inputs instead:
  - the `MPI_Reduce` in the constructor;
  - the all-to-all exchanges of `computeCouplingNodes` (`recvNodes`);
  - the reorder exchange (`newNumberOf`);
  - `scatterExternalBCs`.
- Threads, the mutex, and the pthread assembly paths are not modelled: that code is about concurrency.
- Floating-point numerics are left out: dependent-node weights are carried but not used, and element, function and BLAS calls are not modelled.
- The vector and matrix objects (`TACSBVec`, `DistMat`, `FEMat`, `TACSBVecDistribute`, `TACSBVecIndices`) and reference counting are not modelled. `createVec`, `createMat` and `createFEMat` return the layouts those objects would be built from.
- `TACSBcMap` values and merging are not modelled. A boundary condition is a node and a dof count.
- The `createVec` calls inside `initialize` are not modelled, because they create objects only.
- The external ordering libraries (RCM, AMD, METIS, `amd_order_interface`) are oracles assumed to return permutations. `amd_order_interface` is also assumed to place the listed coupling vertices last.
- `matutils::SortAndUniquifyCSR` and `FElibrary::uniqueSort` are not part of this model. They are specified by contract (Csr.TidyRow, Sorting.UniqueSort).
- `computeCouplingElements` and the element, assembly, sensitivity and output routines are not part of this model.
- `TACS_SPATIAL_DIM` is not defined in the files modelled. It is taken as 3.
- Diagnostic messages written to stderr are not modelled.
- Assembler.TacsAssembler.SetDependentNodes: the source releases the old table before validating the new one (line 453). The model keeps the old table on failure. It also requires `ptr[0] == 0`.
- Assembler.TacsAssembler.ComputeExtNodes: requires the external list unset, so a recomputation is not modelled. It states the list's members and sortedness; ExtNodes.ExternalListIsUniqueSort gives the equality with uniqueSort.
- Assembler.TacsAssembler.ComputeReordering: requires the stored mesh to be one the setters accepted. The source does not check this.
- Assembler.TacsAssembler.Initialize: requires the stored mesh to be valid. The source does not check this.
- Assembler.TacsAssembler.ComputeReordering: uses the corrected one-shot guard (see Findings), so a reordering after initialize is refused. The as-written behaviour writes through a NULL pointer and is not modelled.
- Numbering.GlobalNodeNum: requires `node >= 0`. A negative slot reads the external list at a negative index.
- Numbering.LocalNodeNum: returns -1 when no external list is set, without the diagnostic.
- Assembler.TacsAssembler.CreateFEMat: does not construct the `FEMat`; it returns and caches the split.

## Findings

| source | as written | input that shows it | evidently intended | confidence | as-written member | corrected member |
|---|---|---|---|---|---|---|
| src/TACSAssembler.c:344 | setElementConnectivity has no final `return`, so the value of a successful call is undefined | a valid connectivity (sizes match, entries in range) | return 0 on success | not executed | Setup.ValidConnectivityMisreported | Assembler.TacsAssembler.SetElementConnectivity |
| src/TACSAssembler.c:1977 | initialize has no final `return`, so the value of a successful call is undefined | any call that passes the guards | return 0 on success | not executed | Setup.InitializeMisreported | Assembler.TacsAssembler.Initialize |
| src/TACSAssembler.c:733 | the one-shot guard tests only `tacsExtNodeNums`, which initialize sets to NULL (line 1943), so a reordering after initialize passes the guard and then writes the external list through NULL (lines 969-974) | computeReordering called after initialize on a process with external nodes | refuse a reordering after initialize | not executed | Assembler.ReorderAfterInitializePasses | Assembler.ReorderGuardPasses |
