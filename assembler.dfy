/**
  TACSAssembler's mesh bookkeeping as an object: the setters with their
  validation and lifecycle guards, computeExtNodes, computeReordering,
  initialize, getReordering and reorderVec, and the numbering parts of
  createVec, createMat and createFEMat.
*/
module Assembler {
  import opened Optional
  import opened Sorting
  import opened Numbering
  import opened Csr
  import opened GraphSpec
  import opened NodeGraph
  import opened Ordering
  import opened FEMatSplit
  import opened Setup
  import opened ExtNodes
  import opened Reorder
  import opened MeshReorder

  /** What createVec hands to the new vector: the block size, the owned node count and the external node list. */
  datatype VecLayout = VecLayout(blockSize: int, numOwned: int, extNodes: seq<int>)

  /** What createMat hands to the new matrix: the local node-to-node graph and distMatIndices. */
  datatype MatLayout = MatLayout(rowp: seq<int>, cols: seq<int>, indices: seq<int>)

  /** Every connectivity entry and every dependent-table node lies below the total number of nodes. */
  ghost predicate WithinTotal(m: Mesh, total: int) {
    && (forall k :: 0 <= k < |m.conn.elementTacsNodes| ==> m.conn.elementTacsNodes[k] < total)
    && (forall k :: 0 <= k < |DepList(m)| ==> DepList(m)[k] < total)
  }

  /** Slots in increasing order carry increasing global numbers: the external list is sorted and the owned range lies between its two parts. */
  lemma GlobalNodeNumIncreasing(sm: SlotMap, s: int, t: int)
    requires WellFormed(sm) && sm.ext.Some? && 0 <= s < t < sm.numNodes
    ensures GlobalNodeNum(sm, s) < GlobalNodeNum(sm, t)
  {
    var ext := sm.ext.value;
    var lo, hi := sm.extOffset, sm.extOffset + sm.numOwned;
    if t < lo {
      assert ext[s] < ext[t];
    } else if hi <= s {
      assert ext[s - sm.numOwned] < ext[t - sm.numOwned];
    }
  }

  /**
    createMat's distMatIndices (lines 2306-2309): the global number of every
    local slot, strictly increasing, and each one translating back to its slot.
  */
  method GlobalIndices(sm: SlotMap) returns (indices: seq<int>)
    requires WellFormed(sm) && sm.ext.Some?
    ensures |indices| == sm.numNodes
    ensures forall s :: 0 <= s < sm.numNodes ==> indices[s] == GlobalNodeNum(sm, s)
    ensures StrictlyIncreasing(indices)
    ensures forall s :: 0 <= s < sm.numNodes ==> LocalNodeNum(sm, indices[s]) == s
  {
    var a := new int[sm.numNodes];
    for i := 0 to sm.numNodes
      invariant forall s :: 0 <= s < i ==> a[s] == GlobalNodeNum(sm, s)
    {
      a[i] := GlobalNodeNum(sm, i);
    }
    indices := a[..];
    forall s, t | 0 <= s < t < |indices| ensures indices[s] < indices[t] {
      GlobalNodeNumIncreasing(sm, s, t);
    }
    forall s | 0 <= s < sm.numNodes ensures LocalNodeNum(sm, indices[s]) == s {
      LocalOfGlobal(sm, s);
    }
  }

  /**
    After computeExtNodes on a mesh below the total, the external list lies
    below the total too, and on one process, where this process owns every
    node, it is empty.
  */
  lemma ExtWithinTotal(sm: SlotMap, m: Mesh, ownerRange: seq<int>, rank: int)
    requires OwnerRanges(ownerRange) && 0 <= rank < |ownerRange| - 1
    requires WellFormed(sm) && sm.ext.Some?
    requires sm.ownerStart == ownerRange[rank] && sm.ownerEnd == ownerRange[rank + 1]
    requires forall x :: x in sm.ext.value <==>
               External(sm.ownerStart, sm.ownerEnd, x) && (x in m.conn.elementTacsNodes || x in DepList(m))
    requires WithinTotal(m, TotalNodes(ownerRange))
    ensures InRanges(sm, ownerRange, rank)
    ensures |ownerRange| == 2 ==> sm.numExt == 0
  {
    var ext := sm.ext.value;
    forall i | 0 <= i < sm.numExt
      ensures ext[i] < TotalNodes(ownerRange) && External(sm.ownerStart, sm.ownerEnd, ext[i])
    {
      assert ext[i] in ext;
    }
    if |ownerRange| == 2 {
      assert sm.ownerStart == 0 && sm.ownerEnd == TotalNodes(ownerRange);
      HeadListed(ext);
    }
  }

  /** The inputs of computeReordering meet what ReorderAll asks of them: ExtWithinTotal, and the boundary conditions and asked-for nodes are owned. */
  lemma ReorderInputs(sm: SlotMap, m: Mesh, ownerRange: seq<int>, rank: int, bcs: seq<Bc>, recvNodes: seq<int>)
    requires OwnerRanges(ownerRange) && 0 <= rank < |ownerRange| - 1
    requires WellFormed(sm) && sm.ext.Some?
    requires sm.ownerStart == ownerRange[rank] && sm.ownerEnd == ownerRange[rank + 1]
    requires forall x :: x in sm.ext.value <==>
               External(sm.ownerStart, sm.ownerEnd, x) && (x in m.conn.elementTacsNodes || x in DepList(m))
    requires WithinTotal(m, TotalNodes(ownerRange))
    requires forall k :: 0 <= k < |bcs| ==> ownerRange[rank] <= bcs[k].node < ownerRange[rank + 1]
    requires forall k :: 0 <= k < |recvNodes| ==> ownerRange[rank] <= recvNodes[k] < ownerRange[rank + 1]
    ensures InRanges(sm, ownerRange, rank)
    ensures |ownerRange| == 2 ==> sm.numExt == 0
    ensures forall k :: 0 <= k < |bcs| ==> Owned(sm, bcs[k].node)
    ensures forall k :: 0 <= k < |recvNodes| ==> Owned(sm, recvNodes[k])
  {
    ExtWithinTotal(sm, m, ownerRange, rank);
  }

  lemma HeadListed(s: seq<int>)
    ensures |s| > 0 ==> s[0] in s
  {
  }

  /** A resolved mesh has the shapes the assembler keeps, and its dependent-node table lists no dependent entry. */
  lemma ResolvedShapes(sm: SlotMap, m: Mesh)
    requires Resolved(sm, m)
    ensures PointerArray(m.conn.elementNodeIndex, m.numElements, |m.conn.elementTacsNodes|)
    ensures m.deps.Some? ==>
              && DepNodesShape(m.deps.value, m.numDependentNodes)
              && forall k :: 0 <= k < |m.deps.value.depNodeToTacs| ==> 0 <= m.deps.value.depNodeToTacs[k]
    ensures Covered(sm, m)
  {
  }

  /**
    The checks of setElements, on values: the maxima up to the first element
    whose displacement count is not varsPerNode, and status 1 when there is
    such an element or an element's node count differs from its row in the
    connectivity, if one is set.
  */
  method CheckElements(elems: seq<ElementInfo>, varsPerNode: int, conn: Option<Connectivity>)
    returns (status: int, maxSize: int, maxNodes: int)
    requires conn.Some? ==> |conn.value.elementNodeIndex| == |elems| + 1
    ensures maxSize == MaxOrZero(VariableCounts(elems[..FirstMismatch(elems, varsPerNode)]))
    ensures maxNodes == MaxOrZero(NodeCounts(elems[..FirstMismatch(elems, varsPerNode)]))
    ensures status == 0 || status == 1
    ensures status == 0 <==>
              FirstMismatch(elems, varsPerNode) == |elems| &&
              (conn.Some? ==> SizesMatch(conn.value.elementNodeIndex, elems))
  {
    var ok;
    ok, maxSize, maxNodes := ElementMaxima(elems, varsPerNode);
    if !ok {
      return 1, maxSize, maxNodes;
    }
    status := 0;
    if conn.Some? {
      var sizesOk := CheckSizes(conn.value.elementNodeIndex, elems);
      if !sizesOk {
        status := 1;
      }
    }
  }

  /**
    The reorder guard as written (lines 727-738): it asks only whether the
    connectivity is set and whether tacsExtNodeNums is set.
  */
  function ReorderGuardPassesAsWritten(connSet: bool, tacsExtSet: bool): bool {
    connSet && !tacsExtSet
  }

  /**
    initialize hands tacsExtNodeNums over to extDistIndices and sets the
    pointer to NULL (line 1943), so the as-written guard lets a reordering
    through after initialize, where computeExtNodes then refuses to run and
    the external list is written through the NULL pointer (lines 969-974);
    the corrected guard, used by the class, refuses.
  */
  lemma ReorderAfterInitializePasses()
    ensures ReorderGuardPassesAsWritten(true, false)
    ensures !ReorderGuardPasses(true, false, true)
  {
  }

  /** The reorder guard as intended: connectivity set, no reordering yet, not initialized. */
  function ReorderGuardPasses(connSet: bool, tacsExtSet: bool, initialized: bool): (r: bool)
    ensures r ==> ReorderGuardPassesAsWritten(connSet, tacsExtSet)
    ensures r <==> ReorderGuardPassesAsWritten(connSet, tacsExtSet) && !initialized
  {
    connSet && !tacsExtSet && !initialized
  }

  class TacsAssembler {
    /** Variables per node, elements, dependent nodes: given to the constructor. */
    const varsPerNode: int
    const numElements: nat
    const numDependentNodes: nat
    /** Process p owns the nodes [ownerRange[p], ownerRange[p + 1]); this process is mpiRank. */
    const ownerRange: seq<int>
    const mpiRank: nat
    const numOwnedNodes: nat

    var meshInitialized: bool
    var elements: Option<seq<ElementInfo>>
    var connectivity: Option<Connectivity>
    var depNodes: Option<DepNodes>
    /** The boundary conditions added to the BC map, in order. */
    var bcs: seq<Bc>

    var tacsExtNodeNums: Option<seq<int>>
    var extDistIndices: Option<seq<int>>
    var numExtNodes: int
    var numNodes: int
    var extNodeOffset: int

    var maxElementSize: int
    var maxElementNodes: int
    var maxElementIndepNodes: int
    var dataSize: int
    var idataSize: int

    var newNodeIndices: Option<seq<int>>
    var distMatIndices: Option<seq<int>>
    var feSplit: Option<Split>

    /** The ownership range of this process. */
    function OwnerStart(): int
      requires 0 <= mpiRank < |ownerRange| - 1
    {
      ownerRange[mpiRank]
    }

    /** The end of the ownership range of this process. */
    function OwnerEnd(): int
      requires 0 <= mpiRank < |ownerRange| - 1
    {
      ownerRange[mpiRank + 1]
    }

    /** The slot map getLocalNodeNum and getGlobalNodeNum read: tacsExtNodeNums if set, else extDistIndices. */
    function Slots(): SlotMap
      reads this`tacsExtNodeNums, this`extDistIndices, this`numExtNodes, this`extNodeOffset, this`numNodes
      requires 0 <= mpiRank < |ownerRange| - 1
    {
      SlotMap(ownerRange[mpiRank], ownerRange[mpiRank + 1], numOwnedNodes,
              if tacsExtNodeNums.Some? then tacsExtNodeNums else extDistIndices,
              numExtNodes, extNodeOffset, numNodes)
    }

    /** The stored mesh. */
    function MeshOf(): Mesh
      reads this`connectivity, this`depNodes
      requires connectivity.Some?
    {
      Mesh(numElements, connectivity.value, numDependentNodes, depNodes)
    }

    /** The mesh is one setElementConnectivity and setDependentNodes accept, and every dependent entry names a node of the table. */
    ghost predicate Accepted()
      reads this`connectivity, this`depNodes
      requires connectivity.Some? && |ownerRange| >= 1
    {
      MeshValid(MeshOf()) && WithinTotal(MeshOf(), TotalNodes(ownerRange))
    }

    ghost predicate Valid()
      reads this
    {
      && RangesValid() && ShapesValid() && BcsValid() && MaximaValid() && NumberingValid() && SplitValid()
    }

    /** The local/coupling split of createFEMat exists only after initialize. */
    ghost predicate SplitValid()
      reads this`meshInitialized, this`feSplit
    {
      !meshInitialized ==> feSplit.None?
    }

    /** The owner range, the rank and the owned count agree. */
    ghost predicate RangesValid()
    {
      && OwnerRanges(ownerRange) && 0 <= mpiRank < |ownerRange| - 1
      && numOwnedNodes == ownerRange[mpiRank + 1] - ownerRange[mpiRank]
    }

    /** The element, connectivity and dependent-node inputs have the declared sizes. */
    ghost predicate ShapesValid()
      reads this`elements, this`connectivity, this`depNodes, this`meshInitialized
    {
      && (elements.Some? ==> |elements.value| == numElements)
      && (connectivity.Some? ==>
            PointerArray(connectivity.value.elementNodeIndex, numElements, |connectivity.value.elementTacsNodes|))
      && (depNodes.Some? ==>
            && DepNodesShape(depNodes.value, numDependentNodes)
            && forall k :: 0 <= k < |depNodes.value.depNodeToTacs| ==> 0 <= depNodes.value.depNodeToTacs[k])
      && (meshInitialized ==>
            && connectivity.Some? && elements.Some?
            && (numDependentNodes > 0 ==> depNodes.Some?))
    }

    /** Every boundary condition is on a node this process owns. */
    ghost predicate BcsValid()
      reads this`bcs
    {
      RangesValid() && forall k :: 0 <= k < |bcs| ==> OwnerStart() <= bcs[k].node < OwnerEnd()
    }

    /** The element size maxima are never negative. */
    ghost predicate MaximaValid()
      reads this`maxElementSize, this`maxElementNodes, this`maxElementIndepNodes
    {
      0 <= maxElementSize && 0 <= maxElementNodes && 0 <= maxElementIndepNodes
    }

    /** The external-node numbering covers the mesh, and the cached numberings agree with it. */
    ghost predicate NumberingValid()
      reads this`tacsExtNodeNums, this`extDistIndices, this`numExtNodes, this`extNodeOffset, this`numNodes,
            this`connectivity, this`depNodes, this`meshInitialized,
            this`newNodeIndices, this`distMatIndices
    {
      && RangesValid()
      && WellFormed(Slots())
      && !(tacsExtNodeNums.Some? && extDistIndices.Some?)
      && (tacsExtNodeNums.Some? ==> connectivity.Some? && !meshInitialized && Covered(Slots(), MeshOf()))
      && (meshInitialized ==> connectivity.Some? && extDistIndices.Some? && Resolved(Slots(), MeshOf()))
      && (!meshInitialized ==> extDistIndices.None? && distMatIndices.None?)
      && (newNodeIndices.Some? ==>
            && Slots().ext.Some? && |newNodeIndices.value| == numNodes
            && OwnedBijection(newNodeIndices.value, extNodeOffset, extNodeOffset + numOwnedNodes, OwnerStart()))
      && (distMatIndices.Some? ==>
            && Slots().ext.Some? && |distMatIndices.value| == numNodes
            && forall s :: 0 <= s < numNodes ==> distMatIndices.value[s] == GlobalNodeNum(Slots(), s))
    }

    /**
      The constructor (lines 34-139): nothing set, no external nodes, no
      reordering, not initialized.  The ownership ranges come from the
      variable map, built from every process's owned count.
    */
    constructor(ownerRange: seq<int>, mpiRank: nat, varsPerNode: int, numElements: nat, numDependentNodes: nat)
      requires OwnerRanges(ownerRange) && mpiRank < |ownerRange| - 1
      ensures Valid()
      ensures this.ownerRange == ownerRange && this.mpiRank == mpiRank
      ensures this.varsPerNode == varsPerNode && this.numElements == numElements
      ensures this.numDependentNodes == numDependentNodes
      ensures numOwnedNodes == ownerRange[mpiRank + 1] - ownerRange[mpiRank]
      ensures !meshInitialized && elements.None? && connectivity.None? && depNodes.None? && bcs == []
      ensures tacsExtNodeNums.None? && extDistIndices.None? && numExtNodes == 0 && numNodes == 0 && extNodeOffset == 0
      ensures maxElementSize == 0 && maxElementNodes == 0 && maxElementIndepNodes == 0
      ensures newNodeIndices.None? && distMatIndices.None? && feSplit.None?
    {
      this.ownerRange := ownerRange;
      this.mpiRank := mpiRank;
      this.varsPerNode := varsPerNode;
      this.numElements := numElements;
      this.numDependentNodes := numDependentNodes;
      this.numOwnedNodes := ownerRange[mpiRank + 1] - ownerRange[mpiRank];
      meshInitialized := false;
      elements := None;
      connectivity := None;
      depNodes := None;
      bcs := [];
      tacsExtNodeNums := None;
      extDistIndices := None;
      numExtNodes := 0;
      numNodes := 0;
      extNodeOffset := 0;
      maxElementSize := 0;
      maxElementNodes := 0;
      maxElementIndepNodes := 0;
      dataSize := 0;
      idataSize := 0;
      newNodeIndices := None;
      distMatIndices := None;
      feSplit := None;
    }

    /**
      setElementConnectivity (lines 282-344): refused (1) after initialize or
      after a reordering.  Otherwise the copy is installed first and then
      checked: 1 when an element's node count differs from its row, -1 when
      an entry is at least the total number of nodes or below
      -numDependentNodes, and 0 when the connectivity is accepted.
    */
    method SetElementConnectivity(conn: seq<int>, ptr: seq<int>) returns (status: int)
      requires Valid()
      requires InputRows(ptr, numElements, |conn|)
      modifies this`connectivity
      ensures Valid()
      ensures old(meshInitialized || tacsExtNodeNums.Some?) ==> status == 1 && unchanged(this)
      ensures !old(meshInitialized || tacsExtNodeNums.Some?) ==>
                && connectivity == Some(Connectivity(ptr, conn[..ptr[numElements]]))
                && (status == 1 <==> elements.Some? && !SizesMatch(ptr, elements.value))
                && (status == -1 <==>
                      (elements.None? || SizesMatch(ptr, elements.value)) &&
                      !RowsWithin(ptr, conn[..ptr[numElements]], numElements, -(numDependentNodes as int), TotalNodes(ownerRange)))
                && (status == 0 <==>
                      (elements.None? || SizesMatch(ptr, elements.value)) &&
                      RowsWithin(ptr, conn[..ptr[numElements]], numElements, -(numDependentNodes as int), TotalNodes(ownerRange)))
    {
      if meshInitialized || tacsExtNodeNums.Some? {
        return 1;
      }
      var nodes := conn[..ptr[numElements]];
      connectivity := Some(Connectivity(ptr, nodes));
      if elements.Some? {
        var sizesOk := CheckSizes(ptr, elements.value);
        if !sizesOk {
          return 1;
        }
      }
      var inRange := CheckRows(ptr, nodes, numElements, -(numDependentNodes as int), ownerRange[|ownerRange| - 1]);
      if !inRange {
        return -1;
      }
      return 0;
    }

    /**
      setElements (lines 357-421): refused (1) after initialize.  Otherwise
      the elements are installed, maxElementSize and maxElementNodes are the
      maxima over the elements up to the first whose displacement count is
      not varsPerNode, and the status is 1 when there is such an element or
      when an element's node count differs from its connectivity row.
    */
    method SetElements(elems: seq<ElementInfo>) returns (status: int)
      requires Valid() && |elems| == numElements
      modifies this`elements, this`maxElementSize, this`maxElementNodes
      ensures Valid()
      ensures old(meshInitialized) ==> status == 1 && unchanged(this)
      ensures !old(meshInitialized) ==>
                && elements == Some(elems)
                && maxElementSize == MaxOrZero(VariableCounts(elems[..FirstMismatch(elems, varsPerNode)]))
                && maxElementNodes == MaxOrZero(NodeCounts(elems[..FirstMismatch(elems, varsPerNode)]))
                && (status == 0 || status == 1)
                && (status == 0 <==>
                      FirstMismatch(elems, varsPerNode) == |elems| &&
                      (connectivity.Some? ==> SizesMatch(connectivity.value.elementNodeIndex, elems)))
    {
      if meshInitialized {
        return 1;
      }
      var maxSize, maxNodes;
      status, maxSize, maxNodes := CheckElements(elems, varsPerNode, connectivity);
      elements := Some(elems);
      maxElementSize := maxSize;
      maxElementNodes := maxNodes;
      assert NumberingValid() == old(NumberingValid()) && BcsValid() == old(BcsValid());
    }

    /**
      setDependentNodes (lines 436-496): refused (1) after initialize or
      after a reordering, and (1) when an independent node is negative or at
      least the total number of nodes; otherwise the table is installed and
      the status is 0.
    */
    method SetDependentNodes(depNodePtr: seq<int>, depNodeToTacs: seq<int>, depNodeWeights: seq<real>)
      returns (status: int)
      requires Valid()
      requires InputRows(depNodePtr, numDependentNodes, |depNodeToTacs|) && depNodePtr[0] == 0
      requires depNodePtr[numDependentNodes] <= |depNodeWeights|
      modifies this`depNodes
      ensures Valid()
      ensures old(meshInitialized || tacsExtNodeNums.Some?) ==> status == 1 && unchanged(this)
      ensures !old(meshInitialized || tacsExtNodeNums.Some?) ==>
                var size := depNodePtr[numDependentNodes];
                var ok := RowsWithin(depNodePtr, depNodeToTacs, numDependentNodes, 0, TotalNodes(ownerRange));
                && (status == 0 <==> ok) && (status == 1 <==> !ok)
                && (ok ==> depNodes == Some(DepNodes(depNodePtr, depNodeToTacs[..size], depNodeWeights[..size])))
                && (!ok ==> depNodes == old(depNodes))
    {
      if meshInitialized || tacsExtNodeNums.Some? {
        return 1;
      }
      var ok := CheckRows(depNodePtr, depNodeToTacs, numDependentNodes, 0, ownerRange[|ownerRange| - 1]);
      if !ok {
        return 1;
      }
      var size := depNodePtr[numDependentNodes];
      depNodes := Some(DepNodes(depNodePtr, depNodeToTacs[..size], depNodeWeights[..size]));
      return 0;
    }

    /**
      addBCs (lines 502-529): nothing after initialize; otherwise every node
      of this process's range is added with nbcs constrained variables, or
      varsPerNode of them when no variables are named or nbcs is negative.
    */
    method AddBCs(nodes: seq<int>, nbcs: int, hasVars: bool)
      requires Valid()
      modifies this`bcs
      ensures Valid()
      ensures old(meshInitialized) ==> bcs == old(bcs)
      ensures !old(meshInitialized) ==>
                var n := if !hasVars || nbcs < 0 then varsPerNode else nbcs;
                var added := NodesWithin(nodes, OwnerStart(), OwnerEnd());
                && |bcs| == |old(bcs)| + |added|
                && bcs[..|old(bcs)|] == old(bcs)
                && (forall k :: 0 <= k < |added| ==> bcs[|old(bcs)| + k] == Bc(added[k], n))
    {
      if meshInitialized {
        return;
      }
      var n := if !hasVars || nbcs < 0 then varsPerNode else nbcs;
      var lo, hi := ownerRange[mpiRank], ownerRange[mpiRank + 1];
      var added := OwnedBcs(nodes, n, lo, hi);
      NodesWithinMembers(nodes, lo, hi);
      forall k | 0 <= k < |added| ensures Owned(Slots(), added[k].node) {
        assert NodesWithin(nodes, lo, hi)[k] in NodesWithin(nodes, lo, hi);
      }
      bcs := bcs + added;
      assert NumberingValid() == old(NumberingValid()) && ShapesValid() == old(ShapesValid());
    }

    /**
      computeExtNodes (lines 613-698): refused (1) after initialize or without
      a connectivity.  Otherwise tacsExtNodeNums becomes the sorted distinct
      external nodes of the connectivity and the dependent-node table, and
      numExtNodes, numNodes and extNodeOffset follow from it.
    */
    method ComputeExtNodes() returns (status: int)
      requires Valid() && tacsExtNodeNums.None?
      modifies this`tacsExtNodeNums, this`numExtNodes, this`numNodes, this`extNodeOffset
      ensures Valid()
      ensures old(meshInitialized || connectivity.None?) ==> status == 1 && unchanged(this)
      ensures !old(meshInitialized || connectivity.None?) ==>
                var lo, hi := OwnerStart(), OwnerEnd();
                && status == 0 && tacsExtNodeNums.Some? && StrictlyIncreasing(tacsExtNodeNums.value)
                && (forall x :: x in tacsExtNodeNums.value <==>
                      External(lo, hi, x) && (x in MeshOf().conn.elementTacsNodes || x in DepList(MeshOf())))
    {
      if meshInitialized || connectivity.None? {
        return 1;
      }
      var lo, hi := ownerRange[mpiRank], ownerRange[mpiRank + 1];
      var m := MeshOf();
      var sm := ExtNodes.ComputeExtNodes(lo, hi, m);
      ExtNodesResolve(lo, hi, m, sm);
      tacsExtNodeNums := sm.ext;
      numExtNodes := sm.numExt;
      numNodes := sm.numNodes;
      extNodeOffset := sm.extOffset;
      assert Slots() == sm && MeshOf() == m;
      assert ShapesValid() == old(ShapesValid());
      return 0;
    }

    /**
      computeReordering (lines 724-990), with the guard corrected to refuse
      after initialize.  The external nodes are computed, the new numbers are
      chosen (the owned ones by the ordering, the external ones as their
      owners answer through newNumberOf), and the connectivity, the
      dependent-node table, the boundary conditions and the external list
      move to them; newNodeIndices keeps the numbering.  answers holds the new
      numbers sent back for recvNodes, the owned nodes other processes ask
      about.  sm0 is the slot map computeExtNodes gave.
    */
    method ComputeReordering(order: OrderingType, matType: MatrixOrderingType, recvNodes: seq<int>,
                             newNumberOf: int -> int, oracle: Oracle)
      returns (answers: seq<int>, ghost sm0: SlotMap)
      requires Valid()
      requires OracleValid(oracle) && OwnersRenumber(ownerRange, newNumberOf)
      requires forall k :: 0 <= k < |recvNodes| ==> ownerRange[mpiRank] <= recvNodes[k] < ownerRange[mpiRank + 1]
      requires connectivity.Some? && tacsExtNodeNums.None? && !meshInitialized ==> Accepted()
      modifies this`tacsExtNodeNums, this`numExtNodes, this`numNodes, this`extNodeOffset
      modifies this`connectivity, this`depNodes, this`bcs, this`newNodeIndices
      ensures Valid()
      ensures !ReorderGuardPasses(old(connectivity.Some?), old(tacsExtNodeNums.Some?), meshInitialized) ==>
                answers == [] && unchanged(this)
      ensures ReorderGuardPasses(old(connectivity.Some?), old(tacsExtNodeNums.Some?), meshInitialized) ==>
                var lo, hi := OwnerStart(), OwnerEnd();
                var m0 := old(MeshOf());
                && WellFormed(sm0) && sm0.ext.Some? && sm0.ownerStart == lo && sm0.ownerEnd == hi
                && sm0.ext.value == UniqueSort(ExternalOf(m0.conn.elementTacsNodes, lo, hi) + ExternalOf(DepList(m0), lo, hi))
                && Resolved(sm0, m0)
                && newNodeIndices.Some?
                && ReorderOutcome(sm0, m0, old(bcs), ownerRange, recvNodes, newNumberOf,
                                  newNodeIndices.value, answers, Slots(), MeshOf(), bcs)
                && OrderedNumbers(sm0, m0, |ownerRange| == 2, order, matType, CouplingNodes(sm0, recvNodes),
                                  oracle, newNodeIndices.value)
    {
      if !ReorderGuardPasses(connectivity.Some?, tacsExtNodeNums.Some?, meshInitialized) {
        answers, sm0 := [], Slots();
        return;
      }
      ghost var m0, bcs0 := MeshOf(), bcs;
      var status := ComputeExtNodes();
      assert MeshOf() == m0 && bcs == bcs0;
      ExternalListIsUniqueSort(tacsExtNodeNums.value, OwnerStart(), OwnerEnd(), m0);
      sm0 := Slots();
      answers := ReorderExternal(order, matType, recvNodes, newNumberOf, oracle);
    }

    /** computeReordering once computeExtNodes has run (lines 744-986). */
    method ReorderExternal(order: OrderingType, matType: MatrixOrderingType, recvNodes: seq<int>,
                           newNumberOf: int -> int, oracle: Oracle)
      returns (answers: seq<int>)
      requires Valid() && tacsExtNodeNums.Some? && !meshInitialized && connectivity.Some? && Accepted()
      requires OracleValid(oracle) && OwnersRenumber(ownerRange, newNumberOf)
      requires forall k :: 0 <= k < |recvNodes| ==> ownerRange[mpiRank] <= recvNodes[k] < ownerRange[mpiRank + 1]
      requires forall x :: x in tacsExtNodeNums.value <==>
                 External(OwnerStart(), OwnerEnd(), x) &&
                 (x in MeshOf().conn.elementTacsNodes || x in DepList(MeshOf()))
      modifies this`tacsExtNodeNums, this`connectivity, this`depNodes, this`bcs, this`newNodeIndices
      ensures Valid()
      ensures Resolved(old(Slots()), old(MeshOf())) && newNodeIndices.Some?
      ensures ReorderOutcome(old(Slots()), old(MeshOf()), old(bcs), ownerRange, recvNodes, newNumberOf,
                             newNodeIndices.value, answers, Slots(), MeshOf(), bcs)
      ensures OrderedNumbers(old(Slots()), old(MeshOf()), |ownerRange| == 2, order, matType,
                             CouplingNodes(old(Slots()), recvNodes), oracle, newNodeIndices.value)
    {
      var sm := Slots();
      var m := MeshOf();
      ghost var bcs0 := bcs;
      ReorderInputs(sm, m, ownerRange, mpiRank, bcs, recvNodes);
      var nn, sm', m', bcs';
      nn, answers, sm', m', bcs' := ReorderAll(sm, m, bcs, ownerRange, mpiRank, order, matType, recvNodes, newNumberOf, oracle);
      InstallReordering(sm', m', bcs', nn);
      assert newNodeIndices.value == nn && Slots() == sm' && MeshOf() == m' && bcs == bcs';
    }

    /** The last steps of computeReordering (lines 937-982): the renumbered mesh, boundary conditions and external list are stored, and newNodeIndices is set. */
    method InstallReordering(sm': SlotMap, m': Mesh, bcs': seq<Bc>, nn: seq<int>)
      requires Valid() && tacsExtNodeNums.Some? && !meshInitialized
      requires Resolved(sm', m') && sm' == Slots().(ext := sm'.ext)
      requires m'.numElements == numElements && m'.numDependentNodes == numDependentNodes
      requires forall k :: 0 <= k < |bcs'| ==> Owned(sm', bcs'[k].node)
      requires |nn| == numNodes && OwnedBijection(nn, extNodeOffset, extNodeOffset + numOwnedNodes, OwnerStart())
      modifies this`tacsExtNodeNums, this`connectivity, this`depNodes, this`bcs, this`newNodeIndices
      ensures Valid()
      ensures Slots() == sm' && MeshOf() == m' && bcs == bcs' && newNodeIndices == Some(nn)
    {
      ResolvedShapes(sm', m');
      tacsExtNodeNums := sm'.ext;
      connectivity := Some(m'.conn);
      depNodes := m'.deps;
      bcs := bcs';
      newNodeIndices := Some(nn);
      assert Slots() == sm' && MeshOf() == m';
      assert MaximaValid() == old(MaximaValid());
    }

    /**
      initialize (lines 1881-1977): refused (1) when already initialized, when
      dependent nodes are declared but not set, or without elements or a
      connectivity.  Otherwise the external nodes are computed if no
      reordering did so, the mesh is marked initialized, maxElementIndepNodes
      is the largest count of independent nodes an element reaches through
      its dependent nodes (at least maxElementNodes), tacsExtNodeNums becomes
      extDistIndices, and the sizes of the working arrays are set.  The source
      ends without a return statement; the model returns 0.
    */
    method Initialize() returns (status: int)
      requires Valid()
      requires (!meshInitialized && elements.Some? && connectivity.Some? &&
                !(numDependentNodes > 0 && depNodes.None?)) ==> MeshValid(MeshOf())
      modifies this`meshInitialized, this`tacsExtNodeNums, this`extDistIndices, this`numExtNodes
      modifies this`numNodes, this`extNodeOffset, this`maxElementIndepNodes, this`dataSize, this`idataSize
      ensures Valid()
      ensures old(meshInitialized || (numDependentNodes > 0 && depNodes.None?) || elements.None? || connectivity.None?) ==>
                status == 1 && unchanged(this)
      ensures !old(meshInitialized || (numDependentNodes > 0 && depNodes.None?) || elements.None? || connectivity.None?) ==>
                var lo, hi := OwnerStart(), OwnerEnd();
                && status == 0 && meshInitialized && tacsExtNodeNums.None?
                && (old(tacsExtNodeNums).Some? ==> extDistIndices == old(tacsExtNodeNums))
                && (old(tacsExtNodeNums).None? ==>
                      extDistIndices == Some(UniqueSort(ExternalOf(MeshOf().conn.elementTacsNodes, lo, hi) +
                                                        ExternalOf(DepList(MeshOf()), lo, hi))))
                && (numDependentNodes == 0 ==> maxElementIndepNodes == maxElementNodes)
                && (numDependentNodes > 0 ==>
                      && maxElementIndepNodes >= maxElementNodes
                      && (forall e :: 0 <= e < numElements ==>
                            IndepCount(MeshOf(), ElementEntries(MeshOf(), e)) <= maxElementIndepNodes)
                      && (maxElementIndepNodes == maxElementNodes ||
                          exists e :: 0 <= e < numElements && maxElementIndepNodes == IndepCount(MeshOf(), ElementEntries(MeshOf(), e))))
                && dataSize == DataSize(maxElementIndepNodes, maxElementSize, maxElementNodes)
                && idataSize == IDataSize(maxElementIndepNodes, maxElementNodes)
    {
      if meshInitialized || (numDependentNodes > 0 && depNodes.None?) || elements.None? || connectivity.None? {
        return 1;
      }
      status := InitializeMesh();
    }

    /** The body of initialize once its checks have passed (lines 1902-1976). */
    method InitializeMesh() returns (status: int)
      requires Valid() && !meshInitialized && elements.Some? && connectivity.Some?
      requires !(numDependentNodes > 0 && depNodes.None?) && MeshValid(MeshOf())
      modifies this`meshInitialized, this`tacsExtNodeNums, this`extDistIndices, this`numExtNodes
      modifies this`numNodes, this`extNodeOffset, this`maxElementIndepNodes, this`dataSize, this`idataSize
      ensures Valid()
      ensures
                var lo, hi := OwnerStart(), OwnerEnd();
                && status == 0 && meshInitialized && tacsExtNodeNums.None?
                && (old(tacsExtNodeNums).Some? ==> extDistIndices == old(tacsExtNodeNums))
                && (old(tacsExtNodeNums).None? ==>
                      extDistIndices == Some(UniqueSort(ExternalOf(MeshOf().conn.elementTacsNodes, lo, hi) +
                                                        ExternalOf(DepList(MeshOf()), lo, hi))))
                && (numDependentNodes == 0 ==> maxElementIndepNodes == maxElementNodes)
                && (numDependentNodes > 0 ==>
                      && maxElementIndepNodes >= maxElementNodes
                      && (forall e :: 0 <= e < numElements ==>
                            IndepCount(MeshOf(), ElementEntries(MeshOf(), e)) <= maxElementIndepNodes)
                      && (maxElementIndepNodes == maxElementNodes ||
                          exists e :: 0 <= e < numElements && maxElementIndepNodes == IndepCount(MeshOf(), ElementEntries(MeshOf(), e))))
                && dataSize == DataSize(maxElementIndepNodes, maxElementSize, maxElementNodes)
                && idataSize == IDataSize(maxElementIndepNodes, maxElementNodes)
    {
      if tacsExtNodeNums.None? {
        var st := ComputeExtNodes();
        ExternalListIsUniqueSort(tacsExtNodeNums.value, OwnerStart(), OwnerEnd(), MeshOf());
      }
      FinishInitialize();
      return 0;
    }

    /** The steps of initialize once the external nodes are known (lines 1908-1976). */
    method FinishInitialize()
      requires Valid() && !meshInitialized && tacsExtNodeNums.Some? && elements.Some? && connectivity.Some?
      requires !(numDependentNodes > 0 && depNodes.None?) && MeshValid(MeshOf())
      modifies this`meshInitialized, this`tacsExtNodeNums, this`extDistIndices
      modifies this`maxElementIndepNodes, this`dataSize, this`idataSize
      ensures Valid()
      ensures meshInitialized && tacsExtNodeNums.None? && extDistIndices == old(tacsExtNodeNums)
      ensures numDependentNodes == 0 ==> maxElementIndepNodes == maxElementNodes
      ensures numDependentNodes > 0 ==>
                && maxElementIndepNodes >= maxElementNodes
                && (forall e :: 0 <= e < numElements ==>
                      IndepCount(MeshOf(), ElementEntries(MeshOf(), e)) <= maxElementIndepNodes)
                && (maxElementIndepNodes == maxElementNodes ||
                    exists e :: 0 <= e < numElements && maxElementIndepNodes == IndepCount(MeshOf(), ElementEntries(MeshOf(), e)))
      ensures dataSize == DataSize(maxElementIndepNodes, maxElementSize, maxElementNodes)
      ensures idataSize == IDataSize(maxElementIndepNodes, maxElementNodes)
    {
      MarkInitialized();
      SetWorkSizes();
    }

    /** Lines 1910 and 1942-1944: the mesh is marked initialized and tacsExtNodeNums becomes extDistIndices. */
    method MarkInitialized()
      requires Valid() && !meshInitialized && tacsExtNodeNums.Some? && elements.Some? && connectivity.Some?
      requires !(numDependentNodes > 0 && depNodes.None?) && MeshValid(MeshOf())
      modifies this`meshInitialized, this`tacsExtNodeNums, this`extDistIndices
      ensures Valid()
      ensures meshInitialized && tacsExtNodeNums.None? && extDistIndices == old(tacsExtNodeNums)
    {
      ghost var sm := Slots();
      assert Resolved(sm, MeshOf());
      meshInitialized := true;
      extDistIndices := tacsExtNodeNums;
      tacsExtNodeNums := None;
      assert Slots() == sm;
    }

    /** Lines 1916-1939 and 1963-1975: maxElementIndepNodes and the sizes of the working arrays. */
    method SetWorkSizes()
      requires Valid() && connectivity.Some? && MeshValid(MeshOf())
      modifies this`maxElementIndepNodes, this`dataSize, this`idataSize
      ensures Valid()
      ensures numDependentNodes == 0 ==> maxElementIndepNodes == maxElementNodes
      ensures numDependentNodes > 0 ==>
                && maxElementIndepNodes >= maxElementNodes
                && (forall e :: 0 <= e < numElements ==>
                      IndepCount(MeshOf(), ElementEntries(MeshOf(), e)) <= maxElementIndepNodes)
                && (maxElementIndepNodes == maxElementNodes ||
                    exists e :: 0 <= e < numElements && maxElementIndepNodes == IndepCount(MeshOf(), ElementEntries(MeshOf(), e)))
      ensures dataSize == DataSize(maxElementIndepNodes, maxElementSize, maxElementNodes)
      ensures idataSize == IDataSize(maxElementIndepNodes, maxElementNodes)
    {
      var maxIndep := maxElementNodes;
      if numDependentNodes > 0 {
        maxIndep := MaxIndepNodes(MeshOf(), maxElementNodes);
      }
      maxElementIndepNodes := maxIndep;
      dataSize := DataSize(maxIndep, maxElementSize, maxElementNodes);
      idataSize := IDataSize(maxIndep, maxElementNodes);
      assert NumberingValid() == old(NumberingValid()) && ShapesValid() == old(ShapesValid());
    }

    /**
      getReordering (lines 2109-2123): the new number of each owned node, a
      bijection of this process's range; the identity before a reordering.
    */
    function GetReordering(): (oldToNew: seq<int>)
      reads this
      requires Valid()
      ensures |oldToNew| == numOwnedNodes
      ensures IsPermutation(Shifted(oldToNew, OwnerStart()), numOwnedNodes)
      ensures newNodeIndices.None? ==> forall k :: 0 <= k < numOwnedNodes ==> oldToNew[k] == OwnerStart() + k
    {
      ReorderingIsPermutation(Slots(), newNodeIndices);
      Reorder.GetReordering(Slots(), newNodeIndices)
    }

    /**
      reorderVec (lines 2135-2166): with a reordering, block i of the owned
      part of x moves to the block of owned node i's new position; without
      one, x is left alone.
    */
    method ReorderVector(x: array<real>, bsize: nat)
      requires Valid() && bsize * numOwnedNodes <= x.Length
      modifies x
      ensures newNodeIndices.None? ==> x[..] == old(x[..])
      ensures newNodeIndices.Some? ==>
                var perm := Shifted(GetReordering(), OwnerStart());
                && (forall i, k :: 0 <= i < |perm| && 0 <= k < bsize ==>
                      x[At(bsize, |perm|, perm[i], k)] == old(x[At(bsize, |perm|, i, k)]))
                && (forall j :: bsize * |perm| <= j < x.Length ==> x[j] == old(x[j]))
    {
      if newNodeIndices.Some? {
        var perm := Shifted(GetReordering(), ownerRange[mpiRank]);
        ReorderVec(perm, bsize, x);
      }
    }

    /** createVec (lines 2267-2277): nothing before initialize, else a vector over the owned nodes and extDistIndices. */
    method CreateVec() returns (layout: Option<VecLayout>)
      requires Valid()
      ensures layout.Some? <==> meshInitialized
      ensures layout.Some? ==>
                && layout.value.blockSize == varsPerNode && layout.value.numOwned == numOwnedNodes
                && Some(layout.value.extNodes) == extDistIndices
    {
      if !meshInitialized {
        return None;
      }
      return Some(VecLayout(varsPerNode, numOwnedNodes, extDistIndices.value));
    }

    /**
      createMat (lines 2291-2323): nothing before initialize.  Otherwise
      distMatIndices, the global number of every local slot, is computed on
      the first call and reused after, and the matrix gets the local
      node-to-node graph with its diagonal.
    */
    method CreateMat() returns (mat: Option<MatLayout>)
      requires Valid()
      modifies this`distMatIndices
      ensures Valid()
      ensures !meshInitialized ==> mat.None? && distMatIndices == old(distMatIndices)
      ensures meshInitialized ==>
                && (old(distMatIndices).Some? ==> distMatIndices == old(distMatIndices))
                && mat.Some? && distMatIndices == Some(mat.value.indices)
                && |mat.value.indices| == numNodes
                && (forall s :: 0 <= s < numNodes ==> mat.value.indices[s] == GlobalNodeNum(Slots(), s))
                && RowsAre(mat.value.rowp, mat.value.cols, NeighbourRows(ElementTable(Slots(), MeshOf()), numNodes, false))
    {
      if !meshInitialized {
        return None;
      }
      if distMatIndices.None? {
        var indices := GlobalIndices(Slots());
        distMatIndices := Some(indices);
      }
      var rowp, cols := NodeToNodeCsr(Slots(), MeshOf(), false);
      return Some(MatLayout(rowp, cols, distMatIndices.value));
    }

    /**
      createFEMat (lines 2361-2545): nothing before initialize.  On the first
      call the local and coupling nodes are split and ordered (NATURAL_ORDER
      is replaced by TACS_AMD_ORDER), and later calls reuse that split.
    */
    method CreateFEMat(order: OrderingType, recvNodes: seq<int>, oracle: Oracle, couplingOracle: CouplingOracle)
      returns (split: Option<Split>)
      requires Valid() && OracleValid(oracle) && CouplingOracleValid(couplingOracle)
      requires forall k :: 0 <= k < |recvNodes| ==> ownerRange[mpiRank] <= recvNodes[k] < ownerRange[mpiRank + 1]
      modifies this`feSplit
      ensures Valid()
      ensures !meshInitialized ==> split.None? && feSplit == old(feSplit)
      ensures meshInitialized ==> split.Some? && feSplit == split
      ensures meshInitialized && old(feSplit).Some? ==> feSplit == old(feSplit)
      ensures meshInitialized && old(feSplit).None? ==>
                SplitOf(old(Slots()), old(MeshOf()), order, recvNodes, oracle, couplingOracle, split.value)
    {
      if !meshInitialized {
        return None;
      }
      if feSplit.None? {
        var sp := ComputeSplit(Slots(), MeshOf(), order, recvNodes, oracle, couplingOracle);
        StoreSplit(sp);
      }
      return feSplit;
    }

    /** Keeps the split for later calls (feMatBMap and the rest, lines 2519-2540). */
    method StoreSplit(sp: Split)
      requires Valid() && meshInitialized
      modifies this`feSplit
      ensures Valid() && feSplit == Some(sp)
    {
      feSplit := Some(sp);
    }
  }
}
