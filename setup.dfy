/**
  The setup phase of TACSAssembler: the checks setElementConnectivity,
  setElements and setDependentNodes run on their inputs, the element maxima
  of setElements, the boundary-condition filter of addBCs, and the element
  scratch buffers that initialize sizes and getDataPointers carves up.
*/
module Setup {
  import opened Numbering
  import opened GraphSpec

  /** What the assembler asks of an element object: numNodes(), numVariables() and numDisplacements(). */
  datatype ElementInfo = ElementInfo(numNodes: int, numVariables: int, numDisplacements: int)

  /** A boundary condition as addBCs hands it to the BC map: a node and its number of constrained variables. */
  datatype Bc = Bc(node: int, nbcs: int)

  /** An input pointer array of n rows whose entries lie within a list of len values. */
  ghost predicate InputRows(ptr: seq<int>, n: nat, len: int) {
    |ptr| == n + 1 && PointerArray(ptr, n, ptr[n]) && ptr[n] <= len
  }

  /** Every element has as many nodes as its row of the connectivity. */
  ghost predicate SizesMatch(ptr: seq<int>, elems: seq<ElementInfo>)
    requires |ptr| == |elems| + 1
  {
    forall i :: 0 <= i < |elems| ==> ptr[i + 1] - ptr[i] == elems[i].numNodes
  }

  /**
    The size loops of setElementConnectivity (lines 310-320) and setElements
    (lines 408-418): stop at the first element whose row length differs from
    its node count.
  */
  method CheckSizes(ptr: seq<int>, elems: seq<ElementInfo>) returns (ok: bool)
    requires |ptr| == |elems| + 1
    ensures ok <==> SizesMatch(ptr, elems)
  {
    for i := 0 to |elems|
      invariant forall k :: 0 <= k < i ==> ptr[k + 1] - ptr[k] == elems[k].numNodes
    {
      if ptr[i + 1] - ptr[i] != elems[i].numNodes {
        return false;
      }
    }
    return true;
  }

  /** Every value of rows 0 .. n-1 lies in [lo, hi). */
  ghost predicate RowsWithin(ptr: seq<int>, vals: seq<int>, n: nat, lo: int, hi: int)
    requires InputRows(ptr, n, |vals|)
  {
    forall j :: ptr[0] <= j < ptr[n] ==> lo <= vals[j] < hi
  }

  /**
    The range loops of setElementConnectivity (lines 327-343, with lo the
    lowest dependent entry -numDependentNodes) and setDependentNodes (lines
    454-469, with lo = 0): stop at the first value outside [lo, hi), hi being
    ownerRange[mpiSize].
  */
  method CheckRows(ptr: seq<int>, vals: seq<int>, n: nat, lo: int, hi: int) returns (ok: bool)
    requires InputRows(ptr, n, |vals|)
    ensures ok <==> RowsWithin(ptr, vals, n, lo, hi)
  {
    for i := 0 to n
      invariant forall j :: ptr[0] <= j < ptr[i] ==> lo <= vals[j] < hi
    {
      for j := ptr[i] to ptr[i + 1]
        invariant forall k :: ptr[0] <= k < j ==> lo <= vals[k] < hi
      {
        if vals[j] >= hi || vals[j] < lo {
          return false;
        }
      }
    }
    return true;
  }

  /**
    setElementConnectivity's result once its guards pass, as written: 1 on a
    size mismatch, -1 on an entry out of range, and otherwise whatever value
    the caller finds, since the function ends without a return statement
    (line 344); fallOff stands for that value.
  */
  function ConnectivityStatusAsWritten(sizesOk: bool, inRange: bool, fallOff: int): int {
    if !sizesOk then 1 else if !inRange then -1 else fallOff
  }

  /** A valid connectivity can be reported as a size mismatch or as an entry out of range. */
  lemma ValidConnectivityMisreported()
    ensures ConnectivityStatusAsWritten(true, true, 1) == ConnectivityStatusAsWritten(false, true, 0)
    ensures ConnectivityStatusAsWritten(true, true, -1) == ConnectivityStatusAsWritten(true, false, 0)
  {
  }

  /**
    initialize's result, as written: 1 from each guard, and otherwise whatever
    value the caller finds, since the function ends without a return statement
    (line 1977); fallOff stands for that value.
  */
  function InitializeStatusAsWritten(guardFails: bool, fallOff: int): int {
    if guardFails then 1 else fallOff
  }

  /** A successful initialize can be reported as a refused one. */
  lemma InitializeMisreported()
    ensures InitializeStatusAsWritten(false, 1) == InitializeStatusAsWritten(true, 0)
  {
  }

  /** The largest of the values, or 0 when there is none larger (the starting value of the maxima). */
  function MaxOrZero(s: seq<int>): (r: int)
    ensures r >= 0
  {
    if s == [] then 0
    else
      var r0 := MaxOrZero(s[..|s| - 1]);
      if s[|s| - 1] > r0 then s[|s| - 1] else r0
  }

  /** MaxOrZero bounds every value and is one of them unless it is 0. */
  lemma {:induction false} MaxOrZeroIsMax(s: seq<int>)
    ensures forall k :: 0 <= k < |s| ==> s[k] <= MaxOrZero(s)
    ensures MaxOrZero(s) == 0 || exists k :: 0 <= k < |s| && s[k] == MaxOrZero(s)
  {
    if s != [] {
      var p := s[..|s| - 1];
      MaxOrZeroIsMax(p);
      assert forall k :: 0 <= k < |p| ==> p[k] == s[k];
    }
  }

  function NodeCounts(elems: seq<ElementInfo>): (r: seq<int>)
    ensures |r| == |elems| && forall i :: 0 <= i < |elems| ==> r[i] == elems[i].numNodes
  {
    seq(|elems|, i requires 0 <= i < |elems| => elems[i].numNodes)
  }

  function VariableCounts(elems: seq<ElementInfo>): (r: seq<int>)
    ensures |r| == |elems| && forall i :: 0 <= i < |elems| ==> r[i] == elems[i].numVariables
  {
    seq(|elems|, i requires 0 <= i < |elems| => elems[i].numVariables)
  }

  /** The position of the first element whose numDisplacements differs from varsPerNode, or the count. */
  function FirstMismatch(elems: seq<ElementInfo>, varsPerNode: int): (k: nat)
    ensures k <= |elems|
    ensures forall i :: 0 <= i < k ==> elems[i].numDisplacements == varsPerNode
    ensures k < |elems| ==> elems[k].numDisplacements != varsPerNode
  {
    if elems == [] || elems[0].numDisplacements != varsPerNode then 0
    else 1 + FirstMismatch(elems[1..], varsPerNode)
  }

  /**
    The loop of setElements (lines 382-405): maxElementSize and
    maxElementNodes grow over the elements until the first one whose
    numDisplacements differs from varsPerNode, where setElements returns 1.
  */
  method ElementMaxima(elems: seq<ElementInfo>, varsPerNode: int) returns (ok: bool, maxSize: int, maxNodes: int)
    ensures ok <==> FirstMismatch(elems, varsPerNode) == |elems|
    ensures maxSize == MaxOrZero(VariableCounts(elems[..FirstMismatch(elems, varsPerNode)]))
    ensures maxNodes == MaxOrZero(NodeCounts(elems[..FirstMismatch(elems, varsPerNode)]))
  {
    maxSize, maxNodes := 0, 0;
    for i := 0 to |elems|
      invariant i <= FirstMismatch(elems, varsPerNode)
      invariant maxSize == MaxOrZero(VariableCounts(elems[..i]))
      invariant maxNodes == MaxOrZero(NodeCounts(elems[..i]))
    {
      if elems[i].numDisplacements != varsPerNode {
        assert elems[..FirstMismatch(elems, varsPerNode)] == elems[..i];
        return false, maxSize, maxNodes;
      }
      MaximaStep(elems, i);
      if elems[i].numVariables > maxSize {
        maxSize := elems[i].numVariables;
      }
      if elems[i].numNodes > maxNodes {
        maxNodes := elems[i].numNodes;
      }
    }
    assert elems[..|elems|] == elems;
    return true, maxSize, maxNodes;
  }

  lemma MaximaStep(elems: seq<ElementInfo>, i: nat)
    requires i < |elems|
    ensures var m := MaxOrZero(VariableCounts(elems[..i])); var x := elems[i].numVariables;
            MaxOrZero(VariableCounts(elems[..i + 1])) == if x > m then x else m
    ensures var m := MaxOrZero(NodeCounts(elems[..i])); var x := elems[i].numNodes;
            MaxOrZero(NodeCounts(elems[..i + 1])) == if x > m then x else m
  {
    assert VariableCounts(elems[..i + 1]) == VariableCounts(elems[..i]) + [elems[i].numVariables];
    assert NodeCounts(elems[..i + 1]) == NodeCounts(elems[..i]) + [elems[i].numNodes];
    MaxSnoc(VariableCounts(elems[..i]), elems[i].numVariables);
    MaxSnoc(NodeCounts(elems[..i]), elems[i].numNodes);
  }

  lemma MaxSnoc(s: seq<int>, x: int)
    ensures MaxOrZero(s + [x]) == if x > MaxOrZero(s) then x else MaxOrZero(s)
  {
    assert (s + [x])[..|s|] == s;
  }

  /** The nodes of the list that lie in [lo, hi), in list order. */
  function NodesWithin(nodes: seq<int>, lo: int, hi: int): (r: seq<int>)
  {
    if nodes == [] then []
    else
      var x := nodes[|nodes| - 1];
      NodesWithin(nodes[..|nodes| - 1], lo, hi) + (if lo <= x < hi then [x] else [])
  }

  /** A node is kept exactly when it is listed and lies in [lo, hi). */
  lemma {:induction false} NodesWithinMembers(nodes: seq<int>, lo: int, hi: int)
    ensures forall x :: x in NodesWithin(nodes, lo, hi) <==> x in nodes && lo <= x < hi
  {
    if nodes != [] {
      var init := nodes[..|nodes| - 1];
      NodesWithinMembers(init, lo, hi);
      assert nodes == init + [nodes[|nodes| - 1]];
    }
  }

  /**
    The loop of addBCs (lines 523-528): a condition of nbcs variables for
    each listed node in the ownership range [lo, hi) of this process.
  */
  method OwnedBcs(nodes: seq<int>, nbcs: int, lo: int, hi: int) returns (bcs: seq<Bc>)
    ensures |bcs| == |NodesWithin(nodes, lo, hi)|
    ensures forall k :: 0 <= k < |bcs| ==> bcs[k] == Bc(NodesWithin(nodes, lo, hi)[k], nbcs)
  {
    bcs := [];
    for i := 0 to |nodes|
      invariant |bcs| == |NodesWithin(nodes[..i], lo, hi)|
      invariant forall k :: 0 <= k < |bcs| ==> bcs[k] == Bc(NodesWithin(nodes[..i], lo, hi)[k], nbcs)
    {
      assert nodes[..i + 1][..i] == nodes[..i];
      if lo <= nodes[i] < hi {
        bcs := bcs + [Bc(nodes[i], nbcs)];
      }
    }
    assert nodes[..|nodes|] == nodes;
  }

  /** TACS_SPATIAL_DIM: the coordinates of a node. */
  const SpatialDim := 3

  /** The element matrix or the derivative of the residual with respect to the nodes, whichever is larger. */
  function MatSegment(maxSize: nat, maxNodes: nat): nat {
    if SpatialDim * maxNodes > maxSize then SpatialDim * maxNodes * maxSize else maxSize * maxSize
  }

  /** Lines 1965-1972: dataSize, the length of elementData. */
  function DataSize(maxIndep: nat, maxSize: nat, maxNodes: nat): nat {
    maxIndep + 4 * maxSize + 2 * SpatialDim * maxNodes + MatSegment(maxSize, maxNodes)
  }

  /** Lines 1974-1975: idataSize, the length of elementIData. */
  function IDataSize(maxIndep: nat, maxNodes: nat): nat {
    maxIndep + maxNodes + 1
  }

  /** The lengths getDataPointers gives v1, v2, v3, v4, x1, x2 and weights; mat takes the rest. */
  function SegmentLengths(maxSize: nat, maxNodes: nat, maxIndep: nat): seq<nat> {
    [maxSize, maxSize, maxSize, maxSize, SpatialDim * maxNodes, SpatialDim * maxNodes, maxIndep]
  }

  /** The running offset s of getDataPointers before segment k: the lengths of the requested segments before it. */
  function Offset(want: seq<bool>, lens: seq<nat>, k: nat): nat
    requires k <= |lens| && |lens| <= |want|
  {
    if k == 0 then 0 else Offset(want, lens, k - 1) + (if want[k - 1] then lens[k - 1] else 0)
  }

  /**
    getDataPointers (lines 2084-2101): want says which of v1, v2, v3, v4, x1,
    x2, weights and mat the caller asks for; segment k starts at offsets[k].
  */
  function DataPointers(want: seq<bool>, maxSize: nat, maxNodes: nat, maxIndep: nat): (offsets: seq<nat>)
    requires |want| == 8
    ensures |offsets| == 8
  {
    var lens := SegmentLengths(maxSize, maxNodes, maxIndep);
    seq(8, k requires 0 <= k < 8 => Offset(want, lens, k))
  }

  /** Offsets never decrease, and a requested segment ends where the next offset can start. */
  lemma {:induction false} OffsetGrows(want: seq<bool>, lens: seq<nat>, j: nat, k: nat)
    requires j < k <= |lens| <= |want|
    ensures Offset(want, lens, j) + (if want[j] then lens[j] else 0) <= Offset(want, lens, k)
    decreases k - j
  {
    if j + 1 < k {
      OffsetGrows(want, lens, j + 1, k);
    }
  }

  /** The offset of a selection of the segments is at most the offset with every segment requested. */
  lemma {:induction false} OffsetBound(want: seq<bool>, all: seq<bool>, lens: seq<nat>, k: nat)
    requires k <= |lens| <= |want| == |all|
    requires forall j :: 0 <= j < |all| ==> all[j]
    ensures Offset(want, lens, k) <= Offset(all, lens, k)
  {
    if k > 0 {
      OffsetBound(want, all, lens, k - 1);
    }
  }

  /**
    The segments getDataPointers hands out never overlap, and they fit in the
    elementData buffer initialize allocates: every segment before mat ends
    before mat starts, and mat has room for the element matrix and for the
    derivative of the residual with respect to the nodes.
  */
  lemma DataPointersFit(want: seq<bool>, maxSize: nat, maxNodes: nat, maxIndep: nat)
    requires |want| == 8
    ensures var offsets := DataPointers(want, maxSize, maxNodes, maxIndep);
            var lens := SegmentLengths(maxSize, maxNodes, maxIndep);
            && (forall j, k :: 0 <= j < k < 8 && want[j] ==> offsets[j] + lens[j] <= offsets[k])
            && offsets[7] + maxSize * maxSize <= DataSize(maxIndep, maxSize, maxNodes)
            && offsets[7] + SpatialDim * maxNodes * maxSize <= DataSize(maxIndep, maxSize, maxNodes)
  {
    var offsets := DataPointers(want, maxSize, maxNodes, maxIndep);
    var lens := SegmentLengths(maxSize, maxNodes, maxIndep);
    forall j, k | 0 <= j < k < 8 && want[j] ensures offsets[j] + lens[j] <= offsets[k] {
      OffsetGrows(want, lens, j, k);
    }
    var all := [true, true, true, true, true, true, true, true];
    OffsetBound(want, all, lens, 7);
    assert Offset(all, lens, 1) == maxSize;
    assert Offset(all, lens, 2) == 2 * maxSize;
    assert Offset(all, lens, 3) == 3 * maxSize;
    assert Offset(all, lens, 4) == 4 * maxSize;
    assert Offset(all, lens, 5) == 4 * maxSize + SpatialDim * maxNodes;
    assert Offset(all, lens, 6) == 4 * maxSize + 2 * SpatialDim * maxNodes;
    assert Offset(all, lens, 7) == 4 * maxSize + 2 * SpatialDim * maxNodes + maxIndep;
    MatSegmentCovers(maxSize, maxNodes);
  }

  /** The larger of the two products is the one initialize adds. */
  lemma MatSegmentCovers(maxSize: nat, maxNodes: nat)
    ensures maxSize * maxSize <= MatSegment(maxSize, maxNodes)
    ensures SpatialDim * maxNodes * maxSize <= MatSegment(maxSize, maxNodes)
  {
    var a := SpatialDim * maxNodes;
    if a > maxSize {
      assert maxSize * maxSize <= a * maxSize;
    } else {
      assert a * maxSize <= maxSize * maxSize;
    }
  }

  /** The independent nodes of a run of connectivity entries: one per node, those of each dependent node. */
  ghost function IndepCount(m: Mesh, xs: seq<int>): int
    requires MeshValid(m) && EntriesValid(m, xs)
  {
    if xs == [] then 0
    else
      var x := xs[|xs| - 1];
      IndepCount(m, xs[..|xs| - 1]) + (if x >= 0 then 1 else DepSize(m, -x - 1))
  }

  /**
    The loop of initialize (lines 1916-1938): maxElementIndepNodes starts at
    maxElementNodes and grows to the largest count of independent nodes of an
    element.
  */
  method MaxIndepNodes(m: Mesh, maxNodes: int) returns (r: int)
    requires MeshValid(m)
    ensures r >= maxNodes
    ensures forall e :: 0 <= e < m.numElements ==> IndepCount(m, ElementEntries(m, e)) <= r
    ensures r == maxNodes || exists e :: 0 <= e < m.numElements && r == IndepCount(m, ElementEntries(m, e))
  {
    var ptr := m.conn.elementNodeIndex;
    var conn := m.conn.elementTacsNodes;
    r := maxNodes;
    for i := 0 to m.numElements
      invariant r >= maxNodes
      invariant forall e :: 0 <= e < i ==> IndepCount(m, ElementEntries(m, e)) <= r
      invariant r == maxNodes || exists e :: 0 <= e < i && r == IndepCount(m, ElementEntries(m, e))
    {
      var nnodes := ElementIndepNodes(m, i);
      if nnodes > r {
        r := nnodes;
      }
    }
  }

  /** The inner loop of lines 1921-1932 for element e. */
  method ElementIndepNodes(m: Mesh, e: int) returns (nnodes: int)
    requires MeshValid(m) && 0 <= e < m.numElements
    ensures nnodes == IndepCount(m, ElementEntries(m, e))
  {
    var ptr := m.conn.elementNodeIndex;
    var conn := m.conn.elementTacsNodes;
    assert 0 <= ptr[0] <= ptr[e] <= ptr[e + 1] <= ptr[m.numElements];
    ghost var xs := ElementEntries(m, e);
    nnodes := 0;
    for j := ptr[e] to ptr[e + 1]
      invariant nnodes == IndepCount(m, xs[..j - ptr[e]])
    {
      var x := conn[j];
      assert x == xs[j - ptr[e]] && EntryValid(m, x);
      assert xs[..j + 1 - ptr[e]][..j - ptr[e]] == xs[..j - ptr[e]];
      if x >= 0 {
        nnodes := nnodes + 1;
      } else {
        var d := -x - 1;
        nnodes := nnodes + m.deps.value.depNodePtr[d + 1] - m.deps.value.depNodePtr[d];
      }
    }
    assert xs[..ptr[e + 1] - ptr[e]] == xs;
  }

  /**
    The count initialize sizes the weights segment with is the number of slots
    the element touches once its dependent nodes are expanded.
  */
  lemma {:induction false} IndepCountSlots(sm: SlotMap, m: Mesh, xs: seq<int>)
    requires WellFormed(sm) && MeshValid(m) && EntriesValid(m, xs)
    ensures IndepCount(m, xs) == |EntriesSlots(sm, m, xs)|
  {
    if xs != [] {
      IndepCountSlots(sm, m, xs[..|xs| - 1]);
    }
  }
}
