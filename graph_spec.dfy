/**
  The mesh as the assembler stores it, the expansion of dependent nodes, and the
  node-to-element and node-to-node graphs that the CSR builders must produce.
*/
module GraphSpec {
  import opened Optional
  import opened Sorting
  import opened Numbering
  import opened Csr

  /** Element -> node connectivity: the nodes of element e are elementTacsNodes[elementNodeIndex[e] .. elementNodeIndex[e+1]]. */
  datatype Connectivity = Connectivity(elementNodeIndex: seq<int>, elementTacsNodes: seq<int>)

  /**
    The dependent node table: dependent node d (written -(d+1) in the connectivity) is
    the weighted sum of the independent nodes depNodeToTacs[depNodePtr[d] .. depNodePtr[d+1]].
  */
  datatype DepNodes = DepNodes(depNodePtr: seq<int>, depNodeToTacs: seq<int>, depNodeWeights: seq<real>)

  datatype Mesh = Mesh(numElements: nat, conn: Connectivity, numDependentNodes: nat, deps: Option<DepNodes>)

  /** A CSR pointer array of n rows over an index array of length len. */
  ghost predicate PointerArray(ptr: seq<int>, n: nat, len: int) {
    && |ptr| == n + 1
    && 0 <= ptr[0]
    && ptr[n] == len
    && forall i, j :: 0 <= i <= j <= n ==> ptr[i] <= ptr[j]
  }

  ghost predicate DepNodesShape(d: DepNodes, numDependentNodes: nat) {
    && PointerArray(d.depNodePtr, numDependentNodes, |d.depNodeToTacs|)
    && |d.depNodeWeights| == |d.depNodeToTacs|
  }

  /** A connectivity entry is a node number, or a dependent node of the table. */
  ghost predicate EntryValid(m: Mesh, x: int) {
    x < 0 ==> m.deps.Some? && -x - 1 < m.numDependentNodes
  }

  /** The shapes of the arrays agree and every dependent reference names a dependent node. */
  ghost predicate MeshValid(m: Mesh) {
    && PointerArray(m.conn.elementNodeIndex, m.numElements, |m.conn.elementTacsNodes|)
    && (m.deps.Some? ==> DepNodesShape(m.deps.value, m.numDependentNodes))
    && forall k :: 0 <= k < |m.conn.elementTacsNodes| ==> EntryValid(m, m.conn.elementTacsNodes[k])
  }

  /** Every node number of the connectivity and of the dependent table has a local slot. */
  ghost predicate Resolved(sm: SlotMap, m: Mesh) {
    && WellFormed(sm)
    && sm.ext.Some?
    && MeshValid(m)
    && (forall k :: 0 <= k < |m.conn.elementTacsNodes| && m.conn.elementTacsNodes[k] >= 0 ==>
          LocalNodeNum(sm, m.conn.elementTacsNodes[k]) >= 0)
    && (m.deps.Some? ==>
          forall k :: 0 <= k < |m.deps.value.depNodeToTacs| ==>
            LocalNodeNum(sm, m.deps.value.depNodeToTacs[k]) >= 0)
  }

  /** Number of independent nodes of dependent node d. */
  ghost function DepSize(m: Mesh, d: int): int
    requires MeshValid(m) && m.deps.Some? && 0 <= d < m.numDependentNodes
  {
    m.deps.value.depNodePtr[d + 1] - m.deps.value.depNodePtr[d]
  }

  /** getLocalNodeNum applied to each node of a list, in order. */
  ghost function MapLocal(sm: SlotMap, nodes: seq<int>): (r: seq<int>)
    requires WellFormed(sm)
    ensures |r| == |nodes|
    ensures forall k :: 0 <= k < |nodes| ==> r[k] == LocalNodeNum(sm, nodes[k])
  {
    if nodes == [] then []
    else MapLocal(sm, nodes[..|nodes| - 1]) + [LocalNodeNum(sm, nodes[|nodes| - 1])]
  }

  /** Local slots of the independent nodes of dependent node d, in table order. */
  ghost function DepSlots(sm: SlotMap, m: Mesh, d: int): (r: seq<int>)
    requires WellFormed(sm) && MeshValid(m) && m.deps.Some? && 0 <= d < m.numDependentNodes
  {
    var depPtr := m.deps.value.depNodePtr;
    assert 0 <= depPtr[0] <= depPtr[d] && depPtr[d + 1] <= depPtr[m.numDependentNodes];
    MapLocal(sm, m.deps.value.depNodeToTacs[depPtr[d]..depPtr[d + 1]])
  }

  /** Local slots a connectivity entry stands for: its own slot, or those of its independent nodes. */
  ghost function EntrySlots(sm: SlotMap, m: Mesh, x: int): (r: seq<int>)
    requires WellFormed(sm) && MeshValid(m) && EntryValid(m, x)
  {
    if x >= 0 then [LocalNodeNum(sm, x)]
    else DepSlots(sm, m, -x - 1)
  }

  /** Every entry of s is a slot below n. */
  ghost predicate SlotsBelow(s: seq<int>, n: int) {
    forall k :: 0 <= k < |s| ==> 0 <= s[k] < n
  }

  lemma ConcatBelow(a: seq<int>, b: seq<int>, n: int)
    requires SlotsBelow(a, n) && SlotsBelow(b, n)
    ensures SlotsBelow(a + b, n)
  {
  }

  lemma DepSlotsBelow(sm: SlotMap, m: Mesh, d: int)
    requires Resolved(sm, m) && m.deps.Some? && 0 <= d < m.numDependentNodes
    ensures SlotsBelow(DepSlots(sm, m, d), sm.numNodes)
  {
    var depPtr := m.deps.value.depNodePtr;
    assert 0 <= depPtr[0] <= depPtr[d] && depPtr[d + 1] <= depPtr[m.numDependentNodes];
    var nodes := m.deps.value.depNodeToTacs[depPtr[d]..depPtr[d + 1]];
    forall k | 0 <= k < |nodes| ensures 0 <= LocalNodeNum(sm, nodes[k]) < sm.numNodes {
      assert nodes[k] == m.deps.value.depNodeToTacs[depPtr[d] + k];
    }
  }

  /** Every entry of xs is a valid connectivity entry. */
  ghost predicate EntriesValid(m: Mesh, xs: seq<int>) {
    forall k :: 0 <= k < |xs| ==> EntryValid(m, xs[k])
  }

  /** The slots of a run of connectivity entries, entry after entry. */
  ghost function EntriesSlots(sm: SlotMap, m: Mesh, xs: seq<int>): seq<int>
    requires WellFormed(sm) && MeshValid(m) && EntriesValid(m, xs)
  {
    if xs == [] then []
    else EntriesSlots(sm, m, xs[..|xs| - 1]) + EntrySlots(sm, m, xs[|xs| - 1])
  }

  lemma {:induction false} EntriesSlotsBelow(sm: SlotMap, m: Mesh, xs: seq<int>)
    requires Resolved(sm, m) && EntriesValid(m, xs)
    requires forall k :: 0 <= k < |xs| && xs[k] >= 0 ==> LocalNodeNum(sm, xs[k]) >= 0
    ensures SlotsBelow(EntriesSlots(sm, m, xs), sm.numNodes)
  {
    if xs != [] {
      var x := xs[|xs| - 1];
      EntriesSlotsBelow(sm, m, xs[..|xs| - 1]);
      if x < 0 {
        DepSlotsBelow(sm, m, -x - 1);
      }
      ConcatBelow(EntriesSlots(sm, m, xs[..|xs| - 1]), EntrySlots(sm, m, x), sm.numNodes);
    }
  }

  /** The connectivity entries of element e. */
  ghost function ElementEntries(m: Mesh, e: int): (r: seq<int>)
    requires MeshValid(m) && 0 <= e < m.numElements
    ensures EntriesValid(m, r)
  {
    var ptr := m.conn.elementNodeIndex;
    assert 0 <= ptr[0] <= ptr[e] && ptr[e + 1] <= ptr[m.numElements];
    var r := m.conn.elementTacsNodes[ptr[e]..ptr[e + 1]];
    assert forall k :: 0 <= k < |r| ==> r[k] == m.conn.elementTacsNodes[ptr[e] + k];
    r
  }

  /** The local slots element e touches, dependent nodes expanded, in connectivity order. */
  ghost function ElementSlots(sm: SlotMap, m: Mesh, e: int): seq<int>
    requires WellFormed(sm) && MeshValid(m) && 0 <= e < m.numElements
  {
    EntriesSlots(sm, m, ElementEntries(m, e))
  }

  /** Every slot an element touches is a slot of the map. */
  lemma ElementSlotsBelow(sm: SlotMap, m: Mesh, e: int)
    requires Resolved(sm, m) && 0 <= e < m.numElements
    ensures SlotsBelow(ElementSlots(sm, m, e), sm.numNodes)
  {
    var ptr := m.conn.elementNodeIndex;
    assert 0 <= ptr[0] <= ptr[e] && ptr[e + 1] <= ptr[m.numElements];
    var xs := ElementEntries(m, e);
    assert forall k :: 0 <= k < |xs| ==> xs[k] == m.conn.elementTacsNodes[ptr[e] + k];
    EntriesSlotsBelow(sm, m, xs);
  }

  /** Every list of the table holds slots below n. */
  ghost predicate TableBelow(t: seq<seq<int>>, n: int) {
    forall e :: 0 <= e < |t| ==> SlotsBelow(t[e], n)
  }

  /** The slots of every element, element by element: the table the CSR builders walk. */
  ghost function ElementTable(sm: SlotMap, m: Mesh): (t: seq<seq<int>>)
    requires Resolved(sm, m)
    ensures |t| == m.numElements && TableBelow(t, sm.numNodes)
    ensures forall e {:trigger ElementSlots(sm, m, e)} :: 0 <= e < m.numElements ==> t[e] == ElementSlots(sm, m, e)
  {
    var t := seq(m.numElements, e requires 0 <= e < m.numElements && Resolved(sm, m) => ElementSlots(sm, m, e));
    assert TableBelow(t, sm.numNodes) by {
      forall e | 0 <= e < m.numElements ensures SlotsBelow(t[e], sm.numNodes) {
        ElementSlotsBelow(sm, m, e);
      }
    }
    t
  }

  /** The elements whose slot list holds slot s. */
  ghost function NodeElementSet(t: seq<seq<int>>, s: int): set<int>
  {
    set e | 0 <= e < |t| && s in t[e]
  }

  /**
    The reduced numbers rnodes[j] of the slots j that share an element with slot i
    (only slots with rnodes[j] >= 0 take part).
  */
  ghost function ReducedNeighbourSet(t: seq<seq<int>>, rnodes: seq<int>, i: int): set<int>
  {
    set e, j | 0 <= e < |t| && j in t[e] && i in t[e] && 0 <= j < |rnodes| && rnodes[j] >= 0 :: rnodes[j]
  }

  /** The slots that share an element with slot i. */
  ghost function NeighbourSet(t: seq<seq<int>>, i: int): set<int>
  {
    set e, j | 0 <= e < |t| && j in t[e] && i in t[e] :: j
  }

  /** Row s: the elements that touch slot s, for the slots 0 .. n-1. */
  ghost function IncidenceSets(t: seq<seq<int>>, n: nat): (r: seq<set<int>>)
    ensures |r| == n && forall s :: 0 <= s < n ==> r[s] == NodeElementSet(t, s)
  {
    seq(n, s => NodeElementSet(t, s))
  }
}
