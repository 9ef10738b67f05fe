/**
  computeExtNodes: the sorted list of the external nodes a process touches,
  collected from the element connectivity and the dependent-node table, and
  the slot map the assembler derives from it.
*/
module ExtNodes {
  import opened Optional
  import opened Sorting
  import opened Numbering
  import opened GraphSpec

  /** A global node number outside the ownership range [lo, hi); dependent (negative) entries never are. */
  predicate External(lo: int, hi: int, node: int) {
    node >= 0 && (node < lo || node >= hi)
  }

  /** The external entries of a list, in list order. */
  function ExternalOf(s: seq<int>, lo: int, hi: int): (r: seq<int>)
    ensures |r| <= |s|
    ensures forall x :: x in r <==> x in s && External(lo, hi, x)
  {
    if s == [] then []
    else
      var x := s[|s| - 1];
      var init := s[..|s| - 1];
      assert s == init + [x];
      ExternalOf(init, lo, hi) + (if External(lo, hi, x) then [x] else [])
  }

  /** The shapes computeExtNodes reads: the connectivity and dependent-node pointer arrays cover their lists. */
  ghost predicate MeshShape(m: Mesh) {
    && PointerArray(m.conn.elementNodeIndex, m.numElements, |m.conn.elementTacsNodes|)
    && (m.deps.Some? ==> DepNodesShape(m.deps.value, m.numDependentNodes))
  }

  /** The dependent-node table's list of independent nodes, or nothing when there is no table. */
  function DepList(m: Mesh): seq<int> {
    match m.deps
    case None => []
    case Some(d) => d.depNodeToTacs
  }

  /**
    One gathering loop of computeExtNodes (lines 648-658 over the connectivity,
    lines 661-674 over the dependent-node table): append the external entries
    of s to the buffer after its first size entries.
  */
  method AppendExternal(buf: array<int>, size: int, s: seq<int>, lo: int, hi: int) returns (size': int)
    requires 0 <= size && size + |s| <= buf.Length
    modifies buf
    ensures size <= size' <= size + |s|
    ensures buf[..size'] == old(buf[..size]) + ExternalOf(s, lo, hi)
  {
    ghost var prefix := buf[..size];
    ghost var kept: seq<int> := [];
    size' := size;
    for i := 0 to |s|
      invariant size <= size' <= size + i
      invariant kept == ExternalOf(s[..i], lo, hi)
      invariant buf[..size'] == prefix + kept
    {
      var node := s[i];
      ExternalSnoc(s, i, lo, hi);
      if node >= 0 && (node < lo || node >= hi) {
        ghost var b := buf[..size'];
        buf[size'] := node;
        assert buf[..size' + 1] == b + [node];
        size' := size' + 1;
        kept := kept + [node];
      }
    }
    assert s[..|s|] == s;
  }

  /** Extending a list by one entry extends its external entries by that entry when it is external. */
  lemma ExternalSnoc(s: seq<int>, i: int, lo: int, hi: int)
    requires 0 <= i < |s|
    ensures ExternalOf(s[..i + 1], lo, hi) == ExternalOf(s[..i], lo, hi) + (if External(lo, hi, s[i]) then [s[i]] else [])
  {
    assert s[..i + 1][..i] == s[..i];
  }

  /**
    The first part of computeExtNodes (lines 631-674): the external entries of
    the connectivity followed by those of the dependent-node table, duplicates
    kept, gathered in a buffer sized for every entry.
  */
  method CollectExternal(m: Mesh, lo: int, hi: int) returns (list: seq<int>)
    requires MeshShape(m)
    ensures list == ExternalOf(m.conn.elementTacsNodes, lo, hi) + ExternalOf(DepList(m), lo, hi)
  {
    var maxSize := m.conn.elementNodeIndex[m.numElements];
    if m.deps.Some? {
      maxSize := maxSize + m.deps.value.depNodePtr[m.numDependentNodes];
    }
    var extList := new int[maxSize];
    var extSize := AppendExternal(extList, 0, m.conn.elementTacsNodes, lo, hi);
    ghost var first := extList[..extSize];
    assert first == ExternalOf(m.conn.elementTacsNodes, lo, hi);
    if m.deps.Some? {
      extSize := AppendExternal(extList, extSize, m.deps.value.depNodeToTacs, lo, hi);
    }
    list := extList[..extSize];
    assert list == first + ExternalOf(DepList(m), lo, hi);
  }

  /**
    The last loop of computeExtNodes (lines 692-696): extNodeOffset counts the
    leading entries of the sorted list that lie below lo.
  */
  method CountBelow(ext: seq<int>, lo: int) returns (k: int)
    requires StrictlyIncreasing(ext)
    ensures 0 <= k <= |ext|
    ensures forall j :: 0 <= j < k ==> ext[j] < lo
    ensures forall j :: k <= j < |ext| ==> lo <= ext[j]
  {
    k := 0;
    while k < |ext| && ext[k] < lo
      invariant 0 <= k <= |ext|
      invariant forall j :: 0 <= j < k ==> ext[j] < lo
    {
      k := k + 1;
    }
  }

  /**
    computeExtNodes once its guards pass (lines 627-698): the external list is
    the sorted, duplicate-free list of the external entries, numNodes counts
    the owned and the external nodes, and extNodeOffset the external nodes
    below the range.
  */
  method ComputeExtNodes(lo: int, hi: int, m: Mesh) returns (sm: SlotMap)
    requires 0 <= lo <= hi && MeshShape(m)
    ensures WellFormed(sm) && sm.ext.Some?
    ensures sm.ownerStart == lo && sm.ownerEnd == hi
    ensures sm.ext.value == UniqueSort(ExternalOf(m.conn.elementTacsNodes, lo, hi) + ExternalOf(DepList(m), lo, hi))
    ensures forall x :: x in sm.ext.value <==> External(lo, hi, x) && (x in m.conn.elementTacsNodes || x in DepList(m))
  {
    var list := CollectExternal(m, lo, hi);
    var ext := UniqueSort(list);
    var offset := CountBelow(ext, lo);
    sm := SlotMap(lo, hi, hi - lo, Some(ext), |ext|, offset, (hi - lo) + |ext|);
    assert forall x :: x in ext ==> External(lo, hi, x);
    assert forall j :: 0 <= j < |ext| ==> External(lo, hi, ext[j]);
  }

  /** A sorted list holding exactly the external entries is the one computeExtNodes builds with uniqueSort. */
  lemma ExternalListIsUniqueSort(ext: seq<int>, lo: int, hi: int, m: Mesh)
    requires StrictlyIncreasing(ext)
    requires forall x :: x in ext <==> External(lo, hi, x) && (x in m.conn.elementTacsNodes || x in DepList(m))
    ensures ext == UniqueSort(ExternalOf(m.conn.elementTacsNodes, lo, hi) + ExternalOf(DepList(m), lo, hi))
  {
    var u := UniqueSort(ExternalOf(m.conn.elementTacsNodes, lo, hi) + ExternalOf(DepList(m), lo, hi));
    StrictlyIncreasingUnique(ext, u);
  }

  /** Every non-negative node number of the connectivity and every node of the dependent-node table has a local slot. */
  ghost predicate Covered(sm: SlotMap, m: Mesh)
    requires WellFormed(sm)
  {
    && (forall k :: 0 <= k < |m.conn.elementTacsNodes| && m.conn.elementTacsNodes[k] >= 0 ==>
          LocalNodeNum(sm, m.conn.elementTacsNodes[k]) >= 0)
    && (m.deps.Some? ==>
          forall k :: 0 <= k < |m.deps.value.depNodeToTacs| ==> LocalNodeNum(sm, m.deps.value.depNodeToTacs[k]) >= 0)
  }

  /**
    After computeExtNodes every non-negative node number of the connectivity
    and every node of the dependent-node table has a local slot, as the later
    phases of initialize and computeReordering rely on.
  */
  lemma ExtNodesResolve(lo: int, hi: int, m: Mesh, sm: SlotMap)
    requires WellFormed(sm) && sm.ext.Some? && sm.ownerStart == lo && sm.ownerEnd == hi
    requires forall k :: 0 <= k < |DepList(m)| ==> DepList(m)[k] >= 0
    requires forall x :: x in sm.ext.value <==> External(lo, hi, x) && (x in m.conn.elementTacsNodes || x in DepList(m))
    ensures Covered(sm, m)
    ensures MeshValid(m) ==> Resolved(sm, m)
  {
    var conn := m.conn.elementTacsNodes;
    forall k | 0 <= k < |conn| && conn[k] >= 0 ensures LocalNodeNum(sm, conn[k]) >= 0 {
      LocalNodeNumFound(sm, conn[k]);
    }
    if m.deps.Some? {
      var dep := m.deps.value.depNodeToTacs;
      forall k | 0 <= k < |dep| ensures LocalNodeNum(sm, dep[k]) >= 0 {
        assert dep[k] in DepList(m);
        LocalNodeNumFound(sm, dep[k]);
      }
    }
  }
}
