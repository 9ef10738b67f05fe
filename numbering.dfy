/**
  Local node slots of one process and their translation to and from global node numbers.

  The local slots [0, numNodes) form three contiguous bands: the external nodes whose
  global numbers lie below this process's ownership range, then the numOwned owned nodes,
  then the external nodes above the range.  The external nodes are kept in one strictly
  increasing list; extOffset of them lie below the range.
*/
module Numbering {
  import opened Optional
  import opened Sorting

  /**
    The fields of the assembler that the translation reads: the ownership range
    [ownerStart, ownerEnd) of this process, the external node list (None while neither
    tacsExtNodeNums nor extDistIndices is set), numExtNodes, extNodeOffset and numNodes.
  */
  datatype SlotMap = SlotMap(ownerStart: int, ownerEnd: int, numOwned: int,
                             ext: Option<seq<int>>, numExt: int, extOffset: int,
                             numNodes: int)

  ghost predicate WellFormed(sm: SlotMap) {
    && 0 <= sm.ownerStart
    && sm.ownerEnd - sm.ownerStart == sm.numOwned >= 0
    && match sm.ext
       case None =>
         sm.numExt == 0 && sm.extOffset == 0 && sm.numNodes == 0
       case Some(ext) =>
         && StrictlyIncreasing(ext)
         && sm.numExt == |ext|
         && sm.numNodes == sm.numOwned + sm.numExt
         && 0 <= sm.extOffset <= sm.numExt
         && (forall k :: 0 <= k < sm.extOffset ==> 0 <= ext[k] < sm.ownerStart)
         && (forall k :: sm.extOffset <= k < |ext| ==> sm.ownerEnd <= ext[k])
  }

  predicate Owned(sm: SlotMap, node: int) {
    sm.ownerStart <= node < sm.ownerEnd
  }

  /** The node is owned here or is listed as an external node. */
  ghost predicate Registered(sm: SlotMap, node: int) {
    Owned(sm, node) || (0 <= node && sm.ext.Some? && node in sm.ext.value)
  }

  /**
    getLocalNodeNum: the local slot of a global node number, or -1 for a dependent
    (negative) number, for an external node that is not listed, and for any non-owned
    node while no external list is set.
  */
  function LocalNodeNum(sm: SlotMap, node: int): (r: int)
    requires WellFormed(sm)
    ensures r == -1 || 0 <= r
    ensures node < 0 ==> r == -1
    ensures Owned(sm, node) ==> sm.extOffset <= r < sm.extOffset + sm.numOwned
    ensures sm.ext.Some? && r >= 0 ==> r < sm.numNodes
  {
    if sm.ownerStart <= node < sm.ownerEnd then
      (node - sm.ownerStart) + sm.extOffset
    else if node >= 0 then
      match sm.ext
      case None => -1
      case Some(ext) =>
        var k := BinarySearch(ext[..sm.numExt], node);
        if k < 0 then -1
        else if node < sm.ownerStart then k
        else sm.numOwned + k
    else
      -1
  }

  /**
    getGlobalNodeNum: the global number stored in a local slot, or -1 for a slot past
    numNodes.  A negative slot is outside what the source handles (it would index the
    external list at a negative position).
  */
  function GlobalNodeNum(sm: SlotMap, node: int): (r: int)
    requires WellFormed(sm)
    requires 0 <= node
    ensures sm.ext.Some? && node >= sm.numNodes ==> r == -1
    ensures sm.ext.Some? && node < sm.numNodes ==> 0 <= r
  {
    if node < sm.extOffset then
      match sm.ext
      case None => -1
      case Some(ext) => ext[node]
    else if node < sm.extOffset + sm.numOwned then
      (node - sm.extOffset) + sm.ownerStart
    else if node < sm.numNodes then
      match sm.ext
      case None => -1
      case Some(ext) => ext[node - sm.numOwned]
    else
      -1
  }

  /** Round trip from a slot: getLocalNodeNum(getGlobalNodeNum(s)) == s. */
  lemma LocalOfGlobal(sm: SlotMap, s: int)
    requires WellFormed(sm) && sm.ext.Some?
    requires 0 <= s < sm.numNodes
    ensures LocalNodeNum(sm, GlobalNodeNum(sm, s)) == s
  {
    var ext := sm.ext.value;
    assert ext[..sm.numExt] == ext;
    if s < sm.extOffset {
      BinarySearchAt(ext, s);
    } else if s >= sm.extOffset + sm.numOwned {
      BinarySearchAt(ext, s - sm.numOwned);
    }
  }

  /** Round trip from a registered global number: getGlobalNodeNum(getLocalNodeNum(x)) == x. */
  lemma GlobalOfLocal(sm: SlotMap, x: int)
    requires WellFormed(sm) && sm.ext.Some?
    requires LocalNodeNum(sm, x) >= 0
    ensures GlobalNodeNum(sm, LocalNodeNum(sm, x)) == x
  {
    var ext := sm.ext.value;
    if !Owned(sm, x) {
      var k := BinarySearch(ext, x);
      if x < sm.ownerStart {
        assert k < sm.extOffset;
      } else {
        assert sm.extOffset <= k;
      }
    }
  }

  /** getLocalNodeNum succeeds exactly on the registered (owned or listed) node numbers. */
  lemma LocalNodeNumFound(sm: SlotMap, x: int)
    requires WellFormed(sm)
    ensures LocalNodeNum(sm, x) >= 0 <==> Registered(sm, x)
  {
    if sm.ext.Some? {
      assert sm.ext.value[..sm.numExt] == sm.ext.value;
    }
  }
}
