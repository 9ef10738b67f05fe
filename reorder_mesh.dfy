/**
  The renumbering computeReordering applies to the stored mesh (lines
  944-980), taken as a whole: the connectivity, the dependent-node table, the
  boundary-condition nodes and the external list all move to the new numbers,
  and afterwards every node still has a local slot.
*/
module MeshReorder {
  import opened Optional
  import opened Sorting
  import opened Numbering
  import opened GraphSpec
  import opened Ordering
  import opened Setup
  import opened Reorder

  /** Every entry is a dependent entry or a node with a local slot. */
  ghost predicate Resolvable(sm: SlotMap, xs: seq<int>)
    requires WellFormed(sm)
  {
    forall k :: 0 <= k < |xs| && xs[k] >= 0 ==> LocalNodeNum(sm, xs[k]) >= 0
  }

  /** Renumbered applied to each entry of a list. */
  function RenumberedList(sm: SlotMap, nn: seq<int>, xs: seq<int>): (r: seq<int>)
    requires WellFormed(sm) && sm.ext.Some? && |nn| == sm.numNodes && Resolvable(sm, xs)
    ensures |r| == |xs| && forall k :: 0 <= k < |xs| ==> r[k] == Renumbered(sm, nn, xs[k])
  {
    seq(|xs|, k requires 0 <= k < |xs| => Renumbered(sm, nn, xs[k]))
  }

  /** The slot map after the reordering: the same bands, the renumbered external list. */
  function ReorderedSlots(sm: SlotMap, nn: seq<int>): SlotMap
    requires WellFormed(sm) && sm.ext.Some? && |nn| == sm.numNodes
  {
    sm.(ext := Some(UniqueSort(ExtNumbers(sm, nn))))
  }

  /** The mesh after the reordering: the connectivity and the dependent-node table renumbered. */
  ghost function ReorderedMesh(sm: SlotMap, m: Mesh, nn: seq<int>): Mesh
    requires Resolved(sm, m) && |nn| == sm.numNodes
  {
    var conn := m.conn.elementTacsNodes;
    var deps := match m.deps
      case None => None
      case Some(d) => Some(d.(depNodeToTacs := RenumberedList(sm, nn, d.depNodeToTacs)));
    m.(conn := m.conn.(elementTacsNodes := RenumberedList(sm, nn, conn)), deps := deps)
  }

  /** What the reordering needs of newNodeNums: distinct numbers, the owned band onto the range, the external bands outside it. */
  ghost predicate ValidNumbering(sm: SlotMap, nn: seq<int>) {
    && Renumbering(sm, nn)
    && ExtBandsKept(sm, nn)
    && OwnedBijection(nn, sm.extOffset, sm.extOffset + sm.numOwned, sm.ownerStart)
  }

  /** A node with a slot before the reordering has a slot, under its new number, after it. */
  lemma RenumberedRegistered(sm: SlotMap, nn: seq<int>, x: int)
    requires ValidNumbering(sm, nn) && x >= 0 && LocalNodeNum(sm, x) >= 0
    ensures WellFormed(ReorderedSlots(sm, nn))
    ensures LocalNodeNum(ReorderedSlots(sm, nn), Renumbered(sm, nn, x)) >= 0
  {
    RenumberedExtLayout(sm, nn);
    var sm' := ReorderedSlots(sm, nn);
    var s := LocalNodeNum(sm, x);
    var y := nn[s];
    if !(sm.extOffset <= s < sm.extOffset + sm.numOwned) {
      ExtSlotListed(sm, nn, s);
    }
    LocalNodeNumFound(sm', y);
  }

  /** The new number of an external slot is one of the renumbered external list. */
  lemma ExtSlotListed(sm: SlotMap, nn: seq<int>, s: int)
    requires WellFormed(sm) && sm.ext.Some? && |nn| == sm.numNodes
    requires 0 <= s < sm.numNodes && !(sm.extOffset <= s < sm.extOffset + sm.numOwned)
    ensures nn[s] in ExtNumbers(sm, nn)
  {
    var i := if s < sm.extOffset then s else s - sm.numOwned;
    assert ExtNumbers(sm, nn)[i] == nn[s];
  }

  /** After the reordering every node of the renumbered mesh has a slot in the renumbered slot map. */
  lemma ReorderedResolved(sm: SlotMap, m: Mesh, nn: seq<int>)
    requires Resolved(sm, m) && ValidNumbering(sm, nn)
    ensures Resolved(ReorderedSlots(sm, nn), ReorderedMesh(sm, m, nn))
  {
    RenumberedExtLayout(sm, nn);
    var sm' := ReorderedSlots(sm, nn);
    var m' := ReorderedMesh(sm, m, nn);
    var conn := m.conn.elementTacsNodes;
    var conn' := m'.conn.elementTacsNodes;
    forall k | 0 <= k < |conn'| ensures EntryValid(m', conn'[k]) && (conn'[k] >= 0 ==> LocalNodeNum(sm', conn'[k]) >= 0) {
      assert EntryValid(m, conn[k]);
      if conn[k] >= 0 {
        RenumberedRegistered(sm, nn, conn[k]);
      }
    }
    if m.deps.Some? {
      var dep := m.deps.value.depNodeToTacs;
      var dep' := m'.deps.value.depNodeToTacs;
      forall k | 0 <= k < |dep'| ensures LocalNodeNum(sm', dep'[k]) >= 0 {
        assert LocalNodeNum(sm, dep[k]) >= 0;
        RenumberedRegistered(sm, nn, dep[k]);
      }
    }
  }

  /** The array loops of lines 937-956 applied to copies of the stored lists. */
  method RenumberList(sm: SlotMap, nn: seq<int>, xs: seq<int>) returns (r: seq<int>)
    requires WellFormed(sm) && sm.ext.Some? && |nn| == sm.numNodes && Resolvable(sm, xs)
    ensures r == RenumberedList(sm, nn, xs)
  {
    var a := new int[|xs|](k requires 0 <= k < |xs| => xs[k]);
    assert a[..] == xs;
    RenumberEntries(sm, nn, a);
    r := a[..];
  }

  /** The nodes of the boundary conditions, in order. */
  function BcNodes(bcs: seq<Bc>): (r: seq<int>)
    ensures |r| == |bcs| && forall k :: 0 <= k < |bcs| ==> r[k] == bcs[k].node
  {
    seq(|bcs|, k requires 0 <= k < |bcs| => bcs[k].node)
  }

  /** Lines 959-966: the boundary conditions move to the new numbers of their nodes. */
  method RenumberBcs(sm: SlotMap, nn: seq<int>, bcs: seq<Bc>) returns (r: seq<Bc>)
    requires WellFormed(sm) && sm.ext.Some? && |nn| == sm.numNodes
    requires forall k :: 0 <= k < |bcs| ==> LocalNodeNum(sm, bcs[k].node) >= 0
    ensures |r| == |bcs|
    ensures forall k :: 0 <= k < |bcs| ==> r[k] == bcs[k].(node := nn[LocalNodeNum(sm, bcs[k].node)])
  {
    var a := new int[|bcs|](k requires 0 <= k < |bcs| => bcs[k].node);
    RenumberNodes(sm, nn, a);
    r := seq(|bcs|, k requires 0 <= k < |bcs| && k < a.Length reads a => bcs[k].(node := a[k]));
  }

  /**
    Lines 937-978: the stored mesh, the boundary conditions and the external
    list move to the new numbers.
  */
  method ReorderMesh(sm: SlotMap, m: Mesh, nn: seq<int>, bcs: seq<Bc>)
    returns (sm': SlotMap, m': Mesh, bcs': seq<Bc>)
    requires Resolved(sm, m) && ValidNumbering(sm, nn)
    requires forall k :: 0 <= k < |bcs| ==> Owned(sm, bcs[k].node)
    ensures sm' == ReorderedSlots(sm, nn) && m' == ReorderedMesh(sm, m, nn)
    ensures Resolved(sm', m')
    ensures |bcs'| == |bcs|
    ensures forall k :: 0 <= k < |bcs| ==> bcs'[k] == bcs[k].(node := nn[LocalNodeNum(sm, bcs[k].node)])
    ensures forall k :: 0 <= k < |bcs'| ==> Owned(sm', bcs'[k].node)
  {
    var deps := m.deps;
    if m.deps.Some? {
      var d := m.deps.value;
      var list := RenumberList(sm, nn, d.depNodeToTacs);
      deps := Some(d.(depNodeToTacs := list));
    }
    var conn := RenumberList(sm, nn, m.conn.elementTacsNodes);
    m' := m.(conn := m.conn.(elementTacsNodes := conn), deps := deps);
    bcs' := RenumberBcs(sm, nn, bcs);
    forall k | 0 <= k < |bcs| ensures Owned(sm, nn[LocalNodeNum(sm, bcs[k].node)]) {
      OwnedAnswers(sm, nn, bcs[k].node, bcs[k].node);
    }
    var ext := RenumberedExtList(sm, nn);
    sm' := sm.(ext := Some(ext));
    ReorderedResolved(sm, m, nn);
  }

  /** ownerRange: process p owns the global nodes [ownerRange[p], ownerRange[p + 1]). */
  ghost predicate OwnerRanges(ownerRange: seq<int>) {
    && |ownerRange| >= 2
    && ownerRange[0] == 0
    && forall i, j :: 0 <= i <= j < |ownerRange| ==> ownerRange[i] <= ownerRange[j]
  }

  /** The total number of nodes, ownerRange[mpiSize]. */
  function TotalNodes(ownerRange: seq<int>): int
    requires |ownerRange| >= 1
  {
    ownerRange[|ownerRange| - 1]
  }

  /**
    What the other processes send back in the exchange of lines 919-921, as a
    function of the node asked about: every owner numbers its own nodes inside
    its own range, distinct nodes by distinct numbers.
  */
  ghost predicate OwnersRenumber(ownerRange: seq<int>, newNumberOf: int -> int)
    requires |ownerRange| >= 1
  {
    && (forall p, x :: 0 <= p < |ownerRange| - 1 && ownerRange[p] <= x < ownerRange[p + 1] ==>
          ownerRange[p] <= newNumberOf(x) < ownerRange[p + 1])
    && (forall x, y :: 0 <= x < y < TotalNodes(ownerRange) ==> newNumberOf(x) != newNumberOf(y))
  }

  /** The process owning a node number below the total. */
  lemma OwnerOf(ownerRange: seq<int>, x: int) returns (p: int)
    requires OwnerRanges(ownerRange) && 0 <= x < TotalNodes(ownerRange)
    ensures 0 <= p < |ownerRange| - 1 && ownerRange[p] <= x < ownerRange[p + 1]
  {
    p := 0;
    while ownerRange[p + 1] <= x
      invariant 0 <= p < |ownerRange| - 1 && ownerRange[p] <= x
      decreases |ownerRange| - p
    {
      p := p + 1;
    }
  }

  /** newExtNodes: the answers received for the external list, in list order. */
  function ExternalAnswers(sm: SlotMap, newNumberOf: int -> int): (r: seq<int>)
    requires WellFormed(sm) && sm.ext.Some?
    ensures |r| == sm.numExt && forall i :: 0 <= i < sm.numExt ==> r[i] == newNumberOf(sm.ext.value[i])
  {
    seq(sm.numExt, i requires 0 <= i < sm.numExt => newNumberOf(sm.ext.value[i]))
  }

  /** The slot map's band of ownerRange, and every external node below the total. */
  ghost predicate InRanges(sm: SlotMap, ownerRange: seq<int>, rank: int) {
    && OwnerRanges(ownerRange)
    && 0 <= rank < |ownerRange| - 1
    && WellFormed(sm) && sm.ext.Some?
    && sm.ownerStart == ownerRange[rank] && sm.ownerEnd == ownerRange[rank + 1]
    && forall i :: 0 <= i < sm.numExt ==> sm.ext.value[i] < TotalNodes(ownerRange)
  }

  /**
    The owners' answers are distinct, and those for the nodes below this
    process's range lie below it, those for the nodes above it above it.
  */
  lemma ExternalAnswersBands(sm: SlotMap, ownerRange: seq<int>, rank: int, newNumberOf: int -> int)
    requires InRanges(sm, ownerRange, rank) && OwnersRenumber(ownerRange, newNumberOf)
    ensures Injective(ExternalAnswers(sm, newNumberOf))
    ensures forall i :: 0 <= i < sm.extOffset ==> 0 <= ExternalAnswers(sm, newNumberOf)[i] < sm.ownerStart
    ensures forall i :: sm.extOffset <= i < sm.numExt ==> sm.ownerEnd <= ExternalAnswers(sm, newNumberOf)[i]
  {
    var ext := sm.ext.value;
    var r := ExternalAnswers(sm, newNumberOf);
    forall i, j | 0 <= i < j < |r| ensures r[i] != r[j] {
      assert ext[i] < ext[j];
    }
    forall i | 0 <= i < sm.numExt
      ensures i < sm.extOffset ==> 0 <= r[i] < sm.ownerStart
      ensures sm.extOffset <= i ==> sm.ownerEnd <= r[i]
    {
      var p := OwnerOf(ownerRange, ext[i]);
      if i < sm.extOffset {
        assert p + 1 <= rank;
        assert ownerRange[p + 1] <= ownerRange[rank];
      } else {
        assert rank + 1 <= p;
        assert ownerRange[rank + 1] <= ownerRange[p];
      }
    }
  }

  /** Lines 926-931 complete a numbering valid for the reordering when the answers keep to their bands. */
  lemma WithExtValid(sm: SlotMap, nn: seq<int>, newExt: seq<int>)
    requires WellFormed(sm) && sm.ext.Some? && |nn| == sm.numNodes && |newExt| == sm.numExt
    requires OwnedBijection(nn, sm.extOffset, sm.extOffset + sm.numOwned, sm.ownerStart)
    requires Injective(newExt)
    requires forall i :: 0 <= i < sm.extOffset ==> 0 <= newExt[i] < sm.ownerStart
    requires forall i :: sm.extOffset <= i < sm.numExt ==> sm.ownerEnd <= newExt[i]
    ensures ValidNumbering(sm, WithExt(sm, nn, newExt))
  {
    var r := WithExt(sm, nn, newExt);
    var lo, hi := sm.extOffset, sm.extOffset + sm.numOwned;
    WithExtRenumbering(sm, nn, newExt);
    assert r[lo..hi] == nn[lo..hi];
  }

  /** On one process the ordering's permutation numbers the owned band, which is every slot. */
  lemma PermutationOwned(sm: SlotMap, nn: seq<int>)
    requires WellFormed(sm) && sm.ext.Some? && sm.numExt == 0 && sm.ownerStart == 0
    requires IsPermutation(nn, sm.numNodes)
    ensures OwnedBijection(nn, sm.extOffset, sm.extOffset + sm.numOwned, sm.ownerStart)
  {
    PermutationOnto(nn, sm.numNodes);
    assert nn[0..sm.numNodes] == nn;
  }

  /**
    The numbering computeReordering saves (lines 764-931): the ordering's
    numbers for the owned slots, the answers of the owners for the external
    slots.  The requests of the other processes are answered with the new
    numbers of the nodes asked about (lines 911-921).
  */
  method NewNodeNumbers(sm: SlotMap, m: Mesh, ownerRange: seq<int>, rank: int,
                        order: OrderingType, matType: MatrixOrderingType, recvNodes: seq<int>,
                        newNumberOf: int -> int, oracle: Oracle)
    returns (nn: seq<int>, answers: seq<int>)
    requires Resolved(sm, m) && InRanges(sm, ownerRange, rank)
    requires OracleValid(oracle) && OwnersRenumber(ownerRange, newNumberOf)
    requires |ownerRange| == 2 ==> sm.numExt == 0
    requires forall k :: 0 <= k < |recvNodes| ==> Owned(sm, recvNodes[k])
    ensures ValidNumbering(sm, nn)
    ensures |ownerRange| == 2 ==> IsPermutation(nn, sm.numNodes)
    ensures forall s :: 0 <= s < sm.extOffset ==> nn[s] == newNumberOf(sm.ext.value[s])
    ensures forall s :: sm.extOffset + sm.numOwned <= s < sm.numNodes ==> nn[s] == newNumberOf(sm.ext.value[s - sm.numOwned])
    ensures |answers| == |recvNodes|
    ensures forall k :: 0 <= k < |recvNodes| ==> answers[k] == nn[LocalNodeNum(sm, recvNodes[k])] && Owned(sm, answers[k])
    ensures OrderedNumbers(sm, m, |ownerRange| == 2, order, matType, CouplingNodes(sm, recvNodes), oracle, nn)
  {
    var owned := OwnedNumbers(sm, m, |ownerRange| == 2, order, matType, recvNodes, oracle);
    nn := CompleteNumbers(sm, owned, ownerRange, rank, newNumberOf);
    answers := Answers(sm, nn, recvNodes);
    OrderedOwnedBand(sm, m, |ownerRange| == 2, order, matType, CouplingNodes(sm, recvNodes), oracle, owned, nn);
  }

  /** The ordering's numbers are those of the owned band, so filling in the external slots keeps them. */
  lemma OrderedOwnedBand(sm: SlotMap, m: Mesh, serial: bool, order: OrderingType, matType: MatrixOrderingType,
                         coupling: seq<int>, oracle: Oracle, owned: seq<int>, nn: seq<int>)
    requires Resolved(sm, m) && OracleValid(oracle)
    requires OrderedNumbers(sm, m, serial, order, matType, coupling, oracle, owned)
    requires |nn| == |owned| == sm.numNodes && (serial ==> nn == owned)
    requires forall s :: sm.extOffset <= s < sm.extOffset + sm.numOwned ==> nn[s] == owned[s]
    ensures OrderedNumbers(sm, m, serial, order, matType, coupling, oracle, nn)
  {
    if !serial {
      var t := ElementTable(sm, m);
      var nodiag := order == NdOrder;
      var f1 := InteriorFlags(sm, t, matType, coupling);
      var f2 := CouplingFlags(sm, t, matType, coupling);
      assert SplitFlags(f1, f2, sm.extOffset, sm.extOffset + sm.numOwned);
      PlacedBand(owned, nn, f1, BlockOrder(t, f1, nodiag, order, oracle), sm.ownerStart,
                 sm.extOffset, sm.extOffset + sm.numOwned);
      PlacedBand(owned, nn, f2, BlockOrder(t, f2, nodiag, order, oracle), sm.ownerStart + CountTrue(f1),
                 sm.extOffset, sm.extOffset + sm.numOwned);
    }
  }

  /** Lines 752-901: the numbers of the owned slots, before the exchange. */
  method OwnedNumbers(sm: SlotMap, m: Mesh, serial: bool, order: OrderingType, matType: MatrixOrderingType,
                      recvNodes: seq<int>, oracle: Oracle)
    returns (owned: seq<int>)
    requires Resolved(sm, m) && OracleValid(oracle)
    requires serial ==> sm.numExt == 0 && sm.ownerStart == 0
    requires forall k :: 0 <= k < |recvNodes| ==> Owned(sm, recvNodes[k])
    ensures |owned| == sm.numNodes
    ensures OwnedBijection(owned, sm.extOffset, sm.extOffset + sm.numOwned, sm.ownerStart)
    ensures serial ==> IsPermutation(owned, sm.numNodes)
    ensures OrderedNumbers(sm, m, serial, order, matType, CouplingNodes(sm, recvNodes), oracle, owned)
  {
    var coupling := ComputeCouplingNodes(sm, recvNodes);
    forall k | 0 <= k < |coupling| ensures 0 <= coupling[k] < sm.numNodes {
      assert coupling[k] in coupling;
    }
    owned := NewOwnedNumbers(sm, m, serial, order, matType, coupling, oracle);
    if serial {
      PermutationOwned(sm, owned);
    }
  }

  /** Lines 918-931: the external slots take the owners' answers. */
  method CompleteNumbers(sm: SlotMap, owned: seq<int>, ownerRange: seq<int>, rank: int, newNumberOf: int -> int)
    returns (nn: seq<int>)
    requires InRanges(sm, ownerRange, rank) && OwnersRenumber(ownerRange, newNumberOf)
    requires |owned| == sm.numNodes
    requires OwnedBijection(owned, sm.extOffset, sm.extOffset + sm.numOwned, sm.ownerStart)
    ensures ValidNumbering(sm, nn)
    ensures sm.numExt == 0 ==> nn == owned
    ensures forall s :: 0 <= s < sm.extOffset ==> nn[s] == newNumberOf(sm.ext.value[s])
    ensures forall s :: sm.extOffset <= s < sm.extOffset + sm.numOwned ==> nn[s] == owned[s]
    ensures forall s :: sm.extOffset + sm.numOwned <= s < sm.numNodes ==> nn[s] == newNumberOf(sm.ext.value[s - sm.numOwned])
  {
    var newExt := ExternalAnswers(sm, newNumberOf);
    ExternalAnswersBands(sm, ownerRange, rank, newNumberOf);
    nn := FillExternal(sm, owned, newExt);
    WithExtValid(sm, owned, newExt);
  }

  /** The external slots of a copy of owned take the values of newExt, in list order. */
  method FillExternal(sm: SlotMap, owned: seq<int>, newExt: seq<int>) returns (nn: seq<int>)
    requires WellFormed(sm) && sm.ext.Some? && |owned| == sm.numNodes && |newExt| == sm.numExt
    ensures nn == WithExt(sm, owned, newExt)
    ensures sm.numExt == 0 ==> nn == owned
    ensures forall s :: 0 <= s < sm.extOffset ==> nn[s] == newExt[s]
    ensures forall s :: sm.extOffset <= s < sm.extOffset + sm.numOwned ==> nn[s] == owned[s]
    ensures forall s :: sm.extOffset + sm.numOwned <= s < sm.numNodes ==> nn[s] == newExt[s - sm.numOwned]
  {
    var a := new int[|owned|](s requires 0 <= s < |owned| => owned[s]);
    assert a[..] == owned;
    ApplyExtNumbers(sm, a, newExt);
    nn := a[..];
  }

  /** Lines 911-914 on a copy of the requests. */
  method Answers(sm: SlotMap, nn: seq<int>, recvNodes: seq<int>) returns (answers: seq<int>)
    requires ValidNumbering(sm, nn)
    requires forall k :: 0 <= k < |recvNodes| ==> Owned(sm, recvNodes[k])
    ensures |answers| == |recvNodes|
    ensures forall k :: 0 <= k < |recvNodes| ==> answers[k] == nn[LocalNodeNum(sm, recvNodes[k])] && Owned(sm, answers[k])
  {
    var recv := new int[|recvNodes|](k requires 0 <= k < |recvNodes| => recvNodes[k]);
    AnswerRequests(sm, nn, recv);
    answers := recv[..];
    forall k | 0 <= k < |recvNodes| ensures Owned(sm, answers[k]) {
      OwnedAnswers(sm, nn, recvNodes[k], recvNodes[k]);
    }
  }

  /**
    What computeReordering leaves behind (lines 911-982), given the slot map
    and the mesh computeExtNodes produced: a numbering fit for the reordering
    (a permutation on one process), the owners' answers in the external
    slots, the slot map, the mesh and the boundary conditions moved to the
    new numbers, every node still with a slot, and the answers to the other
    processes' requests.
  */
  ghost predicate ReorderOutcome(sm: SlotMap, m: Mesh, bcs: seq<Bc>, ownerRange: seq<int>, recvNodes: seq<int>,
                                 newNumberOf: int -> int, nn: seq<int>, answers: seq<int>,
                                 sm': SlotMap, m': Mesh, bcs': seq<Bc>)
    requires Resolved(sm, m)
    requires forall k :: 0 <= k < |bcs| ==> Owned(sm, bcs[k].node)
    requires forall k :: 0 <= k < |recvNodes| ==> Owned(sm, recvNodes[k])
  {
    && ValidNumbering(sm, nn)
    && (|ownerRange| == 2 ==> IsPermutation(nn, sm.numNodes))
    && (forall s :: 0 <= s < sm.extOffset ==> nn[s] == newNumberOf(sm.ext.value[s]))
    && (forall s :: sm.extOffset + sm.numOwned <= s < sm.numNodes ==> nn[s] == newNumberOf(sm.ext.value[s - sm.numOwned]))
    && sm' == ReorderedSlots(sm, nn) && m' == ReorderedMesh(sm, m, nn)
    && Resolved(sm', m')
    && |bcs'| == |bcs|
    && (forall k :: 0 <= k < |bcs| ==> bcs'[k] == bcs[k].(node := nn[LocalNodeNum(sm, bcs[k].node)]))
    && (forall k :: 0 <= k < |bcs'| ==> Owned(sm', bcs'[k].node))
    && |answers| == |recvNodes|
    && (forall k :: 0 <= k < |recvNodes| ==> answers[k] == nn[LocalNodeNum(sm, recvNodes[k])])
  }

  /** computeReordering after computeExtNodes (lines 744-986), on values: choose the numbering, then move the mesh to it. */
  method ReorderAll(sm: SlotMap, m: Mesh, bcs: seq<Bc>, ownerRange: seq<int>, rank: int,
                    order: OrderingType, matType: MatrixOrderingType, recvNodes: seq<int>,
                    newNumberOf: int -> int, oracle: Oracle)
    returns (nn: seq<int>, answers: seq<int>, sm': SlotMap, m': Mesh, bcs': seq<Bc>)
    requires Resolved(sm, m) && InRanges(sm, ownerRange, rank)
    requires OracleValid(oracle) && OwnersRenumber(ownerRange, newNumberOf)
    requires |ownerRange| == 2 ==> sm.numExt == 0
    requires forall k :: 0 <= k < |recvNodes| ==> Owned(sm, recvNodes[k])
    requires forall k :: 0 <= k < |bcs| ==> Owned(sm, bcs[k].node)
    ensures ReorderOutcome(sm, m, bcs, ownerRange, recvNodes, newNumberOf, nn, answers, sm', m', bcs')
    ensures sm' == sm.(ext := sm'.ext) && Resolved(sm', m')
    ensures m'.numElements == m.numElements && m'.numDependentNodes == m.numDependentNodes
    ensures |nn| == sm.numNodes && OwnedBijection(nn, sm.extOffset, sm.extOffset + sm.numOwned, sm.ownerStart)
    ensures forall k :: 0 <= k < |bcs'| ==> Owned(sm', bcs'[k].node)
    ensures OrderedNumbers(sm, m, |ownerRange| == 2, order, matType, CouplingNodes(sm, recvNodes), oracle, nn)
  {
    nn, answers := NewNodeNumbers(sm, m, ownerRange, rank, order, matType, recvNodes, newNumberOf, oracle);
    sm', m', bcs' := MoveToNumbers(sm, m, bcs, ownerRange, recvNodes, newNumberOf, nn, answers);
  }

  /** Moves the mesh and the boundary conditions to a numbering chosen for them (lines 920-986). */
  method MoveToNumbers(sm: SlotMap, m: Mesh, bcs: seq<Bc>, ownerRange: seq<int>, recvNodes: seq<int>,
                       newNumberOf: int -> int, nn: seq<int>, answers: seq<int>)
    returns (sm': SlotMap, m': Mesh, bcs': seq<Bc>)
    requires Resolved(sm, m)
    requires forall k :: 0 <= k < |bcs| ==> Owned(sm, bcs[k].node)
    requires forall k :: 0 <= k < |recvNodes| ==> Owned(sm, recvNodes[k])
    requires ValidNumbering(sm, nn)
    requires |ownerRange| == 2 ==> IsPermutation(nn, sm.numNodes)
    requires forall s :: 0 <= s < sm.extOffset ==> nn[s] == newNumberOf(sm.ext.value[s])
    requires forall s :: sm.extOffset + sm.numOwned <= s < sm.numNodes ==> nn[s] == newNumberOf(sm.ext.value[s - sm.numOwned])
    requires |answers| == |recvNodes|
    requires forall k :: 0 <= k < |recvNodes| ==> answers[k] == nn[LocalNodeNum(sm, recvNodes[k])]
    ensures ReorderOutcome(sm, m, bcs, ownerRange, recvNodes, newNumberOf, nn, answers, sm', m', bcs')
    ensures sm' == sm.(ext := sm'.ext) && Resolved(sm', m')
    ensures m'.numElements == m.numElements && m'.numDependentNodes == m.numDependentNodes
    ensures |nn| == sm.numNodes && OwnedBijection(nn, sm.extOffset, sm.extOffset + sm.numOwned, sm.ownerStart)
    ensures forall k :: 0 <= k < |bcs'| ==> Owned(sm', bcs'[k].node)
  {
    sm', m', bcs' := ReorderMesh(sm, m, nn, bcs);
    ReorderOutcomeShape(sm, m, bcs, ownerRange, recvNodes, newNumberOf, nn, answers, sm', m', bcs');
  }

  /** The outcome keeps the slot bands, the element and dependent-node counts, and numbers the owned band onto the range. */
  lemma ReorderOutcomeShape(sm: SlotMap, m: Mesh, bcs: seq<Bc>, ownerRange: seq<int>, recvNodes: seq<int>,
                            newNumberOf: int -> int, nn: seq<int>, answers: seq<int>,
                            sm': SlotMap, m': Mesh, bcs': seq<Bc>)
    requires Resolved(sm, m)
    requires forall k :: 0 <= k < |bcs| ==> Owned(sm, bcs[k].node)
    requires forall k :: 0 <= k < |recvNodes| ==> Owned(sm, recvNodes[k])
    requires ReorderOutcome(sm, m, bcs, ownerRange, recvNodes, newNumberOf, nn, answers, sm', m', bcs')
    ensures sm' == sm.(ext := sm'.ext)
    ensures m'.numElements == m.numElements && m'.numDependentNodes == m.numDependentNodes
    ensures |nn| == sm.numNodes && OwnedBijection(nn, sm.extOffset, sm.extOffset + sm.numOwned, sm.ownerStart)
  {
  }
}
