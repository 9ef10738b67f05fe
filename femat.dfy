/**
  The split of the local slots that createFEMat computes on its first call:
  the local slots (those no other process couples to), ordered, followed by
  the coupling slots, ordered, each slot once; and the global node numbers of
  both lists.
*/
module FEMatSplit {
  import opened Sorting
  import opened Csr
  import opened Numbering
  import opened GraphSpec
  import opened NodeGraph
  import opened Ordering

  /**
    amd_order_interface called with a list of coupling nodes: an ordering of
    the n vertices of a CSR graph that places the listed vertices last.
  */
  type CouplingOracle = (nat, seq<int>, seq<int>, seq<int>) -> seq<int>

  /** A sorted list of distinct slots below n. */
  ghost predicate SlotList(c: seq<int>, n: int) {
    StrictlyIncreasing(c) && forall k :: 0 <= k < |c| ==> 0 <= c[k] < n
  }

  /** The routine returns a permutation, and puts a valid coupling list at its end. */
  ghost predicate CouplingOracleValid(oracle: CouplingOracle) {
    forall n: nat, rowp, cols, coupling ::
      && IsPermutation(oracle(n, rowp, cols, coupling), n)
      && (SlotList(coupling, n) ==>
            forall k :: 0 <= k < n ==> (n - |coupling| <= k <==> oracle(n, rowp, cols, coupling)[k] in coupling))
  }

  /**
    The slots a dense numbering picks, in the order computeMatReordering gives
    the graph they induce: entry i is the slot whose reduced number the
    ordering places i-th.
  */
  ghost function OrderedSlots(t: seq<seq<int>>, rnodes: seq<int>, nr: nat, nodiag: bool,
                              order: OrderingType, oracle: Oracle): (r: seq<int>)
    requires DenseNumbering(rnodes, nr) && OracleValid(oracle)
    ensures |r| == nr
  {
    var q := Positions(rnodes, nr);
    var p := Inverse(GraphOrder(order, ReducedRows(t, rnodes, nr, nodiag), oracle), nr);
    seq(nr, i requires 0 <= i < nr => q[p[i]])
  }

  /** all_nodes before the flip: each coupling slot holds its place in the list, the others -1. */
  ghost function CouplingNumbering(n: nat, coupling: seq<int>): (a: seq<int>)
    requires SlotList(coupling, n)
    ensures |a| == n && DenseNumbering(a, |coupling|)
    ensures forall s :: 0 <= s < n ==> a[s] == if s in coupling then IndexOf(coupling, s) else -1
  {
    var a := seq(n, s requires 0 <= s < n => if s in coupling then IndexOf(coupling, s) else -1);
    CouplingPositionsDense(n, coupling, a);
    a
  }

  /** The slots that are not in the coupling list. */
  ghost function LocalFlags(n: nat, coupling: seq<int>): (f: seq<bool>)
    ensures |f| == n && forall s :: 0 <= s < n ==> (f[s] <==> s !in coupling)
  {
    seq(n, s => s !in coupling)
  }

  /** feMatCIndices under the orderings other than TACS_AMD_ORDER. */
  ghost function CouplingOrder(t: seq<seq<int>>, n: nat, coupling: seq<int>, nodiag: bool,
                               order: OrderingType, oracle: Oracle): seq<int>
    requires SlotList(coupling, n) && OracleValid(oracle)
  {
    OrderedSlots(t, CouplingNumbering(n, coupling), |coupling|, nodiag, order, oracle)
  }

  /** feMatBIndices under those orderings: the local slots, numbered in order, then ordered. */
  ghost function LocalOrder(t: seq<seq<int>>, n: nat, coupling: seq<int>, nodiag: bool,
                            order: OrderingType, oracle: Oracle): seq<int>
    requires OracleValid(oracle)
  {
    var f := LocalFlags(n, coupling);
    NumberKeptDense(f);
    OrderedSlots(t, NumberKept(f), CountTrue(f), nodiag, order, oracle)
  }

  /** Under TACS_AMD_ORDER: the coupling-aware ordering of the whole graph without its diagonal. */
  ghost function WholeGraphOrder(t: seq<seq<int>>, n: nat, coupling: seq<int>, couplingOracle: CouplingOracle): seq<int>
  {
    var rows := NeighbourRows(t, n, true);
    couplingOracle(n, CsrPtr(rows), CsrCols(rows), coupling)
  }

  /** Every ordered list of picked slots holds each picked slot exactly once. */
  lemma OrderedSlotsPicked(t: seq<seq<int>>, rnodes: seq<int>, nr: nat, nodiag: bool,
                           order: OrderingType, oracle: Oracle)
    requires DenseNumbering(rnodes, nr) && OracleValid(oracle)
    ensures Distinct(OrderedSlots(t, rnodes, nr, nodiag, order, oracle))
    ensures forall s :: s in OrderedSlots(t, rnodes, nr, nodiag, order, oracle) <==> 0 <= s < |rnodes| && rnodes[s] >= 0
  {
    var p := Inverse(GraphOrder(order, ReducedRows(t, rnodes, nr, nodiag), oracle), nr);
    PositionsPermuted(rnodes, nr, p, OrderedSlots(t, rnodes, nr, nodiag, order, oracle));
  }

  /** The positions of a dense numbering, read through a permutation, list each picked slot once. */
  lemma PositionsPermuted(rnodes: seq<int>, nr: nat, p: seq<int>, r: seq<int>)
    requires DenseNumbering(rnodes, nr) && IsPermutation(p, nr)
    requires |r| == nr && forall i :: 0 <= i < nr ==> r[i] == Positions(rnodes, nr)[p[i]]
    ensures Distinct(r)
    ensures forall s :: s in r <==> 0 <= s < |rnodes| && rnodes[s] >= 0
  {
    var q := Positions(rnodes, nr);
    forall i, j | 0 <= i < j < nr ensures r[i] != r[j] {
      assert rnodes[q[p[i]]] == p[i] && rnodes[q[p[j]]] == p[j];
    }
    PermutationOnto(p, nr);
    forall s | 0 <= s < |rnodes| && rnodes[s] >= 0 ensures s in r {
      var i := IndexOf(p, rnodes[s]);
      assert r[i] == s;
    }
    forall s | s in r ensures 0 <= s < |rnodes| && rnodes[s] >= 0 {
      var i := IndexOf(r, s);
    }
  }

  /** An array that holds each coupling slot's place in the list, and -1 elsewhere, is the coupling numbering. */
  lemma CouplingNumberingIs(n: nat, coupling: seq<int>, a: seq<int>)
    requires SlotList(coupling, n) && |a| == n
    requires forall s :: 0 <= s < n ==> a[s] == if s in coupling then IndexOf(coupling, s) else -1
    ensures a == CouplingNumbering(n, coupling)
  {
    var c := CouplingNumbering(n, coupling);
    forall s | 0 <= s < n ensures a[s] == c[s] {
    }
  }

  /** The coupling list is where its own positions point. */
  lemma CouplingPositionsAre(n: nat, coupling: seq<int>)
    requires SlotList(coupling, n)
    ensures Positions(CouplingNumbering(n, coupling), |coupling|) == coupling
  {
    var a := CouplingNumbering(n, coupling);
    var q := Positions(a, |coupling|);
    forall r | 0 <= r < |coupling| ensures q[r] == coupling[r] {
      IndexOfAt(coupling, r);
      assert a[coupling[r]] == r;
    }
  }

  /** The in-order numbering of the flagged slots points back to the list of flagged slots. */
  lemma KeptPositionsAre(f: seq<bool>)
    ensures DenseNumbering(NumberKept(f), CountTrue(f))
    ensures Positions(NumberKept(f), CountTrue(f)) == FlaggedPositions(f)
  {
    NumberKeptDense(f);
    FlaggedPositionsInverse(f);
    var q := Positions(NumberKept(f), CountTrue(f));
    var fp := FlaggedPositions(f);
    forall j | 0 <= j < CountTrue(f) ensures q[j] == fp[j] {
      assert NumberKept(f)[fp[j]] == j;
    }
  }

  /** The ordering routine's placement, read through a slot list, is the ordered list of those slots. */
  lemma ComposedOrder(t: seq<seq<int>>, rnodes: seq<int>, nr: nat, nodiag: bool, order: OrderingType, oracle: Oracle,
                      rowp: seq<int>, cols: seq<int>, perm: seq<int>, newVars: seq<int>, slots: seq<int>, r: seq<int>)
    requires DenseNumbering(rnodes, nr) && OracleValid(oracle)
    requires RowsAre(rowp, cols, ReducedRows(t, rnodes, nr, nodiag))
    requires IsPermutation(newVars, nr) && newVars == NewVarsOf(order, nr, rowp, cols, oracle)
    requires IsPermutation(perm, nr) && forall k :: 0 <= k < nr ==> perm[newVars[k]] == k
    requires slots == Positions(rnodes, nr)
    requires |r| == nr && forall i :: 0 <= i < nr ==> r[i] == slots[perm[i]]
    ensures r == OrderedSlots(t, rnodes, nr, nodiag, order, oracle)
  {
    GraphOrderOfTable(order, rowp, cols, ReducedRows(t, rnodes, nr, nodiag), oracle);
    InverseUnique(newVars, nr, perm);
  }

  /**
    feMatBIndices / feMatCIndices (the slots, in their new order) and the
    global numbers behind feMatBMap / feMatCMap.
  */
  datatype Split = Split(permLocal: seq<int>, tacsLocal: seq<int>, permCoupling: seq<int>, tacsCoupling: seq<int>)

  predicate Distinct(s: seq<int>) {
    forall j, k :: 0 <= j < k < |s| ==> s[j] != s[k]
  }

  /** In a strictly increasing list the first occurrence of an entry is its own position. */
  lemma IndexOfAt(c: seq<int>, k: int)
    requires StrictlyIncreasing(c) && 0 <= k < |c|
    ensures IndexOf(c, c[k]) == k
  {
    assert c[k] in c;
  }

  /**
    The first two loops of the non-TACS_AMD branch: all_nodes is -1 except at
    the coupling slots, where it holds the slot's position in the coupling list.
  */
  method CouplingPositions(n: nat, coupling: seq<int>) returns (allNodes: array<int>)
    requires SlotList(coupling, n)
    ensures fresh(allNodes) && allNodes.Length == n
    ensures forall s :: 0 <= s < n ==> allNodes[s] == if s in coupling then IndexOf(coupling, s) else -1
  {
    allNodes := new int[n](_ => -1);
    for k := 0 to |coupling|
      invariant forall s :: 0 <= s < n ==>
                  allNodes[s] == if s in coupling[..k] then IndexOf(coupling, s) else -1
    {
      IndexOfAt(coupling, k);
      assert coupling[..k + 1] == coupling[..k] + [coupling[k]];
      allNodes[coupling[k]] := k;
    }
    assert coupling[..|coupling|] == coupling;
  }

  /** all_nodes numbers the coupling slots densely, for the reduced graph of the coupling slots. */
  lemma CouplingPositionsDense(n: nat, coupling: seq<int>, a: seq<int>)
    requires SlotList(coupling, n) && |a| == n
    requires forall s :: 0 <= s < n ==> a[s] == if s in coupling then IndexOf(coupling, s) else -1
    ensures DenseNumbering(a, |coupling|)
  {
    forall r | 0 <= r < |coupling| ensures r in a {
      IndexOfAt(coupling, r);
      assert a[coupling[r]] == r;
    }
  }

  /** Number of set flags is the size of the set of flagged positions. */
  lemma {:induction false} CountTrueCard(f: seq<bool>)
    ensures |set s | 0 <= s < |f| && f[s]| == CountTrue(f)
  {
    if f != [] {
      var g := f[..|f| - 1];
      CountTrueCard(g);
      var below := set s | 0 <= s < |g| && g[s];
      var all := set s | 0 <= s < |f| && f[s];
      if f[|f| - 1] {
        assert all == below + {|f| - 1};
      } else {
        assert all == below;
      }
    }
  }

  /** The slots outside a list of distinct slots below n number n minus its length. */
  lemma ComplementCount(n: nat, coupling: seq<int>, f: seq<bool>)
    requires SlotList(coupling, n) && |f| == n
    requires forall s :: 0 <= s < n ==> (f[s] <==> s !in coupling)
    ensures CountTrue(f) == n - |coupling|
  {
    var g := seq(n, s requires 0 <= s < n => s in coupling);
    CountTrueCard(g);
    ImageSize(coupling, |coupling|);
    var flagged := set s | 0 <= s < |g| && g[s];
    var listed := set k | 0 <= k < |coupling| :: coupling[k];
    assert flagged == listed by {
      forall s | s in listed ensures s in flagged {
        var k :| 0 <= k < |coupling| && coupling[k] == s;
      }
    }
    var all := seq(n, s => true);
    CountTrueUnion(f, g, all);
    CountBand(all, 0, n);
  }

  /** The set positions of f, in increasing order. */
  ghost function FlaggedPositions(f: seq<bool>): seq<int>
  {
    if f == [] then []
    else FlaggedPositions(f[..|f| - 1]) + (if f[|f| - 1] then [|f| - 1] else [])
  }

  /** The t-th set position of f has exactly t set positions before it. */
  lemma {:induction false} FlaggedPositionsNumbered(f: seq<bool>)
    ensures |FlaggedPositions(f)| == CountTrue(f)
    ensures forall t :: 0 <= t < |FlaggedPositions(f)| ==>
              0 <= FlaggedPositions(f)[t] < |f| && f[FlaggedPositions(f)[t]]
              && CountTrue(f[..FlaggedPositions(f)[t]]) == t
  {
    if f != [] {
      var g := f[..|f| - 1];
      FlaggedPositionsNumbered(g);
      var fp := FlaggedPositions(f);
      forall t | 0 <= t < |FlaggedPositions(g)|
        ensures 0 <= fp[t] < |f| && f[fp[t]] && CountTrue(f[..fp[t]]) == t
      {
        var p := FlaggedPositions(g)[t];
        assert fp[t] == p;
        assert f[..p] == g[..p];
      }
    }
  }

  /** The positions of the slots flagged by f, as NumberKept(f) numbers them. */
  lemma FlaggedPositionsInverse(f: seq<bool>)
    ensures |FlaggedPositions(f)| == CountTrue(f)
    ensures forall t :: 0 <= t < |FlaggedPositions(f)| ==>
              0 <= FlaggedPositions(f)[t] < |f| && NumberKept(f)[FlaggedPositions(f)[t]] == t
  {
    FlaggedPositionsNumbered(f);
  }

  /** One step of the flip loop: slot k, when flagged, is numbered by the count of local slots so far. */
  lemma ComplementStep(f: seq<bool>, k: int)
    requires 0 <= k < |f|
    ensures FlaggedPositions(f[..k + 1]) == FlaggedPositions(f[..k]) + (if f[k] then [k] else [])
    ensures NumberKept(f)[k] == if f[k] then |FlaggedPositions(f[..k])| else -1
  {
    assert f[..k + 1][..k] == f[..k];
    FlaggedPositionsNumbered(f[..k]);
  }

  /** The value the flip writes at slot k, and the list it extends, follow the in-order numbering of the unmarked slots. */
  lemma ComplementValue(a0: seq<int>, f: seq<bool>, r: seq<int>, k: int, localNodes: seq<int>)
    requires 0 <= k < |a0| && f == NegativeIn(a0, 0, |a0|) && r == NumberKept(f)
    requires localNodes == FlaggedPositions(f[..k])
    ensures r[k] == if a0[k] < 0 then |localNodes| else -1
    ensures FlaggedPositions(f[..k + 1]) == localNodes + (if a0[k] < 0 then [k] else [])
  {
    ComplementStep(f, k);
  }

  /**
    The loop that flips all_nodes: the slots that were -1 (not coupling) are
    numbered 0, 1, 2, ... in order and listed in local_nodes, in that order;
    the others become -1.
  */
  method NumberComplement(a: array<int>) returns (localNodes: seq<int>)
    modifies a
    ensures a[..] == NumberKept(NegativeIn(old(a[..]), 0, a.Length))
    ensures localNodes == FlaggedPositions(NegativeIn(old(a[..]), 0, a.Length))
  {
    ghost var a0 := a[..];
    ghost var f := NegativeIn(a0, 0, a.Length);
    ghost var r := NumberKept(f);
    localNodes := [];
    for k := 0 to a.Length
      invariant localNodes == FlaggedPositions(f[..k])
      invariant NumberedUpTo(a[..], r, a0, 0, k)
    {
      ComplementValue(a0, f, r, k, localNodes);
      NumberedStep(a[..], r, a0, 0, k);
      ghost var s := a[..];
      assert a[k] == s[k] == a0[k];
      if a[k] < 0 {
        a[k] := |localNodes|;
        localNodes := localNodes + [k];
      } else {
        a[k] := -1;
      }
      assert a[..] == s[k := r[k]];
    }
    assert f[..a.Length] == f;
    assert a[..] == r;
  }

  /** The loops `perm_x[i] = x[perm_x[i]]`: the ordered slots, from the ordering of their positions. */
  method Compose(outer: seq<int>, inner: seq<int>) returns (r: seq<int>)
    requires forall i :: 0 <= i < |inner| ==> 0 <= inner[i] < |outer|
    ensures |r| == |inner| && forall i :: 0 <= i < |inner| ==> r[i] == outer[inner[i]]
  {
    var a := new int[|inner|];
    for i := 0 to |inner|
      invariant forall k :: 0 <= k < i ==> a[k] == outer[inner[k]]
    {
      a[i] := outer[inner[i]];
    }
    r := a[..];
  }

  /** The loops `tacs_x[i] = getGlobalNodeNum(perm_x[i])`. */
  method GlobalNumbers(sm: SlotMap, slots: seq<int>) returns (tacs: seq<int>)
    requires WellFormed(sm) && forall i :: 0 <= i < |slots| ==> 0 <= slots[i]
    ensures |tacs| == |slots| && forall i :: 0 <= i < |slots| ==> tacs[i] == GlobalNodeNum(sm, slots[i])
  {
    var a := new int[|slots|];
    for i := 0 to |slots|
      invariant forall k :: 0 <= k < i ==> a[k] == GlobalNodeNum(sm, slots[k])
    {
      a[i] := GlobalNodeNum(sm, slots[i]);
    }
    tacs := a[..];
  }

  /** The local slots followed by the coupling slots cover every slot once. */
  lemma SplitPermutation(pl: seq<int>, pc: seq<int>, n: int, coupling: seq<int>)
    requires Distinct(pl) && Distinct(pc) && |pl| + |pc| == n
    requires forall i :: 0 <= i < |pl| ==> 0 <= pl[i] < n && pl[i] !in coupling
    requires forall i :: 0 <= i < |pc| ==> 0 <= pc[i] < n && pc[i] in coupling
    ensures IsPermutation(pl + pc, n)
  {
    var p := pl + pc;
    forall j, k | 0 <= j < k < |p| ensures p[j] != p[k] {
      if j < |pl| && |pl| <= k {
        assert p[j] !in coupling && p[k] in coupling;
      }
    }
  }

  /**
    The split follows the orderings: NATURAL_ORDER is replaced by
    TACS_AMD_ORDER; under TACS_AMD_ORDER the local slots followed by the
    coupling slots are the coupling-aware ordering of the whole graph, and
    under the other orderings each list is its slots ordered on the graph they
    induce.
  */
  ghost predicate OrderedSplit(sm: SlotMap, m: Mesh, order: OrderingType, recvNodes: seq<int>,
                               oracle: Oracle, couplingOracle: CouplingOracle, split: Split)
    requires Resolved(sm, m) && OracleValid(oracle)
  {
    var orderType := if order == NaturalOrder then TacsAmdOrder else order;
    var t := ElementTable(sm, m);
    var coupling := CouplingNodes(sm, recvNodes);
    if orderType == TacsAmdOrder then
      split.permLocal + split.permCoupling == WholeGraphOrder(t, sm.numNodes, coupling, couplingOracle)
    else
      && split.permCoupling == CouplingOrder(t, sm.numNodes, coupling, orderType == NdOrder, orderType, oracle)
      && split.permLocal == LocalOrder(t, sm.numNodes, coupling, orderType == NdOrder, orderType, oracle)
  }

  /**
    What the first call of createFEMat stores: the local slots followed by
    the coupling slots cover every slot once, the coupling list is exactly the
    coupling slots, the global numbers are those of the listed slots, and the
    lists follow the orderings.
  */
  ghost predicate SplitOf(sm: SlotMap, m: Mesh, order: OrderingType, recvNodes: seq<int>,
                          oracle: Oracle, couplingOracle: CouplingOracle, split: Split)
    requires Resolved(sm, m) && OracleValid(oracle)
  {
    && IsPermutation(split.permLocal + split.permCoupling, sm.numNodes)
    && (forall s :: s in split.permCoupling <==> IsCoupling(sm, recvNodes, s))
    && |split.tacsLocal| == |split.permLocal| && |split.tacsCoupling| == |split.permCoupling|
    && (forall i :: 0 <= i < |split.permLocal| ==>
          0 <= split.permLocal[i] && split.tacsLocal[i] == GlobalNodeNum(sm, split.permLocal[i]))
    && (forall i :: 0 <= i < |split.permCoupling| ==>
          0 <= split.permCoupling[i] && split.tacsCoupling[i] == GlobalNodeNum(sm, split.permCoupling[i]))
    && OrderedSplit(sm, m, order, recvNodes, oracle, couplingOracle, split)
  }

  /**
    createFEMat's split (src/TACSAssembler.c 2375-2517), with NATURAL_ORDER
    replaced by TACS_AMD_ORDER.  Under TACS_AMD_ORDER one ordering of the
    whole graph without its diagonal places the coupling slots last; under the
    other orderings the coupling slots and the local slots are ordered
    separately, each on the graph they induce.
  */
  method ComputeSplit(sm: SlotMap, m: Mesh, order: OrderingType, recvNodes: seq<int>,
                      oracle: Oracle, couplingOracle: CouplingOracle)
    returns (split: Split)
    requires Resolved(sm, m) && OracleValid(oracle) && CouplingOracleValid(couplingOracle)
    requires forall k :: 0 <= k < |recvNodes| ==> Owned(sm, recvNodes[k])
    ensures |split.permCoupling| == |UniqueSort(recvNodes)| + sm.numExt
    ensures |split.permLocal| == sm.numNodes - |split.permCoupling|
    ensures forall s :: s in split.permLocal ==> !IsCoupling(sm, recvNodes, s)
    ensures SplitOf(sm, m, order, recvNodes, oracle, couplingOracle, split)
  {
    var orderType := if order == NaturalOrder then TacsAmdOrder else order;
    var coupling := ComputeCouplingNodes(sm, recvNodes);
    forall k | 0 <= k < |coupling| ensures 0 <= coupling[k] < sm.numNodes {
      assert coupling[k] in coupling;
    }
    ghost var outside := seq(sm.numNodes, s requires 0 <= s < sm.numNodes => s !in coupling);
    ComplementCount(sm.numNodes, coupling, outside);
    var permLocal, permCoupling;
    if orderType == TacsAmdOrder {
      permLocal, permCoupling := WholeGraphSplit(sm, m, coupling, couplingOracle);
    } else {
      permLocal, permCoupling := SeparateSplit(sm, m, orderType, coupling, oracle);
    }
    SplitRanges(permLocal, permCoupling, sm.numNodes);
    var tacsLocal := GlobalNumbers(sm, permLocal);
    var tacsCoupling := GlobalNumbers(sm, permCoupling);
    split := Split(permLocal, tacsLocal, permCoupling, tacsCoupling);
  }

  /**
    The TACS_AMD_ORDER branch: amd_order_interface on the graph without its
    diagonal; the first numNodes - ncoupling entries are the local slots.
  */
  method WholeGraphSplit(sm: SlotMap, m: Mesh, coupling: seq<int>, couplingOracle: CouplingOracle)
    returns (permLocal: seq<int>, permCoupling: seq<int>)
    requires Resolved(sm, m) && CouplingOracleValid(couplingOracle)
    requires SlotList(coupling, sm.numNodes) && |coupling| <= sm.numNodes
    ensures |permCoupling| == |coupling| && |permLocal| == sm.numNodes - |coupling|
    ensures IsPermutation(permLocal + permCoupling, sm.numNodes)
    ensures forall s :: s in permCoupling <==> s in coupling
    ensures forall s :: s in permLocal ==> s !in coupling
    ensures permLocal + permCoupling == WholeGraphOrder(ElementTable(sm, m), sm.numNodes, coupling, couplingOracle)
  {
    var n := sm.numNodes;
    var nlocal := n - |coupling|;
    var rowp, cols := NodeToNodeCsr(sm, m, true);
    RowsDetermineCsr(rowp, cols, NeighbourRows(ElementTable(sm, m), n, true));
    var perm := couplingOracle(n, rowp, cols, coupling);
    permLocal := perm[..nlocal];
    permCoupling := perm[nlocal..];
    CouplingLast(perm, n, coupling);
  }

  /** A permutation that places the coupling list last splits into the local and the coupling slots. */
  lemma CouplingLast(perm: seq<int>, n: nat, coupling: seq<int>)
    requires IsPermutation(perm, n) && SlotList(coupling, n) && |coupling| <= n
    requires forall k :: 0 <= k < n ==> (n - |coupling| <= k <==> perm[k] in coupling)
    ensures perm[..n - |coupling|] + perm[n - |coupling|..] == perm
    ensures forall s :: s in perm[n - |coupling|..] <==> s in coupling
    ensures forall s :: s in perm[..n - |coupling|] ==> s !in coupling
  {
    var nlocal := n - |coupling|;
    assert perm[..nlocal] + perm[nlocal..] == perm;
    PermutationOnto(perm, n);
    forall s | s in coupling ensures s in perm[nlocal..] {
      var j := IndexOf(coupling, s);
      assert 0 <= s < n;
      var k := IndexOf(perm, s);
      assert perm[nlocal..][k - nlocal] == s;
    }
  }

  /**
    The branch for the other orderings: the coupling slots, numbered by their
    position in the coupling list, are ordered on the graph they induce; then
    all_nodes is flipped to number the local slots in order, and those are
    ordered on the graph they induce.
  */
  method SeparateSplit(sm: SlotMap, m: Mesh, order: OrderingType, coupling: seq<int>, oracle: Oracle)
    returns (permLocal: seq<int>, permCoupling: seq<int>)
    requires Resolved(sm, m) && OracleValid(oracle)
    requires SlotList(coupling, sm.numNodes) && |coupling| <= sm.numNodes
    ensures |permCoupling| == |coupling| && |permLocal| == sm.numNodes - |coupling|
    ensures IsPermutation(permLocal + permCoupling, sm.numNodes)
    ensures forall s :: s in permCoupling <==> s in coupling
    ensures forall s :: s in permLocal ==> s !in coupling
    ensures permCoupling == CouplingOrder(ElementTable(sm, m), sm.numNodes, coupling, order == NdOrder, order, oracle)
    ensures permLocal == LocalOrder(ElementTable(sm, m), sm.numNodes, coupling, order == NdOrder, order, oracle)
  {
    var nodiag := order == NdOrder;
    var allNodes := CouplingPositions(sm.numNodes, coupling);
    permCoupling := OrderCoupling(sm, m, order, nodiag, coupling, allNodes[..], oracle);
    permLocal := OrderLocal(sm, m, order, nodiag, coupling, allNodes, oracle);
    SplitPermutation(permLocal, permCoupling, sm.numNodes, coupling);
  }

  /** The coupling slots, ordered on the graph they induce (nothing when there are none). */
  method OrderCoupling(sm: SlotMap, m: Mesh, order: OrderingType, nodiag: bool, coupling: seq<int>,
                       allNodes: seq<int>, oracle: Oracle)
    returns (permCoupling: seq<int>)
    requires Resolved(sm, m) && OracleValid(oracle)
    requires SlotList(coupling, sm.numNodes) && |allNodes| == sm.numNodes
    requires forall s :: 0 <= s < sm.numNodes ==> allNodes[s] == if s in coupling then IndexOf(coupling, s) else -1
    ensures |permCoupling| == |coupling| && Distinct(permCoupling)
    ensures forall s :: s in permCoupling <==> s in coupling
    ensures forall i :: 0 <= i < |permCoupling| ==> 0 <= permCoupling[i] < sm.numNodes
    ensures permCoupling == CouplingOrder(ElementTable(sm, m), sm.numNodes, coupling, nodiag, order, oracle)
  {
    var nc := |coupling|;
    if nc > 0 {
      CouplingNumberingIs(sm.numNodes, coupling, allNodes);
      CouplingPositionsAre(sm.numNodes, coupling);
      permCoupling := OrderPicked(sm, m, allNodes, nc, nodiag, order, oracle, coupling);
      OrderedSlotsPicked(ElementTable(sm, m), allNodes, nc, nodiag, order, oracle);
      CouplingPicked(sm.numNodes, coupling, allNodes, permCoupling);
    } else {
      permCoupling := [];
    }
  }

  /** The slots the coupling numbering picks are the coupling slots. */
  lemma CouplingPicked(n: nat, coupling: seq<int>, allNodes: seq<int>, r: seq<int>)
    requires SlotList(coupling, n) && |allNodes| == n
    requires forall s :: 0 <= s < n ==> allNodes[s] == if s in coupling then IndexOf(coupling, s) else -1
    requires forall s :: s in r <==> 0 <= s < |allNodes| && allNodes[s] >= 0
    ensures forall s :: s in r <==> s in coupling
    ensures forall i :: 0 <= i < |r| ==> 0 <= r[i] < n
  {
    forall s | s in coupling ensures 0 <= s < n {
      var k := IndexOf(coupling, s);
    }
    forall i | 0 <= i < |r| ensures 0 <= r[i] < n {
      assert r[i] in r;
    }
  }

  /**
    computeLocalNodeToNodeCSR on the slots rnodes picks, computeMatReordering,
    and the loop `perm_x[i] = x[perm_x[i]]` over slots, the list of those
    slots in their reduced order.
  */
  method OrderPicked(sm: SlotMap, m: Mesh, rnodes: seq<int>, nr: nat, nodiag: bool, order: OrderingType,
                     oracle: Oracle, slots: seq<int>)
    returns (r: seq<int>)
    requires Resolved(sm, m) && OracleValid(oracle)
    requires |rnodes| == sm.numNodes && DenseNumbering(rnodes, nr) && slots == Positions(rnodes, nr)
    ensures r == OrderedSlots(ElementTable(sm, m), rnodes, nr, nodiag, order, oracle)
  {
    var rowp, cols := ReducedNodeToNodeCsr(sm, m, rnodes, nr, nodiag);
    var perm, newVars := ComputeMatReordering(order, nr, rowp, cols, oracle);
    r := Compose(slots, perm);
    ComposedOrder(ElementTable(sm, m), rnodes, nr, nodiag, order, oracle, rowp, cols, perm, newVars, slots, r);
  }

  /** Flips all_nodes to number the local slots, and orders them on the graph they induce. */
  method OrderLocal(sm: SlotMap, m: Mesh, order: OrderingType, nodiag: bool, coupling: seq<int>,
                    allNodes: array<int>, oracle: Oracle)
    returns (permLocal: seq<int>)
    requires Resolved(sm, m) && OracleValid(oracle)
    requires SlotList(coupling, sm.numNodes) && allNodes.Length == sm.numNodes
    requires forall s :: 0 <= s < sm.numNodes ==> allNodes[s] == if s in coupling then IndexOf(coupling, s) else -1
    modifies allNodes
    ensures |permLocal| == sm.numNodes - |coupling| && Distinct(permLocal)
    ensures forall i :: 0 <= i < |permLocal| ==> 0 <= permLocal[i] < sm.numNodes && permLocal[i] !in coupling
    ensures permLocal == LocalOrder(ElementTable(sm, m), sm.numNodes, coupling, nodiag, order, oracle)
  {
    var n := sm.numNodes;
    ghost var f := LocalFlags(n, coupling);
    LocalFlagsOf(allNodes[..], n, coupling);
    var nlocal := n - |coupling|;
    var localNodes := NumberComplement(allNodes);
    var rn := allNodes[..];
    KeptPositionsAre(f);
    NumberKeptDense(f);
    permLocal := OrderPicked(sm, m, rn, nlocal, nodiag, order, oracle, localNodes);
    OrderedSlotsPicked(ElementTable(sm, m), rn, nlocal, nodiag, order, oracle);
    LocalPicked(n, coupling, rn, permLocal);
  }

  /** The slots the local numbering picks lie outside the coupling list. */
  lemma LocalPicked(n: nat, coupling: seq<int>, rn: seq<int>, r: seq<int>)
    requires rn == NumberKept(LocalFlags(n, coupling))
    requires forall s :: s in r <==> 0 <= s < |rn| && rn[s] >= 0
    ensures forall i :: 0 <= i < |r| ==> 0 <= r[i] < n && r[i] !in coupling
  {
    forall i | 0 <= i < |r| ensures 0 <= r[i] < n && r[i] !in coupling {
      assert r[i] in r;
    }
  }

  /** The slots all_nodes leaves at -1 are the local ones, n minus the coupling count of them. */
  lemma LocalFlagsOf(a: seq<int>, n: nat, coupling: seq<int>)
    requires SlotList(coupling, n) && |a| == n
    requires forall s :: 0 <= s < n ==> a[s] == if s in coupling then IndexOf(coupling, s) else -1
    ensures NegativeIn(a, 0, n) == LocalFlags(n, coupling)
    ensures CountTrue(LocalFlags(n, coupling)) == n - |coupling|
  {
    var f := NegativeIn(a, 0, n);
    forall s | 0 <= s < n ensures f[s] == LocalFlags(n, coupling)[s] {
      if s in coupling {
        assert a[s] == IndexOf(coupling, s) >= 0;
      }
    }
    ComplementCount(n, coupling, f);
  }

  /** Both halves of a permutation hold slots. */
  lemma SplitRanges(pl: seq<int>, pc: seq<int>, n: int)
    requires IsPermutation(pl + pc, n)
    ensures forall i :: 0 <= i < |pl| ==> 0 <= pl[i] < n
    ensures forall i :: 0 <= i < |pc| ==> 0 <= pc[i] < n
  {
    forall i | 0 <= i < |pl| ensures 0 <= pl[i] < n {
      assert pl[i] == (pl + pc)[i];
    }
    forall i | 0 <= i < |pc| ensures 0 <= pc[i] < n {
      assert pc[i] == (pl + pc)[|pl| + i];
    }
  }
}
