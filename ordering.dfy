/**
  The renumbering of the local nodes: the ordering routines behind
  computeMatReordering, the dense in-order numbering of a subset of the slots,
  the coupling nodes shared with other processes, and the numbering of the
  owned nodes that computeReordering builds (interior nodes first, then the
  nodes that couple to other processes).
*/
module Ordering {
  import opened Sorting
  import opened Numbering
  import opened Csr
  import opened GraphSpec
  import opened NodeGraph

  /** The orderings computeMatReordering can apply. */
  datatype OrderingType = RcmOrder | AmdOrder | NdOrder | TacsAmdOrder | NaturalOrder

  /** The matrix types that decide which owned nodes count as coupling nodes. */
  datatype MatrixOrderingType = AdditiveSchwarz | ApproximateSchur | DirectSchur

  /**
    An external ordering routine applied to a graph of n vertices in CSR form:
    ComputeRCMOrder for RcmOrder (it yields new_vars), amd_order for AmdOrder,
    METIS_NodeND for NdOrder and amd_order_interface for TacsAmdOrder (they
    yield perm).  NaturalOrder does not call it.
  */
  type Oracle = (OrderingType, nat, seq<int>, seq<int>) -> seq<int>

  /** Every routine returns a permutation of the vertices. */
  ghost predicate OracleValid(oracle: Oracle) {
    forall order, n: nat, rowp, cols :: IsPermutation(oracle(order, n, rowp, cols), n)
  }

  /** The loops `q[p[k]] = k` that turn new_vars into perm and perm into new_vars. */
  method InvertPermutation(p: seq<int>, n: nat) returns (q: seq<int>)
    requires IsPermutation(p, n)
    ensures IsPermutation(q, n)
    ensures forall k :: 0 <= k < n ==> q[p[k]] == k
    ensures forall x :: 0 <= x < n ==> p[q[x]] == x
    ensures q == Inverse(p, n)
  {
    var a := new int[n];
    for k := 0 to n
      invariant forall j :: 0 <= j < k ==> a[p[j]] == j
    {
      a[p[k]] := k;
    }
    q := a[..];
    PermutationOnto(p, n);
    forall x | 0 <= x < n
      ensures 0 <= q[x] < n && p[q[x]] == x
    {
      assert x in p;
      var j :| 0 <= j < n && p[j] == x;
    }
    InverseUnique(p, n, q);
  }

  /**
    The new_vars computeMatReordering returns for the graph in the CSR table
    (rowp, cols): a permutation of [0, n) that is the routine's own answer
    under RCM, the inverse of the routine's perm under AMD, ND and TACS_AMD,
    and the identity under NATURAL.
  */
  function NewVarsOf(order: OrderingType, n: nat, rowp: seq<int>, cols: seq<int>, oracle: Oracle): (q: seq<int>)
    requires OracleValid(oracle)
    ensures IsPermutation(q, n)
    ensures order == NaturalOrder ==> forall k :: 0 <= k < n ==> q[k] == k
    ensures order != RcmOrder && order != NaturalOrder ==>
              forall k :: 0 <= k < n ==> q[oracle(order, n, rowp, cols)[k]] == k
  {
    if order == RcmOrder then oracle(order, n, rowp, cols)
    else if order == NaturalOrder then Identity(n)
    else Inverse(oracle(order, n, rowp, cols), n)
  }

  /** The ordering of the graph whose row i holds the neighbours rows[i]: new_vars for its sorted CSR table. */
  ghost function GraphOrder(order: OrderingType, rows: seq<set<int>>, oracle: Oracle): (q: seq<int>)
    requires OracleValid(oracle)
    ensures IsPermutation(q, |rows|)
  {
    NewVarsOf(order, |rows|, CsrPtr(rows), CsrCols(rows), oracle)
  }

  /** Every sorted CSR table of a graph hands the routine the same input, so the ordering depends on the graph alone. */
  lemma GraphOrderOfTable(order: OrderingType, rowp: seq<int>, cols: seq<int>, rows: seq<set<int>>, oracle: Oracle)
    requires OracleValid(oracle) && RowsAre(rowp, cols, rows)
    ensures NewVarsOf(order, |rows|, rowp, cols, oracle) == GraphOrder(order, rows, oracle)
  {
    RowsDetermineCsr(rowp, cols, rows);
  }

  /**
    The ordering of the slots flagged by f: that of the reduced node graph of
    the element table t over their in-order numbers.
  */
  ghost function BlockOrder(t: seq<seq<int>>, f: seq<bool>, nodiag: bool, order: OrderingType, oracle: Oracle): (p: seq<int>)
    requires OracleValid(oracle)
    ensures IsPermutation(p, CountTrue(f))
  {
    NumberKeptDense(f);
    GraphOrder(order, ReducedRows(t, NumberKept(f), CountTrue(f), nodiag), oracle)
  }

  /**
    computeMatReordering: perm and new_vars are inverse permutations of
    [0, nvars); perm[i] is the old vertex placed at position i and new_vars[j]
    the new position of old vertex j.
  */
  method ComputeMatReordering(order: OrderingType, nvars: nat, rowp: seq<int>, cols: seq<int>, oracle: Oracle)
    returns (perm: seq<int>, newVars: seq<int>)
    requires OracleValid(oracle)
    ensures IsPermutation(perm, nvars) && IsPermutation(newVars, nvars)
    ensures forall k :: 0 <= k < nvars ==> perm[newVars[k]] == k && newVars[perm[k]] == k
    ensures order == RcmOrder ==> newVars == oracle(order, nvars, rowp, cols)
    ensures order != RcmOrder && order != NaturalOrder ==> perm == oracle(order, nvars, rowp, cols)
    ensures order == NaturalOrder ==> perm == Identity(nvars) && newVars == Identity(nvars)
    ensures newVars == NewVarsOf(order, nvars, rowp, cols, oracle)
  {
    if order == RcmOrder {
      newVars := oracle(order, nvars, rowp, cols);
      perm := InvertPermutation(newVars, nvars);
    } else if order == NaturalOrder {
      perm := Identity(nvars);
      newVars := Identity(nvars);
    } else {
      perm := oracle(order, nvars, rowp, cols);
      newVars := InvertPermutation(perm, nvars);
    }
  }

  /** Number of set flags. */
  function CountTrue(f: seq<bool>): (c: nat)
    ensures c <= |f|
  {
    if f == [] then 0 else CountTrue(f[..|f| - 1]) + (if f[|f| - 1] then 1 else 0)
  }

  lemma CountTrueStep(f: seq<bool>, i: int)
    requires 0 <= i < |f|
    ensures CountTrue(f[..i + 1]) == CountTrue(f[..i]) + (if f[i] then 1 else 0)
  {
    assert f[..i + 1][..i] == f[..i];
  }

  /** Counts over longer prefixes are larger, strictly so past a set flag. */
  lemma {:induction false} CountTrueMono(f: seq<bool>, i: int, j: int)
    requires 0 <= i <= j <= |f|
    ensures CountTrue(f[..i]) + (if i < j && f[i] then 1 else 0) <= CountTrue(f[..j])
    decreases j - i
  {
    if i < j {
      CountTrueStep(f, j - 1);
      if i < j - 1 {
        CountTrueMono(f, i, j - 1);
      }
    }
  }

  /** Every count below the total is reached at some set flag. */
  lemma {:induction false} CountTrueOnto(f: seq<bool>, j: int, r: int)
    requires 0 <= j <= |f| && 0 <= r < CountTrue(f[..j])
    ensures exists i :: 0 <= i < j && f[i] && CountTrue(f[..i]) == r
    decreases j
  {
    if j > 0 {
      CountTrueStep(f, j - 1);
      if r < CountTrue(f[..j - 1]) {
        CountTrueOnto(f, j - 1, r);
      } else {
        assert f[j - 1] && CountTrue(f[..j - 1]) == r;
      }
    }
  }

  /** The flags of s at entries that are not negative. */
  function Kept(s: seq<int>): (f: seq<bool>)
    ensures |f| == |s| && forall i :: 0 <= i < |s| ==> (f[i] <==> s[i] >= 0)
  {
    seq(|s|, i requires 0 <= i < |s| => s[i] >= 0)
  }

  /** Numbers the set positions 0, 1, 2, ... in order and marks the others -1. */
  function NumberKept(f: seq<bool>): (r: seq<int>)
    ensures |r| == |f|
    ensures forall i :: 0 <= i < |f| ==> r[i] == if f[i] then CountTrue(f[..i]) else -1
    ensures forall i :: 0 <= i < |f| && f[i] ==> r[i] < CountTrue(f)
  {
    CountBelowTotal(f);
    seq(|f|, i requires 0 <= i < |f| => if f[i] then CountTrue(f[..i]) else -1)
  }

  /** The count before a set flag is below the total count. */
  lemma CountBelowTotal(f: seq<bool>)
    ensures forall i :: 0 <= i < |f| && f[i] ==> CountTrue(f[..i]) < CountTrue(f)
  {
    assert f[..|f|] == f;
    forall i | 0 <= i < |f| && f[i] ensures CountTrue(f[..i]) < CountTrue(f) {
      CountTrueMono(f, i, |f|);
    }
  }

  /**
    The in-order numbering numbers exactly the set positions, densely (0 ..
    count-1, each once), and keeps their order.
  */
  lemma NumberKeptDense(f: seq<bool>)
    ensures DenseNumbering(NumberKept(f), CountTrue(f))
    ensures forall i :: 0 <= i < |f| ==> (NumberKept(f)[i] >= 0 <==> f[i])
    ensures forall i, j :: 0 <= i < j < |f| && f[i] && f[j] ==> NumberKept(f)[i] < NumberKept(f)[j]
  {
    var r := NumberKept(f);
    var n := CountTrue(f);
    assert f[..|f|] == f;
    forall i, j | 0 <= i < j < |f| && f[i] ensures r[i] < CountTrue(f[..j]) {
      CountTrueMono(f, i, j);
    }
    forall x | 0 <= x < n ensures x in r {
      CountTrueOnto(f, |f|, x);
      var i :| 0 <= i < |f| && f[i] && CountTrue(f[..i]) == x;
      assert r[i] == x;
    }
  }

  /**
    The loop that numbers the entries of a that are not negative 0, 1, 2, ...
    in order (lines 818-824 of computeReordering); the -1 entries stay -1.
  */
  method NumberInOrder(a: array<int>) returns (count: nat)
    requires forall k :: 0 <= k < a.Length ==> a[k] == 0 || a[k] == -1
    modifies a
    ensures a[..] == NumberKept(Kept(old(a[..])))
    ensures count == CountTrue(Kept(old(a[..])))
  {
    ghost var a0 := a[..];
    ghost var f := Kept(a0);
    ghost var r := NumberKept(f);
    count := 0;
    for i := 0 to a.Length
      invariant count == CountTrue(f[..i])
      invariant NumberedUpTo(a[..], r, a0, 0, i)
    {
      NumberStep(f, i);
      NumberedStep(a[..], r, a0, 0, i);
      ghost var s := a[..];
      if a[i] >= 0 {
        a[i] := count;
        count := count + 1;
      }
      assert a[..] == s[i := r[i]];
    }
    assert f[..a.Length] == f;
    NumberedAll(a[..], r, a0);
  }

  /** s holds r on [lo, i) and a0 everywhere else. */
  ghost predicate NumberedUpTo(s: seq<int>, r: seq<int>, a0: seq<int>, lo: int, i: int) {
    && |s| == |r| == |a0|
    && forall k :: 0 <= k < |s| ==> s[k] == if lo <= k < i then r[k] else a0[k]
  }

  lemma NumberedStep(s: seq<int>, r: seq<int>, a0: seq<int>, lo: int, i: int)
    requires NumberedUpTo(s, r, a0, lo, i) && 0 <= lo <= i < |s|
    ensures NumberedUpTo(s[i := r[i]], r, a0, lo, i + 1)
  {
    var s' := s[i := r[i]];
    forall k | 0 <= k < |s'| ensures s'[k] == if lo <= k < i + 1 then r[k] else a0[k] {
      if k != i {
        assert s'[k] == s[k];
      }
    }
  }

  lemma NumberedAll(s: seq<int>, r: seq<int>, a0: seq<int>)
    requires NumberedUpTo(s, r, a0, 0, |s|)
    ensures s == r
  {
  }

  /** The flags of the slots in [lo, hi) where s is negative. */
  function NegativeIn(s: seq<int>, lo: int, hi: int): (f: seq<bool>)
    ensures |f| == |s| && forall i :: 0 <= i < |s| ==> (f[i] <==> lo <= i < hi && s[i] < 0)
  {
    seq(|s|, i requires 0 <= i < |s| => lo <= i < hi && s[i] < 0)
  }

  /**
    The second pass of computeReordering over the owned band [lo, hi): the
    slots the first pass left unnumbered are numbered 0, 1, 2, ... in order and
    the numbered ones become -1 (lines 857-868).  Slots outside the band are -1
    already and are not visited.
  */
  method NumberUnnumbered(a: array<int>, lo: int, hi: int) returns (count: nat)
    requires 0 <= lo <= hi <= a.Length
    requires forall k :: 0 <= k < a.Length && !(lo <= k < hi) ==> a[k] == -1
    modifies a
    ensures a[..] == NumberKept(NegativeIn(old(a[..]), lo, hi))
    ensures count == CountTrue(NegativeIn(old(a[..]), lo, hi))
  {
    ghost var a0 := a[..];
    ghost var f := NegativeIn(a0, lo, hi);
    ghost var r := NumberKept(f);
    count := 0;
    FlagsClear(f, lo);
    for i := lo to hi
      invariant count == CountTrue(f[..i])
      invariant NumberedUpTo(a[..], r, a0, lo, i)
    {
      NumberedValue(a0, f, r, lo, hi, i, count);
      NumberedStep(a[..], r, a0, lo, i);
      ghost var s := a[..];
      assert a[i] == s[i] == a0[i];
      if a[i] < 0 {
        a[i] := count;
        count := count + 1;
      } else {
        a[i] := -1;
      }
      assert a[..] == s[i := r[i]];
    }
    FlagsClearAfter(f, hi);
    OutsideBandUnnumbered(a[..], r, a0, f, lo, hi);
  }

  /** The value the second pass writes at slot i of the band is the in-order number of its flag. */
  lemma NumberedValue(a0: seq<int>, f: seq<bool>, r: seq<int>, lo: int, hi: int, i: int, count: int)
    requires 0 <= lo <= i < hi <= |a0| && f == NegativeIn(a0, lo, hi) && r == NumberKept(f)
    requires count == CountTrue(f[..i])
    ensures r[i] == if a0[i] < 0 then count else -1
    ensures CountTrue(f[..i + 1]) == count + (if a0[i] < 0 then 1 else 0)
  {
    NumberStep(f, i);
  }

  /** Outside the band, the in-order numbering of the band's flags leaves the -1 entries as they are. */
  lemma OutsideBandUnnumbered(s: seq<int>, r: seq<int>, a0: seq<int>, f: seq<bool>, lo: int, hi: int)
    requires NumberedUpTo(s, r, a0, lo, hi) && |f| == |s|
    requires forall k :: 0 <= k < |s| ==> (r[k] == -1 <==> !f[k])
    requires forall k :: 0 <= k < |s| ==> (f[k] ==> lo <= k < hi)
    requires forall k :: 0 <= k < |s| && !(lo <= k < hi) ==> a0[k] == -1
    ensures s == r
  {
  }

  /** One step of an in-order numbering: the count grows past a set flag, which gets the count so far. */
  lemma NumberStep(f: seq<bool>, i: int)
    requires 0 <= i < |f|
    ensures CountTrue(f[..i + 1]) == CountTrue(f[..i]) + (if f[i] then 1 else 0)
    ensures NumberKept(f)[i] == if f[i] then CountTrue(f[..i]) else -1
  {
    CountTrueStep(f, i);
  }

  /** No flag set from j on: the count of the prefix up to j is the whole count. */
  lemma {:induction false} FlagsClearAfter(f: seq<bool>, j: int)
    requires 0 <= j <= |f| && forall k :: j <= k < |f| ==> !f[k]
    ensures CountTrue(f) == CountTrue(f[..j])
    decreases |f| - j
  {
    if j < |f| {
      CountTrueStep(f, j);
      FlagsClearAfter(f, j + 1);
    } else {
      assert f[..j] == f;
    }
  }

  /** No flag set in a prefix: its count is zero. */
  lemma {:induction false} FlagsClear(f: seq<bool>, j: int)
    requires 0 <= j <= |f| && forall k :: 0 <= k < j ==> !f[k]
    ensures CountTrue(f[..j]) == 0
    decreases j
  {
    if j == 0 {
      assert f[..0] == [];
    } else {
      CountTrueStep(f, j - 1);
      FlagsClear(f, j - 1);
    }
  }

  /**
    The loops `newNodeNums[i] = offset + newReducedNodes[j]` of
    computeReordering: the slot numbered j by the in-order numbering gets
    offset plus the new number of j.
  */
  method PlaceNumbers(nn: array<int>, reduced: seq<int>, ghost f: seq<bool>, newReduced: seq<int>, offset: int)
    requires |f| == |reduced| == nn.Length && reduced == NumberKept(f) && |newReduced| == CountTrue(f)
    modifies nn
    ensures forall i :: 0 <= i < nn.Length ==>
              nn[i] == if f[i] then offset + newReduced[reduced[i]] else old(nn[i])
  {
    var j := 0;
    for i := 0 to nn.Length
      invariant j == CountTrue(f[..i])
      invariant forall k :: 0 <= k < nn.Length ==> nn[k] == if k < i && f[k] then offset + newReduced[reduced[k]] else old(nn[k])
    {
      NumberStep(f, i);
      if reduced[i] >= 0 {
        nn[i] := offset + newReduced[j];
        j := j + 1;
      }
    }
  }

  /**
    The local slots of the coupling nodes as computeCouplingNodes lists them:
    every external slot, and the owned slots whose node another process
    references (one of recvNodes).
  */
  ghost predicate IsCoupling(sm: SlotMap, recvNodes: seq<int>, s: int)
    requires WellFormed(sm) && sm.ext.Some?
  {
    && 0 <= s < sm.numNodes
    && (sm.extOffset <= s < sm.extOffset + sm.numOwned ==> GlobalNodeNum(sm, s) in recvNodes)
  }

  /**
    computeCouplingNodes: the external slots below the owned band, the slots of
    the received owned nodes (sorted, without repeats), then the external slots
    above the band.  recvNodes are the owned node numbers the other processes
    reference, which arrive by message passing.
  */
  method ComputeCouplingNodes(sm: SlotMap, recvNodes: seq<int>) returns (couplingNodes: seq<int>)
    requires WellFormed(sm) && sm.ext.Some?
    requires forall k :: 0 <= k < |recvNodes| ==> Owned(sm, recvNodes[k])
    ensures |couplingNodes| == |UniqueSort(recvNodes)| + sm.numExt
    ensures StrictlyIncreasing(couplingNodes)
    ensures forall s :: s in couplingNodes <==> IsCoupling(sm, recvNodes, s)
    ensures couplingNodes == CouplingNodes(sm, recvNodes)
  {
    var sorted := UniqueSort(recvNodes);
    SortedOwned(sm, recvNodes, sorted);
    var lo := sm.extOffset;
    var below := AppendRun([], 0, lo, 0);
    var middle := AppendSlots(sm, below, sorted);
    couplingNodes := AppendRun(middle, lo, sm.numExt, sm.numOwned);
    forall k | 0 <= k < |middle| ensures couplingNodes[k] == middle[k] {
      assert couplingNodes[..|middle|][k] == couplingNodes[k];
    }
    forall k | 0 <= k < lo ensures couplingNodes[k] == k {
      assert middle[..lo][k] == middle[k];
    }
    CouplingNodesShape(sm, recvNodes, sorted, couplingNodes);
    StrictlyIncreasingUnique(couplingNodes, CouplingNodes(sm, recvNodes));
  }

  /** The coupling slots in increasing order. */
  ghost function CouplingNodes(sm: SlotMap, recvNodes: seq<int>): (c: seq<int>)
    requires WellFormed(sm) && sm.ext.Some?
    ensures StrictlyIncreasing(c)
    ensures forall s :: s in c <==> IsCoupling(sm, recvNodes, s)
    ensures forall k :: 0 <= k < |c| ==> 0 <= c[k] < sm.numNodes
  {
    var c := SortedOf(set s | 0 <= s < sm.numNodes && IsCoupling(sm, recvNodes, s));
    assert forall k :: 0 <= k < |c| ==> c[k] in c;
    c
  }

  /** The loops `couplingNodes[index] = i + shift` for i in [from, to). */
  method AppendRun(c: seq<int>, from: int, to: int, shift: int) returns (r: seq<int>)
    requires from <= to
    ensures |r| == |c| + (to - from) && r[..|c|] == c
    ensures forall k :: |c| <= k < |r| ==> r[k] == k - |c| + from + shift
  {
    r := c;
    for i := from to to
      invariant |r| == |c| + (i - from) && r[..|c|] == c
      invariant forall k :: |c| <= k < |r| ==> r[k] == k - |c| + from + shift
    {
      r := r + [i + shift];
    }
  }

  /**
    The loop `couplingNodes[index] = getLocalNodeNum(recvNodesSorted[i])`: the
    received nodes are owned, so each lands at its offset in the owned band.
  */
  method AppendSlots(sm: SlotMap, c: seq<int>, sorted: seq<int>) returns (r: seq<int>)
    requires WellFormed(sm) && forall k :: 0 <= k < |sorted| ==> Owned(sm, sorted[k])
    ensures |r| == |c| + |sorted| && r[..|c|] == c
    ensures forall k :: 0 <= k < |sorted| ==> r[|c| + k] == sorted[k] - sm.ownerStart + sm.extOffset
  {
    r := c;
    for i := 0 to |sorted|
      invariant |r| == |c| + i && r[..|c|] == c
      invariant forall k :: 0 <= k < i ==> r[|c| + k] == sorted[k] - sm.ownerStart + sm.extOffset
    {
      OwnedSlot(sm, sorted[i]);
      r := r + [LocalNodeNum(sm, sorted[i])];
    }
  }

  /** An owned node sits at its offset in the owned band. */
  lemma OwnedSlot(sm: SlotMap, x: int)
    requires WellFormed(sm) && Owned(sm, x)
    ensures LocalNodeNum(sm, x) == x - sm.ownerStart + sm.extOffset
  {
  }

  /** The sorted received nodes are owned, as the received ones are. */
  lemma SortedOwned(sm: SlotMap, recvNodes: seq<int>, sorted: seq<int>)
    requires forall k :: 0 <= k < |recvNodes| ==> Owned(sm, recvNodes[k])
    requires sorted == UniqueSort(recvNodes)
    ensures forall k :: 0 <= k < |sorted| ==> Owned(sm, sorted[k])
  {
    forall k | 0 <= k < |sorted| ensures Owned(sm, sorted[k]) {
      assert sorted[k] in recvNodes;
      var j :| 0 <= j < |recvNodes| && recvNodes[j] == sorted[k];
    }
  }

  /** Order and contents of the three parts computeCouplingNodes concatenates. */
  lemma CouplingNodesShape(sm: SlotMap, recvNodes: seq<int>, sorted: seq<int>, c: seq<int>)
    requires WellFormed(sm) && sm.ext.Some?
    requires sorted == UniqueSort(recvNodes)
    requires forall k :: 0 <= k < |sorted| ==> Owned(sm, sorted[k])
    requires |c| == |sorted| + sm.numExt
    requires forall k :: 0 <= k < sm.extOffset ==> c[k] == k
    requires forall k :: 0 <= k < |sorted| ==> c[sm.extOffset + k] == sorted[k] - sm.ownerStart + sm.extOffset
    requires forall k :: sm.extOffset + |sorted| <= k < |c| ==> c[k] == k - |sorted| + sm.numOwned
    ensures StrictlyIncreasing(c)
    ensures forall s :: s in c <==> IsCoupling(sm, recvNodes, s)
  {
    CouplingListIncreasing(sm, sorted, c);
    forall s | s in c ensures IsCoupling(sm, recvNodes, s) {
      ListedCoupling(sm, recvNodes, sorted, c, s);
    }
    forall s | IsCoupling(sm, recvNodes, s) ensures s in c {
      CouplingListed(sm, recvNodes, sorted, c, s);
    }
  }

  /** The three parts of the coupling list follow one another in increasing order. */
  lemma CouplingListIncreasing(sm: SlotMap, sorted: seq<int>, c: seq<int>)
    requires WellFormed(sm) && sm.ext.Some? && StrictlyIncreasing(sorted)
    requires forall k :: 0 <= k < |sorted| ==> Owned(sm, sorted[k])
    requires |c| == |sorted| + sm.numExt
    requires forall k :: 0 <= k < sm.extOffset ==> c[k] == k
    requires forall k :: 0 <= k < |sorted| ==> c[sm.extOffset + k] == sorted[k] - sm.ownerStart + sm.extOffset
    requires forall k :: sm.extOffset + |sorted| <= k < |c| ==> c[k] == k - |sorted| + sm.numOwned
    ensures StrictlyIncreasing(c)
  {
    var lo, mid, hi := sm.extOffset, sm.extOffset + |sorted|, sm.extOffset + sm.numOwned;
    forall k | lo <= k < mid ensures lo <= c[k] < hi {
      assert c[lo + (k - lo)] == sorted[k - lo] - sm.ownerStart + lo;
    }
    forall i, j | lo <= i < j < mid ensures c[i] < c[j] {
      assert c[lo + (i - lo)] == sorted[i - lo] - sm.ownerStart + lo;
      assert c[lo + (j - lo)] == sorted[j - lo] - sm.ownerStart + lo;
    }
    ThreePartsIncreasing(c, lo, mid, hi);
  }

  /** Every listed slot is a coupling slot. */
  lemma ListedCoupling(sm: SlotMap, recvNodes: seq<int>, sorted: seq<int>, c: seq<int>, s: int)
    requires WellFormed(sm) && sm.ext.Some?
    requires sorted == UniqueSort(recvNodes)
    requires forall k :: 0 <= k < |sorted| ==> Owned(sm, sorted[k])
    requires |c| == |sorted| + sm.numExt
    requires forall k :: 0 <= k < sm.extOffset ==> c[k] == k
    requires forall k :: 0 <= k < |sorted| ==> c[sm.extOffset + k] == sorted[k] - sm.ownerStart + sm.extOffset
    requires forall k :: sm.extOffset + |sorted| <= k < |c| ==> c[k] == k - |sorted| + sm.numOwned
    requires s in c
    ensures IsCoupling(sm, recvNodes, s)
  {
    var lo := sm.extOffset;
    var i :| 0 <= i < |c| && c[i] == s;
    if i < lo {
      assert s == i;
    } else if i < lo + |sorted| {
      var x := sorted[i - lo];
      assert c[lo + (i - lo)] == x - sm.ownerStart + lo;
      assert Owned(sm, x) && x in sorted;
      assert GlobalNodeNum(sm, s) == x;
    } else {
      assert s == i - |sorted| + sm.numOwned;
    }
  }

  /**
    A list made of 0 .. lo-1, then increasing values in [lo, hi), then hi, hi+1,
    ... is strictly increasing.
  */
  lemma ThreePartsIncreasing(c: seq<int>, lo: int, mid: int, hi: int)
    requires 0 <= lo <= mid <= |c| && lo <= hi
    requires forall k :: 0 <= k < lo ==> c[k] == k
    requires forall k :: lo <= k < mid ==> lo <= c[k] < hi
    requires forall i, j :: lo <= i < j < mid ==> c[i] < c[j]
    requires forall k :: mid <= k < |c| ==> c[k] == k - mid + hi
    ensures StrictlyIncreasing(c)
  {
    forall i, j | 0 <= i < j < |c| ensures c[i] < c[j] {
      if mid <= j {
        assert c[j] >= hi;
      } else if lo <= j {
        assert c[j] >= lo;
      }
    }
  }

  /** Every coupling slot is listed. */
  lemma CouplingListed(sm: SlotMap, recvNodes: seq<int>, sorted: seq<int>, c: seq<int>, s: int)
    requires WellFormed(sm) && sm.ext.Some?
    requires sorted == UniqueSort(recvNodes)
    requires |c| == |sorted| + sm.numExt
    requires forall k :: 0 <= k < sm.extOffset ==> c[k] == k
    requires forall k :: 0 <= k < |sorted| ==> c[sm.extOffset + k] == sorted[k] - sm.ownerStart + sm.extOffset
    requires forall k :: sm.extOffset + |sorted| <= k < |c| ==> c[k] == k - |sorted| + sm.numOwned
    requires IsCoupling(sm, recvNodes, s)
    ensures s in c
  {
    var lo, hi := sm.extOffset, sm.extOffset + sm.numOwned;
    if s < lo {
      assert c[s] == s;
    } else if s < hi {
      var x := GlobalNodeNum(sm, s);
      assert x in sorted;
      var k :| 0 <= k < |sorted| && sorted[k] == x;
      assert c[lo + k] == s;
    } else {
      assert c[s - sm.numOwned + |sorted|] == s;
    }
  }

  /** The slots that share an element of the table t with some coupling node. */
  ghost function CouplingNeighbours(t: seq<seq<int>>, coupling: seq<int>): set<int>
  {
    set c, j | c in coupling && j in NeighbourSet(t, c) :: j
  }

  /**
    The owned slots that computeReordering numbers in its first pass: owned
    slots that are not coupling nodes under DIRECT_SCHUR and that do not share
    an element of t with a coupling node under APPROXIMATE_SCHUR.
  */
  ghost predicate Interior(sm: SlotMap, t: seq<seq<int>>, matType: MatrixOrderingType, coupling: seq<int>, s: int)
  {
    && sm.extOffset <= s < sm.extOffset + sm.numOwned
    && !(matType == DirectSchur && s in coupling)
    && !(matType == ApproximateSchur && s in CouplingNeighbours(t, coupling))
  }

  ghost function InteriorFlags(sm: SlotMap, t: seq<seq<int>>, matType: MatrixOrderingType, coupling: seq<int>): (f: seq<bool>)
    requires WellFormed(sm)
    ensures |f| == sm.numNodes
    ensures forall s :: 0 <= s < sm.numNodes ==> (f[s] <==> Interior(sm, t, matType, coupling, s))
  {
    seq(sm.numNodes, s => Interior(sm, t, matType, coupling, s))
  }

  /** The owned slots computeReordering leaves to its second pass. */
  ghost function CouplingFlags(sm: SlotMap, t: seq<seq<int>>, matType: MatrixOrderingType, coupling: seq<int>): (f: seq<bool>)
    requires WellFormed(sm)
    ensures |f| == sm.numNodes
    ensures forall s :: 0 <= s < sm.numNodes ==>
              (f[s] <==> sm.extOffset <= s < sm.extOffset + sm.numOwned && !Interior(sm, t, matType, coupling, s))
  {
    seq(sm.numNodes, s => sm.extOffset <= s < sm.extOffset + sm.numOwned && !Interior(sm, t, matType, coupling, s))
  }

  /**
    The owned slots [lo, hi) carry distinct numbers of [base, base + hi - lo).
    There are as many slots as numbers, so every number is taken (OwnedOnto).
  */
  ghost predicate OwnedBijection(nn: seq<int>, lo: int, hi: int, base: int) {
    && 0 <= lo <= hi <= |nn|
    && (forall s :: lo <= s < hi ==> base <= nn[s] < base + (hi - lo))
    && (forall s, t :: lo <= s < t < hi ==> nn[s] != nn[t])
  }

  /** The owned slots take every number of their range. */
  lemma OwnedOnto(nn: seq<int>, lo: int, hi: int, base: int)
    requires OwnedBijection(nn, lo, hi, base)
    ensures forall v :: base <= v < base + (hi - lo) ==> v in nn[lo..hi]
  {
    var q := seq(hi - lo, k requires 0 <= k < hi - lo => nn[lo + k] - base);
    assert IsPermutation(q, hi - lo);
    PermutationOnto(q, hi - lo);
    forall v | base <= v < base + (hi - lo) ensures v in nn[lo..hi] {
      assert v - base in q;
      var k :| 0 <= k < |q| && q[k] == v - base;
      assert nn[lo..hi][k] == v;
    }
  }

  /** Writes -1 at every slot listed in vals. */
  method MarkSlots(a: array<int>, vals: seq<int>)
    requires forall k :: 0 <= k < |vals| ==> 0 <= vals[k] < a.Length
    modifies a
    ensures forall i :: 0 <= i < a.Length ==> a[i] == if i in vals then -1 else old(a[i])
  {
    for k := 0 to |vals|
      invariant forall i :: 0 <= i < a.Length ==> a[i] == if i in vals[..k] then -1 else old(a[i])
    {
      assert vals[..k + 1] == vals[..k] + [vals[k]];
      a[vals[k]] := -1;
    }
    assert vals[..|vals|] == vals;
  }

  /**
    The APPROXIMATE_SCHUR marking: -1 at every column of the rows of the
    coupling nodes in the full node graph of the element table t (lines 806-811).
  */
  method MarkNeighbours(a: array<int>, ghost t: seq<seq<int>>, rowp: seq<int>, cols: seq<int>, coupling: seq<int>)
    requires TableBelow(t, a.Length)
    requires forall k :: 0 <= k < |coupling| ==> 0 <= coupling[k] < a.Length
    requires RowsAre(rowp, cols, NeighbourRows(t, a.Length, false))
    modifies a
    ensures forall i :: 0 <= i < a.Length ==>
              a[i] == if i in CouplingNeighbours(t, coupling) then -1 else old(a[i])
  {
    ghost var rows := NeighbourRows(t, a.Length, false);
    ghost var marked: set<int> := {};
    for k := 0 to |coupling|
      invariant marked == set c, j | c in coupling[..k] && j in NeighbourSet(t, c) :: j
      invariant forall i :: 0 <= i < a.Length ==> a[i] == if i in marked then -1 else old(a[i])
    {
      var node := coupling[k];
      var row := Row(rowp, cols, node);
      assert forall x :: x in row <==> x in NeighbourSet(t, node) by {
        assert rows[node] == NeighbourSet(t, node);
      }
      forall j | 0 <= j < |row| ensures 0 <= row[j] < a.Length {
        NeighbourBelow(t, a.Length, node, row[j]);
      }
      MarkSlots(a, row);
      assert coupling[..k + 1] == coupling[..k] + [node];
      marked := marked + NeighbourSet(t, node);
    }
    assert coupling[..|coupling|] == coupling;
  }

  /** A neighbour of a slot is a slot. */
  lemma NeighbourBelow(t: seq<seq<int>>, n: int, i: int, j: int)
    requires TableBelow(t, n) && j in NeighbourSet(t, i)
    ensures 0 <= j < n
  {
    var e :| 0 <= e < |t| && j in t[e] && i in t[e];
    assert SlotsBelow(t[e], n);
  }

  /**
    The marks of lines 778-811 of computeReordering: 0 on the interior slots,
    -1 on the external slots and on the owned slots the matrix type marks.
  */
  method InitialMarks(sm: SlotMap, m: Mesh, matType: MatrixOrderingType, coupling: seq<int>) returns (a: array<int>)
    requires Resolved(sm, m)
    requires forall k :: 0 <= k < |coupling| ==> 0 <= coupling[k] < sm.numNodes
    ensures fresh(a) && a.Length == sm.numNodes
    ensures forall i :: 0 <= i < a.Length ==> a[i] == if Interior(sm, ElementTable(sm, m), matType, coupling, i) then 0 else -1
  {
    var lo, hi := sm.extOffset, sm.extOffset + sm.numOwned;
    a := new int[sm.numNodes](i => if lo <= i < hi then 0 else -1);
    if matType == DirectSchur {
      MarkSlots(a, coupling);
    } else if matType == ApproximateSchur {
      var rowp, cols := NodeToNodeCsr(sm, m, false);
      MarkNeighbours(a, ElementTable(sm, m), rowp, cols, coupling);
    }
  }

  /**
    The owned-node numbering computeReordering computes before it exchanges
    numbers with the other processes.  On one process the slots receive the
    ordering's permutation of [0, numNodes).  On several, the owned slots
    receive distinct numbers filling the ownership range, the interior slots
    all numbers below those of the coupling ones; the external slots are
    numbered later from the other processes' answers.
  */
  /**
    The owned numbers the ordering routine determines: on one process the
    ordering of the node graph (without the diagonal under ND); on several,
    the interior slots numbered from ownerStart through the ordering of their
    reduced graph, then the coupling-side slots after them through the
    ordering of theirs.
  */
  ghost predicate OrderedNumbers(sm: SlotMap, m: Mesh, serial: bool, order: OrderingType, matType: MatrixOrderingType,
                                 coupling: seq<int>, oracle: Oracle, nn: seq<int>)
    requires Resolved(sm, m) && OracleValid(oracle)
  {
    var t := ElementTable(sm, m);
    var nodiag := order == NdOrder;
    if serial then nn == GraphOrder(order, NeighbourRows(t, sm.numNodes, nodiag), oracle)
    else
      var f1 := InteriorFlags(sm, t, matType, coupling);
      && Placed(nn, f1, BlockOrder(t, f1, nodiag, order, oracle), sm.ownerStart)
      && Placed(nn, CouplingFlags(sm, t, matType, coupling),
                BlockOrder(t, CouplingFlags(sm, t, matType, coupling), nodiag, order, oracle), sm.ownerStart + CountTrue(f1))
  }

  method NewOwnedNumbers(sm: SlotMap, m: Mesh, serial: bool, order: OrderingType, matType: MatrixOrderingType,
                         coupling: seq<int>, oracle: Oracle)
    returns (newNodeNums: seq<int>)
    requires Resolved(sm, m) && OracleValid(oracle)
    requires forall k :: 0 <= k < |coupling| ==> 0 <= coupling[k] < sm.numNodes
    ensures |newNodeNums| == sm.numNodes
    ensures serial ==> IsPermutation(newNodeNums, sm.numNodes)
    ensures !serial ==> OwnedBijection(newNodeNums, sm.extOffset, sm.extOffset + sm.numOwned, sm.ownerStart)
    ensures !serial ==> forall s :: sm.extOffset <= s < sm.extOffset + sm.numOwned ==>
              (Interior(sm, ElementTable(sm, m), matType, coupling, s) <==>
                 newNodeNums[s] < sm.ownerStart + CountTrue(InteriorFlags(sm, ElementTable(sm, m), matType, coupling)))
    ensures OrderedNumbers(sm, m, serial, order, matType, coupling, oracle, newNodeNums)
  {
    var nodiag := order == NdOrder;
    if serial {
      var rowp, cols := NodeToNodeCsr(sm, m, nodiag);
      var _, newVars := ComputeMatReordering(order, sm.numNodes, rowp, cols, oracle);
      newNodeNums := newVars;
      GraphOrderOfTable(order, rowp, cols, NeighbourRows(ElementTable(sm, m), sm.numNodes, nodiag), oracle);
    } else {
      var a := InitialMarks(sm, m, matType, coupling);
      ghost var t := ElementTable(sm, m);
      ghost var f1 := InteriorFlags(sm, t, matType, coupling);
      ghost var f2 := CouplingFlags(sm, t, matType, coupling);
      assert SplitFlags(f1, f2, sm.extOffset, sm.extOffset + sm.numOwned);
      newNodeNums := TwoPasses(sm, m, a, f1, f2, nodiag, order, oracle);
    }
  }

  /** f1 picks slots of the band [lo, hi); f2 picks the rest of the band. */
  ghost predicate SplitFlags(f1: seq<bool>, f2: seq<bool>, lo: int, hi: int)
  {
    |f1| == |f2| && 0 <= lo <= hi <= |f1|
    && forall s :: 0 <= s < |f1| ==> (f1[s] ==> lo <= s < hi) && (f2[s] <==> lo <= s < hi && !f1[s])
  }

  /** The slots picked by f hold base plus the new number p gives their in-order number. */
  ghost predicate Placed(nn: seq<int>, f: seq<bool>, p: seq<int>, base: int)
  {
    |nn| == |f| && IsPermutation(p, CountTrue(f))
    && forall s :: 0 <= s < |nn| && f[s] ==> nn[s] == base + p[NumberKept(f)[s]]
  }

  /**
    The two numbering passes of computeReordering over the marks a: the
    interior slots f1 (marked 0) are ordered and numbered from ownerStart, then
    the remaining owned slots f2 from ownerStart plus the interior count.
  */
  method TwoPasses(sm: SlotMap, m: Mesh, a: array<int>, ghost f1: seq<bool>, ghost f2: seq<bool>,
                   nodiag: bool, order: OrderingType, oracle: Oracle)
    returns (newNodeNums: seq<int>)
    requires Resolved(sm, m) && OracleValid(oracle)
    requires a.Length == |f1| == sm.numNodes && SplitFlags(f1, f2, sm.extOffset, sm.extOffset + sm.numOwned)
    requires forall i :: 0 <= i < a.Length ==> a[i] == if f1[i] then 0 else -1
    modifies a
    ensures |newNodeNums| == sm.numNodes
    ensures OwnedBijection(newNodeNums, sm.extOffset, sm.extOffset + sm.numOwned, sm.ownerStart)
    ensures forall s :: sm.extOffset <= s < sm.extOffset + sm.numOwned ==>
              (f1[s] <==> newNodeNums[s] < sm.ownerStart + CountTrue(f1))
    ensures Placed(newNodeNums, f1, BlockOrder(ElementTable(sm, m), f1, nodiag, order, oracle), sm.ownerStart)
    ensures Placed(newNodeNums, f2, BlockOrder(ElementTable(sm, m), f2, nodiag, order, oracle), sm.ownerStart + CountTrue(f1))
  {
    newNodeNums := RunPasses(sm, m, a, f1, f2, nodiag, order, oracle);
    TwoPhaseBijection(f1, f2, BlockOrder(ElementTable(sm, m), f1, nodiag, order, oracle),
                      BlockOrder(ElementTable(sm, m), f2, nodiag, order, oracle),
                      newNodeNums, sm.extOffset, sm.extOffset + sm.numOwned, sm.ownerStart);
  }

  /** Both passes, one after the other: each block is placed through its ordering. */
  method RunPasses(sm: SlotMap, m: Mesh, a: array<int>, ghost f1: seq<bool>, ghost f2: seq<bool>,
                   nodiag: bool, order: OrderingType, oracle: Oracle)
    returns (newNodeNums: seq<int>)
    requires Resolved(sm, m) && OracleValid(oracle)
    requires a.Length == |f1| == sm.numNodes && SplitFlags(f1, f2, sm.extOffset, sm.extOffset + sm.numOwned)
    requires forall i :: 0 <= i < a.Length ==> a[i] == if f1[i] then 0 else -1
    modifies a
    ensures |newNodeNums| == sm.numNodes
    ensures Placed(newNodeNums, f1, BlockOrder(ElementTable(sm, m), f1, nodiag, order, oracle), sm.ownerStart)
    ensures Placed(newNodeNums, f2, BlockOrder(ElementTable(sm, m), f2, nodiag, order, oracle), sm.ownerStart + CountTrue(f1))
  {
    var nn, n1, p1 := FirstPass(sm, m, a, f1, nodiag, order, oracle);
    SecondPass(sm, m, a, nn, f1, f2, n1, p1, nodiag, order, oracle);
    newNodeNums := nn[..];
  }

  /** The first pass: number the flagged slots in order, order them, place them from ownerStart. */
  method FirstPass(sm: SlotMap, m: Mesh, a: array<int>, ghost f1: seq<bool>,
                   nodiag: bool, order: OrderingType, oracle: Oracle)
    returns (nn: array<int>, n1: nat, ghost p1: seq<int>)
    requires Resolved(sm, m) && OracleValid(oracle)
    requires a.Length == |f1| == sm.numNodes
    requires forall i :: 0 <= i < a.Length ==> a[i] == if f1[i] then 0 else -1
    modifies a
    ensures fresh(nn) && nn.Length == sm.numNodes
    ensures a[..] == NumberKept(f1) && n1 == CountTrue(f1)
    ensures Placed(nn[..], f1, p1, sm.ownerStart) && p1 == BlockOrder(ElementTable(sm, m), f1, nodiag, order, oracle)
  {
    KeptMarks(a[..], f1);
    n1 := NumberInOrder(a);
    var p := OrderNumbered(sm, m, a[..], f1, n1, nodiag, order, oracle);
    p1 := p;
    nn := new int[sm.numNodes];
    PlaceNumbers(nn, a[..], f1, p, sm.ownerStart);
  }

  /**
    The second pass: number the band slots the first pass left out, order
    them, place them after the first block. Nothing happens when there are none.
  */
  method SecondPass(sm: SlotMap, m: Mesh, a: array<int>, nn: array<int>, ghost f1: seq<bool>, ghost f2: seq<bool>,
                    n1: nat, ghost p1: seq<int>, nodiag: bool, order: OrderingType, oracle: Oracle)
    requires Resolved(sm, m) && OracleValid(oracle) && a != nn
    requires a.Length == nn.Length == |f1| == sm.numNodes && SplitFlags(f1, f2, sm.extOffset, sm.extOffset + sm.numOwned)
    requires a[..] == NumberKept(f1) && n1 == CountTrue(f1) && Placed(nn[..], f1, p1, sm.ownerStart)
    modifies a, nn
    ensures Placed(nn[..], f1, p1, sm.ownerStart)
    ensures Placed(nn[..], f2, BlockOrder(ElementTable(sm, m), f2, nodiag, order, oracle), sm.ownerStart + n1)
  {
    ghost var before := nn[..];
    var n2 := RenumberSecond(a, f1, f2, sm.extOffset, sm.extOffset + sm.numOwned);
    PlaceBlock(sm, m, nn, a[..], f2, n2, sm.ownerStart + n1, nodiag, order, oracle);
    SecondPlaced(before, nn[..], f1, p1, f2, BlockOrder(ElementTable(sm, m), f2, nodiag, order, oracle), a[..],
                 sm.ownerStart, sm.ownerStart + n1);
  }

  /** Numbers the slots the first pass left unnumbered in the band: afterwards a is the in-order numbering of f2. */
  method RenumberSecond(a: array<int>, ghost f1: seq<bool>, ghost f2: seq<bool>, lo: int, hi: int) returns (n2: nat)
    requires a.Length == |f1| && SplitFlags(f1, f2, lo, hi) && a[..] == NumberKept(f1)
    modifies a
    ensures a[..] == NumberKept(f2) && n2 == CountTrue(f2)
  {
    SecondPassFlags(f1, f2, lo, hi);
    n2 := NumberUnnumbered(a, lo, hi);
  }

  /**
    Orders the slots flagged by f and gives each the number base plus its new
    position; nothing is ordered when there are none.
  */
  method PlaceBlock(sm: SlotMap, m: Mesh, nn: array<int>, reduced: seq<int>, ghost f: seq<bool>, count: nat, base: int,
                    nodiag: bool, order: OrderingType, oracle: Oracle)
    requires Resolved(sm, m) && OracleValid(oracle)
    requires nn.Length == |f| == sm.numNodes && reduced == NumberKept(f) && count == CountTrue(f)
    modifies nn
    ensures forall i :: 0 <= i < nn.Length ==>
              nn[i] == if f[i] then base + BlockOrder(ElementTable(sm, m), f, nodiag, order, oracle)[reduced[i]] else old(nn[i])
  {
    if count > 0 {
      var p := OrderNumbered(sm, m, reduced, f, count, nodiag, order, oracle);
      PlaceNumbers(nn, reduced, f, p, base);
    } else {
      NumberKeptDense(f);
    }
  }

  /** Placing the f2 block leaves the f1 block placed and places f2. */
  lemma SecondPlaced(before: seq<int>, after: seq<int>, f1: seq<bool>, p1: seq<int>, f2: seq<bool>, p2: seq<int>,
                     reduced: seq<int>, base1: int, base2: int)
    requires Placed(before, f1, p1, base1) && |f2| == |f1| && |after| == |before|
    requires forall s :: 0 <= s < |f1| && f1[s] ==> !f2[s]
    requires reduced == NumberKept(f2) && IsPermutation(p2, CountTrue(f2))
    requires forall i :: 0 <= i < |after| ==> after[i] == if f2[i] then base2 + p2[reduced[i]] else before[i]
    ensures Placed(after, f1, p1, base1) && Placed(after, f2, p2, base2)
  {
    PlacedFrame(before, after, f1, p1, base1);
  }

  /** Placed numbers stay placed while their slots are left alone. */
  lemma PlacedFrame(nn: seq<int>, nn': seq<int>, f: seq<bool>, p: seq<int>, base: int)
    requires Placed(nn, f, p, base) && |nn'| == |nn|
    requires forall s :: 0 <= s < |nn| && f[s] ==> nn'[s] == nn[s]
    ensures Placed(nn', f, p, base)
  {
  }

  /** Placed numbers survive a change outside the band [lo, hi) that holds every slot f picks. */
  lemma PlacedBand(nn: seq<int>, nn': seq<int>, f: seq<bool>, p: seq<int>, base: int, lo: int, hi: int)
    requires Placed(nn, f, p, base) && |nn'| == |nn| && 0 <= lo <= hi <= |nn|
    requires forall s :: 0 <= s < |f| && f[s] ==> lo <= s < hi
    requires forall s :: lo <= s < hi ==> nn'[s] == nn[s]
    ensures Placed(nn', f, p, base)
  {
    PlacedFrame(nn, nn', f, p, base);
  }

  /** The 0/-1 marks keep exactly the slots flagged by f. */
  lemma KeptMarks(s: seq<int>, f: seq<bool>)
    requires |s| == |f| && forall i :: 0 <= i < |s| ==> s[i] == if f[i] then 0 else -1
    ensures Kept(s) == f
  {
  }

  /** Renumbering the first-pass marks in the band flags exactly f2; outside the band every mark is -1. */
  lemma SecondPassFlags(f1: seq<bool>, f2: seq<bool>, lo: int, hi: int)
    requires SplitFlags(f1, f2, lo, hi)
    ensures NegativeIn(NumberKept(f1), lo, hi) == f2
    ensures forall k :: 0 <= k < |f1| && !(lo <= k < hi) ==> NumberKept(f1)[k] == -1
  {
  }

  /**
    Orders the slots an in-order numbering has numbered: the reduced node
    graph over them, then computeMatReordering's new_vars.
  */
  method OrderNumbered(sm: SlotMap, m: Mesh, reduced: seq<int>, ghost f: seq<bool>, count: nat,
                       nodiag: bool, order: OrderingType, oracle: Oracle)
    returns (newReduced: seq<int>)
    requires Resolved(sm, m) && OracleValid(oracle)
    requires |f| == sm.numNodes && reduced == NumberKept(f) && count == CountTrue(f)
    ensures IsPermutation(newReduced, count)
    ensures newReduced == BlockOrder(ElementTable(sm, m), f, nodiag, order, oracle)
  {
    NumberKeptDense(f);
    var rowp, cols := ReducedNodeToNodeCsr(sm, m, reduced, count, nodiag);
    var _, newVars := ComputeMatReordering(order, count, rowp, cols, oracle);
    newReduced := newVars;
    GraphOrderOfTable(order, rowp, cols, ReducedRows(ElementTable(sm, m), reduced, count, nodiag), oracle);
  }

  /** Two disjoint flag sets count, together, what their union counts. */
  lemma {:induction false} CountTrueUnion(f1: seq<bool>, f2: seq<bool>, g: seq<bool>)
    requires |f1| == |f2| == |g|
    requires forall i :: 0 <= i < |g| ==> !(f1[i] && f2[i]) && (g[i] <==> f1[i] || f2[i])
    ensures CountTrue(f1) + CountTrue(f2) == CountTrue(g)
    decreases |g|
  {
    if g != [] {
      var k := |g| - 1;
      CountTrueUnion(f1[..k], f2[..k], g[..k]);
    }
  }

  /** The flags of the band [lo, hi) count hi - lo. */
  lemma {:induction false} CountBand(g: seq<bool>, lo: int, hi: int)
    requires 0 <= lo <= hi <= |g|
    requires forall i :: 0 <= i < |g| ==> (g[i] <==> lo <= i < hi)
    ensures CountTrue(g) == hi - lo
    decreases |g|
  {
    if g != [] {
      var k := |g| - 1;
      if hi == |g| && lo < hi {
        CountBand(g[..k], lo, hi - 1);
      } else if hi == |g| {
        CountBand(g[..k], lo - 1, hi - 1);
      } else {
        CountBand(g[..k], lo, hi);
      }
    }
  }

  /**
    One numbering block: the slots flagged by f, numbered in order and then
    through a permutation p of their count, take distinct numbers of
    [base, base + count).
  */
  lemma BlockNumbers(f: seq<bool>, p: seq<int>, nn: seq<int>, base: int)
    requires Placed(nn, f, p, base)
    ensures forall s :: 0 <= s < |nn| && f[s] ==> base <= nn[s] < base + CountTrue(f)
    ensures forall s, t :: 0 <= s < t < |nn| && f[s] && f[t] ==> nn[s] != nn[t]
  {
    NumberKeptDense(f);
  }

  /**
    The two passes together: with f1 the interior and f2 the remaining owned
    slots, each numbered by a permutation of its count, the owned slots take
    every number of [base, base + hi - lo) once, the interior ones first.
  */
  lemma TwoPhaseBijection(f1: seq<bool>, f2: seq<bool>, p1: seq<int>, p2: seq<int>, nn: seq<int>,
                          lo: int, hi: int, base: int)
    requires SplitFlags(f1, f2, lo, hi)
    requires Placed(nn, f1, p1, base) && Placed(nn, f2, p2, base + CountTrue(f1))
    ensures OwnedBijection(nn, lo, hi, base)
    ensures forall s :: lo <= s < hi ==> (f1[s] <==> nn[s] < base + CountTrue(f1))
  {
    SplitCount(f1, f2, lo, hi);
    BlockNumbers(f1, p1, nn, base);
    BlockNumbers(f2, p2, nn, base + CountTrue(f1));
    CombineBlocks(f1, f2, nn, lo, hi, base, CountTrue(f1), CountTrue(f2));
  }

  /** A split of the band [lo, hi) into two flag sets counts hi - lo slots in all. */
  lemma SplitCount(f1: seq<bool>, f2: seq<bool>, lo: int, hi: int)
    requires SplitFlags(f1, f2, lo, hi)
    ensures CountTrue(f1) + CountTrue(f2) == hi - lo
  {
    var band := seq(|f1|, i => lo <= i < hi);
    CountTrueUnion(f1, f2, band);
    CountBand(band, lo, hi);
  }

  /** Two blocks of numbers, one after the other, that fill the band between them. */
  lemma CombineBlocks(f1: seq<bool>, f2: seq<bool>, nn: seq<int>, lo: int, hi: int, base: int, n1: nat, n2: nat)
    requires |f1| == |f2| == |nn| && 0 <= lo <= hi <= |nn| && n1 + n2 == hi - lo
    requires forall s :: 0 <= s < |nn| ==> (f1[s] ==> lo <= s < hi) && (f2[s] <==> lo <= s < hi && !f1[s])
    requires forall s :: 0 <= s < |nn| && f1[s] ==> base <= nn[s] < base + n1
    requires forall s :: 0 <= s < |nn| && f2[s] ==> base + n1 <= nn[s] < base + n1 + n2
    requires forall s, t :: 0 <= s < t < |nn| && f1[s] && f1[t] ==> nn[s] != nn[t]
    requires forall s, t :: 0 <= s < t < |nn| && f2[s] && f2[t] ==> nn[s] != nn[t]
    ensures OwnedBijection(nn, lo, hi, base)
    ensures forall s :: lo <= s < hi ==> (f1[s] <==> nn[s] < base + n1)
  {
    forall s | lo <= s < hi ensures base <= nn[s] < base + (hi - lo) {
      assert f1[s] || f2[s];
    }
  }

  /**
    Under ADDITIVE_SCHWARZ every owned slot is interior, so the second pass of
    computeReordering has nothing to number and its error message is never
    printed.
  */
  lemma AdditiveSchwarzOneBlock(sm: SlotMap, t: seq<seq<int>>, coupling: seq<int>)
    requires WellFormed(sm) && sm.ext.Some?
    ensures CountTrue(CouplingFlags(sm, t, AdditiveSchwarz, coupling)) == 0
    ensures CountTrue(InteriorFlags(sm, t, AdditiveSchwarz, coupling)) == sm.numOwned
  {
    var f1 := InteriorFlags(sm, t, AdditiveSchwarz, coupling);
    var f2 := CouplingFlags(sm, t, AdditiveSchwarz, coupling);
    FlagsClear(f2, |f2|);
    assert f2[..|f2|] == f2;
    CountBand(f1, sm.extOffset, sm.extOffset + sm.numOwned);
  }
}
