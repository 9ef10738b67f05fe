/**
  The second half of computeReordering: the exchange of new numbers with the
  other processes, the renumbering of the connectivity, the dependent-node
  table, the boundary conditions and the external list, and the two queries
  that use the saved numbering afterwards, getReordering and reorderVec.
*/
module Reorder {
  import opened Optional
  import opened Sorting
  import opened Numbering
  import opened Ordering

  predicate Injective(s: seq<int>) {
    forall i, j :: 0 <= i < j < |s| ==> s[i] != s[j]
  }

  /** newNodeNums as computeReordering saves it: a distinct, non-negative global number per local slot. */
  ghost predicate Renumbering(sm: SlotMap, nn: seq<int>) {
    && WellFormed(sm) && sm.ext.Some?
    && |nn| == sm.numNodes
    && Injective(nn)
    && forall s :: 0 <= s < |nn| ==> 0 <= nn[s]
  }

  /**
    Lines 911-914: each owned node another process asked about is replaced,
    in place, by the new number of its slot.
  */
  method AnswerRequests(sm: SlotMap, nn: seq<int>, recv: array<int>)
    requires WellFormed(sm) && sm.ext.Some? && |nn| == sm.numNodes
    requires forall i :: 0 <= i < recv.Length ==> Owned(sm, recv[i])
    modifies recv
    ensures forall i :: 0 <= i < recv.Length ==> recv[i] == nn[LocalNodeNum(sm, old(recv[i]))]
  {
    for i := 0 to recv.Length
      invariant forall j :: 0 <= j < i ==> recv[j] == nn[LocalNodeNum(sm, old(recv[j]))]
      invariant forall j :: i <= j < recv.Length ==> recv[j] == old(recv[j])
    {
      recv[i] := nn[LocalNodeNum(sm, recv[i])];
    }
  }

  /**
    The answers stay in this process's range, and two different owned nodes
    are given two different new numbers.
  */
  lemma OwnedAnswers(sm: SlotMap, nn: seq<int>, x: int, y: int)
    requires WellFormed(sm) && OwnedBijection(nn, sm.extOffset, sm.extOffset + sm.numOwned, sm.ownerStart)
    requires Owned(sm, x) && Owned(sm, y)
    ensures Owned(sm, nn[LocalNodeNum(sm, x)])
    ensures x != y ==> nn[LocalNodeNum(sm, x)] != nn[LocalNodeNum(sm, y)]
  {
    var sx, sy := LocalNodeNum(sm, x), LocalNodeNum(sm, y);
    if x != y {
      assert sx != sy;
      if sx < sy {
        assert nn[sx] != nn[sy];
      } else {
        assert nn[sy] != nn[sx];
      }
    }
  }

  /** The numbering once the external slots carry the numbers the owners sent back. */
  function WithExt(sm: SlotMap, nn: seq<int>, newExt: seq<int>): (r: seq<int>)
    requires WellFormed(sm) && sm.ext.Some? && |nn| == sm.numNodes && |newExt| == sm.numExt
    ensures |r| == |nn|
  {
    seq(|nn|, s requires 0 <= s < |nn| =>
      if s < sm.extOffset then newExt[s]
      else if s < sm.extOffset + sm.numOwned then nn[s]
      else newExt[s - sm.numOwned])
  }

  /** One loop of lines 926-931: entries [from, to) of vals are written shift places further on in a. */
  method CopyShifted(a: array<int>, vals: seq<int>, from: int, to: int, shift: int)
    requires 0 <= from <= to <= |vals| && 0 <= from + shift && to + shift <= a.Length
    modifies a
    ensures forall s :: 0 <= s < a.Length ==>
              a[s] == if from + shift <= s < to + shift then vals[s - shift] else old(a[s])
  {
    for i := from to to
      invariant forall s :: 0 <= s < a.Length ==>
                  a[s] == if from + shift <= s < i + shift then vals[s - shift] else old(a[s])
    {
      a[i + shift] := vals[i];
    }
  }

  /**
    Lines 926-931: the numbers received for the external nodes, in external
    list order, are written into the slots below and above the owned band.
  */
  method ApplyExtNumbers(sm: SlotMap, nn: array<int>, newExt: seq<int>)
    requires WellFormed(sm) && sm.ext.Some? && nn.Length == sm.numNodes && |newExt| == sm.numExt
    modifies nn
    ensures nn[..] == WithExt(sm, old(nn[..]), newExt)
  {
    ghost var nn0 := nn[..];
    CopyShifted(nn, newExt, 0, sm.extOffset, 0);
    CopyShifted(nn, newExt, sm.extOffset, sm.numExt, sm.numOwned);
    assert forall s :: 0 <= s < nn.Length ==> nn[..][s] == WithExt(sm, nn0, newExt)[s];
  }

  /**
    When the owned slots carry a bijection onto this process's range and the
    owners sent back distinct numbers outside it, the completed numbering
    gives every slot its own non-negative number.
  */
  lemma WithExtRenumbering(sm: SlotMap, nn: seq<int>, newExt: seq<int>)
    requires WellFormed(sm) && sm.ext.Some? && |nn| == sm.numNodes && |newExt| == sm.numExt
    requires OwnedBijection(nn, sm.extOffset, sm.extOffset + sm.numOwned, sm.ownerStart)
    requires Injective(newExt)
    requires forall i :: 0 <= i < |newExt| ==> 0 <= newExt[i] && !Owned(sm, newExt[i])
    ensures Renumbering(sm, WithExt(sm, nn, newExt))
  {
    var r := WithExt(sm, nn, newExt);
    var lo, hi := sm.extOffset, sm.extOffset + sm.numOwned;
    forall s | 0 <= s < |r| ensures 0 <= r[s] && (lo <= s < hi <==> Owned(sm, r[s])) {
    }
    forall s, t | 0 <= s < t < |r| ensures r[s] != r[t] {
      if lo <= s < hi && lo <= t < hi {
        assert r[s] == nn[s] && r[t] == nn[t];
      } else if !(lo <= s < hi) && !(lo <= t < hi) {
        var i := if s < lo then s else s - sm.numOwned;
        var j := if t < lo then t else t - sm.numOwned;
        assert i < j && r[s] == newExt[i] && r[t] == newExt[j];
      }
    }
  }

  /**
    A connectivity entry after the renumbering of lines 949-956: a node takes
    the new number of its slot, a dependent entry is left as it is.
  */
  function Renumbered(sm: SlotMap, nn: seq<int>, x: int): int
    requires WellFormed(sm) && sm.ext.Some? && |nn| == sm.numNodes
    requires x >= 0 ==> LocalNodeNum(sm, x) >= 0
  {
    if x >= 0 then nn[LocalNodeNum(sm, x)] else x
  }

  /** Lines 949-956: renumber the element connectivity in place. */
  method RenumberEntries(sm: SlotMap, nn: seq<int>, a: array<int>)
    requires WellFormed(sm) && sm.ext.Some? && |nn| == sm.numNodes
    requires forall k :: 0 <= k < a.Length && a[k] >= 0 ==> LocalNodeNum(sm, a[k]) >= 0
    modifies a
    ensures forall k :: 0 <= k < a.Length ==> old(a[k]) >= 0 ==> LocalNodeNum(sm, old(a[k])) >= 0
    ensures forall k :: 0 <= k < a.Length ==> a[k] == Renumbered(sm, nn, old(a[k]))
  {
    for i := 0 to a.Length
      invariant forall k :: 0 <= k < i ==> a[k] == Renumbered(sm, nn, old(a[k]))
      invariant forall k :: i <= k < a.Length ==> a[k] == old(a[k])
    {
      var node := a[i];
      if node >= 0 {
        node := LocalNodeNum(sm, node);
        a[i] := nn[node];
      }
    }
  }

  /**
    Lines 937-946 (the dependent-node table) and 959-966 (the boundary
    conditions): every listed node takes the new number of its slot.
  */
  method RenumberNodes(sm: SlotMap, nn: seq<int>, a: array<int>)
    requires WellFormed(sm) && sm.ext.Some? && |nn| == sm.numNodes
    requires forall k :: 0 <= k < a.Length ==> LocalNodeNum(sm, a[k]) >= 0
    modifies a
    ensures forall k :: 0 <= k < a.Length ==> LocalNodeNum(sm, old(a[k])) >= 0
    ensures forall k :: 0 <= k < a.Length ==> a[k] == Renumbered(sm, nn, old(a[k]))
  {
    for i := 0 to a.Length
      invariant forall k :: 0 <= k < i ==> a[k] == Renumbered(sm, nn, old(a[k]))
      invariant forall k :: i <= k < a.Length ==> a[k] == old(a[k])
    {
      var node := LocalNodeNum(sm, a[i]);
      a[i] := nn[node];
    }
  }

  /**
    The renumbering keeps the mesh's structure: two entries name the same
    node after it exactly when they named the same node before, and dependent
    entries stay dependent.
  */
  lemma RenumberedSameNode(sm: SlotMap, nn: seq<int>, x: int, y: int)
    requires Renumbering(sm, nn)
    requires x >= 0 ==> LocalNodeNum(sm, x) >= 0
    requires y >= 0 ==> LocalNodeNum(sm, y) >= 0
    ensures Renumbered(sm, nn, x) == Renumbered(sm, nn, y) <==> x == y
    ensures Renumbered(sm, nn, x) < 0 <==> x < 0
  {
    if x >= 0 && y >= 0 && x != y {
      var sx, sy := LocalNodeNum(sm, x), LocalNodeNum(sm, y);
      GlobalOfLocal(sm, x);
      GlobalOfLocal(sm, y);
      assert sx != sy;
      if sx < sy {
        assert nn[sx] != nn[sy];
      } else {
        assert nn[sy] != nn[sx];
      }
    }
  }

  /** The new numbers of the external slots, in external list order. */
  function ExtNumbers(sm: SlotMap, nn: seq<int>): (r: seq<int>)
    requires WellFormed(sm) && sm.ext.Some? && |nn| == sm.numNodes
    ensures |r| == sm.numExt
  {
    seq(sm.numExt, i requires 0 <= i < sm.numExt =>
      if i < sm.extOffset then nn[i] else nn[i + sm.numOwned])
  }

  /**
    Lines 969-978: the external list takes the new numbers of the external
    slots and is sorted again.
  */
  method RenumberedExtList(sm: SlotMap, nn: seq<int>) returns (ext: seq<int>)
    requires WellFormed(sm) && sm.ext.Some? && |nn| == sm.numNodes
    ensures ext == UniqueSort(ExtNumbers(sm, nn))
  {
    var a := new int[sm.numExt];
    Gather(a, nn, 0, sm.extOffset, 0);
    Gather(a, nn, sm.extOffset, sm.numExt, sm.numOwned);
    assert forall i :: 0 <= i < a.Length ==> a[..][i] == ExtNumbers(sm, nn)[i];
    assert a[..] == ExtNumbers(sm, nn);
    ext := UniqueSort(a[..]);
  }

  /** One loop of lines 969-974: entries [from, to) of a take the values shift places further on in vals. */
  method Gather(a: array<int>, vals: seq<int>, from: int, to: int, shift: int)
    requires 0 <= from <= to <= a.Length && 0 <= from + shift && to + shift <= |vals|
    modifies a
    ensures forall s :: 0 <= s < a.Length ==> a[s] == if from <= s < to then vals[s + shift] else old(a[s])
  {
    for i := from to to
      invariant forall s :: 0 <= s < a.Length ==> a[s] == if from <= s < i then vals[s + shift] else old(a[s])
    {
      a[i] := vals[i + shift];
    }
  }

  /** The external slots below the owned band are numbered below the range, those above it above the range. */
  ghost predicate ExtBandsKept(sm: SlotMap, nn: seq<int>)
    requires WellFormed(sm) && sm.ext.Some? && |nn| == sm.numNodes
  {
    && (forall s :: 0 <= s < sm.extOffset ==> nn[s] < sm.ownerStart)
    && (forall s :: sm.extOffset + sm.numOwned <= s < sm.numNodes ==> sm.ownerEnd <= nn[s])
  }

  /**
    The renumbered external list keeps the layout of the slot map: the new
    numbers are already distinct, so sorting drops none of them, and as the
    owners number their nodes inside their own ranges, extNodeOffset does not
    change.
  */
  lemma RenumberedExtLayout(sm: SlotMap, nn: seq<int>)
    requires Renumbering(sm, nn) && ExtBandsKept(sm, nn)
    ensures WellFormed(sm.(ext := Some(UniqueSort(ExtNumbers(sm, nn)))))
  {
    var l := ExtNumbers(sm, nn);
    var r := UniqueSort(l);
    var off := sm.extOffset;
    assert Injective(l) by {
      forall i, j | 0 <= i < j < |l| ensures l[i] != l[j] {
        var si := if i < off then i else i + sm.numOwned;
        var sj := if j < off then j else j + sm.numOwned;
        assert si < sj && l[i] == nn[si] && l[j] == nn[sj];
      }
    }
    assert forall k :: 0 <= k < |l| ==> (k < off <==> l[k] < sm.ownerStart) && (off <= k ==> sm.ownerEnd <= l[k]);
    SameSetSameLength(l, r);
    forall k | 0 <= k < |r| ensures (k < off ==> 0 <= r[k] < sm.ownerStart) && (off <= k ==> sm.ownerEnd <= r[k]) {
      LowerPrefix(l, r, off, sm.ownerStart, k);
      assert r[k] in l;
    }
  }

  /** A distinct list and a strictly increasing list with the same entries have the same length. */
  lemma SameSetSameLength(l: seq<int>, r: seq<int>)
    requires Injective(l) && StrictlyIncreasing(r)
    requires forall x :: x in r <==> x in l
    ensures |r| == |l|
  {
    ImageSize(l, |l|);
    ImageSize(r, |r|);
    var a := set k | 0 <= k < |l| :: l[k];
    var b := set k | 0 <= k < |r| :: r[k];
    forall x | x in a ensures x in b {
      var k :| 0 <= k < |l| && l[k] == x;
      assert x in r;
    }
    forall x | x in b ensures x in a {
      var k :| 0 <= k < |r| && r[k] == x;
      assert x in l;
    }
    assert a == b;
  }

  /** The number of entries of a strictly increasing list below v: they are its first ones. */
  ghost function Below(r: seq<int>, v: int): (c: nat)
    requires StrictlyIncreasing(r)
    ensures c <= |r| && forall i :: 0 <= i < |r| ==> (i < c <==> r[i] < v)
  {
    if r == [] || r[0] >= v then 0 else 1 + Below(r[1..], v)
  }

  /**
    If exactly the first off entries of the distinct list l lie below v, then
    the sorted list r of its entries has its first off entries below v and
    the rest at or above it.
  */
  lemma LowerPrefix(l: seq<int>, r: seq<int>, off: int, v: int, k: int)
    requires Injective(l) && StrictlyIncreasing(r) && (forall x :: x in r <==> x in l)
    requires 0 <= off <= |l| && forall i :: 0 <= i < |l| ==> (i < off <==> l[i] < v)
    requires 0 <= k < |r|
    ensures k < off <==> r[k] < v
  {
    var c := Below(r, v);
    var a := set i | 0 <= i < c :: r[i];
    var b := set i | 0 <= i < off :: l[i];
    forall x | x in a ensures x in b {
      var i :| 0 <= i < c && r[i] == x;
      assert x in r;
      var j :| 0 <= j < |l| && l[j] == x;
    }
    forall x | x in b ensures x in a {
      var j :| 0 <= j < off && l[j] == x;
      assert x in l;
      var i :| 0 <= i < |r| && r[i] == x;
    }
    assert a == b;
    ImageSize(r, c);
    ImageSize(l, off);
  }

  /**
    getReordering (lines 2109-2123): the new number of each owned node, in
    the original order, or the unchanged numbers when no reordering was
    computed.
  */
  function GetReordering(sm: SlotMap, newNodeIndices: Option<seq<int>>): (oldToNew: seq<int>)
    requires WellFormed(sm)
    requires newNodeIndices.Some? ==> sm.ext.Some? && |newNodeIndices.value| == sm.numNodes
    ensures |oldToNew| == sm.numOwned
  {
    match newNodeIndices
    case None => seq(sm.numOwned, k => sm.ownerStart + k)
    case Some(nn) => nn[sm.extOffset..sm.extOffset + sm.numOwned]
  }

  /**
    getReordering hands out a bijection of this process's range: less the
    start of the range it is a permutation of the owned nodes.
  */
  lemma ReorderingIsPermutation(sm: SlotMap, newNodeIndices: Option<seq<int>>)
    requires WellFormed(sm)
    requires newNodeIndices.Some? ==>
      sm.ext.Some? && OwnedBijection(newNodeIndices.value, sm.extOffset, sm.extOffset + sm.numOwned, sm.ownerStart)
      && |newNodeIndices.value| == sm.numNodes
    ensures IsPermutation(Shifted(GetReordering(sm, newNodeIndices), sm.ownerStart), sm.numOwned)
  {
    var p := GetReordering(sm, newNodeIndices);
    var q := Shifted(p, sm.ownerStart);
    if newNodeIndices.Some? {
      var nn := newNodeIndices.value;
      forall j, k | 0 <= j < k < |q| ensures q[j] != q[k] {
        assert p[j] == nn[sm.extOffset + j] && p[k] == nn[sm.extOffset + k];
      }
    }
  }

  /** Every entry less base. */
  function Shifted(s: seq<int>, base: int): (r: seq<int>)
    ensures |r| == |s| && forall k :: 0 <= k < |s| ==> r[k] == s[k] - base
  {
    seq(|s|, k requires 0 <= k < |s| => s[k] - base)
  }

  /** The first position of block i of a vector of n blocks of bsize values. */
  function Start(bsize: nat, n: nat, i: int): (p: int)
    requires 0 <= i < n
    ensures 0 <= p && p + bsize <= bsize * n
  {
    BlockFits(bsize, i, n);
    bsize * i
  }

  /** Position k of block i. */
  function At(bsize: nat, n: nat, i: int, k: int): (p: int)
    requires 0 <= i < n && 0 <= k < bsize
    ensures 0 <= p < bsize * n
  {
    Start(bsize, n, i) + k
  }

  lemma {:induction false} MulAtLeast(c: nat, d: int)
    requires d >= 1
    ensures c * d >= c
  {
    if d > 1 {
      MulAtLeast(c, d - 1);
      assert c * d == c * (d - 1) + c;
    }
  }

  /** A block below n lies inside the first bsize * n entries. */
  lemma BlockFits(bsize: nat, i: int, n: int)
    requires 0 <= i < n
    ensures 0 <= bsize * i && bsize * i + bsize <= bsize * n
  {
    MulAtLeast(bsize, n - i);
    assert bsize * n == bsize * i + bsize * (n - i);
  }

  /** Blocks at different positions never share an entry. */
  lemma BlocksApart(bsize: nat, n: nat, a: int, b: int, k: int)
    requires 0 <= a < n && 0 <= b < n && 0 <= k < bsize && a != b
    ensures !(Start(bsize, n, b) <= At(bsize, n, a, k) < Start(bsize, n, b) + bsize)
  {
    if a < b {
      MulAtLeast(bsize, b - a);
      assert bsize * b == bsize * a + bsize * (b - a);
    } else {
      MulAtLeast(bsize, a - b);
      assert bsize * a == bsize * b + bsize * (a - b);
    }
  }

  /** The inner loop of reorderVec (lines 2162-2164): block from of xold is copied to block to of x. */
  method CopyBlock(x: array<real>, xold: seq<real>, bsize: nat, n: nat, from: int, to: int)
    requires 0 <= from < n && 0 <= to < n && bsize * n <= |xold| && bsize * n <= x.Length
    modifies x
    ensures forall k :: 0 <= k < bsize ==> x[At(bsize, n, to, k)] == xold[At(bsize, n, from, k)]
    ensures forall j :: 0 <= j < x.Length && !(Start(bsize, n, to) <= j < Start(bsize, n, to) + bsize) ==>
              x[j] == old(x[j])
  {
    for k := 0 to bsize
      invariant forall k' :: 0 <= k' < k ==> x[At(bsize, n, to, k')] == xold[At(bsize, n, from, k')]
      invariant forall j :: 0 <= j < x.Length && !(Start(bsize, n, to) <= j < Start(bsize, n, to) + k) ==>
                  x[j] == old(x[j])
    {
      x[At(bsize, n, to, k)] := xold[At(bsize, n, from, k)];
    }
  }

  /**
    reorderVec (lines 2135-2169) with perm[i] the new position, within this
    process's range, of owned node i: block i of the vector moves to block
    perm[i].  Read the other way, block j ends up holding the old block of the
    node whose new position is j.
  */
  method ReorderVec(perm: seq<int>, bsize: nat, x: array<real>)
    requires IsPermutation(perm, |perm|) && bsize * |perm| <= x.Length
    modifies x
    ensures forall i, k :: 0 <= i < |perm| && 0 <= k < bsize ==>
              x[At(bsize, |perm|, perm[i], k)] == old(x[At(bsize, |perm|, i, k)])
    ensures forall j, k :: 0 <= j < |perm| && 0 <= k < bsize ==>
              x[At(bsize, |perm|, j, k)] == old(x[At(bsize, |perm|, Inverse(perm, |perm|)[j], k)])
    ensures forall j :: bsize * |perm| <= j < x.Length ==> x[j] == old(x[j])
  {
    var xold := x[..];
    var n := |perm|;
    MoveBlocks(perm, bsize, x, xold);
    var q := Inverse(perm, n);
    forall j, k | 0 <= j < n && 0 <= k < bsize
      ensures x[At(bsize, n, j, k)] == xold[At(bsize, n, q[j], k)]
    {
      assert perm[q[j]] == j;
    }
  }

  /** The outer loop of reorderVec (lines 2155-2165), reading the old values from the copy xold. */
  method MoveBlocks(perm: seq<int>, bsize: nat, x: array<real>, xold: seq<real>)
    requires IsPermutation(perm, |perm|) && bsize * |perm| <= x.Length == |xold|
    modifies x
    ensures forall i, k :: 0 <= i < |perm| && 0 <= k < bsize ==>
              x[At(bsize, |perm|, perm[i], k)] == xold[At(bsize, |perm|, i, k)]
    ensures forall j :: bsize * |perm| <= j < x.Length ==> x[j] == old(x[j])
  {
    var n := |perm|;
    for i := 0 to n
      invariant forall i', k :: 0 <= i' < i && 0 <= k < bsize ==> x[At(bsize, n, perm[i'], k)] == xold[At(bsize, n, i', k)]
      invariant forall j :: bsize * n <= j < x.Length ==> x[j] == old(x[j])
    {
      CopyBlock(x, xold, bsize, n, i, perm[i]);
      forall i', k | 0 <= i' < i && 0 <= k < bsize
        ensures x[At(bsize, n, perm[i'], k)] == xold[At(bsize, n, i', k)]
      {
        BlocksApart(bsize, n, perm[i'], perm[i], k);
      }
    }
  }
}
