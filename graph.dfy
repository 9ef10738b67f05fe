/**
  The CSR builders of TACSAssembler: node -> element and node -> node tables
  over local slots, with dependent nodes expanded into their independent nodes.
*/
module Graph {
  import opened Optional
  import opened Sorting
  import opened Numbering
  import opened Csr
  import opened GraphSpec

  /** The slots of the independent nodes of dependent node d, in table order. */
  method ExpandDependent(sm: SlotMap, m: Mesh, d: int) returns (slots: seq<int>)
    requires WellFormed(sm) && MeshValid(m) && m.deps.Some? && 0 <= d < m.numDependentNodes
    ensures slots == DepSlots(sm, m, d)
  {
    var depPtr := m.deps.value.depNodePtr;
    assert 0 <= depPtr[0] <= depPtr[d] && depPtr[d + 1] <= depPtr[m.numDependentNodes];
    slots := LocalSlots(sm, m.deps.value.depNodeToTacs[depPtr[d]..depPtr[d + 1]]);
  }

  /** The loop of getLocalNodeNum calls over a list of nodes. */
  method LocalSlots(sm: SlotMap, nodes: seq<int>) returns (slots: seq<int>)
    requires WellFormed(sm)
    ensures slots == MapLocal(sm, nodes)
  {
    slots := [];
    for i := 0 to |nodes|
      invariant slots == MapLocal(sm, nodes[..i])
    {
      assert nodes[..i + 1][..i] == nodes[..i];
      slots := slots + [LocalNodeNum(sm, nodes[i])];
    }
    assert nodes[..|nodes|] == nodes;
  }

  /** The slots one connectivity entry stands for. */
  method ExpandEntry(sm: SlotMap, m: Mesh, node: int) returns (slots: seq<int>)
    requires WellFormed(sm) && MeshValid(m) && EntryValid(m, node)
    ensures slots == EntrySlots(sm, m, node)
  {
    if node >= 0 {
      slots := [LocalNodeNum(sm, node)];
    } else {
      slots := ExpandDependent(sm, m, -node - 1);
    }
  }

  /** The slots of a run of connectivity entries, entry after entry. */
  method ExpandEntries(sm: SlotMap, m: Mesh, xs: seq<int>) returns (slots: seq<int>)
    requires WellFormed(sm) && MeshValid(m) && EntriesValid(m, xs)
    ensures slots == EntriesSlots(sm, m, xs)
  {
    slots := [];
    for k := 0 to |xs|
      invariant slots == EntriesSlots(sm, m, xs[..k])
    {
      assert xs[..k + 1][..k] == xs[..k];
      var entry := ExpandEntry(sm, m, xs[k]);
      slots := slots + entry;
    }
    assert xs[..|xs|] == xs;
  }

  /**
    The walk every builder makes over one element: each connectivity entry
    becomes its local slot, and a dependent entry -(d+1) becomes the slots of
    the independent nodes of d.
  */
  method ExpandElement(sm: SlotMap, m: Mesh, e: int) returns (slots: seq<int>)
    requires Resolved(sm, m) && 0 <= e < m.numElements
    ensures slots == ElementSlots(sm, m, e)
    ensures SlotsBelow(slots, sm.numNodes)
  {
    var ptr := m.conn.elementNodeIndex;
    assert 0 <= ptr[0] <= ptr[e] && ptr[e + 1] <= ptr[m.numElements];
    slots := ExpandEntries(sm, m, m.conn.elementTacsNodes[ptr[e]..ptr[e + 1]]);
    ElementSlotsBelow(sm, m, e);
  }

  /** The slots of elements 0 .. i-1, element after element. */
  ghost function FlatUpTo(t: seq<seq<int>>, i: int): (r: seq<int>)
    requires 0 <= i <= |t|
  {
    if i == 0 then [] else FlatUpTo(t, i - 1) + t[i - 1]
  }

  lemma {:induction false} FlatPrefix(t: seq<seq<int>>, i: int, j: int)
    requires 0 <= i <= j <= |t|
    ensures FlatUpTo(t, i) <= FlatUpTo(t, j)
    decreases j - i
  {
    if i < j {
      FlatPrefix(t, i, j - 1);
    }
  }

  lemma PrefixMultiset(a: seq<int>, b: seq<int>)
    requires a <= b
    ensures forall x :: multiset(a)[x] <= multiset(b)[x]
  {
    assert b == a + b[|a|..];
  }

  /** cnt[0] is 0 and cnt[s+1] counts the occurrences of slot s in the stream flat. */
  ghost predicate Counted(cnt: seq<int>, flat: seq<int>) {
    |cnt| >= 1 && cnt[0] == 0 && forall s :: 0 <= s < |cnt| - 1 ==> cnt[s + 1] == multiset(flat)[s]
  }

  /** Adds one to cnt[s+1] for every occurrence of slot s in slots, so the counts take in slots after flat. */
  method CountSlots(cnt: array<int>, slots: seq<int>, ghost flat: seq<int>)
    requires SlotsBelow(slots, cnt.Length - 1) && Counted(cnt[..], flat)
    modifies cnt
    ensures Counted(cnt[..], flat + slots)
  {
    for k := 0 to |slots|
      invariant Counted(cnt[..], flat + slots[..k])
    {
      assert flat + slots[..k + 1] == (flat + slots[..k]) + [slots[k]];
      cnt[slots[k] + 1] := cnt[slots[k] + 1] + 1;
    }
    assert slots[..|slots|] == slots;
  }

  /** The counting pass: after it, cnt[s+1] is the number of times slot s occurs over all elements. */
  method CountIncidences(sm: SlotMap, m: Mesh, ghost t: seq<seq<int>>) returns (cnt: array<int>)
    requires Resolved(sm, m) && t == ElementTable(sm, m)
    ensures fresh(cnt) && cnt.Length == sm.numNodes + 1 && cnt[0] == 0
    ensures forall s :: 0 <= s < sm.numNodes ==> cnt[s + 1] == multiset(FlatUpTo(t, |t|))[s]
  {
    cnt := ZeroCounts(sm.numNodes);
    for i := 0 to m.numElements
      invariant cnt.Length == sm.numNodes + 1 && Counted(cnt[..], FlatUpTo(t, i))
    {
      CountElement(sm, m, t, cnt, i);
    }
    assert |t| == m.numElements;
  }

  /** A fresh count array for n slots, every count zero. */
  method ZeroCounts(n: nat) returns (cnt: array<int>)
    ensures fresh(cnt) && cnt.Length == n + 1 && Counted(cnt[..], [])
  {
    cnt := new int[n + 1](_ => 0);
  }

  /** Counts the slots of element i on top of the counts of the elements before it. */
  method CountElement(sm: SlotMap, m: Mesh, ghost t: seq<seq<int>>, cnt: array<int>, i: int)
    requires Resolved(sm, m) && t == ElementTable(sm, m) && 0 <= i < |t|
    requires cnt.Length == sm.numNodes + 1 && Counted(cnt[..], FlatUpTo(t, i))
    modifies cnt
    ensures Counted(cnt[..], FlatUpTo(t, i + 1))
  {
    var slots := ExpandElement(sm, m, i);
    FlatNext(t, i, slots);
    CountSlots(cnt, slots, FlatUpTo(t, i));
  }

  /** The stream of elements 0 .. i is that of elements 0 .. i-1 followed by the slots of element i. */
  lemma FlatNext(t: seq<seq<int>>, i: int, slots: seq<int>)
    requires 0 <= i < |t| && slots == t[i]
    ensures FlatUpTo(t, i + 1) == FlatUpTo(t, i) + slots
  {
  }

  /**
    Row starts laid out for the slot stream total: rows start at 0, never move
    back, and row s has room for exactly the occurrences of s in total.
  */
  ghost predicate Buckets(start: seq<int>, total: seq<int>) {
    && |start| >= 1
    && start[0] == 0
    && (forall a, b :: 0 <= a <= b < |start| ==> start[a] <= start[b])
    && forall s {:trigger multiset(total)[s]} :: 0 <= s < |start| - 1 ==> start[s + 1] - start[s] == multiset(total)[s]
  }

  /** Rows start at the ascending offsets start, all within [0, len]. */
  ghost predicate Layout(start: seq<int>, len: int) {
    && |start| >= 1
    && (forall a, b :: 0 <= a <= b < |start| ==> start[a] <= start[b])
    && forall s :: 0 <= s < |start| ==> 0 <= start[s] <= len
  }

  /**
    The state of the fill step after the slots done: every cursor advanced by the
    occurrences of its row in done, positions before the initial cursors
    untouched, positions the cursors passed over hold e, and the cursors still
    have room for the slots left.
  */
  ghost predicate FillState(start: seq<int>, cur0: seq<int>, cols0: seq<int>, cur: seq<int>, cols: seq<int>,
                            done: seq<int>, left: seq<int>, e: int)
    requires Layout(start, |cols0|) && |cur0| == |cur| == |start| && |cols| == |cols0|
  {
    && (forall s {:trigger cur0[s]} :: 0 <= s < |start| - 1 ==> start[s] <= cur0[s])
    && (forall s :: 0 <= s < |start| - 1 ==> cur[s] == cur0[s] + multiset(done)[s])
    && (forall s {:trigger cur[s]} :: 0 <= s < |start| - 1 ==> cur[s] + multiset(left)[s] <= start[s + 1])
    && (forall s, p {:trigger cur0[s], cols[p]} :: 0 <= s < |start| - 1 && start[s] <= p < cur0[s] ==> cols[p] == cols0[p])
    && (forall s, p {:trigger cur[s], cols[p]} :: 0 <= s < |start| - 1 && cur0[s] <= p < cur[s] ==> cols[p] == e)
  }

  lemma FillStep(start: seq<int>, cur0: seq<int>, cols0: seq<int>, cur: seq<int>, cols: seq<int>,
                 done: seq<int>, left: seq<int>, e: int,
                 cur': seq<int>, cols': seq<int>, done': seq<int>, left': seq<int>)
    requires Layout(start, |cols0|) && |cur0| == |cur| == |start| && |cols| == |cols0|
    requires left != [] && 0 <= left[0] < |start| - 1
    requires FillState(start, cur0, cols0, cur, cols, done, left, e)
    requires cur' == cur[left[0] := cur[left[0]] + 1] && done' == done + [left[0]] && left' == left[1..]
    requires 0 <= cur[left[0]] < |cols| ==> cols' == cols[cur[left[0]] := e]
    ensures 0 <= cur[left[0]] < |cols|
    ensures |cur'| == |start| && |cols'| == |cols0|
    ensures FillState(start, cur0, cols0, cur', cols', done', left', e)
  {
    var node := left[0];
    assert left == [node] + left[1..];
    assert start[node] <= cur[node] < start[node + 1];
    StepFilled(start, cur0, cols0, cur, cols, cur', cols', done, left, e);
    StepUntouched(start, cur0, cols0, cur, cols, done, left, e);
  }

  lemma StepFilled(start: seq<int>, cur0: seq<int>, cols0: seq<int>, cur: seq<int>, cols: seq<int>,
                   cur': seq<int>, cols': seq<int>, done: seq<int>, left: seq<int>, e: int)
    requires Layout(start, |cols0|) && |cur0| == |cur| == |start| && |cols| == |cols0|
    requires left != [] && 0 <= left[0] < |start| - 1
    requires FillState(start, cur0, cols0, cur, cols, done, left, e)
    requires 0 <= cur[left[0]] < |cols|
    requires cur' == cur[left[0] := cur[left[0]] + 1] && cols' == cols[cur[left[0]] := e]
    ensures forall s, p :: 0 <= s < |start| - 1 && cur0[s] <= p < cur'[s] ==> cols'[p] == e
  {
    var node := left[0];
    var w := cur[node];
    forall s, p | 0 <= s < |start| - 1 && cur0[s] <= p < cur'[s]
      ensures cols'[p] == e
    {
      if p != w {
        assert cur0[s] <= p < cur[s];
      }
    }
  }

  lemma StepUntouched(start: seq<int>, cur0: seq<int>, cols0: seq<int>, cur: seq<int>, cols: seq<int>,
                      done: seq<int>, left: seq<int>, e: int)
    requires Layout(start, |cols0|) && |cur0| == |cur| == |start| && |cols| == |cols0|
    requires left != [] && 0 <= left[0] < |start| - 1
    requires FillState(start, cur0, cols0, cur, cols, done, left, e)
    requires start[left[0]] <= cur[left[0]] < start[left[0] + 1]
    ensures forall s, p :: 0 <= s < |start| - 1 && start[s] <= p < cur0[s] ==> cols[cur[left[0]] := e][p] == cols0[p]
  {
    var node := left[0];
    var w := cur[node];
    forall s, p | 0 <= s < |start| - 1 && start[s] <= p < cur0[s]
      ensures cols[w := e][p] == cols0[p]
    {
      if s < node {
        assert p < start[s + 1] <= start[node] <= w;
      } else if s > node {
        assert w < start[node + 1] <= start[s] <= p;
      }
    }
  }

  /**
    The fill step for one element: for each of its slots s, writes e at the
    insertion cursor of row s and advances that cursor.
  */
  method FillSlots(ghost start: seq<int>, cur: array<int>, cols: array<int>, slots: seq<int>, e: int)
    requires Layout(start, cols.Length) && cur.Length == |start| && cur != cols
    requires SlotsBelow(slots, |start| - 1)
    requires FillState(start, cur[..], cols[..], cur[..], cols[..], [], slots, e)
    modifies cur, cols
    ensures FillState(start, old(cur[..]), old(cols[..]), cur[..], cols[..], slots, [], e)
  {
    ghost var cur0, cols0 := cur[..], cols[..];
    assert slots[..0] == [] && slots[0..] == slots;
    for k := 0 to |slots|
      invariant FillState(start, cur0, cols0, cur[..], cols[..], slots[..k], slots[k..], e)
    {
      FillOne(start, cur0, cols0, cur, cols, slots, k, e);
    }
    assert slots[..|slots|] == slots && slots[|slots|..] == [];
  }

  /** Writes e for the slot slots[k], keeping the fill state one slot further on. */
  method FillOne(ghost start: seq<int>, ghost cur0: seq<int>, ghost cols0: seq<int>, cur: array<int>, cols: array<int>,
                 slots: seq<int>, k: int, e: int)
    requires Layout(start, |cols0|) && |cur0| == |start| == cur.Length && cols.Length == |cols0| && cur != cols
    requires SlotsBelow(slots, |start| - 1) && 0 <= k < |slots|
    requires FillState(start, cur0, cols0, cur[..], cols[..], slots[..k], slots[k..], e)
    modifies cur, cols
    ensures FillState(start, cur0, cols0, cur[..], cols[..], slots[..k + 1], slots[k + 1..], e)
  {
    var node := slots[k];
    ghost var c, w := cur[..], cols[..];
    ghost var c' := c[node := c[node] + 1];
    ghost var w' := if 0 <= c[node] < |w| then w[c[node] := e] else w;
    SplitAt(slots, k);
    FillStep(start, cur0, cols0, c, w, slots[..k], slots[k..], e, c', w', slots[..k + 1], slots[k + 1..]);
    Place(cur, cols, node, e);
    assert cur[..] == c' && cols[..] == w';
  }

  /** Moving the split point of a list one entry on moves that entry from the rest to the part done. */
  lemma SplitAt(slots: seq<int>, k: int)
    requires 0 <= k < |slots|
    ensures slots[k..] != [] && slots[k..][0] == slots[k] && slots[k..][1..] == slots[k + 1..]
    ensures slots[..k] + [slots[k]] == slots[..k + 1]
  {
  }

  /** Writes e at the insertion cursor of row node and advances the cursor. */
  method Place(cur: array<int>, cols: array<int>, node: int, e: int)
    requires cur != cols && 0 <= node < cur.Length && 0 <= cur[node] < cols.Length
    modifies cur, cols
    ensures cols[..] == old(cols[..])[old(cur[node]) := e]
    ensures cur[..] == old(cur[..])[node := old(cur[node]) + 1]
  {
    cols[cur[node]] := e;
    cur[node] := cur[node] + 1;
  }

  /** After elements 0 .. i-1: cursor s has moved past the occurrences of s in their slot lists. */
  ghost predicate IncCursors(t: seq<seq<int>>, start: seq<int>, cur: seq<int>, i: int)
    requires |start| == |cur| >= 1 && 0 <= i <= |t|
  {
    && (forall s {:trigger cur[s]} :: 0 <= s < |start| - 1 ==> cur[s] == start[s] + multiset(FlatUpTo(t, i))[s])
    && (forall s {:trigger cur[s]} :: 0 <= s < |start| - 1 ==> start[s] <= cur[s] && cur[s] <= start[s + 1])
  }

  /** The columns of row s written so far are elements before i that touch s. */
  ghost predicate IncSound(t: seq<seq<int>>, start: seq<int>, cur: seq<int>, cols: seq<int>, i: int)
    requires |start| == |cur| >= 1 && 0 <= i <= |t|
  {
    forall s, p {:trigger cur[s], cols[p]} :: 0 <= s < |start| - 1 && start[s] <= p < cur[s] ==>
      0 <= p < |cols| && 0 <= cols[p] < i && s in t[cols[p]]
  }

  /** Every element before i that touches slot s is among the columns of row s written so far. */
  ghost predicate IncComplete(t: seq<seq<int>>, start: seq<int>, cur: seq<int>, cols: seq<int>, i: int)
    requires |start| == |cur| >= 1 && 0 <= i <= |t| && Layout(start, |cols|)
    requires IncCursors(t, start, cur, i)
  {
    forall s, e :: 0 <= s < |start| - 1 && 0 <= e < i && s in t[e] ==> e in cols[start[s]..cur[s]]
  }

  /** The state of the fill pass after elements 0 .. i-1. */
  ghost predicate IncState(t: seq<seq<int>>, start: seq<int>, cur: seq<int>, cols: seq<int>, i: int)
    requires |start| == |cur| >= 1 && 0 <= i <= |t|
    requires Layout(start, |cols|)
  {
    && IncCursors(t, start, cur, i)
    && IncSound(t, start, cur, cols, i)
    && IncComplete(t, start, cur, cols, i)
  }

  /** The columns of row s, between its start and the next row's start. */
  ghost function Bucket(start: seq<int>, cols: seq<int>, s: int): seq<int>
    requires Layout(start, |cols|) && 0 <= s < |start| - 1
  {
    cols[start[s]..start[s + 1]]
  }

  /** Row s of the finished node -> element columns holds exactly the elements that touch s. */
  ghost predicate IncidenceRows(t: seq<seq<int>>, start: seq<int>, cols: seq<int>)
    requires |start| >= 1 && Layout(start, |cols|)
  {
    forall s, x :: 0 <= s < |start| - 1 ==>
      (x in Bucket(start, cols, s) <==> 0 <= x < |t| && s in t[x])
  }

  /** Before element i is filled in, every row has room for its slots. */
  lemma IncReady(t: seq<seq<int>>, start: seq<int>, cur: seq<int>, cols: seq<int>, i: int, slots: seq<int>)
    requires |start| == |cur| >= 1 && 0 <= i < |t|
    requires Buckets(start, FlatUpTo(t, |t|)) && Layout(start, |cols|)
    requires IncState(t, start, cur, cols, i) && slots == t[i]
    ensures FillState(start, cur, cols, cur, cols, [], slots, i)
  {
    FlatPrefix(t, i + 1, |t|);
    FlatNext(t, i, slots);
    ElementRoom(start, cur, FlatUpTo(t, i), slots, FlatUpTo(t, |t|));
  }

  /**
    When the cursors stand past the occurrences in prev and prev followed by
    slots begins the stream total, each cursor still has room in its row for
    the occurrences of its slot in slots.
  */
  lemma ElementRoom(start: seq<int>, cur: seq<int>, prev: seq<int>, slots: seq<int>, total: seq<int>)
    requires |start| == |cur| && Buckets(start, total) && prev + slots <= total
    requires forall s {:trigger cur[s]} :: 0 <= s < |start| - 1 ==> cur[s] == start[s] + multiset(prev)[s]
    ensures forall s :: 0 <= s < |start| - 1 ==> cur[s] + multiset(slots)[s] <= start[s + 1]
  {
    PrefixMultiset(prev + slots, total);
    forall s | 0 <= s < |start| - 1
      ensures cur[s] + multiset(slots)[s] <= start[s + 1]
    {
      assert multiset(prev + slots)[s] == multiset(prev)[s] + multiset(slots)[s];
      assert start[s + 1] - start[s] == multiset(total)[s];
    }
  }

  /** Filling in element i extends the state from i to i + 1. */
  lemma IncStep(t: seq<seq<int>>, start: seq<int>, cur: seq<int>, cols: seq<int>,
                cur': seq<int>, cols': seq<int>, i: int, slots: seq<int>)
    requires |start| == |cur| == |cur'| >= 1 && 0 <= i < |t|
    requires Layout(start, |cols|) && |cols'| == |cols|
    requires IncState(t, start, cur, cols, i) && slots == t[i]
    requires FillState(start, cur, cols, cur', cols', slots, [], i)
    ensures IncState(t, start, cur', cols', i + 1)
  {
    IncStepCursors(t, start, cur, cols, cur', cols', i, slots);
    IncStepSound(t, start, cur, cols, cur', cols', i, slots);
    IncStepComplete(t, start, cur, cols, cur', cols', i, slots);
  }

  lemma IncStepCursors(t: seq<seq<int>>, start: seq<int>, cur: seq<int>, cols: seq<int>,
                cur': seq<int>, cols': seq<int>, i: int, slots: seq<int>)
    requires |start| == |cur| == |cur'| >= 1 && 0 <= i < |t|
    requires Layout(start, |cols|) && |cols'| == |cols|
    requires IncCursors(t, start, cur, i) && slots == t[i]
    requires FillState(start, cur, cols, cur', cols', slots, [], i)
    ensures IncCursors(t, start, cur', i + 1)
  {
    assert FlatUpTo(t, i + 1) == FlatUpTo(t, i) + slots;
    forall s | 0 <= s < |start| - 1
      ensures cur'[s] == start[s] + multiset(FlatUpTo(t, i + 1))[s]
      ensures start[s] <= cur'[s] && cur'[s] <= start[s + 1]
    {
      assert cur'[s] == cur[s] + multiset(slots)[s];
      assert cur'[s] + multiset([])[s] <= start[s + 1];
    }
  }

  lemma IncStepSound(t: seq<seq<int>>, start: seq<int>, cur: seq<int>, cols: seq<int>,
                cur': seq<int>, cols': seq<int>, i: int, slots: seq<int>)
    requires |start| == |cur| == |cur'| >= 1 && 0 <= i < |t|
    requires Layout(start, |cols|) && |cols'| == |cols|
    requires IncSound(t, start, cur, cols, i) && slots == t[i]
    requires FillState(start, cur, cols, cur', cols', slots, [], i)
    ensures IncSound(t, start, cur', cols', i + 1)
  {
    forall s, p | 0 <= s < |start| - 1 && start[s] <= p < cur'[s]
      ensures 0 <= p < |cols'| && 0 <= cols'[p] < i + 1 && s in t[cols'[p]]
    {
      assert cur'[s] + multiset([])[s] <= start[s + 1];
      if p < cur[s] {
        assert cols'[p] == cols[p];
      } else {
        assert cols'[p] == i;
        assert cur'[s] == cur[s] + multiset(slots)[s];
        assert multiset(slots)[s] > 0;
      }
    }
  }

  lemma IncStepComplete(t: seq<seq<int>>, start: seq<int>, cur: seq<int>, cols: seq<int>,
                cur': seq<int>, cols': seq<int>, i: int, slots: seq<int>)
    requires |start| == |cur| == |cur'| >= 1 && 0 <= i < |t|
    requires Layout(start, |cols|) && |cols'| == |cols|
    requires IncCursors(t, start, cur, i) && IncComplete(t, start, cur, cols, i) && slots == t[i]
    requires IncCursors(t, start, cur', i + 1)
    requires FillState(start, cur, cols, cur', cols', slots, [], i)
    ensures IncComplete(t, start, cur', cols', i + 1)
  {
    forall s, e | 0 <= s < |start| - 1 && 0 <= e < i + 1 && s in t[e]
      ensures e in cols'[start[s]..cur'[s]]
    {
      assert cur'[s] == cur[s] + multiset(slots)[s];
      assert start[s] <= cur[s] <= cur'[s] <= start[s + 1];
      if e == i {
        assert multiset(slots)[s] > 0;
        assert cols'[start[s]..cur'[s]][cur[s] - start[s]] == e;
      } else {
        assert e in cols[start[s]..cur[s]];
        var k :| 0 <= k < cur[s] - start[s] && cols[start[s]..cur[s]][k] == e;
        assert cols'[start[s]..cur'[s]][k] == cols[start[s] + k];
      }
    }
  }

  lemma IncDone(t: seq<seq<int>>, start: seq<int>, cur: seq<int>, cols: seq<int>)
    requires |start| == |cur| >= 1 && Layout(start, |cols|)
    requires Buckets(start, FlatUpTo(t, |t|))
    requires IncState(t, start, cur, cols, |t|)
    ensures forall s :: 0 <= s < |start| - 1 ==> cur[s] == start[s + 1]
    ensures IncidenceRows(t, start, cols)
  {
    IncDoneCursors(t, start, cur);
    IncDoneSound(t, start, cur, cols);
    IncDoneComplete(t, start, cur, cols);
  }

  lemma IncDoneCursors(t: seq<seq<int>>, start: seq<int>, cur: seq<int>)
    requires |start| == |cur| >= 1
    requires Buckets(start, FlatUpTo(t, |t|)) && IncCursors(t, start, cur, |t|)
    ensures forall s :: 0 <= s < |start| - 1 ==> cur[s] == start[s + 1]
  {
    forall s | 0 <= s < |start| - 1 ensures cur[s] == start[s + 1] {
      assert cur[s] == start[s] + multiset(FlatUpTo(t, |t|))[s];
    }
  }

  lemma IncDoneSound(t: seq<seq<int>>, start: seq<int>, cur: seq<int>, cols: seq<int>)
    requires |start| == |cur| >= 1 && Layout(start, |cols|)
    requires forall s :: 0 <= s < |start| - 1 ==> cur[s] == start[s + 1]
    requires IncSound(t, start, cur, cols, |t|)
    ensures forall s, x :: 0 <= s < |start| - 1 && x in cols[start[s]..start[s + 1]] ==> 0 <= x < |t| && s in t[x]
  {
    forall s, x | 0 <= s < |start| - 1 && x in cols[start[s]..start[s + 1]]
      ensures 0 <= x < |t| && s in t[x]
    {
      var k :| 0 <= k < start[s + 1] - start[s] && cols[start[s]..start[s + 1]][k] == x;
      assert cols[start[s] + k] == x && start[s] + k < cur[s];
    }
  }

  lemma IncDoneComplete(t: seq<seq<int>>, start: seq<int>, cur: seq<int>, cols: seq<int>)
    requires |start| == |cur| >= 1 && Layout(start, |cols|)
    requires IncCursors(t, start, cur, |t|)
    requires forall s :: 0 <= s < |start| - 1 ==> cur[s] == start[s + 1]
    requires IncComplete(t, start, cur, cols, |t|)
    ensures forall s, x :: 0 <= s < |start| - 1 && 0 <= x < |t| && s in t[x] ==> x in cols[start[s]..start[s + 1]]
  {
    forall s, x | 0 <= s < |start| - 1 && 0 <= x < |t| && s in t[x]
      ensures x in cols[start[s]..start[s + 1]]
    {
      assert x in cols[start[s]..cur[s]];
    }
  }

  /** The fill pass over all elements, with cur starting at the row starts. */
  method FillIncidences(sm: SlotMap, m: Mesh, ghost t: seq<seq<int>>, ghost start: seq<int>, cur: array<int>, cols: array<int>)
    requires Resolved(sm, m) && t == ElementTable(sm, m)
    requires |start| == sm.numNodes + 1 && Buckets(start, FlatUpTo(t, |t|))
    requires cur.Length == |start| && cols.Length == start[sm.numNodes] && cur != cols
    requires forall s {:trigger cur[s]} :: 0 <= s < sm.numNodes ==> cur[s] == start[s]
    modifies cur, cols
    ensures forall s :: 0 <= s < sm.numNodes ==> cur[s] == start[s + 1]
    ensures Layout(start, cols.Length) && IncidenceRows(t, start, cols[..])
  {
    IncStart(t, start, cur[..], cols[..]);
    for i := 0 to m.numElements
      invariant IncState(t, start, cur[..], cols[..], i)
    {
      FillElement(sm, m, t, start, cur, cols, i);
    }
    IncDone(t, start, cur[..], cols[..]);
  }

  /** With every cursor at its row start and no element done, the fill-pass state holds. */
  lemma IncStart(t: seq<seq<int>>, start: seq<int>, cur: seq<int>, cols: seq<int>)
    requires |start| == |cur| >= 1 && Buckets(start, FlatUpTo(t, |t|)) && |cols| == start[|start| - 1]
    requires forall s {:trigger cur[s]} :: 0 <= s < |start| - 1 ==> cur[s] == start[s]
    ensures Layout(start, |cols|) && IncState(t, start, cur, cols, 0)
  {
    var n := |start| - 1;
    forall s | 0 <= s < |start| ensures 0 <= start[s] <= |cols| {
      assert start[0] <= start[s] <= start[n];
    }
    assert FlatUpTo(t, 0) == [];
  }

  /** The fill step for element i, keeping the fill-pass state one element further on. */
  method FillElement(sm: SlotMap, m: Mesh, ghost t: seq<seq<int>>, ghost start: seq<int>, cur: array<int>, cols: array<int>, i: int)
    requires Resolved(sm, m) && t == ElementTable(sm, m) && 0 <= i < |t|
    requires |start| == sm.numNodes + 1 && Buckets(start, FlatUpTo(t, |t|)) && Layout(start, cols.Length)
    requires cur.Length == |start| && cur != cols
    requires IncState(t, start, cur[..], cols[..], i)
    modifies cur, cols
    ensures IncState(t, start, cur[..], cols[..], i + 1)
  {
    var slots := ExpandElement(sm, m, i);
    IncReady(t, start, cur[..], cols[..], i, slots);
    ghost var oldCur, oldCols := cur[..], cols[..];
    FillSlots(start, cur, cols, slots, i);
    IncStep(t, start, oldCur, oldCols, cur[..], cols[..], i, slots);
  }

  /** Row starts summed up from row counts that are never negative ascend from 0 to the last start. */
  lemma PrefixLayout(counts: seq<int>, start: seq<int>)
    requires |counts| == |start| >= 1 && start[0] == 0
    requires forall k {:trigger counts[k]} :: 1 <= k < |start| ==> 0 <= counts[k] && start[k] == start[k - 1] + counts[k]
    ensures Layout(start, start[|start| - 1])
  {
    forall k | 0 <= k < |start| - 1 ensures start[k] <= start[k + 1] {
      assert 0 <= counts[k + 1];
    }
    forall a, b | 0 <= a <= b < |start| ensures start[a] <= start[b] {
      StepsMonotone(start, a, b);
    }
  }

  /** The row starts left by the counting pass and the prefix sum are buckets for the slot stream. */
  lemma CountedBuckets(counts: seq<int>, start: seq<int>, total: seq<int>)
    requires |counts| == |start| >= 1 && counts[0] == 0 && start[0] == 0
    requires forall s :: 0 <= s < |start| - 1 ==> counts[s + 1] == multiset(total)[s]
    requires forall k :: 0 <= k < |start| - 1 ==> start[k + 1] == start[k] + counts[k + 1]
    ensures Buckets(start, total)
  {
    forall k | 1 <= k < |start| ensures 0 <= counts[k] && start[k] == start[k - 1] + counts[k] {
      assert counts[k] == multiset(total)[k - 1];
    }
    PrefixLayout(counts, start);
  }

  /**
    TACSAssembler::computeNodeToElementCSR: row s of the result lists, sorted
    and without repeats, every element that touches local slot s, directly or
    through one of its dependent nodes.
  */
  method NodeToElementCsr(sm: SlotMap, m: Mesh) returns (nodeElementPtr: seq<int>, nodeToElements: seq<int>)
    requires Resolved(sm, m)
    ensures RowsAre(nodeElementPtr, nodeToElements, IncidenceSets(ElementTable(sm, m), sm.numNodes))
  {
    var n := sm.numNodes;
    ghost var t := ElementTable(sm, m);
    ghost var total := FlatUpTo(t, |t|);
    var ptr := CountIncidences(sm, m, t);
    ghost var counts := ptr[..];
    PrefixSum(ptr);
    ghost var start := ptr[..];
    CountedBuckets(counts, start, total);
    var cols := new int[ptr[n]];
    FillIncidences(sm, m, t, start, ptr, cols);
    ShiftBack(ptr);
    assert ptr[..] == start;
    nodeElementPtr, nodeToElements := SortAndUniquifyCsr(n, ptr[..], cols[..], false);
    IncidenceRowsAre(t, start, cols[..], nodeElementPtr, nodeToElements);
  }

  lemma IncidenceRowsAre(t: seq<seq<int>>, start: seq<int>, cols: seq<int>, rowp: seq<int>, rcols: seq<int>)
    requires |start| >= 1 && Layout(start, |cols|)
    requires IsCsr(start, cols, |start| - 1) && IncidenceRows(t, start, cols)
    requires IsCsr(rowp, rcols, |start| - 1)
    requires forall i :: 0 <= i < |start| - 1 ==> StrictlyIncreasing(Row(rowp, rcols, i))
    requires forall i, x :: 0 <= i < |start| - 1 ==> (x in Row(rowp, rcols, i) <==> x in Row(start, cols, i))
    ensures RowsAre(rowp, rcols, IncidenceSets(t, |start| - 1))
  {
    var rows := IncidenceSets(t, |start| - 1);
    forall i, x | 0 <= i < |start| - 1
      ensures x in Row(rowp, rcols, i) <==> x in rows[i]
    {
      IncidenceBucket(t, start, cols, i, x);
    }
  }

  /** Bucket i of the filled table holds element x exactly when x is incident to slot i. */
  lemma IncidenceBucket(t: seq<seq<int>>, start: seq<int>, cols: seq<int>, i: int, x: int)
    requires |start| >= 1 && Layout(start, |cols|)
    requires IsCsr(start, cols, |start| - 1) && IncidenceRows(t, start, cols)
    requires 0 <= i < |start| - 1
    ensures x in Row(start, cols, i) <==> x in NodeElementSet(t, i)
  {
    assert Row(start, cols, i) == Bucket(start, cols, i);
    assert x in Bucket(start, cols, i) ==> 0 <= x < |t| && i in t[x];
    assert 0 <= x < |t| && i in t[x] ==> x in Bucket(start, cols, i);
  }
}
