/**
  The node -> node CSR builders of TACSAssembler: the reduced builder, which
  keeps only the slots a dense numbering rnodes selects and renames them, and
  the full builder over every local slot.
*/
module NodeGraph {
  import opened Sorting
  import opened Numbering
  import opened Csr
  import opened GraphSpec
  import opened Graph

  /** The reduced numbers of the slots of s that take part (rnodes >= 0), in order. */
  ghost function ReducedSlots(rnodes: seq<int>, s: seq<int>): seq<int>
  {
    if s == [] then []
    else
      var j := s[|s| - 1];
      ReducedSlots(rnodes, s[..|s| - 1]) + (if 0 <= j < |rnodes| && rnodes[j] >= 0 then [rnodes[j]] else [])
  }

  lemma {:induction false} ReducedSlotsSound(rnodes: seq<int>, s: seq<int>, x: int)
    requires x in ReducedSlots(rnodes, s)
    ensures exists j :: j in s && 0 <= j < |rnodes| && rnodes[j] == x && x >= 0
  {
    var j := s[|s| - 1];
    if x in ReducedSlots(rnodes, s[..|s| - 1]) {
      ReducedSlotsSound(rnodes, s[..|s| - 1], x);
      var i :| i in s[..|s| - 1] && 0 <= i < |rnodes| && rnodes[i] == x && x >= 0;
      assert i in s;
    } else {
      assert s[|s| - 1] in s;
    }
  }

  lemma {:induction false} ReducedSlotsComplete(rnodes: seq<int>, s: seq<int>, j: int)
    requires j in s && 0 <= j < |rnodes| && rnodes[j] >= 0
    ensures rnodes[j] in ReducedSlots(rnodes, s)
  {
    if s[|s| - 1] != j {
      assert s == s[..|s| - 1] + [s[|s| - 1]];
      ReducedSlotsComplete(rnodes, s[..|s| - 1], j);
    }
  }

  /** The reduced slots of the elements elems, element after element. */
  ghost function Gathered(t: seq<seq<int>>, rnodes: seq<int>, elems: seq<int>): seq<int>
    requires SlotsBelow(elems, |t|)
  {
    if elems == [] then []
    else Gathered(t, rnodes, elems[..|elems| - 1]) + ReducedSlots(rnodes, t[elems[|elems| - 1]])
  }

  lemma {:induction false} GatheredSound(t: seq<seq<int>>, rnodes: seq<int>, elems: seq<int>, x: int)
    requires SlotsBelow(elems, |t|)
    requires x in Gathered(t, rnodes, elems)
    ensures exists k :: 0 <= k < |elems| && x in ReducedSlots(rnodes, t[elems[k]])
  {
    var n := |elems|;
    if x !in ReducedSlots(rnodes, t[elems[n - 1]]) {
      GatheredSound(t, rnodes, elems[..n - 1], x);
      var k :| 0 <= k < n - 1 && x in ReducedSlots(rnodes, t[elems[..n - 1][k]]);
      assert elems[..n - 1][k] == elems[k];
    }
  }

  lemma {:induction false} GatheredComplete(t: seq<seq<int>>, rnodes: seq<int>, elems: seq<int>, k: int, x: int)
    requires SlotsBelow(elems, |t|)
    requires 0 <= k < |elems| && x in ReducedSlots(rnodes, t[elems[k]])
    ensures x in Gathered(t, rnodes, elems)
  {
    var n := |elems|;
    var last := ReducedSlots(rnodes, t[elems[n - 1]]);
    assert Gathered(t, rnodes, elems) == Gathered(t, rnodes, elems[..n - 1]) + last;
    if k < n - 1 {
      assert elems[..n - 1][k] == elems[k];
      GatheredComplete(t, rnodes, elems[..n - 1], k, x);
    }
  }

  /** Gathering one more element appends its reduced slots. */
  lemma GatheredSnoc(t: seq<seq<int>>, rnodes: seq<int>, elems: seq<int>, k: int)
    requires SlotsBelow(elems, |t|) && 0 <= k < |elems|
    ensures Gathered(t, rnodes, elems[..k + 1])
            == Gathered(t, rnodes, elems[..k]) + ReducedSlots(rnodes, t[elems[k]])
  {
    assert elems[..k + 1][..k] == elems[..k];
  }

  /** The row of reduced node r: the reduced neighbours of the slot numbered r, without r itself under nodiag. */
  ghost function ReducedRowSet(t: seq<seq<int>>, rnodes: seq<int>, nr: nat, r: int, nodiag: bool): set<int>
    requires DenseNumbering(rnodes, nr) && 0 <= r < nr
  {
    ReducedNeighbourSet(t, rnodes, Positions(rnodes, nr)[r]) - (if nodiag then {r} else {})
  }

  /** The rows of the reduced graph, r = 0 .. nr-1. */
  ghost function ReducedRows(t: seq<seq<int>>, rnodes: seq<int>, nr: nat, nodiag: bool): (rows: seq<set<int>>)
    requires DenseNumbering(rnodes, nr)
    ensures |rows| == nr && forall r :: 0 <= r < nr ==> rows[r] == ReducedRowSet(t, rnodes, nr, r, nodiag)
  {
    seq(nr, r requires 0 <= r < nr && DenseNumbering(rnodes, nr) => ReducedRowSet(t, rnodes, nr, r, nodiag))
  }

  /** The row of slot i of the full graph: its neighbours, without i itself under nodiag. */
  ghost function NeighbourRowSet(t: seq<seq<int>>, i: int, nodiag: bool): set<int>
  {
    NeighbourSet(t, i) - (if nodiag then {i} else {})
  }

  /** The rows of the full graph over the slots 0 .. n-1. */
  ghost function NeighbourRows(t: seq<seq<int>>, n: nat, nodiag: bool): (rows: seq<set<int>>)
    ensures |rows| == n && forall i :: 0 <= i < n ==> rows[i] == NeighbourRowSet(t, i, nodiag)
  {
    seq(n, i => NeighbourRowSet(t, i, nodiag))
  }

  /** The reduced numbers of the slots of element e that rnodes keeps, in connectivity order. */
  method ReduceElement(sm: SlotMap, m: Mesh, rnodes: seq<int>, e: int) returns (vals: seq<int>)
    requires Resolved(sm, m) && |rnodes| == sm.numNodes && 0 <= e < m.numElements
    ensures vals == ReducedSlots(rnodes, ElementSlots(sm, m, e))
  {
    var slots := ExpandElement(sm, m, e);
    vals := ReduceSlots(rnodes, slots);
  }

  /** The reduced numbers of the slots s that rnodes keeps, in order. */
  method ReduceSlots(rnodes: seq<int>, s: seq<int>) returns (vals: seq<int>)
    requires SlotsBelow(s, |rnodes|)
    ensures vals == ReducedSlots(rnodes, s)
  {
    vals := [];
    for k := 0 to |s|
      invariant vals == ReducedSlots(rnodes, s[..k])
    {
      assert s[..k + 1][..k] == s[..k];
      var rn := rnodes[s[k]];
      if rn >= 0 {
        vals := vals + [rn];
      }
    }
    assert s[..|s|] == s;
  }

  /**
    The per-element counts of the reduced builder: nodeCount[e] is the number
    of slots of element e, with dependent nodes expanded, that rnodes keeps.
  */
  method ElementCounts(sm: SlotMap, m: Mesh, ghost t: seq<seq<int>>, rnodes: seq<int>) returns (nodeCount: seq<int>)
    requires Resolved(sm, m) && t == ElementTable(sm, m) && |rnodes| == sm.numNodes
    ensures |nodeCount| == |t|
    ensures forall e :: 0 <= e < |t| ==> nodeCount[e] == |ReducedSlots(rnodes, t[e])|
  {
    nodeCount := [];
    for e := 0 to m.numElements
      invariant |nodeCount| == e
      invariant forall k :: 0 <= k < e ==> nodeCount[k] == |ReducedSlots(rnodes, t[k])|
    {
      var vals := ReduceElement(sm, m, rnodes, e);
      nodeCount := nodeCount + [|vals|];
    }
  }

  /** The sum of counts[e] over the elements e of elems. */
  ghost function CountOver(counts: seq<int>, elems: seq<int>): int
    requires SlotsBelow(elems, |counts|)
  {
    if elems == [] then 0 else CountOver(counts, elems[..|elems| - 1]) + counts[elems[|elems| - 1]]
  }

  /** With the per-element counts, the count over elems is the number of slots gathered from them. */
  lemma {:induction false} CountOverGathered(t: seq<seq<int>>, rnodes: seq<int>, nodeCount: seq<int>, elems: seq<int>)
    requires SlotsBelow(elems, |t|) && |nodeCount| == |t|
    requires forall e :: 0 <= e < |t| ==> nodeCount[e] == |ReducedSlots(rnodes, t[e])|
    ensures CountOver(nodeCount, elems) == |Gathered(t, rnodes, elems)|
  {
    if elems != [] {
      CountOverGathered(t, rnodes, nodeCount, elems[..|elems| - 1]);
    }
  }

  /** Adds the counts of the elements of row i of the node -> element table to ptr[idx]. */
  method AddCounts(counts: seq<int>, nePtr: seq<int>, neCols: seq<int>, i: int, ptr: array<int>, idx: int)
    requires 0 <= i < |nePtr| - 1 && IsCsr(nePtr, neCols, |nePtr| - 1)
    requires SlotsBelow(Row(nePtr, neCols, i), |counts|) && 0 <= idx < ptr.Length
    modifies ptr
    ensures ptr[..] == old(ptr[..])[idx := old(ptr[idx]) + CountOver(counts, Row(nePtr, neCols, i))]
  {
    ghost var elems := Row(nePtr, neCols, i);
    for jp := nePtr[i] to nePtr[i + 1]
      invariant ptr[..] == old(ptr[..])[idx := old(ptr[idx]) + CountOver(counts, elems[..jp - nePtr[i]])]
    {
      assert elems[..jp + 1 - nePtr[i]][..jp - nePtr[i]] == elems[..jp - nePtr[i]];
      ptr[idx] := ptr[idx] + counts[neCols[jp]];
    }
    assert elems[..nePtr[i + 1] - nePtr[i]] == elems;
  }

  /**
    The row estimate pass: for every kept slot i, numbered r, ptr[r+1] becomes
    the sum of the counts of the elements of i.
  */
  method EstimateRows(rnodes: seq<int>, nr: nat, nodeCount: seq<int>, nePtr: seq<int>, neCols: seq<int>, ptr: array<int>)
    requires DenseNumbering(rnodes, nr) && IsCsr(nePtr, neCols, |rnodes|)
    requires forall i :: 0 <= i < |rnodes| ==> SlotsBelow(Row(nePtr, neCols, i), |nodeCount|)
    requires ptr.Length == nr + 1 && forall r :: 0 <= r <= nr ==> ptr[r] == 0
    modifies ptr
    ensures ptr[0] == 0
    ensures forall r :: 0 <= r < nr ==> ptr[r + 1] == CountOver(nodeCount, Row(nePtr, neCols, Positions(rnodes, nr)[r]))
  {
    ghost var q := Positions(rnodes, nr);
    for i := 0 to |rnodes|
      invariant ptr[0] == 0
      invariant forall r {:trigger q[r]} :: 0 <= r < nr ==>
                  ptr[r + 1] == if q[r] < i then CountOver(nodeCount, Row(nePtr, neCols, q[r])) else 0
    {
      var node := rnodes[i];
      if node >= 0 {
        AddCounts(nodeCount, nePtr, neCols, i, ptr, node + 1);
      }
      forall r | 0 <= r < nr
        ensures ptr[r + 1] == if q[r] < i + 1 then CountOver(nodeCount, Row(nePtr, neCols, q[r])) else 0
      {
        if q[r] == i {
          assert rnodes[i] == r;
        }
      }
    }
  }

  /** s with the entries from pos on overwritten by v. */
  ghost function Splice(s: seq<int>, pos: int, v: seq<int>): (r: seq<int>)
    requires 0 <= pos && pos + |v| <= |s|
    ensures |r| == |s|
  {
    s[..pos] + v + s[pos + |v|..]
  }

  lemma SpliceTwice(s: seq<int>, pos: int, a: seq<int>, b: seq<int>)
    requires 0 <= pos && pos + |a| + |b| <= |s|
    ensures Splice(Splice(s, pos, a), pos + |a|, b) == Splice(s, pos, a + b)
  {
    var t := Splice(s, pos, a);
    assert t[..pos + |a|] == s[..pos] + a;
    assert t[pos + |a| + |b|..] == s[pos + |a| + |b|..];
  }

  lemma SpliceRange(s: seq<int>, pos: int, v: seq<int>, lo: int, hi: int)
    requires 0 <= pos && pos + |v| <= |s| && 0 <= lo <= hi <= |s|
    ensures hi <= pos || pos + |v| <= lo ==> Splice(s, pos, v)[lo..hi] == s[lo..hi]
    ensures lo == pos && hi == pos + |v| ==> Splice(s, pos, v)[lo..hi] == v
  {
  }

  /** Writes vals into cols from position pos on. */
  method WriteAt(cols: array<int>, pos: int, vals: seq<int>)
    requires 0 <= pos && pos + |vals| <= cols.Length
    modifies cols
    ensures cols[..] == Splice(old(cols[..]), pos, vals)
  {
    for k := 0 to |vals|
      invariant cols[..] == Splice(old(cols[..]), pos, vals[..k])
    {
      SpliceTwice(old(cols[..]), pos, vals[..k], [vals[k]]);
      assert vals[..k] + [vals[k]] == vals[..k + 1];
      cols[pos + k] := vals[k];
    }
    assert vals[..|vals|] == vals;
  }

  /** The fill step for one kept slot: writes the reduced slots of the elements elems at the cursor ptr[r]. */
  method FillRow(sm: SlotMap, m: Mesh, ghost t: seq<seq<int>>, rnodes: seq<int>, elems: seq<int>,
                 ptr: array<int>, cols: array<int>, r: int)
    requires Resolved(sm, m) && t == ElementTable(sm, m) && |rnodes| == sm.numNodes && SlotsBelow(elems, |t|)
    requires ptr != cols && 0 <= r < ptr.Length && 0 <= ptr[r]
    requires ptr[r] + |Gathered(t, rnodes, elems)| <= cols.Length
    modifies ptr, cols
    ensures ptr[r] == old(ptr[r]) + |Gathered(t, rnodes, elems)|
    ensures forall j :: 0 <= j < ptr.Length && j != r ==> ptr[j] == old(ptr[j])
    ensures cols[..] == Splice(old(cols[..]), old(ptr[r]), Gathered(t, rnodes, elems))
  {
    ghost var p0 := ptr[r];
    ghost var cols0 := cols[..];
    ghost var done: seq<int> := [];
    for k := 0 to |elems|
      invariant SlotsBelow(elems[..k], |t|) && done == Gathered(t, rnodes, elems[..k])
      invariant ptr[r] == p0 + |done| && p0 + |done| <= cols.Length
      invariant forall j :: 0 <= j < ptr.Length && j != r ==> ptr[j] == old(ptr[j])
      invariant cols[..] == Splice(cols0, p0, done)
    {
      GatheredSnoc(t, rnodes, elems, k);
      GatheredPrefix(t, rnodes, elems, k + 1);
      FillRowStep(sm, m, t, rnodes, elems[k], ptr, cols, r, p0, cols0, done);
      done := done + ReducedSlots(rnodes, t[elems[k]]);
    }
    assert elems[..|elems|] == elems;
  }

  /** One round of FillRow: the reduced slots of element e follow the entries before already written from p0 on. */
  method FillRowStep(sm: SlotMap, m: Mesh, ghost t: seq<seq<int>>, rnodes: seq<int>, e: int,
                     ptr: array<int>, cols: array<int>, r: int, ghost p0: int, ghost cols0: seq<int>, ghost before: seq<int>)
    requires Resolved(sm, m) && t == ElementTable(sm, m) && |rnodes| == sm.numNodes && 0 <= e < |t|
    requires ptr != cols && 0 <= r < ptr.Length && 0 <= p0 && |cols0| == cols.Length
    requires p0 + |before| + |ReducedSlots(rnodes, t[e])| <= cols.Length
    requires ptr[r] == p0 + |before|
    requires cols[..] == Splice(cols0, p0, before)
    modifies ptr, cols
    ensures ptr[..] == old(ptr[..])[r := p0 + |before| + |ReducedSlots(rnodes, t[e])|]
    ensures cols[..] == Splice(cols0, p0, before + ReducedSlots(rnodes, t[e]))
  {
    ghost var red := ReducedSlots(rnodes, t[e]);
    SpliceTwice(cols0, p0, before, red);
    ghost var mid := cols[..];
    WriteElement(sm, m, t, rnodes, e, ptr, cols, r);
    assert cols[..] == Splice(mid, p0 + |before|, red);
  }

  /** Writes the reduced slots of element e at the cursor ptr[r] and advances the cursor past them. */
  method WriteElement(sm: SlotMap, m: Mesh, ghost t: seq<seq<int>>, rnodes: seq<int>, e: int,
                      ptr: array<int>, cols: array<int>, r: int)
    requires Resolved(sm, m) && t == ElementTable(sm, m) && |rnodes| == sm.numNodes && 0 <= e < |t|
    requires ptr != cols && 0 <= r < ptr.Length && 0 <= ptr[r]
    requires ptr[r] + |ReducedSlots(rnodes, t[e])| <= cols.Length
    modifies ptr, cols
    ensures ptr[..] == old(ptr[..])[r := old(ptr[r]) + |ReducedSlots(rnodes, t[e])|]
    ensures cols[..] == Splice(old(cols[..]), old(ptr[r]), ReducedSlots(rnodes, t[e]))
  {
    var vals := ReduceElement(sm, m, rnodes, e);
    var row := ptr[r];
    WriteAt(cols, row, vals);
    ptr[r] := row + |vals|;
  }

  lemma {:induction false} GatheredPrefix(t: seq<seq<int>>, rnodes: seq<int>, elems: seq<int>, k: int)
    requires SlotsBelow(elems, |t|) && 0 <= k <= |elems|
    ensures |Gathered(t, rnodes, elems[..k])| <= |Gathered(t, rnodes, elems)|
    decreases |elems| - k
  {
    if k < |elems| {
      GatheredSnoc(t, rnodes, elems, k);
      GatheredPrefix(t, rnodes, elems, k + 1);
    } else {
      assert elems[..k] == elems;
    }
  }

  /**
    The fill pass of the reduced builder: slot by slot, every kept slot i,
    numbered r, gets its reduced slots written into row r.
  */
  method FillRows(sm: SlotMap, m: Mesh, ghost t: seq<seq<int>>, rnodes: seq<int>, nr: nat, nePtr: seq<int>, neCols: seq<int>,
                  ghost start: seq<int>, ghost data: seq<seq<int>>, ptr: array<int>, cols: array<int>)
    requires Resolved(sm, m) && t == ElementTable(sm, m) && |rnodes| == sm.numNodes && DenseNumbering(rnodes, nr)
    requires IsCsr(nePtr, neCols, sm.numNodes)
    requires forall i :: 0 <= i < sm.numNodes ==> SlotsBelow(Row(nePtr, neCols, i), |t|)
    requires |data| == nr
    requires forall r :: 0 <= r < nr ==>
               data[r] == Gathered(t, rnodes, Row(nePtr, neCols, Positions(rnodes, nr)[r]))
    requires |start| == nr + 1 && Layout(start, cols.Length)
    requires forall r :: 0 <= r < nr ==> start[r + 1] - start[r] == |data[r]|
    requires ptr != cols && ptr.Length == nr + 1 && forall r :: 0 <= r < nr ==> ptr[r] == start[r]
    modifies ptr, cols
    ensures forall r :: 0 <= r < nr ==> ptr[r] == start[r + 1] && cols[start[r]..start[r + 1]] == data[r]
  {
    ghost var q := Positions(rnodes, nr);
    for i := 0 to |rnodes|
      invariant RowsState(start, q, data, ptr[..], cols[..], i)
    {
      var node := rnodes[i];
      if node >= 0 {
        ghost var ptr0, cols0 := ptr[..], cols[..];
        assert q[node] == i && ptr[node] == start[node];
        assert neCols[nePtr[i]..nePtr[i + 1]] == Row(nePtr, neCols, i);
        assert data[node] == Gathered(t, rnodes, Row(nePtr, neCols, i));
        assert start[node + 1] <= cols.Length;
        FillRow(sm, m, t, rnodes, neCols[nePtr[i]..nePtr[i + 1]], ptr, cols, node);
        RowsStep(start, q, data, ptr0, cols0, ptr[..], cols[..], i, node);
      } else {
        forall r | 0 <= r < nr ensures q[r] != i {
          assert rnodes[q[r]] == r;
        }
      }
    }
  }

  /**
    The state of the fill pass after slots 0 .. i-1: the rows numbered for
    them are written and their cursors sit at their ends; the other cursors
    still sit at their starts.
  */
  ghost predicate RowsState(start: seq<int>, q: seq<int>, data: seq<seq<int>>, ptr: seq<int>, cols: seq<int>, i: int)
    requires |q| == |data| == |start| - 1 && |ptr| == |start| && Layout(start, |cols|)
  {
    && (forall r {:trigger q[r]} :: 0 <= r < |q| ==>
          (q[r] < i ==> ptr[r] == start[r + 1] && cols[start[r]..start[r + 1]] == data[r]))
    && (forall r {:trigger q[r]} :: 0 <= r < |q| ==> (q[r] >= i ==> ptr[r] == start[r]))
  }

  lemma RowsStep(start: seq<int>, q: seq<int>, data: seq<seq<int>>, ptr: seq<int>, cols: seq<int>,
                 ptr': seq<int>, cols': seq<int>, i: int, node: int)
    requires |q| == |data| == |start| - 1 && |ptr| == |ptr'| == |start| && Layout(start, |cols|)
    requires 0 <= node < |q| && q[node] == i && (forall r :: 0 <= r < |q| && r != node ==> q[r] != i)
    requires start[node + 1] - start[node] == |data[node]| && ptr[node] == start[node]
    requires RowsState(start, q, data, ptr, cols, i)
    requires ptr'[node] == ptr[node] + |data[node]|
    requires forall j :: 0 <= j < |ptr| && j != node ==> ptr'[j] == ptr[j]
    requires cols' == Splice(cols, ptr[node], data[node])
    ensures |cols'| == |cols| && RowsState(start, q, data, ptr', cols', i + 1)
  {
    RowsKept(start, cols, node, data[node], i, q);
  }

  /** Writing row node between its starts leaves every other row as it was. */
  lemma RowsKept(start: seq<int>, cols: seq<int>, node: int, v: seq<int>, i: int, q: seq<int>)
    requires Layout(start, |cols|) && 0 <= node < |start| - 1 && |q| == |start| - 1
    requires start[node + 1] - start[node] == |v|
    ensures forall r {:trigger q[r]} :: 0 <= r < |start| - 1 && r != node ==>
              Splice(cols, start[node], v)[start[r]..start[r + 1]] == cols[start[r]..start[r + 1]]
    ensures Splice(cols, start[node], v)[start[node]..start[node + 1]] == v
  {
    forall r | 0 <= r < |start| - 1 && r != node
      ensures Splice(cols, start[node], v)[start[r]..start[r + 1]] == cols[start[r]..start[r + 1]]
    {
      assert start[r] <= start[r + 1];
      if r < node {
        assert start[r + 1] <= start[node];
      } else {
        assert start[node + 1] <= start[r];
      }
      SpliceRange(cols, start[node], v, start[r], start[r + 1]);
    }
    SpliceRange(cols, start[node], v, start[node], start[node + 1]);
  }

  /** What the node -> element table gives the node -> node builders. */
  lemma NodeElementRows(t: seq<seq<int>>, n: nat, nePtr: seq<int>, neCols: seq<int>)
    requires RowsAre(nePtr, neCols, IncidenceSets(t, n))
    ensures IsCsr(nePtr, neCols, n)
    ensures forall i :: 0 <= i < n ==> SlotsBelow(Row(nePtr, neCols, i), |t|)
    ensures forall i, e :: 0 <= i < n ==>
              (e in Row(nePtr, neCols, i) <==> 0 <= e < |t| && i in t[e])
  {
    forall i, e | 0 <= i < n
      ensures e in Row(nePtr, neCols, i) <==> 0 <= e < |t| && i in t[e]
    {
      assert IncidenceSets(t, n)[i] == NodeElementSet(t, i);
    }
    forall i | 0 <= i < n
      ensures SlotsBelow(Row(nePtr, neCols, i), |t|)
    {
      var row := Row(nePtr, neCols, i);
      forall k | 0 <= k < |row| ensures 0 <= row[k] < |t| {
        assert row[k] in row;
      }
    }
  }

  /**
    Gathering the elements of slot i yields exactly the reduced neighbours of i,
    whatever their order and repeats.
  */
  lemma GatheredNeighbours(t: seq<seq<int>>, rnodes: seq<int>, elems: seq<int>, i: int)
    requires SlotsBelow(elems, |t|)
    requires forall e :: e in elems <==> 0 <= e < |t| && i in t[e]
    ensures forall x :: x in Gathered(t, rnodes, elems) <==> x in ReducedNeighbourSet(t, rnodes, i)
  {
    forall x | x in Gathered(t, rnodes, elems)
      ensures x in ReducedNeighbourSet(t, rnodes, i)
    {
      GatheredSound(t, rnodes, elems, x);
      var k :| 0 <= k < |elems| && x in ReducedSlots(rnodes, t[elems[k]]);
      ReducedSlotsSound(rnodes, t[elems[k]], x);
      var j :| j in t[elems[k]] && 0 <= j < |rnodes| && rnodes[j] == x && x >= 0;
      assert elems[k] in elems;
    }
    forall x | x in ReducedNeighbourSet(t, rnodes, i)
      ensures x in Gathered(t, rnodes, elems)
    {
      var e, j :| 0 <= e < |t| && j in t[e] && i in t[e]
                  && 0 <= j < |rnodes| && rnodes[j] >= 0 && rnodes[j] == x;
      assert e in elems;
      var k :| 0 <= k < |elems| && elems[k] == e;
      ReducedSlotsComplete(rnodes, t[e], j);
      GatheredComplete(t, rnodes, elems, k, x);
    }
  }

  /**
    TACSAssembler::computeLocalNodeToNodeCSR with a reduced node list: row r of
    the result lists, sorted and without repeats, the reduced numbers of the
    slots that share an element with the slot numbered r, leaving out r itself
    when nodiag is set.
  */
  method ReducedNodeToNodeCsr(sm: SlotMap, m: Mesh, rnodes: seq<int>, nr: nat, nodiag: bool)
    returns (rowp: seq<int>, cols: seq<int>)
    requires Resolved(sm, m) && |rnodes| == sm.numNodes && DenseNumbering(rnodes, nr)
    ensures RowsAre(rowp, cols, ReducedRows(ElementTable(sm, m), rnodes, nr, nodiag))
  {
    ghost var t := ElementTable(sm, m);
    var nePtr, neCols := NodeToElementCsr(sm, m);
    NodeElementRows(t, sm.numNodes, nePtr, neCols);
    var nodeCount := ElementCounts(sm, m, t, rnodes);
    var ptr := new int[nr + 1](_ => 0);
    EstimateRows(rnodes, nr, nodeCount, nePtr, neCols, ptr);
    ghost var q := Positions(rnodes, nr);
    ghost var data := seq(nr, r requires 0 <= r < nr => Gathered(t, rnodes, Row(nePtr, neCols, q[r])));
    ghost var counts := ptr[..];
    PrefixSum(ptr);
    ghost var start := ptr[..];
    EstimateLayout(t, rnodes, nr, nodeCount, nePtr, neCols, data, counts, start);
    var a := new int[ptr[nr]];
    FillRows(sm, m, t, rnodes, nr, nePtr, neCols, start, data, ptr, a);
    ShiftBack(ptr);
    assert ptr[..] == start;
    rowp, cols := SortAndUniquifyCsr(nr, ptr[..], a[..], nodiag);
    ReducedRowsAre(t, rnodes, nr, nodiag, nePtr, neCols, start, a[..], data, rowp, cols);
  }

  /** The estimates are the lengths of the rows to be written, and their prefix sums lay the rows out. */
  lemma EstimateLayout(t: seq<seq<int>>, rnodes: seq<int>, nr: nat, nodeCount: seq<int>,
                       nePtr: seq<int>, neCols: seq<int>, data: seq<seq<int>>, counts: seq<int>, start: seq<int>)
    requires DenseNumbering(rnodes, nr)
    requires IsCsr(nePtr, neCols, |rnodes|)
    requires forall i :: 0 <= i < |rnodes| ==> SlotsBelow(Row(nePtr, neCols, i), |t|)
    requires |nodeCount| == |t|
    requires forall e :: 0 <= e < |t| ==> nodeCount[e] == |ReducedSlots(rnodes, t[e])|
    requires |data| == nr
    requires forall r :: 0 <= r < nr ==>
               data[r] == Gathered(t, rnodes, Row(nePtr, neCols, Positions(rnodes, nr)[r]))
    requires |counts| == |start| == nr + 1 && counts[0] == 0 && start[0] == 0
    requires forall r :: 0 <= r < nr ==> counts[r + 1] == CountOver(nodeCount, Row(nePtr, neCols, Positions(rnodes, nr)[r]))
    requires forall k :: 0 <= k < nr ==> start[k + 1] == start[k] + counts[k + 1]
    ensures Layout(start, start[nr])
    ensures forall r :: 0 <= r < nr ==> start[r + 1] - start[r] == |data[r]|
  {
    var q := Positions(rnodes, nr);
    forall r | 0 <= r < nr ensures counts[r + 1] == |data[r]| {
      CountOverGathered(t, rnodes, nodeCount, Row(nePtr, neCols, q[r]));
    }
    forall k | 1 <= k < |start| ensures 0 <= counts[k] && start[k] == start[k - 1] + counts[k] {
      assert counts[k] == |data[k - 1]|;
    }
    PrefixLayout(counts, start);
  }

  lemma ReducedRowsAre(t: seq<seq<int>>, rnodes: seq<int>, nr: nat, nodiag: bool, nePtr: seq<int>, neCols: seq<int>,
                       start: seq<int>, a: seq<int>, data: seq<seq<int>>, rowp: seq<int>, cols: seq<int>)
    requires DenseNumbering(rnodes, nr)
    requires IsCsr(nePtr, neCols, |rnodes|)
    requires forall i :: 0 <= i < |rnodes| ==> SlotsBelow(Row(nePtr, neCols, i), |t|)
    requires forall i, e :: 0 <= i < |rnodes| ==>
               (e in Row(nePtr, neCols, i) <==> 0 <= e < |t| && i in t[e])
    requires |data| == nr
    requires forall r :: 0 <= r < nr ==>
               data[r] == Gathered(t, rnodes, Row(nePtr, neCols, Positions(rnodes, nr)[r]))
    requires IsCsr(start, a, nr) && forall r :: 0 <= r < nr ==> a[start[r]..start[r + 1]] == data[r]
    requires IsCsr(rowp, cols, nr)
    requires forall r :: 0 <= r < nr ==> StrictlyIncreasing(Row(rowp, cols, r))
    requires forall r, x :: 0 <= r < nr ==>
               (x in Row(rowp, cols, r) <==> x in Row(start, a, r) && !(nodiag && x == r))
    ensures RowsAre(rowp, cols, ReducedRows(t, rnodes, nr, nodiag))
  {
    var rows := ReducedRows(t, rnodes, nr, nodiag);
    var q := Positions(rnodes, nr);
    forall r | 0 <= r < nr
      ensures forall x :: x in Row(rowp, cols, r) <==> x in rows[r]
    {
      GatheredNeighbours(t, rnodes, Row(nePtr, neCols, q[r]), q[r]);
      assert Row(start, a, r) == data[r];
    }
  }

  /** With every slot numbered by itself, the reduced neighbours are the neighbours. */
  lemma IdentityNeighbours(t: seq<seq<int>>, n: nat, i: int)
    requires TableBelow(t, n)
    ensures ReducedNeighbourSet(t, Identity(n), i) == NeighbourSet(t, i)
  {
    var id := Identity(n);
    forall x | x in NeighbourSet(t, i) ensures x in ReducedNeighbourSet(t, id, i) {
      var e, j :| 0 <= e < |t| && j in t[e] && i in t[e] && j == x;
      assert SlotsBelow(t[e], n);
      assert 0 <= j < |id| && id[j] == j;
    }
  }

  /**
    TACSAssembler::computeLocalNodeToNodeCSR over all local slots (lines
    1341-1497): row i lists, sorted and without repeats, every slot that shares
    an element with i, leaving out i itself when nodiag is set.  It is built
    here by the reduced builder (lines 1519-1706) with the identity numbering.
    The source's full version sizes its rows differently (a per-element count
    with a separate branch for dependent nodes), but both sort and remove
    repeats, so the table they return is the same; the ensures states that
    table, and the sizing is not modelled.
  */
  method NodeToNodeCsr(sm: SlotMap, m: Mesh, nodiag: bool) returns (rowp: seq<int>, cols: seq<int>)
    requires Resolved(sm, m)
    ensures RowsAre(rowp, cols, NeighbourRows(ElementTable(sm, m), sm.numNodes, nodiag))
  {
    var n := sm.numNodes;
    var id := Identity(n);
    PermutationIsDense(id, n);
    rowp, cols := ReducedNodeToNodeCsr(sm, m, id, n, nodiag);
    IdentityRows(ElementTable(sm, m), n, nodiag);
  }

  /** Numbered by the identity, the reduced rows are the rows of the full graph. */
  lemma IdentityRows(t: seq<seq<int>>, n: nat, nodiag: bool)
    requires TableBelow(t, n)
    ensures DenseNumbering(Identity(n), n)
    ensures ReducedRows(t, Identity(n), n, nodiag) == NeighbourRows(t, n, nodiag)
  {
    var id := Identity(n);
    PermutationIsDense(id, n);
    var reduced := ReducedRows(t, id, n, nodiag);
    var full := NeighbourRows(t, n, nodiag);
    forall i | 0 <= i < n ensures reduced[i] == full[i] {
      assert id[Positions(id, n)[i]] == i;
      IdentityNeighbours(t, n, i);
    }
  }

  /** Two slots are neighbours exactly when some element touches both. */
  lemma NeighboursShareElement(t: seq<seq<int>>, i: int, j: int)
    ensures j in NeighbourSet(t, i) <==> NodeElementSet(t, i) * NodeElementSet(t, j) != {}
  {
    if j in NeighbourSet(t, i) {
      var e, k :| 0 <= e < |t| && k in t[e] && i in t[e] && k == j;
      assert e in NodeElementSet(t, i) * NodeElementSet(t, j);
    }
    if NodeElementSet(t, i) * NodeElementSet(t, j) != {} {
      var e :| e in NodeElementSet(t, i) * NodeElementSet(t, j);
      assert j in t[e] && i in t[e];
    }
  }

  /** The node -> node graph is symmetric. */
  lemma NeighbourSymmetric(t: seq<seq<int>>, i: int, j: int)
    ensures j in NeighbourSet(t, i) <==> i in NeighbourSet(t, j)
  {
    NeighboursShareElement(t, i, j);
    NeighboursShareElement(t, j, i);
    assert NodeElementSet(t, i) * NodeElementSet(t, j) == NodeElementSet(t, j) * NodeElementSet(t, i);
  }

  /** A slot is its own neighbour exactly when some element touches it. */
  lemma SelfNeighbour(t: seq<seq<int>>, i: int)
    ensures i in NeighbourSet(t, i) <==> NodeElementSet(t, i) != {}
  {
    NeighboursShareElement(t, i, i);
    assert NodeElementSet(t, i) * NodeElementSet(t, i) == NodeElementSet(t, i);
  }

  /**
    The reduced graph is the graph on the kept slots, renamed: for kept slots
    i and j, rnodes[j] is a reduced neighbour of i exactly when j is a
    neighbour of i, and every reduced neighbour is a number below nr.
  */
  lemma ReducedIsInduced(t: seq<seq<int>>, rnodes: seq<int>, nr: nat, i: int, j: int)
    requires DenseNumbering(rnodes, nr)
    requires 0 <= j < |rnodes| && rnodes[j] >= 0
    ensures rnodes[j] in ReducedNeighbourSet(t, rnodes, i) <==> j in NeighbourSet(t, i)
    ensures forall x :: x in ReducedNeighbourSet(t, rnodes, i) ==> 0 <= x < nr
  {
    if rnodes[j] in ReducedNeighbourSet(t, rnodes, i) {
      var e, k :| 0 <= e < |t| && k in t[e] && i in t[e]
                  && 0 <= k < |rnodes| && rnodes[k] >= 0 && rnodes[k] == rnodes[j];
      assert k == j;
    }
  }

  /** The reduced graph is symmetric, with or without its diagonal. */
  lemma ReducedSymmetric(t: seq<seq<int>>, rnodes: seq<int>, nr: nat, r: int, s: int, nodiag: bool)
    requires DenseNumbering(rnodes, nr)
    requires 0 <= r < nr && 0 <= s < nr
    ensures s in ReducedRowSet(t, rnodes, nr, r, nodiag) <==> r in ReducedRowSet(t, rnodes, nr, s, nodiag)
  {
    var q := Positions(rnodes, nr);
    ReducedIsInduced(t, rnodes, nr, q[r], q[s]);
    ReducedIsInduced(t, rnodes, nr, q[s], q[r]);
    NeighbourSymmetric(t, q[r], q[s]);
  }
}
