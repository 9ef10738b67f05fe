/**
  Compressed sparse row tables and the array passes the CSR builders share:
  the prefix sum over row counts, the shift that turns insertion cursors back
  into row starts, and the per-row sort-and-uniquify step.
*/
module Csr {
  import opened Sorting

  /** rowp is a row pointer array of n rows over cols: it starts at 0, ends at |cols| and never decreases. */
  ghost predicate IsCsr(rowp: seq<int>, cols: seq<int>, n: nat) {
    && |rowp| == n + 1
    && rowp[0] == 0
    && rowp[n] == |cols|
    && forall i, j :: 0 <= i <= j <= n ==> rowp[i] <= rowp[j]
  }

  /** The column indices of row i. */
  function Row(rowp: seq<int>, cols: seq<int>, i: int): seq<int>
    requires 0 <= i < |rowp| - 1 && IsCsr(rowp, cols, |rowp| - 1)
  {
    cols[rowp[i]..rowp[i + 1]]
  }

  /** Row i of the table is sorted, duplicate-free and holds exactly the set rows[i]. */
  ghost predicate RowsAre(rowp: seq<int>, cols: seq<int>, rows: seq<set<int>>) {
    && IsCsr(rowp, cols, |rows|)
    && forall i :: 0 <= i < |rows| ==>
         && StrictlyIncreasing(Row(rowp, cols, i))
         && forall x :: x in Row(rowp, cols, i) <==> x in rows[i]
  }

  /** The members of a finite set in increasing order. */
  ghost function SortedOf(s: set<int>): (r: seq<int>)
    ensures StrictlyIncreasing(r)
    ensures forall x :: x in r <==> x in s
    decreases |s|
  {
    if !exists y :: y in s then []
    else
      var x :| x in s;
      InsertUnique(SortedOf(s - {x}), x)
  }

  /** The columns of the table whose row i lists rows[i] in increasing order. */
  ghost function CsrCols(rows: seq<set<int>>): seq<int>
  {
    if rows == [] then [] else CsrCols(rows[..|rows| - 1]) + SortedOf(rows[|rows| - 1])
  }

  /** The row pointers of that table. */
  ghost function CsrPtr(rows: seq<set<int>>): (rowp: seq<int>)
    ensures |rowp| == |rows| + 1
  {
    if rows == [] then [0] else CsrPtr(rows[..|rows| - 1]) + [|CsrCols(rows)|]
  }

  /** The canonical table lists the rows. */
  lemma {:induction false} CanonicalRows(rows: seq<set<int>>)
    ensures RowsAre(CsrPtr(rows), CsrCols(rows), rows)
  {
    if rows == [] {
      assert IsCsr([0], [], 0);
    } else {
      var n := |rows|;
      var pre := rows[..n - 1];
      CanonicalRows(pre);
      AppendRow(CsrPtr(pre), CsrCols(pre), pre, SortedOf(rows[n - 1]), rows[n - 1]);
      assert rows == pre + [rows[n - 1]];
    }
  }

  /** A table extended by one sorted row lists one more row. */
  lemma AppendRow(p: seq<int>, c: seq<int>, pre: seq<set<int>>, row: seq<int>, s: set<int>)
    requires RowsAre(p, c, pre) && StrictlyIncreasing(row) && forall x :: x in row <==> x in s
    ensures RowsAre(p + [|c| + |row|], c + row, pre + [s])
  {
    var n := |pre| + 1;
    var rowp, cols, rows := p + [|c| + |row|], c + row, pre + [s];
    assert IsCsr(rowp, cols, n) by {
      forall i, j | 0 <= i <= j <= n ensures rowp[i] <= rowp[j] {
        if j < n {
          assert rowp[i] == p[i] && rowp[j] == p[j];
        } else if i < n {
          assert rowp[i] == p[i] <= p[n - 1];
        }
      }
    }
    forall i | 0 <= i < n
      ensures Row(rowp, cols, i) == if i < n - 1 then Row(p, c, i) else row
    {
      if i < n - 1 {
        assert p[i + 1] <= p[n - 1];
        assert cols[p[i]..p[i + 1]] == c[p[i]..p[i + 1]];
      } else {
        assert cols[|c|..|c| + |row|] == row;
      }
    }
    assert forall i :: 0 <= i < n - 1 ==> rows[i] == pre[i];
  }

  /** A table that lists the rows is the canonical one: sorted rows leave no freedom. */
  lemma {:induction false} RowsDetermineCsr(rowp: seq<int>, cols: seq<int>, rows: seq<set<int>>)
    requires RowsAre(rowp, cols, rows)
    ensures rowp == CsrPtr(rows) && cols == CsrCols(rows)
  {
    var n := |rows|;
    if n == 0 {
      assert rowp == [0] && cols == [];
    } else {
      PrefixTable(rowp, cols, rows);
      LastRow(rowp, cols, rows);
      RowsDetermineCsr(rowp[..n], cols[..rowp[n - 1]], rows[..n - 1]);
    }
  }

  /** Without its last row, a table lists the other rows. */
  lemma PrefixTable(rowp: seq<int>, cols: seq<int>, rows: seq<set<int>>)
    requires RowsAre(rowp, cols, rows) && |rows| > 0
    ensures RowsAre(rowp[..|rows|], cols[..rowp[|rows| - 1]], rows[..|rows| - 1])
  {
    var n := |rows|;
    var k := rowp[n - 1];
    var p, c := rowp[..n], cols[..k];
    assert 0 <= k <= rowp[n] == |cols|;
    assert IsCsr(p, c, n - 1);
    forall i | 0 <= i < n - 1
      ensures Row(p, c, i) == Row(rowp, cols, i) && rows[..n - 1][i] == rows[i]
    {
      assert rowp[i] <= rowp[i + 1] <= k;
      assert c[rowp[i]..rowp[i + 1]] == cols[rowp[i]..rowp[i + 1]];
    }
  }

  /** The last row of a table is the sorted last set, and it ends the table. */
  lemma LastRow(rowp: seq<int>, cols: seq<int>, rows: seq<set<int>>)
    requires RowsAre(rowp, cols, rows) && |rows| > 0
    ensures cols == cols[..rowp[|rows| - 1]] + SortedOf(rows[|rows| - 1])
    ensures rowp == rowp[..|rows|] + [|cols|]
  {
    var n := |rows|;
    var k := rowp[n - 1];
    RowIsSorted(rowp, cols, rows, n - 1);
    assert 0 <= k <= rowp[n] == |cols|;
    SplitTail(cols, k, SortedOf(rows[n - 1]));
    SplitLast(rowp);
  }

  /** A sequence is its first k entries followed by the rest. */
  lemma SplitTail(a: seq<int>, k: int, tail: seq<int>)
    requires 0 <= k <= |a| && a[k..|a|] == tail
    ensures a == a[..k] + tail
  {
    assert a == a[..k] + a[k..];
  }

  /** A non-empty sequence is its front followed by its last entry. */
  lemma SplitLast(a: seq<int>)
    requires |a| > 0
    ensures a == a[..|a| - 1] + [a[|a| - 1]]
  {
  }

  /** Each row of a table is its set in increasing order. */
  lemma RowIsSorted(rowp: seq<int>, cols: seq<int>, rows: seq<set<int>>, i: int)
    requires RowsAre(rowp, cols, rows) && 0 <= i < |rows|
    ensures Row(rowp, cols, i) == SortedOf(rows[i])
  {
    StrictlyIncreasingUnique(Row(rowp, cols, i), SortedOf(rows[i]));
  }

  /** A sequence whose neighbouring entries never decrease never decreases at all. */
  lemma {:induction false} StepsMonotone(a: seq<int>, i: int, j: int)
    requires forall k :: 0 <= k < |a| - 1 ==> a[k] <= a[k + 1]
    requires 0 <= i <= j < |a|
    ensures a[i] <= a[j]
    decreases j - i
  {
    if i < j {
      StepsMonotone(a, i, j - 1);
    }
  }

  /** s with every copy of x removed. */
  function Remove(s: seq<int>, x: int): (r: seq<int>)
    ensures forall y :: y in r <==> y in s && y != x
  {
    if s == [] then []
    else if s[|s| - 1] == x then Remove(s[..|s| - 1], x)
    else
      assert forall y :: y in s <==> y in s[..|s| - 1] || y == s[|s| - 1] by {
        assert s == s[..|s| - 1] + [s[|s| - 1]];
      }
      Remove(s[..|s| - 1], x) + [s[|s| - 1]]
  }

  /** Row i after sorting and uniquifying, without the diagonal entry i when nodiag is set. */
  function TidyRow(row: seq<int>, i: int, nodiag: bool): (r: seq<int>)
    ensures StrictlyIncreasing(r)
    ensures forall x :: x in r <==> x in row && !(nodiag && x == i)
  {
    UniqueSort(if nodiag then Remove(row, i) else row)
  }

  /**
    matutils::SortAndUniquifyCSR: every row sorted ascending with duplicates
    removed, and the diagonal dropped when nodiag is set.
  */
  method SortAndUniquifyCsr(n: nat, rowp: seq<int>, cols: seq<int>, nodiag: bool)
    returns (newRowp: seq<int>, newCols: seq<int>)
    requires IsCsr(rowp, cols, n)
    ensures IsCsr(newRowp, newCols, n)
    ensures forall i :: 0 <= i < n ==> StrictlyIncreasing(Row(newRowp, newCols, i))
    ensures forall i, x :: 0 <= i < n ==>
              (x in Row(newRowp, newCols, i) <==> x in Row(rowp, cols, i) && !(nodiag && x == i))
  {
    newRowp := [0];
    newCols := [];
    for i := 0 to n
      invariant |newRowp| == i + 1 && newRowp[0] == 0 && newRowp[i] == |newCols|
      invariant forall a, b :: 0 <= a <= b <= i ==> newRowp[a] <= newRowp[b]
      invariant forall r :: 0 <= r < i ==>
                  newCols[newRowp[r]..newRowp[r + 1]] == TidyRow(Row(rowp, cols, r), r, nodiag)
    {
      var row := TidyRow(cols[rowp[i]..rowp[i + 1]], i, nodiag);
      ghost var prev := newCols;
      newCols := newCols + row;
      newRowp := newRowp + [|newCols|];
      forall r | 0 <= r < i
        ensures newCols[newRowp[r]..newRowp[r + 1]] == TidyRow(Row(rowp, cols, r), r, nodiag)
      {
        assert newCols[newRowp[r]..newRowp[r + 1]] == prev[newRowp[r]..newRowp[r + 1]];
      }
      assert newCols[newRowp[i]..newRowp[i + 1]] == row;
    }
  }

  /** Turns per-row counts held in a[1..] into row starts: a[k+1] becomes a[k] + the count of row k. */
  method PrefixSum(a: array<int>)
    requires a.Length >= 1
    modifies a
    ensures a[0] == old(a[0])
    ensures forall k :: 0 <= k < a.Length - 1 ==> a[k + 1] == a[k] + old(a[k + 1])
  {
    for i := 0 to a.Length - 1
      invariant a[0] == old(a[0])
      invariant forall k :: 0 <= k < i ==> a[k + 1] == a[k] + old(a[k + 1])
      invariant forall k :: i < k < a.Length ==> a[k] == old(a[k])
    {
      a[i + 1] := a[i + 1] + a[i];
    }
  }

  /** After a fill pass has left a[k] at the end of row k, moves every cursor up one place and restarts row 0 at 0. */
  method ShiftBack(a: array<int>)
    requires a.Length >= 1
    modifies a
    ensures a[0] == 0
    ensures forall k :: 0 < k < a.Length ==> a[k] == old(a[k - 1])
  {
    var i := a.Length - 1;
    while i > 0
      invariant 0 <= i < a.Length
      invariant forall k :: 0 <= k <= i ==> a[k] == old(a[k])
      invariant forall k :: i < k < a.Length ==> a[k] == old(a[k - 1])
    {
      a[i] := a[i - 1];
      i := i - 1;
    }
    a[0] := 0;
  }
}
