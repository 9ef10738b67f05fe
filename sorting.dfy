/**
  Sorted integer lists and permutations.

  The assembler relies on three helpers whose code is not part of this model:
  FElibrary::uniqueSort (sort an integer list and drop duplicates), the C library's
  bsearch (find an entry of a sorted list) and the permutation arrays produced by the
  ordering libraries.  They are specified here by their contracts.
*/
module Sorting {

  predicate StrictlyIncreasing(s: seq<int>) {
    forall i, j :: 0 <= i < j < |s| ==> s[i] < s[j]
  }

  /** Insert x into a strictly increasing list, keeping it strictly increasing. */
  function InsertUnique(s: seq<int>, x: int): (r: seq<int>)
    requires StrictlyIncreasing(s)
    ensures StrictlyIncreasing(r)
    ensures forall y :: y in r <==> y in s || y == x
  {
    if s == [] then [x]
    else if x < s[0] then [x] + s
    else if x == s[0] then s
    else
      var rest := InsertUnique(s[1..], x);
      assert forall k :: 0 <= k < |rest| ==> rest[k] in s[1..] || rest[k] == x;
      [s[0]] + rest
  }

  /** FElibrary::uniqueSort: the sorted, duplicate-free list of the entries of s. */
  function UniqueSort(s: seq<int>): (r: seq<int>)
    ensures StrictlyIncreasing(r)
    ensures forall y :: y in r <==> y in s
    decreases |s|
  {
    if s == [] then [] else InsertUnique(UniqueSort(s[..|s| - 1]), s[|s| - 1])
  }

  /** A strictly increasing list is determined by the set of its entries. */
  lemma {:induction false} StrictlyIncreasingUnique(a: seq<int>, b: seq<int>)
    requires StrictlyIncreasing(a) && StrictlyIncreasing(b)
    requires forall y :: y in a <==> y in b
    ensures a == b
    decreases |a|
  {
    if a == [] {
      NonEmptyHasHead(b);
    } else {
      // both heads are the least element of the common set
      assert a[0] in a;
      var m :| 0 <= m < |b| && b[m] == a[0];
      assert b[0] in b;
      var k :| 0 <= k < |a| && a[k] == b[0];
      assert a[0] <= a[k] && b[0] <= b[m];
      forall y ensures y in a[1..] <==> y in b[1..] {
        if y in a[1..] {
          var i :| 1 <= i < |a| && a[i] == y;
          assert y in a;
          var j :| 0 <= j < |b| && b[j] == y;
          assert j != 0;
          assert y == b[1..][j - 1];
        }
        if y in b[1..] {
          var j :| 1 <= j < |b| && b[j] == y;
          assert y in b;
          var i :| 0 <= i < |a| && a[i] == y;
          assert i != 0;
          assert y == a[1..][i - 1];
        }
      }
      StrictlyIncreasingUnique(a[1..], b[1..]);
      assert a == [a[0]] + a[1..];
      assert b == [b[0]] + b[1..];
    }
  }

  lemma NonEmptyHasHead(s: seq<int>)
    ensures s != [] ==> s[0] in s
  {
  }

  /**
    bsearch over a strictly increasing list: the index of x, or -1 when x is not
    listed (the NULL result of bsearch).
  */
  function BinarySearch(s: seq<int>, x: int): (r: int)
    requires StrictlyIncreasing(s)
    ensures -1 <= r < |s|
    ensures r >= 0 ==> s[r] == x
    ensures r < 0 <==> x !in s
    decreases |s|
  {
    if |s| == 0 then -1
    else
      var mid := |s| / 2;
      if x < s[mid] then
        BinarySearch(s[..mid], x)
      else if s[mid] < x then
        var k := BinarySearch(s[mid + 1..], x);
        if k < 0 then -1 else mid + 1 + k
      else
        mid
  }

  /** In a strictly increasing list the search finds each entry at its own position. */
  lemma BinarySearchAt(s: seq<int>, k: int)
    requires StrictlyIncreasing(s) && 0 <= k < |s|
    ensures BinarySearch(s, s[k]) == k
  {
    assert s[k] in s;
  }

  /** p holds every value of [0, n) exactly once (the output of an ordering). */
  predicate IsPermutation(p: seq<int>, n: int) {
    && |p| == n
    && (forall k :: 0 <= k < |p| ==> 0 <= p[k] < n)
    && (forall j, k :: 0 <= j < k < |p| ==> p[j] != p[k])
  }

  function Identity(n: nat): (r: seq<int>)
    ensures IsPermutation(r, n)
    ensures forall k :: 0 <= k < n ==> r[k] == k
  {
    seq(n, k => k)
  }

  lemma {:induction false} ImageSize(p: seq<int>, n: nat)
    requires n <= |p|
    requires forall j, k :: 0 <= j < k < n ==> p[j] != p[k]
    ensures |set k | 0 <= k < n :: p[k]| == n
  {
    if n > 0 {
      ImageSize(p, n - 1);
      var smaller := set k | 0 <= k < n - 1 :: p[k];
      assert (set k | 0 <= k < n :: p[k]) == smaller + {p[n - 1]};
      assert p[n - 1] !in smaller;
    }
  }

  lemma {:induction false} SubsetSize(a: set<int>, b: set<int>)
    requires a <= b
    ensures |a| <= |b|
  {
    assert b == a + (b - a);
  }

  /** A permutation of [0, n) takes every value of [0, n). */
  lemma PermutationOnto(p: seq<int>, n: int)
    requires IsPermutation(p, n)
    ensures forall x :: 0 <= x < n ==> x in p
  {
    var id := Identity(n);
    var image := set k | 0 <= k < n :: p[k];
    var range := set k | 0 <= k < n :: id[k];
    ImageSize(p, n);
    ImageSize(id, n);
    forall y | y in image ensures y in range {
      var k :| 0 <= k < n && p[k] == y;
      assert y == id[y];
    }
    forall x | 0 <= x < n ensures x in p {
      assert x == id[x];
      if x !in image {
        SubsetSize(image, range - {x});
      }
      var k :| 0 <= k < n && p[k] == x;
    }
  }

  /** The inverse of a permutation: Inverse(p)[p[k]] == k. */
  function Inverse(p: seq<int>, n: int): (q: seq<int>)
    requires IsPermutation(p, n)
    ensures IsPermutation(q, n)
    ensures forall k :: 0 <= k < n ==> q[p[k]] == k && p[q[k]] == k
  {
    PermutationOnto(p, n);
    var q := seq(n, x requires 0 <= x < n => IndexOf(p, x));
    assert forall k :: 0 <= k < n ==> q[p[k]] == k by {
      forall k | 0 <= k < n ensures q[p[k]] == k {
        var j := IndexOf(p, p[k]);
        assert p[j] == p[k];
      }
    }
    q
  }

  /** A sequence that undoes p is p's inverse. */
  lemma InverseUnique(p: seq<int>, n: int, q: seq<int>)
    requires IsPermutation(p, n) && |q| == n
    requires forall k :: 0 <= k < n ==> q[p[k]] == k
    ensures q == Inverse(p, n)
  {
    PermutationOnto(p, n);
    var r := Inverse(p, n);
    forall x | 0 <= x < n ensures q[x] == r[x] {
      assert x in p;
      var k :| 0 <= k < n && p[k] == x;
    }
  }

  /** Position of the first occurrence of x in s. */
  function IndexOf(s: seq<int>, x: int): (k: int)
    requires x in s
    ensures 0 <= k < |s| && s[k] == x
    ensures forall j :: 0 <= j < k ==> s[j] != x
  {
    if s[0] == x then 0 else 1 + IndexOf(s[1..], x)
  }

  /**
    rnodes numbers some of its positions densely: the entries that are not
    negative are distinct and are exactly 0 .. nr-1.
  */
  predicate DenseNumbering(rnodes: seq<int>, nr: int) {
    && (forall j :: 0 <= j < |rnodes| ==> rnodes[j] < nr)
    && (forall j, k :: 0 <= j < k < |rnodes| && 0 <= rnodes[j] ==> rnodes[j] != rnodes[k])
    && (forall r :: 0 <= r < nr ==> r in rnodes)
  }

  /** The position numbered r, for every number r of a dense numbering. */
  function Positions(rnodes: seq<int>, nr: nat): (q: seq<int>)
    requires DenseNumbering(rnodes, nr)
    ensures |q| == nr
    ensures forall r :: 0 <= r < nr ==> 0 <= q[r] < |rnodes| && rnodes[q[r]] == r
    ensures forall j :: 0 <= j < |rnodes| && 0 <= rnodes[j] ==> q[rnodes[j]] == j
  {
    var q := seq(nr, r requires 0 <= r < nr && DenseNumbering(rnodes, nr) => IndexOf(rnodes, r));
    forall j | 0 <= j < |rnodes| && 0 <= rnodes[j]
      ensures q[rnodes[j]] == j
    {
      var k := q[rnodes[j]];
      assert rnodes[k] == rnodes[j];
    }
    q
  }

  /** A permutation numbers all of its positions densely. */
  lemma PermutationIsDense(p: seq<int>, n: nat)
    requires IsPermutation(p, n)
    ensures DenseNumbering(p, n)
  {
    PermutationOnto(p, n);
  }
}
