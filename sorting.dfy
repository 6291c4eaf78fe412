/** The two calls into Go's `sort` package that the hash ring makes:
    `sort.Slice` with `less(i, j) = s[i] < s[j]` over a `[]uint32`, and
    `sort.Search(n, f)` with the monotone predicate `f(i) = s[i] >= h`. */
module Sorting {
  import opened GoTypes

  predicate Sorted(s: seq<uint32>) {
    forall i, j | 0 <= i < j < |s| :: s[i] <= s[j]
  }

  /** Puts `x` into a sorted sequence in front of the first element not below it. */
  function Insert(x: uint32, s: seq<uint32>): (r: seq<uint32>)
    requires Sorted(s)
    ensures Sorted(r) && |r| == |s| + 1
    ensures multiset(r) == multiset(s) + multiset{x}
    decreases |s|
  {
    if s == [] || x <= s[0] then
      [x] + s
    else
      var rest := Insert(x, s[1..]);
      assert s == [s[0]] + s[1..];
      LowerBoundOfPermutation(s[0], rest, s[1..] + [x]);
      [s[0]] + rest
  }

  /** A bound on every element of `t` carries over to any rearrangement of `t`. */
  lemma LowerBoundOfPermutation(b: uint32, r: seq<uint32>, t: seq<uint32>)
    requires multiset(r) == multiset(t)
    requires forall k | 0 <= k < |t| :: b <= t[k]
    ensures forall k | 0 <= k < |r| :: b <= r[k]
  {
    forall k | 0 <= k < |r| ensures b <= r[k] {
      assert r[k] in multiset(t);
    }
  }

  /** What `sort.Slice` leaves in the slice: its elements in ascending order. */
  function SortAsc(s: seq<uint32>): (r: seq<uint32>)
    ensures Sorted(r) && |r| == |s|
    ensures multiset(r) == multiset(s)
    decreases |s|
  {
    if s == [] then
      []
    else
      assert s == s[..|s| - 1] + [s[|s| - 1]];
      Insert(s[|s| - 1], SortAsc(s[..|s| - 1]))
  }

  /** A sorted arrangement of a multiset is unique, so any correct sorting
      algorithm (stable or not) leaves the same slice of `uint32` values. */
  lemma {:induction false} SortedPermutationUnique(a: seq<uint32>, b: seq<uint32>)
    requires Sorted(a) && Sorted(b)
    requires multiset(a) == multiset(b)
    ensures a == b
    decreases |a|
  {
    if a == [] {
      assert |b| == |multiset(b)| == 0;
    } else {
      assert a[0] in multiset(a);
      assert b != [];
      HeadIsMinimum(b, a[0]);
      assert b[0] in multiset(b);
      HeadIsMinimum(a, b[0]);
      assert a == [a[0]] + a[1..];
      assert b == [b[0]] + b[1..];
      assert multiset(a) == multiset{a[0]} + multiset(a[1..]);
      assert multiset(b) == multiset{b[0]} + multiset(b[1..]);
      assert a[0] == b[0];
      assert multiset(a[1..]) == multiset(a) - multiset{a[0]};
      assert multiset(b[1..]) == multiset(b) - multiset{b[0]};
      SortedPermutationUnique(a[1..], b[1..]);
    }
  }

  /** The first element of a sorted sequence is its least element. */
  lemma HeadIsMinimum(s: seq<uint32>, x: uint32)
    requires Sorted(s) && x in multiset(s)
    ensures s != [] && s[0] <= x
  {
    var i :| 0 <= i < |s| && s[i] == x;
  }

  /** Sorting a sequence that is already sorted changes nothing. */
  lemma SortAscOfSorted(s: seq<uint32>)
    requires Sorted(s)
    ensures SortAsc(s) == s
  {
    SortedPermutationUnique(SortAsc(s), s);
  }

  /** `sort.Search(len(s), func(i) { return s[i] >= h })`: the least index
      whose element is at least `h`, or `|s|` when there is none. */
  function FirstAtLeast(s: seq<uint32>, h: uint32): (r: nat)
    ensures r <= |s|
    ensures forall k | 0 <= k < r :: s[k] < h
    ensures r < |s| ==> s[r] >= h
    decreases |s|
  {
    if s == [] || s[0] >= h then 0 else 1 + FirstAtLeast(s[1..], h)
  }

  /** The bisection loop of `sort.Search`, specialised to a sorted slice. */
  method Search(s: seq<uint32>, h: uint32) returns (idx: nat)
    requires Sorted(s)
    ensures idx == FirstAtLeast(s, h)
  {
    var i, j := 0, |s|;
    while i < j
      invariant 0 <= i <= j <= |s|
      invariant forall k | 0 <= k < i :: s[k] < h
      invariant forall k | j <= k < |s| :: s[k] >= h
      decreases j - i
    {
      var mid := (i + j) / 2;
      if s[mid] < h {
        i := mid + 1;
      } else {
        j := mid;
      }
    }
    idx := i;
    FirstAtLeastUnique(s, h, idx);
  }

  /** The three properties of FirstAtLeast pin down the index. */
  lemma FirstAtLeastUnique(s: seq<uint32>, h: uint32, i: nat)
    requires i <= |s|
    requires forall k | 0 <= k < i :: s[k] < h
    requires i < |s| ==> s[i] >= h
    ensures i == FirstAtLeast(s, h)
  {
  }
}
