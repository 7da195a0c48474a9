/** sort.Strings: Go sorts a slice of strings in place into ascending
    byte-wise order. Go's own algorithm is not modelled; an insertion sort
    with the same outcome stands in for it. */
module Sorting {
  import opened Strings

  /** Each element of s[lo..hi] is no greater than its successor. */
  ghost predicate Ascending(s: seq<seq<byte>>, lo: int, hi: int)
    requires 0 <= lo <= hi <= |s|
  {
    forall k :: lo < k < hi ==> LessEq(s[k-1], s[k])
  }

  method SortStrings(a: array<seq<byte>>)
    modifies a
    ensures Sorted(a[..])
    ensures multiset(a[..]) == old(multiset(a[..]))
  {
    var i := 0;
    while i < a.Length
      invariant 0 <= i <= a.Length
      invariant Ascending(a[..], 0, i)
      invariant multiset(a[..]) == old(multiset(a[..]))
    {
      Insert(a, i);
      i := i + 1;
    }
    AdjacentSorted(a[..]);
  }

  /** Moves a[i] down into the ascending run a[..i]. */
  method Insert(a: array<seq<byte>>, i: nat)
    requires i < a.Length && Ascending(a[..], 0, i)
    modifies a
    ensures Ascending(a[..], 0, i + 1)
    ensures multiset(a[..]) == old(multiset(a[..]))
  {
    var j := i;
    while j > 0 && !LessEq(a[j-1], a[j])
      invariant 0 <= j <= i
      invariant Ascending(a[..], 0, j)
      invariant Ascending(a[..], j, i + 1)
      invariant 0 < j < i ==> LessEq(a[j-1], a[j+1])
      invariant multiset(a[..]) == old(multiset(a[..]))
    {
      LessEqTotal(a[j-1], a[j]);
      Swap(a, j);
      j := j - 1;
    }
  }

  /** Exchanges a[j-1] and a[j]. */
  method Swap(a: array<seq<byte>>, j: nat)
    requires 0 < j < a.Length
    modifies a
    ensures a[..] == old(a[..])[j-1 := old(a[j])][j := old(a[j-1])]
    ensures multiset(a[..]) == old(multiset(a[..]))
  {
    a[j-1], a[j] := a[j], a[j-1];
  }
}
