/**
  The in-place sort of the release list into descending order. The source
  hands the list to the library sort through the sortSemVer comparator; the
  model sorts by the same effect, exchanging elements only through Swap.
*/
module SortSemVer {
  import opened SemVer

  /** Every element is not below any element after it. */
  ghost predicate Descending(s: seq<Version>) {
    forall i, j :: 0 <= i < j < |s| ==> AtLeast(s[i], s[j])
  }

  /** Every element is strictly above every element after it. */
  ghost predicate StrictlyDescending(s: seq<Version>) {
    forall i, j :: 0 <= i < j < |s| ==> LessThan(s[j], s[i])
  }

  /** A list is descending exactly when the comparator holds of every ordered pair of positions. */
  lemma DescendingByComparator(s: seq<Version>)
    ensures Descending(s) <==> forall i, j :: 0 <= i < j < |s| ==> Less(s, i, j)
  {
    if Descending(s) {
      forall i, j | 0 <= i < j < |s| ensures Less(s, i, j) {
        assert AtLeast(s[i], s[j]);
      }
    }
    if forall i, j :: 0 <= i < j < |s| ==> Less(s, i, j) {
      forall i, j | 0 <= i < j < |s| ensures AtLeast(s[i], s[j]) {
        assert Less(s, i, j);
      }
    }
  }

  /** sortSemVer.Swap: exchange two elements in place. */
  method Swap(a: array<Version>, i: nat, j: nat)
    requires i < a.Length && j < a.Length
    modifies a
    ensures a[..] == old(a[..])[i := old(a[j])][j := old(a[i])]
    ensures multiset(a[..]) == multiset(old(a[..]))
  {
    a[i], a[j] := a[j], a[i];
  }

  /** The position of a largest element of a[lo..]. */
  method IndexOfMax(a: array<Version>, lo: nat) returns (k: nat)
    requires lo < a.Length
    ensures lo <= k < a.Length
    ensures forall m :: lo <= m < a.Length ==> AtLeast(a[k], a[m])
  {
    k := lo;
    var m := lo + 1;
    while m < a.Length
      invariant lo <= k < m <= a.Length
      invariant forall p :: lo <= p < m ==> AtLeast(a[k], a[p])
    {
      if LessThan(a[k], a[m]) {
        k := m;
      }
      m := m + 1;
    }
  }

  /** sort.Sort(sortSemVer(releases)): a descending permutation of the list, in place. */
  method SortDescending(a: array<Version>)
    modifies a
    ensures Descending(a[..])
    ensures multiset(a[..]) == multiset(old(a[..]))
  {
    var i := 0;
    while i < a.Length
      invariant i <= a.Length
      invariant forall p, q :: 0 <= p < q < i ==> AtLeast(a[p], a[q])
      invariant forall p, q :: 0 <= p < i <= q < a.Length ==> AtLeast(a[p], a[q])
      invariant multiset(a[..]) == multiset(old(a[..]))
    {
      var k := IndexOfMax(a, i);
      ghost var before := a[..];
      Swap(a, i, k);
      assert a[i] == before[k];
      assert forall q :: i < q < a.Length ==> a[q] == before[q] || (q == k && a[q] == before[i]);
      assert forall p :: 0 <= p < i ==> a[p] == before[p];
      i := i + 1;
    }
  }
}
