/**
 * The contract of Go's sort.Slice: permute a slice in place so that no element
 * is "less" than one before it. sort.Slice is not stable, so only sortedness
 * and permutation are promised; the algorithm here (insertion sort) is one way
 * to meet that contract, not a model of Go's pattern-defeating quicksort.
 */
module SliceSort {

  /**
   * What sort.Slice needs of its less function: it is asymmetric, and
   * "not less" is transitive (a strict weak order).
   */
  ghost predicate StrictWeakOrder<T(!new)>(less: (T, T) -> bool) {
    && (forall x, y :: less(x, y) ==> !less(y, x))
    && (forall x, y, z :: !less(x, y) && !less(y, z) ==> !less(x, z))
  }

  /** No element is less than an element before it. */
  ghost predicate Sorted<T>(s: seq<T>, less: (T, T) -> bool) {
    forall i, j :: 0 <= i < j < |s| ==> !less(s[j], s[i])
  }

  /** Elements the order cannot tell apart are equal (for records: paths are unique). */
  ghost predicate KeysDistinct<T>(s: seq<T>, less: (T, T) -> bool) {
    forall i, j :: 0 <= i < |s| && 0 <= j < |s| && !less(s[i], s[j]) && !less(s[j], s[i]) ==> s[i] == s[j]
  }

  method Swap<T>(a: array<T>, i: nat, j: nat)
    requires i < a.Length && j < a.Length
    modifies a
    ensures a[i] == old(a[j]) && a[j] == old(a[i])
    ensures forall k :: 0 <= k < a.Length && k != i && k != j ==> a[k] == old(a[k])
    ensures multiset(a[..]) == old(multiset(a[..]))
  {
    a[i], a[j] := a[j], a[i];
  }

  /** sort.Slice(a, less). */
  method SortSlice<T(!new)>(a: array<T>, less: (T, T) -> bool)
    requires StrictWeakOrder(less)
    modifies a
    ensures Sorted(a[..], less)
    ensures multiset(a[..]) == old(multiset(a[..]))
  {
    var i := 0;
    while i < a.Length
      invariant 0 <= i <= a.Length
      invariant Sorted(a[..i], less)
      invariant multiset(a[..]) == old(multiset(a[..]))
    {
      var j := i;
      while j > 0 && less(a[j], a[j - 1])
        invariant 0 <= j <= i
        invariant forall p, q :: 0 <= p < q <= i && p != j && q != j ==> !less(a[q], a[p])
        invariant forall q :: j < q <= i ==> less(a[j], a[q])
        invariant multiset(a[..]) == old(multiset(a[..]))
      {
        Swap(a, j - 1, j);
        j := j - 1;
      }
      forall p, q | 0 <= p < q <= i ensures !less(a[q], a[p]) {
        if q == j {
          if p < j - 1 {
            assert !less(a[j], a[j - 1]) && !less(a[j - 1], a[p]);
          }
        } else if p == j {
          assert less(a[j], a[q]);
        }
      }
      assert Sorted(a[..i + 1], less);
      i := i + 1;
    }
    assert a[..a.Length] == a[..];
  }

  lemma {:induction false} SortedTail<T>(s: seq<T>, less: (T, T) -> bool)
    requires Sorted(s, less) && |s| > 0
    ensures Sorted(s[1..], less)
  {
  }

  lemma MultisetTail<T>(s: seq<T>, t: seq<T>)
    requires multiset(s) == multiset(t) && |s| > 0 && |t| > 0 && s[0] == t[0]
    ensures multiset(s[1..]) == multiset(t[1..])
  {
    assert s == [s[0]] + s[1..];
    assert t == [t[0]] + t[1..];
    assert multiset(s[1..]) == multiset(s) - multiset{s[0]};
    assert multiset(t[1..]) == multiset(t) - multiset{t[0]};
  }

  /** Two sorted permutations of a collection with distinct keys start with the same element. */
  lemma SortedHeadsEqual<T(!new)>(s: seq<T>, t: seq<T>, less: (T, T) -> bool)
    requires StrictWeakOrder(less)
    requires Sorted(s, less) && Sorted(t, less)
    requires multiset(s) == multiset(t) && |s| > 0
    requires KeysDistinct(s, less)
    ensures |t| == |s| && s[0] == t[0]
  {
    assert |t| == |multiset(t)| == |s|;
    assert s[0] in multiset(s) && t[0] in multiset(t);
    var i :| 0 <= i < |t| && t[i] == s[0];
    var j :| 0 <= j < |s| && s[j] == t[0];
    assert !less(t[0], s[0]) by { if j > 0 { assert !less(s[j], s[0]); } }
    assert !less(s[0], t[0]) by { if i > 0 { assert !less(t[i], t[0]); } }
    assert !less(s[0], s[j]) && !less(s[j], s[0]);
  }

  /**
   * A sorted arrangement of a collection whose keys are distinct is unique:
   * two sorted permutations of one another are equal. In particular sorting an
   * already sorted slice leaves it as it is.
   */
  lemma {:induction false} SortedPermutationUnique<T(!new)>(s: seq<T>, t: seq<T>, less: (T, T) -> bool)
    requires StrictWeakOrder(less)
    requires Sorted(s, less) && Sorted(t, less)
    requires multiset(s) == multiset(t)
    requires KeysDistinct(s, less)
    ensures s == t
  {
    if |s| == 0 {
      assert |t| == |multiset(t)| == 0;
    } else {
      SortedHeadsEqual(s, t, less);
      MultisetTail(s, t);
      SortedTail(s, less);
      SortedTail(t, less);
      assert KeysDistinct(s[1..], less) by {
        forall i, j | 0 <= i < |s| - 1 && 0 <= j < |s| - 1 && !less(s[1..][i], s[1..][j]) && !less(s[1..][j], s[1..][i])
          ensures s[1..][i] == s[1..][j]
        {
          assert s[1..][i] == s[i + 1] && s[1..][j] == s[j + 1];
        }
      }
      SortedPermutationUnique(s[1..], t[1..], less);
      assert s == [s[0]] + s[1..] && t == [t[0]] + t[1..];
    }
  }
}
