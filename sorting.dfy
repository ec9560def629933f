/** `Array.prototype.sort` with a numeric comparator `(a, b) => key(a) - key(b)`,
    the only way the dashboard sorts: ascending by `key`, in place. */
module Sorting {

  /** `s` is in non-decreasing order of `key`. */
  ghost predicate SortedBy<T>(s: seq<T>, key: T -> int)
  {
    forall i, j :: 0 <= i < j < |s| ==> key(s[i]) <= key(s[j])
  }

  /** The elements of `s` up to index `n` are ordered, except that the one
      at `hole` may be smaller than those before it. */
  ghost predicate SortedExcept<T>(s: seq<T>, key: T -> int, n: int, hole: int)
    requires 0 <= hole <= n < |s|
  {
    forall p, q :: 0 <= p < q <= n && q != hole ==> key(s[p]) <= key(s[q])
  }

  /** Exchanges `a[j - 1]` and `a[j]`. */
  method SwapDown<T>(a: array<T>, j: int)
    requires 0 < j < a.Length
    modifies a
    ensures a[..] == old(a[..])[j - 1 := old(a[j])][j := old(a[j - 1])]
    ensures multiset(a[..]) == old(multiset(a[..]))
  {
    a[j - 1], a[j] := a[j], a[j - 1];
  }

  /** Moves `a[i]` down past the strictly greater elements before it, so
      that the first `i + 1` elements are ordered; nothing after `i` moves. */
  method InsertDown<T>(a: array<T>, key: T -> int, i: int)
    requires 0 <= i < a.Length
    requires SortedBy(a[..i], key)
    modifies a
    ensures SortedBy(a[..i + 1], key)
    ensures a[i + 1..] == old(a[i + 1..])
    ensures multiset(a[..]) == old(multiset(a[..]))
    ensures SortedBy(old(a[..i + 1]), key) ==> a[..] == old(a[..])
  {
    var j := i;
    while j > 0 && key(a[j - 1]) > key(a[j])
      invariant 0 <= j <= i
      invariant SortedExcept(a[..], key, i, j)
      invariant a[i + 1..] == old(a[i + 1..])
      invariant multiset(a[..]) == old(multiset(a[..]))
      invariant j < i ==> key(a[j]) < key(a[j + 1])
      invariant SortedBy(old(a[..i + 1]), key) ==> a[..] == old(a[..]) && j == i
    {
      SwapStep(a[..], key, i, j);
      SwapDown(a, j);
      j := j - 1;
    }
    InsertDone(a[..], key, i, j);
  }

  /** Swapping the out-of-place element with the greater one before it
      moves the hole down by one. */
  lemma SwapStep<T>(s: seq<T>, key: T -> int, i: int, j: int)
    requires 0 < j <= i < |s|
    requires SortedExcept(s, key, i, j)
    requires key(s[j - 1]) > key(s[j])
    requires j < i ==> key(s[j]) < key(s[j + 1])
    ensures var t := s[j - 1 := s[j]][j := s[j - 1]];
      SortedExcept(t, key, i, j - 1) && key(t[j - 1]) < key(t[j])
  {
  }

  /** Once the element is no smaller than the one before it, the first
      `i + 1` elements are ordered. */
  lemma InsertDone<T>(s: seq<T>, key: T -> int, i: int, j: int)
    requires 0 <= j <= i < |s|
    requires SortedExcept(s, key, i, j)
    requires j < i ==> key(s[j]) < key(s[j + 1])
    requires j > 0 ==> key(s[j - 1]) <= key(s[j])
    ensures SortedBy(s[..i + 1], key)
  {
  }

  lemma SortedPrefix<T>(s: seq<T>, key: T -> int, n: int)
    requires SortedBy(s, key) && 0 <= n <= |s|
    ensures SortedBy(s[..n], key)
  {
  }

  /** Sorts `a` in place by `key` (insertion sort, which moves an element
      only past strictly greater ones). The result is ordered and holds the
      same elements; an array that is already ordered is left as it is. */
  method SortBy<T>(a: array<T>, key: T -> int)
    modifies a
    ensures SortedBy(a[..], key)
    ensures multiset(a[..]) == old(multiset(a[..]))
    ensures SortedBy(old(a[..]), key) ==> a[..] == old(a[..])
  {
    ghost var original := a[..];
    var i := 0;
    while i < a.Length
      invariant 0 <= i <= a.Length
      invariant SortedBy(a[..i], key)
      invariant multiset(a[..]) == multiset(original)
      invariant SortedBy(original, key) ==> a[..] == original
    {
      if SortedBy(original, key) {
        SortedPrefix(original, key, i + 1);
      }
      InsertDown(a, key, i);
      i := i + 1;
    }
    assert a[..a.Length] == a[..];
  }
}
