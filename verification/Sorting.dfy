/** Heap sort and binary search. */
module Sorting {

  /** `compare` returns a strcmp-style result: its sign orders the two arguments. */
  ghost predicate TotalPreorder<T(!new)>(compare: (T, T) -> int) {
    && (forall x, y :: compare(x, y) > 0 <==> compare(y, x) < 0)
    && (forall x, y, z :: compare(x, y) <= 0 && compare(y, z) <= 0 ==> compare(x, z) <= 0)
  }

  ghost predicate Sorted<T(!new)>(compare: (T, T) -> int, s: seq<T>) {
    forall k, m :: 0 <= k < m < |s| ==> compare(s[k], s[m]) <= 0
  }

  /** Elements are named by 1-based indexes, as in the heap: c does not exceed p. */
  ghost predicate Under<T(!new)>(compare: (T, T) -> int, s: seq<T>, c: nat, p: nat)
    requires 1 <= c <= |s| && 1 <= p <= |s|
  {
    compare(s[c - 1], s[p - 1]) <= 0
  }

  /** Every child up to `n` whose parent is at least `lo` is under its parent. */
  ghost predicate HeapFrom<T(!new)>(compare: (T, T) -> int, s: seq<T>, lo: nat, n: nat)
    requires 1 <= lo && n <= |s|
  {
    forall c: nat :: 2 <= c <= n && lo <= c / 2 ==> Under(compare, s, c, c / 2)
  }

  /** The same except possibly below the node `hole`, whose children are still under its parent. */
  ghost predicate HeapButFor<T(!new)>(compare: (T, T) -> int, s: seq<T>, lo: nat, n: nat, hole: nat)
    requires 1 <= lo && n <= |s|
  {
    && (forall c: nat :: 2 <= c <= n && lo <= c / 2 && c / 2 != hole ==> Under(compare, s, c, c / 2))
    && (forall c: nat :: 2 <= c <= n && c / 2 == hole && lo <= hole / 2 ==> Under(compare, s, c, hole / 2))
  }

  function Swapped<T>(s: seq<T>, i: nat, j: nat): seq<T>
    requires 1 <= i <= |s| && 1 <= j <= |s|
  {
    s[i - 1 := s[j - 1]][j - 1 := s[i - 1]]
  }

  /** A child that is no smaller than its sibling and its parent moves up; the hole moves down to it. */
  lemma SwapMovesHole<T(!new)>(compare: (T, T) -> int, s: seq<T>, lo: nat, n: nat, hole: nat, child: nat)
    requires TotalPreorder(compare) && 1 <= lo <= hole && n <= |s|
    requires HeapButFor(compare, s, lo, n, hole)
    requires 2 <= child <= n && child / 2 == hole && Under(compare, s, hole, child)
    requires forall c: nat :: 2 <= c <= n && c / 2 == hole ==> Under(compare, s, c, child)
    ensures HeapButFor(compare, Swapped(s, hole, child), lo, n, child)
  {
    var t := Swapped(s, hole, child);
    forall c: nat | 2 <= c <= n && lo <= c / 2 && c / 2 != child
      ensures Under(compare, t, c, c / 2)
    {
      if c / 2 == hole {
        assert Under(compare, s, c, child);
      } else if c == hole {
        assert Under(compare, s, child, hole / 2);
      } else {
        assert Under(compare, s, c, c / 2);
      }
    }
    forall c: nat | 2 <= c <= n && c / 2 == child && lo <= child / 2
      ensures Under(compare, t, c, child / 2)
    {
      assert Under(compare, s, c, c / 2);
    }
  }

  lemma NoHoleLeft<T(!new)>(compare: (T, T) -> int, s: seq<T>, lo: nat, n: nat, hole: nat)
    requires 1 <= lo && n <= |s| && HeapButFor(compare, s, lo, n, hole)
    requires forall c: nat :: 2 <= c <= n && c / 2 == hole ==> Under(compare, s, c, hole)
    ensures HeapFrom(compare, s, lo, n)
  {}

  lemma {:induction false} RootIsGreatest<T(!new)>(compare: (T, T) -> int, s: seq<T>, n: nat, c: nat)
    requires TotalPreorder(compare) && 1 <= c <= n <= |s| && HeapFrom(compare, s, 1, n)
    ensures Under(compare, s, c, 1)
  {
    if c == 1 {
    } else {
      RootIsGreatest(compare, s, n, c / 2);
      assert Under(compare, s, c, c / 2);
    }
  }

  /** Exchanging elements inside the first n keeps them the same elements. */
  lemma SwappedSame<T>(s: seq<T>, n: nat, i: nat, j: nat)
    requires 1 <= i <= n <= |s| && 1 <= j <= n
    ensures multiset(Swapped(s, i, j)[..n]) == multiset(s[..n])
    ensures Swapped(s, i, j)[n..] == s[n..]
  {
    assert Swapped(s, i, j)[..n] == s[..n][i - 1 := s[j - 1]][j - 1 := s[i - 1]];
  }

  method DoSwap<T>(a: array<T>, i: nat, j: nat)
    requires 1 <= i <= a.Length && 1 <= j <= a.Length
    modifies a
    ensures a[..] == Swapped(old(a[..]), i, j)
  {
    a[i - 1], a[j - 1] := a[j - 1], a[i - 1];
  }

  lemma LargerOf<T(!new)>(compare: (T, T) -> int, x: T, y: T, z: T)
    requires TotalPreorder(compare)
    ensures compare(x, x) <= 0
    ensures compare(x, y) <= 0 || compare(y, x) <= 0
    ensures compare(x, y) > 0 ==> compare(y, x) <= 0
    ensures compare(z, y) <= 0 && compare(y, x) <= 0 ==> compare(z, x) <= 0
  {}

  /** The largest of a node and its children. */
  method Largest<T(!new)>(a: array<T>, i: nat, count: nat, compare: (T, T) -> int) returns (max: nat)
    requires TotalPreorder(compare) && 1 <= i <= count <= a.Length
    ensures max == i || (max / 2 == i && 2 <= max <= count)
    ensures Under(compare, a[..], i, max)
    ensures forall c: nat :: 2 <= c <= count && c / 2 == i ==> Under(compare, a[..], c, max)
  {
    hide TotalPreorder;
    var left, right := 2 * i, 2 * i + 1;
    max := i;
    LargerOf(compare, a[i - 1], a[i - 1], a[i - 1]);
    if left <= count && compare(a[left - 1], a[max - 1]) > 0 {
      LargerOf(compare, a[left - 1], a[i - 1], a[i - 1]);
      max := left;
    }
    if left <= count {
      LargerOf(compare, a[left - 1], a[i - 1], a[i - 1]);
      assert compare(a[left - 1], a[max - 1]) <= 0;
    }
    if right <= count && compare(a[right - 1], a[max - 1]) > 0 {
      LargerOf(compare, a[right - 1], a[max - 1], a[i - 1]);
      LargerOf(compare, a[right - 1], a[max - 1], a[left - 1]);
      LargerOf(compare, a[right - 1], a[max - 1], a[max - 1]);
      max := right;
    }
    assert forall c: nat :: c / 2 == i <==> c == left || c == right;
  }

  method Heapify<T(!new)>(a: array<T>, i: nat, count: nat, compare: (T, T) -> int)
    requires TotalPreorder(compare) && 1 <= i <= count <= a.Length
    requires HeapFrom(compare, a[..], i + 1, count)
    modifies a
    ensures HeapFrom(compare, a[..], i, count)
    ensures multiset(a[..count]) == multiset(old(a[..count]))
    ensures a[count..] == old(a[count..])
  {
    var j := i;
    while true
      invariant i <= j <= count
      invariant HeapButFor(compare, a[..], i, count, j)
      invariant multiset(a[..][..count]) == multiset(old(a[..])[..count])
      invariant a[..][count..] == old(a[..])[count..]
      decreases count - j
    {
      var max := Largest(a, j, count, compare);
      if max == j {
        NoHoleLeft(compare, a[..], i, count, j);
        break;
      }
      SwapMovesHole(compare, a[..], i, count, j, max);
      SwappedSame(a[..], count, j, max);
      DoSwap(a, j, max);
      j := max;
    }
    assert a[..][..count] == a[..count] && a[..][count..] == a[count..];
    assert old(a[..])[..count] == old(a[..count]) && old(a[..])[count..] == old(a[count..]);
  }

  /** The first i elements are a heap, the others are sorted and none is exceeded by the heap. */
  ghost predicate PartlySorted<T(!new)>(compare: (T, T) -> int, s: seq<T>, i: nat)
    requires i <= |s|
  {
    && HeapFrom(compare, s, 1, i)
    && Sorted(compare, s[i..])
    && (forall k, m :: 0 <= k < i <= m < |s| ==> compare(s[k], s[m]) <= 0)
  }

  /** What a swap of the root with element i leaves of it. */
  ghost predicate RootPlaced<T(!new)>(compare: (T, T) -> int, t: seq<T>, n: nat)
    requires n <= |t|
  {
    && Sorted(compare, t[n..])
    && (forall k, m :: 0 <= k < n <= m < |t| ==> compare(t[k], t[m]) <= 0)
  }

  lemma HeapBelowRoot<T(!new)>(compare: (T, T) -> int, s: seq<T>, i: nat)
    requires 1 < i <= |s| && HeapFrom(compare, s, 1, i)
    ensures HeapFrom(compare, Swapped(s, 1, i), 2, i - 1)
  {
    hide TotalPreorder;
    var t := Swapped(s, 1, i);
    forall c: nat | 2 <= c <= i - 1 && 2 <= c / 2
      ensures Under(compare, t, c, c / 2)
    {
      assert Under(compare, s, c, c / 2);
    }
  }

  lemma RootGoesLast<T(!new)>(compare: (T, T) -> int, s: seq<T>, i: nat)
    requires TotalPreorder(compare) && 1 < i <= |s| && PartlySorted(compare, s, i)
    ensures RootPlaced(compare, Swapped(s, 1, i), i - 1)
  {
    hide TotalPreorder, HeapFrom;
    var t := Swapped(s, 1, i);
    assert t[i - 1..] == [s[0]] + s[i..];
    forall k, m | 0 <= k < i - 1 <= m < |s|
      ensures compare(t[k], t[m]) <= 0
    {
      RootIsGreatest(compare, s, i, if k == 0 then i else k + 1);
    }
  }

  /** Rearranging the first n elements does not change what they are all under. */
  lemma StillUnder<T(!new)>(compare: (T, T) -> int, s: seq<T>, t: seq<T>, n: nat)
    requires |s| == |t| && n <= |s| && multiset(s[..n]) == multiset(t[..n]) && s[n..] == t[n..]
    requires forall k, m :: 0 <= k < n <= m < |s| ==> compare(s[k], s[m]) <= 0
    ensures forall k, m :: 0 <= k < n <= m < |t| ==> compare(t[k], t[m]) <= 0
  {
    forall k, m | 0 <= k < n <= m < |t|
      ensures compare(t[k], t[m]) <= 0
    {
      assert t[k] == t[..n][k] && t[k] in multiset(t[..n]);
      assert t[k] in s[..n];
      var p :| 0 <= p < n && s[..n][p] == t[k];
      assert s[p] == t[k];
      assert t[m] == t[n..][m - n] && s[m] == s[n..][m - n];
    }
  }

  lemma HeapRestored<T(!new)>(compare: (T, T) -> int, t: seq<T>, u: seq<T>, n: nat)
    requires |t| == |u| && n <= |t| && multiset(t[..n]) == multiset(u[..n]) && t[n..] == u[n..]
    requires RootPlaced(compare, t, n) && HeapFrom(compare, u, 1, n)
    ensures PartlySorted(compare, u, n)
  {
    hide HeapFrom;
    StillUnder(compare, t, u, n);
  }

  lemma SortedWhole<T(!new)>(compare: (T, T) -> int, s: seq<T>, i: nat)
    requires i <= 1 && i <= |s| && PartlySorted(compare, s, i)
    ensures Sorted(compare, s)
  {
    forall k, m | 0 <= k < m < |s|
      ensures compare(s[k], s[m]) <= 0
    {
      if i <= k {
        assert s[k] == s[i..][k - i] && s[m] == s[i..][m - i];
      }
    }
  }

  lemma SplitSame<T>(s: seq<T>, t: seq<T>, n: nat)
    requires |s| == |t| && n <= |s| && multiset(s[..n]) == multiset(t[..n]) && s[n..] == t[n..]
    ensures multiset(s) == multiset(t)
  {
    assert s == s[..n] + s[n..] && t == t[..n] + t[n..];
  }

  method BuildHeap<T(!new)>(a: array<T>, compare: (T, T) -> int)
    requires TotalPreorder(compare)
    modifies a
    ensures HeapFrom(compare, a[..], 1, a.Length)
    ensures multiset(a[..]) == multiset(old(a[..]))
  {
    hide TotalPreorder;
    var count := a.Length;
    var i := count / 2;
    while i > 0
      invariant 0 <= i <= count / 2
      invariant HeapFrom(compare, a[..], i + 1, count)
      invariant multiset(a[..count]) == multiset(old(a[..count]))
    {
      Heapify(a, i, count, compare);
      i := i - 1;
    }
    assert a[..count] == a[..] && old(a[..count]) == old(a[..]);
  }

  method Sort<T(!new)>(a: array<T>, compare: (T, T) -> int)
    requires TotalPreorder(compare)
    modifies a
    ensures Sorted(compare, a[..])
    ensures multiset(a[..]) == multiset(old(a[..]))
  {
    hide TotalPreorder;
    BuildHeap(a, compare);
    var i := a.Length;
    while i > 1
      invariant 0 <= i <= a.Length
      invariant PartlySorted(compare, a[..], i)
      invariant multiset(a[..]) == multiset(old(a[..]))
    {
      SortStep(a, i, compare);
      i := i - 1;
    }
    SortedWhole(compare, a[..], i);
  }

  method SortStep<T(!new)>(a: array<T>, i: nat, compare: (T, T) -> int)
    requires TotalPreorder(compare) && 1 < i <= a.Length && PartlySorted(compare, a[..], i)
    modifies a
    ensures PartlySorted(compare, a[..], i - 1)
    ensures multiset(a[..]) == multiset(old(a[..]))
  {
    hide TotalPreorder, RootPlaced, Sorted, HeapFrom;
    ghost var s := a[..];
    RootGoesLast(compare, s, i);
    HeapBelowRoot(compare, s, i);
    SwappedSame(s, |s|, 1, i);
    DoSwap(a, 1, i);
    ghost var t := a[..];
    assert multiset(t) == multiset(s) by {
      assert t[..|s|] == t && s[..|s|] == s;
    }
    assert a[..i - 1] == t[..i - 1] && a[i - 1..] == t[i - 1..];
    Heapify(a, 1, i - 1, compare);
    ghost var u := a[..];
    assert a[..i - 1] == u[..i - 1] && a[i - 1..] == u[i - 1..];
    HeapRestored(compare, t, u, i - 1);
    SplitSame(t, u, i - 1);
  }

  method BinarySearch<T(!new)>(key: T, a: array<T>, compare: (T, T) -> int) returns (found: bool, at: nat)
    requires TotalPreorder(compare) && Sorted(compare, a[..])
    ensures found <==> exists k: nat :: k < a.Length && compare(key, a[k]) == 0
    ensures found ==> at < a.Length && compare(key, a[at]) == 0
  {
    var first, last := 0, a.Length;
    while first < last
      invariant 0 <= first <= last <= a.Length
      invariant forall k :: 0 <= k < first ==> compare(key, a[k]) > 0
      invariant forall k :: last <= k < a.Length ==> compare(key, a[k]) < 0
    {
      var range := last - first;
      var middle := first + range / 2;
      var cmp := compare(key, a[middle]);
      if cmp < 0 {
        forall k | middle <= k < a.Length
          ensures compare(key, a[k]) < 0
        {
          BeforeLater(compare, key, a[..], middle, k);
        }
        last := middle;
      } else if cmp > 0 {
        forall k | 0 <= k <= middle
          ensures compare(key, a[k]) > 0
        {
          AfterEarlier(compare, key, a[..], k, middle);
        }
        first := middle + 1;
      } else {
        return true, middle;
      }
    }
    return false, 0;
  }

  lemma BeforeLater<T(!new)>(compare: (T, T) -> int, key: T, s: seq<T>, i: nat, j: nat)
    requires TotalPreorder(compare) && Sorted(compare, s) && i <= j < |s| && compare(key, s[i]) < 0
    ensures compare(key, s[j]) < 0
  {
    BelowTheLarger(compare, key, s[i], s[j]);
  }

  lemma AfterEarlier<T(!new)>(compare: (T, T) -> int, key: T, s: seq<T>, i: nat, j: nat)
    requires TotalPreorder(compare) && Sorted(compare, s) && i <= j < |s| && compare(key, s[j]) > 0
    ensures compare(key, s[i]) > 0
  {
    AboveTheSmaller(compare, key, s[i], s[j]);
  }

  lemma BelowTheLarger<T(!new)>(compare: (T, T) -> int, key: T, x: T, y: T)
    requires TotalPreorder(compare) && compare(key, x) < 0 && (x == y || compare(x, y) <= 0)
    ensures compare(key, y) < 0
  {
    assert compare(y, key) <= 0 ==> compare(x, key) <= 0;
  }

  lemma AboveTheSmaller<T(!new)>(compare: (T, T) -> int, key: T, x: T, y: T)
    requires TotalPreorder(compare) && compare(key, y) > 0 && (x == y || compare(x, y) <= 0)
    ensures compare(key, x) > 0
  {
    assert compare(key, x) <= 0 ==> compare(key, y) <= 0;
  }
}
