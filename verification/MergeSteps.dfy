/** The two steps of merging adjacent sorted ranges of one sequence by moving elements left. */
module MergeSteps {
  import opened SortTheory

  ghost predicate SortedBetween<E>(s: seq<E>, i: nat, j: nat, less: (E, E) -> bool)
    requires i <= j <= |s|
  {
    forall x, y | i <= x < y < j :: !less(s[y], s[x])
  }

  ghost predicate Within<E>(s: seq<E>, i: nat, j: nat, d: set<E>) {
    i <= j <= |s| && forall x | i <= x < j :: s[x] in d
  }

  lemma SortedSlice<E>(s: seq<E>, i: nat, j: nat, less: (E, E) -> bool)
    requires i <= j <= |s|
    ensures Sorted(s[i..j], less) <==> SortedBetween(s, i, j, less)
  {
    if Sorted(s[i..j], less) {
      forall x, y | i <= x < y < j ensures !less(s[y], s[x]) {
        assert s[i..j][x - i] == s[x] && s[i..j][y - i] == s[y];
      }
    }
  }

  /** s[i..q] and s[q..j] are sorted, and nothing in s[i..p] exceeds anything in s[q..j]. */
  ghost predicate Merging<E>(s: seq<E>, i: nat, p: nat, q: nat, j: nat, less: (E, E) -> bool) {
    && i <= p <= q <= j <= |s|
    && SortedBetween(s, i, q, less)
    && SortedBetween(s, q, j, less)
    && forall x, y | i <= x < p && q <= y < j :: !less(s[y], s[x])
  }

  lemma MergeAdvance<E>(s: seq<E>, i: nat, p: nat, q: nat, j: nat, d: set<E>, less: (E, E) -> bool)
    requires StrictWeakOrder(d, less) && Within(s, i, j, d) && Merging(s, i, p, q, j, less)
    requires p < q < j && !less(s[q], s[p])
    ensures Merging(s, i, p + 1, q, j, less)
  {
    forall y | q <= y < j ensures !less(s[y], s[p]) {
      assert y == q || !less(s[y], s[q]);
    }
  }

  ghost function MoveTo<E>(s: seq<E>, p: nat, q: nat): seq<E>
    requires p <= q < |s|
  {
    s[..p] + [s[q]] + s[p..q] + s[q + 1..]
  }

  lemma MoveToIndex<E>(s: seq<E>, p: nat, q: nat)
    requires p <= q < |s|
    ensures |MoveTo(s, p, q)| == |s|
    ensures forall x | 0 <= x < |s| ::
              MoveTo(s, p, q)[x] == if x == p then s[q] else if p < x <= q then s[x - 1] else s[x]
    ensures multiset(MoveTo(s, p, q)) == multiset(s)
  {
    assert s == s[..p] + s[p..q] + [s[q]] + s[q + 1..];
    MultisetOfFour(s[..p], s[p..q], [s[q]], s[q + 1..]);
    MultisetOfFour(s[..p], [s[q]], s[p..q], s[q + 1..]);
  }

  /** The element about to move left is strictly less than everything it crosses. */
  lemma MoverIsLess<E>(s: seq<E>, i: nat, p: nat, q: nat, j: nat, d: set<E>, less: (E, E) -> bool)
    requires StrictWeakOrder(d, less) && Within(s, i, j, d) && Merging(s, i, p, q, j, less)
    requires p < q < j && less(s[q], s[p])
    ensures forall x | p <= x < q :: s[x] in d && less(s[q], s[x]) && !less(s[x], s[q])
    ensures s[q] in d
  {
    forall x | p <= x < q ensures s[x] in d && less(s[q], s[x]) && !less(s[x], s[q]) {
      assert x == p || !less(s[x], s[p]);
    }
  }

  lemma MergeMove<E>(s: seq<E>, i: nat, p: nat, q: nat, j: nat, d: set<E>, less: (E, E) -> bool)
    requires StrictWeakOrder(d, less) && Within(s, i, j, d) && Merging(s, i, p, q, j, less)
    requires p < q < j && less(s[q], s[p])
    ensures Merging(MoveTo(s, p, q), i, p + 1, q + 1, j, less) && Within(MoveTo(s, p, q), i, j, d)
  {
    var t := MoveTo(s, p, q);
    MoveToIndex(s, p, q);
    MoverIsLess(s, i, p, q, j, d, less);
    assert SortedBetween(t, i, q + 1, less);
    assert SortedBetween(t, q + 1, j, less);
  }

  /** A move inside s[i..j] is a stable rearrangement of that slice and leaves the rest alone. */
  lemma MoveIsStable<E>(s: seq<E>, i: nat, p: nat, q: nat, j: nat, d: set<E>, less: (E, E) -> bool)
    requires StrictWeakOrder(d, less) && Within(s, i, j, d) && Merging(s, i, p, q, j, less)
    requires p < q < j && less(s[q], s[p])
    ensures var t := MoveTo(s, p, q);
            |t| == |s| && t[..i] == s[..i] && t[j..] == s[j..]
            && StableRearrangement(s[i..j], t[i..j], d, less)
  {
    var t := MoveTo(s, p, q);
    MoveToIndex(s, p, q);
    var a, b, c, e := s[i..p], s[p..q], [s[q]], s[q + 1..j];
    assert s[i..j] == a + b + c + e;
    assert t[i..j] == a + c + b + e;
    MoverIsLess(s, i, p, q, j, d, less);
    assert forall x | 0 <= x < |b| :: b[x] == s[p + x];
    MoveLeft(a, b, s[q], e, d, less);
  }

  /** When either range is used up, the whole range is sorted. */
  lemma MergeDone<E>(s: seq<E>, i: nat, p: nat, q: nat, j: nat, less: (E, E) -> bool)
    requires Merging(s, i, p, q, j, less) && (p == q || q == j)
    ensures Sorted(s[i..j], less)
  {
    SortedSlice(s, i, j, less);
  }
}
