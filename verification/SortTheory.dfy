/** Orders, stable rearrangements and runs of a sequence: the vocabulary in which sorting is
    specified, with no heap in it. The elements may be references. */
module SortTheory {

  /** A strict weak order on `d`: asymmetric, and "not less" is transitive. */
  ghost predicate StrictWeakOrder<E>(d: set<E>, less: (E, E) -> bool) {
    && (forall x, y | x in d && y in d :: less(x, y) ==> !less(y, x))
    && (forall x, y, z | x in d && y in d && z in d :: !less(x, y) && !less(y, z) ==> !less(x, z))
  }

  ghost function Elements<E>(s: seq<E>): set<E> { set x | x in s }

  ghost predicate Sorted<E>(s: seq<E>, less: (E, E) -> bool) {
    forall i, j | 0 <= i < j < |s| :: !less(s[j], s[i])
  }

  /** Nondecreasing from each element to the next: what one scan of neighbours can establish. */
  ghost predicate Run<E>(s: seq<E>, less: (E, E) -> bool) {
    forall i | 0 <= i < |s| - 1 :: !less(s[i + 1], s[i])
  }

  lemma {:induction false} RunIsSorted<E>(s: seq<E>, less: (E, E) -> bool)
    requires StrictWeakOrder(Elements(s), less) && Run(s, less)
    ensures Sorted(s, less)
    decreases |s|
  {
    if |s| > 1 {
      var t := s[..|s| - 1];
      assert forall x | x in t :: x in s;
      RunIsSorted(t, less);
      forall i, j | 0 <= i < j < |s| ensures !less(s[j], s[i]) {
        if j == |s| - 1 && i < j - 1 {
          assert !less(t[j - 1], t[i]) && !less(s[j], s[j - 1]);
          assert s[i] in Elements(s) && s[j] in Elements(s) && s[j - 1] in Elements(s);
        } else if j < |s| - 1 {
          assert t[i] == s[i] && t[j] == s[j];
        }
      }
    }
  }

  /** The elements of `s` that are equivalent to `x`, in their order in `s`. */
  ghost function Class<E>(s: seq<E>, x: E, less: (E, E) -> bool): seq<E> {
    if s == [] then []
    else (if !less(s[0], x) && !less(x, s[0]) then [s[0]] else []) + Class(s[1..], x, less)
  }

  lemma {:induction false} ClassConcat<E>(a: seq<E>, b: seq<E>, x: E, less: (E, E) -> bool)
    ensures Class(a + b, x, less) == Class(a, x, less) + Class(b, x, less)
    decreases |a|
  {
    if a == [] {
      assert a + b == b;
    } else {
      assert (a + b)[1..] == a[1..] + b;
      ClassConcat(a[1..], b, x, less);
    }
  }

  lemma {:induction false} ClassOfUnrelated<E>(a: seq<E>, x: E, less: (E, E) -> bool)
    requires forall i | 0 <= i < |a| :: less(a[i], x) || less(x, a[i])
    ensures Class(a, x, less) == []
    decreases |a|
  {
    if a != [] {
      ClassOfUnrelated(a[1..], x, less);
    }
  }

  /** `t` holds the elements of `s`, and equivalent elements appear in the same order in both: for
      every element of `d`, the elements equivalent to it. */
  ghost predicate StableRearrangement<E>(s: seq<E>, t: seq<E>, d: set<E>, less: (E, E) -> bool) {
    && multiset(s) == multiset(t)
    && forall x | x in d :: Class(s, x, less) == Class(t, x, less)
  }

  lemma SameElements<E>(s: seq<E>, t: seq<E>)
    requires multiset(s) == multiset(t)
    ensures |s| == |t| && Elements(s) == Elements(t)
  {
    assert |multiset(s)| == |s| && |multiset(t)| == |t|;
    forall x ensures x in s <==> x in t {
      assert x in s <==> x in multiset(s);
      assert x in t <==> x in multiset(t);
    }
  }

  lemma RearrangementTransitive<E>(s: seq<E>, t: seq<E>, u: seq<E>, d: set<E>, less: (E, E) -> bool)
    requires StableRearrangement(s, t, d, less) && StableRearrangement(t, u, d, less)
    ensures StableRearrangement(s, u, d, less)
  {}

  /** Rearranging a slice rearranges the whole. */
  lemma RearrangementInside<E>(a: seq<E>, b: seq<E>, b': seq<E>, c: seq<E>, d: set<E>, less: (E, E) -> bool)
    requires StableRearrangement(b, b', d, less)
    ensures StableRearrangement(a + b + c, a + b' + c, d, less)
  {
    forall x | x in d ensures Class(a + b + c, x, less) == Class(a + b' + c, x, less) {
      ClassConcat(a + b, c, x, less);
      ClassConcat(a, b, x, less);
      ClassConcat(a + b', c, x, less);
      ClassConcat(a, b', x, less);
    }
  }

  lemma ClassOfFour<E>(a: seq<E>, b: seq<E>, c: seq<E>, d: seq<E>, x: E, less: (E, E) -> bool)
    ensures Class(a + b + c + d, x, less)
         == Class(a, x, less) + Class(b, x, less) + Class(c, x, less) + Class(d, x, less)
  {
    ClassConcat(a + b + c, d, x, less);
    ClassConcat(a + b, c, x, less);
    ClassConcat(a, b, x, less);
  }

  /** Moving an element to the left across elements that are all strictly greater disturbs no class. */
  lemma MoveLeft<E>(p: seq<E>, a: seq<E>, b: E, q: seq<E>, d: set<E>, less: (E, E) -> bool)
    requires StrictWeakOrder(d, less) && b in d
    requires forall i | 0 <= i < |a| :: a[i] in d && less(b, a[i])
    ensures StableRearrangement(p + a + [b] + q, p + [b] + a + q, d, less)
  {
    var s, t := p + a + [b] + q, p + [b] + a + q;
    MultisetOfFour(p, a, [b], q);
    MultisetOfFour(p, [b], a, q);
    forall x | x in d ensures Class(s, x, less) == Class(t, x, less) {
      ClassOfFour(p, a, [b], q, x, less);
      ClassOfFour(p, [b], a, q, x, less);
      OneSideEmpty(a, b, x, d, less);
    }
  }

  lemma MultisetOfFour<E>(a: seq<E>, b: seq<E>, c: seq<E>, d: seq<E>)
    ensures multiset(a + b + c + d) == multiset(a) + multiset(b) + multiset(c) + multiset(d)
  {}

  lemma OneSideEmpty<E>(a: seq<E>, b: E, x: E, d: set<E>, less: (E, E) -> bool)
    requires StrictWeakOrder(d, less) && b in d && x in d
    requires forall i | 0 <= i < |a| :: a[i] in d && less(b, a[i])
    ensures Class(a, x, less) == [] || Class([b], x, less) == []
  {
    if !less(b, x) && !less(x, b) {
      ClassOfUnrelated(a, x, less);
    }
  }

  /** A sorted stable rearrangement is unique, so it can serve as the definition of stable sorting. */
  lemma {:induction false} StableSortUnique<E>(s: seq<E>, t: seq<E>, d: set<E>, less: (E, E) -> bool)
    requires StrictWeakOrder(d, less) && Elements(s) <= d
    requires StableRearrangement(s, t, d, less) && Sorted(s, less) && Sorted(t, less)
    ensures s == t
    decreases |s|
  {
    SameElements(s, t);
    if s != [] {
      SameHead(s, t, d, less);
      DropHead(s, t, d, less);
      SortedTail(s, d, less);
      SortedTail(t, d, less);
      StableSortUnique(s[1..], t[1..], d, less);
      assert s == [s[0]] + s[1..] && t == [t[0]] + t[1..];
    }
  }

  lemma SortedTail<E>(s: seq<E>, d: set<E>, less: (E, E) -> bool)
    requires s != [] && Sorted(s, less) && Elements(s) <= d
    ensures Sorted(s[1..], less) && Elements(s[1..]) <= d
  {
    assert forall x | x in s[1..] :: x in Elements(s);
  }

  lemma DropHead<E>(s: seq<E>, t: seq<E>, d: set<E>, less: (E, E) -> bool)
    requires s != [] && t != [] && s[0] == t[0] && StableRearrangement(s, t, d, less)
    ensures StableRearrangement(s[1..], t[1..], d, less)
  {
    var x, s', t' := s[0], s[1..], t[1..];
    assert s == [x] + s' && t == [x] + t';
    assert multiset(s') == multiset(s) - multiset{x};
    assert multiset(t') == multiset(t) - multiset{x};
    forall y | y in d ensures Class(s', y, less) == Class(t', y, less) {
      var h := if !less(x, y) && !less(y, x) then [x] else [];
      assert h + Class(s', y, less) == h + Class(t', y, less);
      assert Class(s', y, less) == (h + Class(s', y, less))[|h|..];
      assert Class(t', y, less) == (h + Class(t', y, less))[|h|..];
    }
  }

  lemma SameHead<E>(s: seq<E>, t: seq<E>, d: set<E>, less: (E, E) -> bool)
    requires StrictWeakOrder(d, less) && s != [] && t != [] && Elements(s) <= d
    requires StableRearrangement(s, t, d, less) && Sorted(s, less) && Sorted(t, less)
    ensures s[0] == t[0]
  {
    SameElements(s, t);
    assert t[0] in Elements(t) && s[0] in Elements(s);
    HeadIsLeast(s, t[0], d, less);
    HeadIsLeast(t, s[0], d, less);
    assert Class(s, s[0], less)[0] == s[0];
    assert Class(t, s[0], less)[0] == t[0];
  }

  lemma HeadIsLeast<E>(s: seq<E>, x: E, d: set<E>, less: (E, E) -> bool)
    requires StrictWeakOrder(d, less) && Sorted(s, less) && x in s && Elements(s) <= d
    ensures !less(x, s[0])
  {
    var i :| 0 <= i < |s| && s[i] == x;
    assert s[0] in Elements(s);
  }

  /** The number of maximal nondecreasing runs. */
  ghost function Runs<E>(s: seq<E>, less: (E, E) -> bool): (n: nat)
    ensures s != [] <==> n > 0
  {
    if |s| <= 1 then |s|
    else (if less(s[1], s[0]) then 1 else 0) + Runs(s[1..], less)
  }

  lemma {:induction false} OneRun<E>(s: seq<E>, less: (E, E) -> bool)
    requires s != []
    ensures Run(s, less) <==> Runs(s, less) == 1
    decreases |s|
  {
    if |s| > 1 {
      var t := s[1..];
      OneRun(t, less);
      assert Run(s, less) ==> Run(t, less) by {
        assert forall i | 0 <= i < |t| :: t[i] == s[i + 1];
      }
      if Runs(s, less) == 1 {
        forall i | 0 <= i < |s| - 1 ensures !less(s[i + 1], s[i]) {
          if i > 0 {
            assert t[i] == s[i + 1] && t[i - 1] == s[i];
          }
        }
      }
    }
  }

  /** Runs of a concatenation: one boundary is a run boundary or it joins two runs. */
  lemma {:induction false} RunsConcat<E>(a: seq<E>, b: seq<E>, less: (E, E) -> bool)
    requires a != [] && b != []
    ensures Runs(a + b, less) == Runs(a, less) + Runs(b, less) - (if less(b[0], a[|a| - 1]) then 0 else 1)
    decreases |a|
  {
    assert (a + b)[1..] == a[1..] + b;
    if |a| == 1 {
      assert a[1..] + b == b;
    } else {
      RunsConcat(a[1..], b, less);
    }
  }

  lemma RunsConcatAtMost<E>(a: seq<E>, b: seq<E>, less: (E, E) -> bool)
    ensures Runs(a + b, less) <= Runs(a, less) + Runs(b, less)
  {
    if a == [] {
      assert a + b == b;
    } else if b == [] {
      assert a + b == a;
    } else {
      RunsConcat(a, b, less);
    }
  }

  /** A maximal run in front counts for one. */
  lemma FirstRun<E>(s: seq<E>, k: nat, less: (E, E) -> bool)
    requires 0 < k <= |s| && Run(s[..k], less) && (k < |s| ==> less(s[k], s[k - 1]))
    ensures Runs(s, less) == 1 + Runs(s[k..], less)
  {
    OneRun(s[..k], less);
    assert s == s[..k] + s[k..];
    if k < |s| {
      RunsConcat(s[..k], s[k..], less);
    } else {
      assert s[..k] == s;
    }
  }

  /** `x` put in front of the first element of a sorted sequence that is not less than it. */
  ghost function InsertSorted<E>(x: E, s: seq<E>, less: (E, E) -> bool): seq<E> {
    if s == [] || !less(s[0], x) then [x] + s
    else [s[0]] + InsertSorted(x, s[1..], less)
  }

  /** Stable sorting, defined by insertion. */
  ghost function StableSort<E>(s: seq<E>, less: (E, E) -> bool): seq<E> {
    if s == [] then [] else InsertSorted(s[0], StableSort(s[1..], less), less)
  }

  lemma {:induction false} InsertSortedCorrect<E>(x: E, s: seq<E>, d: set<E>, less: (E, E) -> bool)
    requires StrictWeakOrder(d, less) && x in d && Elements(s) <= d && Sorted(s, less)
    ensures var t := InsertSorted(x, s, less);
            Sorted(t, less) && Elements(t) <= d && StableRearrangement([x] + s, t, d, less)
    decreases |s|
  {
    assert forall y | y in s :: y in Elements(s);
    if s == [] || !less(s[0], x) {
      forall i | 0 <= i < |s| ensures !less(s[i], x) {
        assert s[i] in d && s[0] in d;
        assert i == 0 || !less(s[i], s[0]);
      }
    } else {
      SortedTail(s, d, less);
      InsertSortedCorrect(x, s[1..], d, less);
      InsertPastHead(x, s, InsertSorted(x, s[1..], less), d, less);
    }
  }

  lemma InsertPastHead<E>(x: E, s: seq<E>, u: seq<E>, d: set<E>, less: (E, E) -> bool)
    requires StrictWeakOrder(d, less) && x in d && s != [] && Elements(s) <= d && Sorted(s, less) && less(s[0], x)
    requires StableRearrangement([x] + s[1..], u, d, less) && Sorted(u, less) && Elements(u) <= d
    ensures var t := [s[0]] + u;
            Sorted(t, less) && Elements(t) <= d && StableRearrangement([x] + s, t, d, less)
  {
    assert s[0] in Elements(s);
    NothingBelowHead(x, s, u, d, less);
    hide Sorted, Elements, StrictWeakOrder, Class;
    MoveLeft([], [x], s[0], s[1..], d, less);
    assert s == [s[0]] + s[1..];
    assert [] + [x] + [s[0]] + s[1..] == [x] + s;
    var v := [s[0]] + ([x] + s[1..]) + [];
    assert [] + [s[0]] + [x] + s[1..] == v;
    assert [s[0]] + u + [] == [s[0]] + u;
    RearrangementInside([s[0]], [x] + s[1..], u, [], d, less);
    RearrangementTransitive([x] + s, v, [s[0]] + u, d, less);
  }

  lemma NothingBelowHead<E>(x: E, s: seq<E>, u: seq<E>, d: set<E>, less: (E, E) -> bool)
    requires StrictWeakOrder(d, less) && x in d && s != [] && Elements(s) <= d && Sorted(s, less) && less(s[0], x)
    requires StableRearrangement([x] + s[1..], u, d, less) && Sorted(u, less) && Elements(u) <= d
    ensures Sorted([s[0]] + u, less) && Elements([s[0]] + u) <= d
  {
    assert s[0] in Elements(s);
    SameElements([x] + s[1..], u);
    forall i | 0 <= i < |u| ensures !less(u[i], s[0]) {
      assert u[i] in Elements(u) && u[i] in Elements([x] + s[1..]);
    }
  }

  lemma {:induction false} StableSortCorrect<E>(s: seq<E>, d: set<E>, less: (E, E) -> bool)
    requires StrictWeakOrder(d, less) && Elements(s) <= d
    ensures var t := StableSort(s, less);
            Sorted(t, less) && Elements(t) <= d && StableRearrangement(s, t, d, less)
    decreases |s|
  {
    if s != [] {
      assert forall y | y in s[1..] :: y in Elements(s);
      assert s[0] in Elements(s);
      var t := StableSort(s[1..], less);
      StableSortCorrect(s[1..], d, less);
      InsertSortedCorrect(s[0], t, d, less);
      assert s == [s[0]] + s[1..] + [] && [s[0]] + t + [] == [s[0]] + t;
      RearrangementInside([s[0]], s[1..], t, [], d, less);
    }
  }

  lemma StableSortIs<E>(s: seq<E>, t: seq<E>, d: set<E>, less: (E, E) -> bool)
    requires StrictWeakOrder(d, less) && Elements(s) <= d && StableRearrangement(s, t, d, less) && Sorted(t, less)
    ensures t == StableSort(s, less)
  {
    StableSortCorrect(s, d, less);
    var u := StableSort(s, less);
    SameElements(s, t);
    assert StableRearrangement(t, u, d, less);
    StableSortUnique(t, u, d, less);
  }
}
