/** The intrusive doubly linked list (lib/kernel/list.c): link surgery on shared nodes, and the
    natural merge sort that splices runs in place. */
module List {
  import opened Arithmetic
  import opened SortTheory
  import opened MergeSteps

  /** struct list_elem: two links, embedded in the caller's structure. */
  class Elem {
    var prev: Elem?
    var next: Elem?
  }

  /** A well-formed chain: head sentinel, interior elements, tail sentinel, all distinct. */
  ghost predicate Chain(s: seq<Elem>)
    reads s
  {
    && |s| >= 2
    && (forall i, j | 0 <= i < j < |s| :: s[i] != s[j])
    && s[0].prev == null
    && s[|s| - 1].next == null
    && (forall i {:trigger s[i].next} | 0 <= i < |s| - 1 :: s[i].next == s[i + 1])
    && (forall i {:trigger s[i].prev} | 1 <= i < |s| :: s[i].prev == s[i - 1])
  }

  ghost function InsertAt<T>(s: seq<T>, k: nat, x: T): seq<T>
    requires k <= |s|
  {
    s[..k] + [x] + s[k..]
  }

  /** list_insert */
  method Insert(before: Elem, elem: Elem, ghost s: seq<Elem>, ghost k: nat) returns (ghost t: seq<Elem>)
    requires Chain(s) && 1 <= k < |s| && s[k] == before && elem !in s
    modifies before, before.prev, elem
    ensures t == InsertAt(s, k, elem) && Chain(t)
  {
    t := InsertAt(s, k, elem);
    assert before.prev == s[k - 1];
    elem.prev := before.prev;
    elem.next := before;
    before.prev.next := elem;
    before.prev := elem;
  }

  ghost function RemoveAt<T>(s: seq<T>, k: nat): seq<T>
    requires k < |s|
  {
    s[..k] + s[k + 1..]
  }

  /** list_remove */
  method Remove(elem: Elem, ghost s: seq<Elem>, ghost k: nat) returns (next: Elem, ghost t: seq<Elem>)
    requires Chain(s) && 1 <= k < |s| - 1 && s[k] == elem
    modifies elem.prev, elem.next
    ensures t == RemoveAt(s, k) && Chain(t)
    ensures next == t[k]
  {
    t := RemoveAt(s, k);
    assert elem.prev == s[k - 1] && elem.next == s[k + 1];
    elem.prev.next := elem.next;
    elem.next.prev := elem.prev;
    next := elem.next;
  }

  /** The block s[f..l] moved to just before the element now at index k, which lies outside it. */
  ghost function SpliceSeq<T>(s: seq<T>, k: nat, f: nat, l: nat): seq<T>
    requires f <= l <= |s| && k <= |s| && (k < f || l <= k)
  {
    if k < f then s[..k] + s[f..l] + s[k..f] + s[l..]
    else s[..f] + s[l..k] + s[f..l] + s[k..]
  }

  /** A block of nodes whose inner links are in place. */
  ghost predicate Block(b: seq<Elem>)
    reads b
  {
    && (forall i {:trigger b[i].next} | 0 <= i < |b| - 1 :: b[i].next == b[i + 1])
    && (forall i {:trigger b[i].prev} | 1 <= i < |b| :: b[i].prev == b[i - 1])
  }

  /** The nodes of `b` are distinct from each other and from those of `u`. */
  ghost predicate Apart<T>(b: seq<T>, u: seq<T>) {
    && (forall i, j | 0 <= i < j < |b| :: b[i] != b[j])
    && (forall i, j | 0 <= i < |b| && 0 <= j < |u| :: b[i] != u[j])
  }

  /** The first half of list_splice: unlink the block from `first` to `inner`. */
  method Unlink(first: Elem, inner: Elem, ghost s: seq<Elem>, ghost f: nat, ghost l: nat)
    requires Chain(s) && 1 <= f < l < |s| && s[f] == first && s[l - 1] == inner
    modifies first.prev, inner.next
    ensures Chain(s[..f] + s[l..]) && Block(s[f..l]) && Apart(s[f..l], s[..f] + s[l..])
  {
    ghost var u := s[..f] + s[l..];
    assert first.prev == s[f - 1] && inner.next == s[l];
    first.prev.next := inner.next;
    inner.next.prev := first.prev;
  }

  /** The second half of list_splice: link a block in front of `before`. */
  method Link(before: Elem, first: Elem, inner: Elem, ghost u: seq<Elem>, ghost k: nat, ghost b: seq<Elem>)
    requires Chain(u) && 1 <= k < |u| && u[k] == before
    requires Block(b) && b != [] && b[0] == first && b[|b| - 1] == inner && Apart(b, u)
    modifies first, inner, before, u[k - 1]
    ensures Chain(u[..k] + b + u[k..])
  {
    ghost var t := u[..k] + b + u[k..];
    assert before.prev == u[k - 1];
    first.prev := before.prev;
    inner.next := before;
    before.prev.next := first;
    before.prev := inner;
  }

  lemma SpliceIsInsert<T>(s: seq<T>, k: nat, f: nat, l: nat, k': nat)
    requires f <= l <= |s| && k < |s| && (k < f || l <= k) && k' == if k < f then k else k - (l - f)
    ensures var u := s[..f] + s[l..];
            k' < |u| && u[k'] == s[k] && SpliceSeq(s, k, f, l) == u[..k'] + s[f..l] + u[k'..]
  {}

  /** list_splice, within one list. */
  method Splice(before: Elem, first: Elem, last: Elem,
                ghost s: seq<Elem>, ghost k: nat, ghost f: nat, ghost l: nat)
    requires Chain(s) && 1 <= k < |s| && 1 <= f <= l < |s| && (k < f || l <= k)
    requires s[k] == before && s[f] == first && s[l] == last
    modifies Elements(s)
    ensures Chain(SpliceSeq(s, k, f, l))
  {
    ghost var k' := if k < f then k else k - (l - f);
    SpliceIsInsert(s, k, f, l, k');
    if first == last {
      assert SpliceSeq(s, k, f, l) == s;
      return;
    }
    var inner := last.prev;
    Unlink(first, inner, s, f, l);
    ghost var u := s[..f] + s[l..];
    assert u[k' - 1] in s;
    Link(before, first, inner, u, k', s[f..l]);
  }

  type Less = (Elem, Elem) -> bool

  lemma Neighbours(s: seq<Elem>, k: nat)
    requires Chain(s) && 1 <= k < |s| - 1
    ensures s[k].next == s[k + 1] && s[k + 1].prev == s[k]
    ensures forall j | 0 <= j < |s| && j != k :: s[j] != s[k]
  {}

  /** find_end_of_run: the exclusive end of the longest nondecreasing run that starts at `a0`. */
  method FindEndOfRun(a0: Elem, b: Elem, less: Less, ghost s: seq<Elem>, ghost i: nat, ghost j: nat)
    returns (a: Elem, ghost k: nat)
    requires Chain(s) && 1 <= i < j < |s| && s[i] == a0 && s[j] == b
    ensures i < k <= j && s[k] == a
    ensures Run(s[i..k], less) && (k < j ==> less(s[k], s[k - 1]))
  {
    a, k := a0.next, i + 1;
    while a != b && !less(a, a.prev)
      invariant i < k <= j && s[k] == a
      invariant forall x | i <= x < k - 1 :: !less(s[x + 1], s[x])
      decreases j - k
    {
      a, k := a.next, k + 1;
    }
    forall x | 0 <= x < k - i - 1 ensures !less(s[i..k][x + 1], s[i..k][x]) {
      assert !less(s[i + x + 1], s[i + x]);
    }
  }

  /** inplace_merge: afterwards the chain is `t`, which differs from `s` only between i and j. */
  method InplaceMerge(a: Elem, ab: Elem, b: Elem, less: Less,
                      ghost s: seq<Elem>, ghost i: nat, ghost m: nat, ghost j: nat, ghost d: set<Elem>)
    returns (ghost t: seq<Elem>)
    requires Chain(s) && 1 <= i < m < j < |s| && s[i] == a && s[m] == ab && s[j] == b
    requires StrictWeakOrder(d, less) && Within(s, i, j, d)
    requires Run(s[i..m], less) && Run(s[m..j], less)
    modifies Elements(s)
    ensures Chain(t) && MergedWithin(s, t, i, j, d, less) && Sorted(t[i..j], less)
  {
    hide *;
    MergeStart(s, i, m, j, d, less);
    t := s;
    var a0, a1b0 := a, ab;
    ghost var p, q := i, m;
    while a0 != a1b0 && a1b0 != b
      invariant Chain(t) && |t| == |s| && Elements(t) == Elements(s)
      invariant i <= p <= q <= j && t[p] == a0 && t[q] == a1b0 && t[j] == b
      invariant MergedWithin(s, t, i, j, d, less) && Merging(t, i, p, q, j, less) && Within(t, i, j, d)
      decreases j - p
    {
      Neighbours(t, p);
      Neighbours(t, q);
      if !less(a1b0, a0) {
        MergeAdvance(t, i, p, q, j, d, less);
        a0, p := a0.next, p + 1;
      } else {
        a1b0 := a1b0.next;
        MoveKeepsMerging(s, t, i, p, q, j, d, less);
        SpliceIsMove(t, p, q);
        Splice(a0, a1b0.prev, a1b0, t, p, q, q + 1);
        t := SpliceSeq(t, p, q, q + 1);
        p, q := p + 1, q + 1;
      }
    }
    if q < j {
      Neighbours(t, q);
    }
    MergeDone(t, i, p, q, j, less);
  }

  lemma MergeStart(s: seq<Elem>, i: nat, m: nat, j: nat, d: set<Elem>, less: Less)
    requires i < m < j < |s| && StrictWeakOrder(d, less) && Within(s, i, j, d)
    requires Run(s[i..m], less) && Run(s[m..j], less)
    ensures Merging(s, i, i, m, j, less) && MergedWithin(s, s, i, j, d, less)
  {
    assert forall x | x in s[i..m] :: x in d;
    assert forall x | x in s[m..j] :: x in d;
    RunIsSorted(s[i..m], less);
    RunIsSorted(s[m..j], less);
    SortedSlice(s, i, m, less);
    SortedSlice(s, m, j, less);
  }

  /** `t` is `s` with the slice from i to j stably rearranged. */
  ghost predicate MergedWithin(s: seq<Elem>, t: seq<Elem>, i: nat, j: nat, d: set<Elem>, less: Less) {
    && i <= j <= |s| && |t| == |s| && t[..i] == s[..i] && t[j..] == s[j..]
    && Elements(t) == Elements(s) && Within(t, i, j, d)
    && StableRearrangement(s[i..j], t[i..j], d, less)
  }

  lemma SpliceIsMove<T>(t: seq<T>, p: nat, q: nat)
    requires p < q < |t|
    ensures var u := SpliceSeq(t, p, q, q + 1);
            u == MoveTo(t, p, q) && |u| == |t| && u[p + 1] == t[p] && forall x | q < x < |t| :: u[x] == t[x]
  {
    assert t[q..q + 1] == [t[q]];
    MoveToIndex(t, p, q);
  }

  /** What one splice of the merge does to the sequence of nodes. */
  lemma MoveKeepsMerging(s: seq<Elem>, t: seq<Elem>, i: nat, p: nat, q: nat, j: nat, d: set<Elem>, less: Less)
    requires StrictWeakOrder(d, less) && MergedWithin(s, t, i, j, d, less) && Merging(t, i, p, q, j, less)
    requires p < q < j && less(t[q], t[p])
    ensures var u := MoveTo(t, p, q);
            MergedWithin(s, u, i, j, d, less) && Merging(u, i, p + 1, q + 1, j, less)
            && Elements(u) == Elements(s) && Within(u, i, j, d)
  {
    var u := MoveTo(t, p, q);
    MergeMove(t, i, p, q, j, d, less);
    MoveIsStable(t, i, p, q, j, d, less);
    MoveToIndex(t, p, q);
    SameElements(t, u);
    RearrangementTransitive(s[i..j], t[i..j], u[i..j], d, less);
  }

  /** Within one pass that began with the nodes `s`: the current nodes are `t`, the elements before
      index i make up `cnt` output runs, and the rest is untouched. */
  ghost predicate PassState(s: seq<Elem>, t: seq<Elem>, i: nat, cnt: nat, d: set<Elem>, less: Less) {
    var n := |s| - 1;
    && 1 <= i <= n && |t| == |s| && t[0] == s[0] && t[i..] == s[i..]
    && Elements(t) == Elements(s) && Within(t, 1, n, d)
    && StableRearrangement(s[1..n], t[1..n], d, less)
    && Runs(t[1..i], less) <= cnt
    && Runs(s[1..n], less) == 2 * cnt + Runs(s[i..n], less)
  }

  /** One iteration that merged the runs [i, m) and [m, j). */
  lemma PassPair(s: seq<Elem>, t: seq<Elem>, u: seq<Elem>, i: nat, m: nat, j: nat, cnt: nat, d: set<Elem>, less: Less)
    requires PassState(s, t, i, cnt, d, less) && i < m < j <= |s| - 1
    requires Run(t[i..m], less) && less(t[m], t[m - 1])
    requires Run(t[m..j], less) && (j < |s| - 1 ==> less(t[j], t[j - 1]))
    requires MergedWithin(t, u, i, j, d, less) && Sorted(u[i..j], less)
    ensures PassState(s, u, j, cnt + 1, d, less)
  {
    hide Run, Runs, Sorted, StableRearrangement, Within, Elements;
    var n := |s| - 1;
    PassPairRuns(s, t, i, m, j, n, less);
    PassPairNodes(s, t, u, i, j, n, d, less);
    PassPairOutput(t, u, i, j, cnt, less);
    SuffixSlice(s, t, i, j, j);
    assert u[0] == u[..i][0] == t[..i][0];
  }

  lemma SuffixSlice<T>(s: seq<T>, t: seq<T>, i: nat, a: nat, b: nat)
    requires |t| == |s| && i <= a <= b <= |s| && t[i..] == s[i..]
    ensures t[a..b] == s[a..b] && t[a..] == s[a..]
  {
    assert t[a..] == t[i..][a - i..] && s[a..] == s[i..][a - i..];
    assert t[a..b] == t[a..][..b - a] && s[a..b] == s[a..][..b - a];
  }

  lemma PrefixSlice<T>(s: seq<T>, t: seq<T>, i: nat, a: nat, b: nat)
    requires |t| == |s| && a <= b <= i <= |s| && t[..i] == s[..i]
    ensures t[a..b] == s[a..b]
  {
    assert t[a..b] == t[..i][a..b] && s[a..b] == s[..i][a..b];
  }

  lemma JoinSlices<T>(s: seq<T>, a: nat, b: nat, c: nat)
    requires a <= b <= c <= |s|
    ensures s[a..b] + s[b..c] == s[a..c]
  {}

  lemma PassPairOutput(t: seq<Elem>, u: seq<Elem>, i: nat, j: nat, cnt: nat, less: Less)
    requires 1 <= i < j <= |t| && |u| == |t| && u[..i] == t[..i] && Sorted(u[i..j], less)
    requires Runs(t[1..i], less) <= cnt
    ensures Runs(u[1..j], less) <= cnt + 1
  {
    OneRun(u[i..j], less);
    PrefixSlice(t, u, i, 1, i);
    RunsConcatAtMost(u[1..i], u[i..j], less);
    JoinSlices(u, 1, i, j);
  }

  lemma PassPairRuns(s: seq<Elem>, t: seq<Elem>, i: nat, m: nat, j: nat, n: nat, less: Less)
    requires |t| == |s| && n < |s| && 1 <= i < m < j <= n && t[i..] == s[i..]
    requires Run(t[i..m], less) && less(t[m], t[m - 1])
    requires Run(t[m..j], less) && (j < n ==> less(t[j], t[j - 1]))
    ensures Runs(s[i..n], less) == 2 + Runs(s[j..n], less)
  {
    SuffixSlice(s, t, i, i, n);
    SuffixSlice(s, t, i, j, n);
    OneMoreRun(t, i, m, n, less);
    OneMoreRun(t, m, j, n, less);
  }

  lemma OneMoreRun(t: seq<Elem>, i: nat, m: nat, n: nat, less: Less)
    requires i < m <= n <= |t| && Run(t[i..m], less) && (m < n ==> less(t[m], t[m - 1]))
    ensures Runs(t[i..n], less) == 1 + Runs(t[m..n], less)
  {
    var r := t[i..n];
    assert r[..m - i] == t[i..m] && r[m - i..] == t[m..n];
    FirstRun(r, m - i, less);
  }

  lemma PassPairNodes(s: seq<Elem>, t: seq<Elem>, u: seq<Elem>, i: nat, j: nat, n: nat, d: set<Elem>, less: Less)
    requires |t| == |s| && n == |s| - 1 && 1 <= i <= j <= n && Within(t, 1, n, d)
    requires StableRearrangement(s[1..n], t[1..n], d, less) && MergedWithin(t, u, i, j, d, less)
    ensures StableRearrangement(s[1..n], u[1..n], d, less) && Within(u, 1, n, d)
  {
    hide Run, Runs, Class, Sorted;
    var a, b, b', c := t[1..i], t[i..j], u[i..j], t[j..n];
    PrefixSlice(t, u, i, 1, i);
    SuffixSlice(t, u, j, j, n);
    JoinSlices(t, 1, i, j);
    JoinSlices(t, 1, j, n);
    JoinSlices(u, 1, i, j);
    JoinSlices(u, 1, j, n);
    RearrangementInside(a, b, b', c, d, less);
    RearrangementTransitive(s[1..n], t[1..n], u[1..n], d, less);
    SameElements(t[1..n], u[1..n]);
    WithinElements(t, 1, n, d);
    WithinElements(u, 1, n, d);
  }

  lemma WithinElements(t: seq<Elem>, i: nat, j: nat, d: set<Elem>)
    requires i <= j <= |t|
    ensures Within(t, i, j, d) <==> Elements(t[i..j]) <= d
  {
    if Elements(t[i..j]) <= d {
      forall x | i <= x < j ensures t[x] in d {
        assert t[x] == t[i..j][x - i];
      }
    }
  }

  /** What a finished pass from the nodes `s` to the nodes `t` has achieved. */
  ghost predicate PassResult(s: seq<Elem>, t: seq<Elem>, cnt: nat, d: set<Elem>, less: Less) {
    var n := |s| - 1;
    && |t| == |s| >= 2 && t[0] == s[0] && t[n] == s[n]
    && StableRearrangement(s[1..n], t[1..n], d, less)
    && Elements(t[1..n]) == Elements(s[1..n])
    && Runs(t[1..n], less) <= cnt
    && cnt == (Runs(s[1..n], less) + 1) / 2
  }

  /** The iteration that finds a single run up to the tail. */
  lemma PassLast(s: seq<Elem>, t: seq<Elem>, i: nat, cnt: nat, d: set<Elem>, less: Less)
    requires PassState(s, t, i, cnt, d, less) && i < |s| - 1 && Run(t[i..|s| - 1], less)
    ensures PassResult(s, t, cnt + 1, d, less)
  {
    hide Run, Runs, Sorted, StableRearrangement, Within, Elements;
    var n := |s| - 1;
    SuffixSlice(s, t, i, i, n);
    SuffixSlice(s, t, i, n, |s|);
    OneRun(t[i..n], less);
    RunsConcatAtMost(t[1..i], t[i..n], less);
    JoinSlices(t, 1, i, n);
    assert t[n] == t[n..][0];
    RearrangedElements(s[1..n], t[1..n], d, less);
  }

  lemma RearrangedElements(s: seq<Elem>, t: seq<Elem>, d: set<Elem>, less: Less)
    requires StableRearrangement(s, t, d, less)
    ensures Elements(s) == Elements(t)
  {
    SameElements(s, t);
  }

  lemma PassDone(s: seq<Elem>, t: seq<Elem>, cnt: nat, d: set<Elem>, less: Less)
    requires |s| >= 2 && PassState(s, t, |s| - 1, cnt, d, less)
    ensures PassResult(s, t, cnt, d, less)
  {
    hide Run, Runs, Sorted, StableRearrangement, Within, Elements;
    var n := |s| - 1;
    assert s[n..n] == [] && Runs(s[n..n], less) == 0 by { EmptyRuns(less); }
    assert t[n] == t[n..][0];
    RearrangedElements(s[1..n], t[1..n], d, less);
  }

  lemma EmptyRuns(less: Less)
    ensures Runs<Elem>([], less) == 0
  {}

  lemma PassStart(s: seq<Elem>, d: set<Elem>, less: Less)
    requires |s| >= 2 && Within(s[1..|s| - 1], 0, |s| - 2, d)
    ensures PassState(s, s, 1, 0, d, less) && Within(s, 1, |s| - 1, d)
  {
    assert forall x | 1 <= x < |s| - 1 :: s[x] == s[1..|s| - 1][x - 1];
  }

  /** struct list with its two sentinels; `contents` is the sequence of interior elements. */
  class List {
    const head: Elem
    const tail: Elem
    ghost var contents: seq<Elem>

    ghost function Nodes(): seq<Elem>
      reads this
    {
      [head] + contents + [tail]
    }

    ghost predicate Valid()
      reads this, Nodes()
    {
      Chain(Nodes())
    }

    /** list_init */
    constructor ()
      ensures Valid() && contents == [] && fresh(head) && fresh(tail)
    {
      var h, t := new Elem, new Elem;
      h.prev, h.next := null, t;
      t.prev, t.next := h, null;
      head, tail := h, t;
      contents := [];
    }

    lemma Shape()
      requires Valid()
      ensures var s := Nodes();
              && Chain(s) && |s| == |contents| + 2
              && s[0] == head && s[|s| - 1] == tail && s[1] == head.next && s[1..|s| - 1] == contents
    {}

    /** One pass of list_sort: merges the runs two by two and counts the runs that result. */
    method SortPass(less: Less, ghost d: set<Elem>) returns (outputRuns: nat)
      requires Valid() && StrictWeakOrder(d, less) && Within(contents, 0, |contents|, d)
      modifies this`contents, Elements(Nodes())
      ensures Valid() && StableRearrangement(old(contents), contents, d, less)
      ensures Elements(Nodes()) == old(Elements(Nodes())) && Within(contents, 0, |contents|, d)
      ensures Runs(contents, less) <= outputRuns
      ensures outputRuns == (Runs(old(contents), less) + 1) / 2
    {
      hide Chain, Run, Runs, Sorted, StableRearrangement, Within, Elements, StrictWeakOrder;
      hide PassState, PassResult, MergedWithin;
      ghost var s := Nodes();
      ghost var t, i, n := s, 1, |s| - 1;
      Shape();
      PassStart(s, d, less);
      outputRuns := 0;
      var a0 := head.next;
      while a0 != tail
        invariant Chain(t) && |t| == |s| && t[n] == tail && 1 <= i <= n && a0 == t[i]
        invariant Elements(t) == Elements(s) && Within(t, 1, n, d)
        invariant PassState(s, t, i, outputRuns, d, less)
        decreases n - i
      {
        var a1b0, m := FindEndOfRun(a0, tail, less, t, i, n);
        if a1b0 == tail {
          ChainDistinct(t, m, n);
          PassLast(s, t, i, outputRuns, d, less);
          outputRuns := outputRuns + 1;
          break;
        }
        var b1, j := FindEndOfRun(a1b0, tail, less, t, m, n);
        SubRange(t, 1, n, i, j, d);
        ghost var u := InplaceMerge(a0, a1b0, b1, less, t, i, m, j, d);
        PassPair(s, t, u, i, m, j, outputRuns, d, less);
        PassStateFacts(s, u, j, outputRuns + 1, d, less);
        MergedFacts(t, u, i, j, n, d, less);
        outputRuns := outputRuns + 1;
        t, i := u, j;
        a0 := b1;
      }
      if a0 == tail {
        ChainDistinct(t, i, n);
        PassDone(s, t, outputRuns, d, less);
      }
      contents := t[1..n];
      PassResultFacts(s, t, outputRuns, d, less);
      assert Nodes() == t;
    }

    /** list_sort: leaves the stable sort of the contents, after at most 1 + log2 of the initial
        number of runs passes. */
    method Sort(less: Less) returns (ghost passes: nat)
      requires Valid() && StrictWeakOrder(Elements(contents), less)
      modifies this`contents, Elements(Nodes())
      ensures Valid()
      ensures Sorted(contents, less)
      ensures StableRearrangement(old(contents), contents, old(Elements(contents)), less)
      ensures contents == StableSort(old(contents), less)
      ensures passes == 1 || (passes > 1 && Pow2(passes - 1) <= Runs(old(contents), less) - 1)
    {
      hide *;
      ghost var s, d := contents, Elements(contents);
      SortStart(s, d, less);
      passes := 0;
      while true
        invariant Valid() && Elements(Nodes()) == old(Elements(Nodes())) && Within(contents, 0, |contents|, d)
        invariant StableRearrangement(s, contents, d, less)
        invariant passes == 0 || Pow2(passes) <= Runs(s, less) - 1
        invariant Pow2(passes) * (Runs(contents, less) - 1) <= Runs(s, less) - 1
        decreases Runs(contents, less)
      {
        ghost var before := contents;
        var outputRuns := SortPass(less, d);
        RearrangementTransitive(s, before, contents, d, less);
        Halved(passes, Runs(before, less), outputRuns, Runs(contents, less), Runs(s, less) - 1);
        passes := passes + 1;
        if outputRuns <= 1 {
          break;
        }
      }
      SortDone(s, contents, d, less);
    }

    /** list_reverse */
    method Reverse()
      requires Valid()
      modifies this`contents, Elements(Nodes())
      ensures Valid() && contents == Reversed(old(contents))
    {
      ghost var s := Nodes();
      ghost var t := [head] + Reversed(contents) + [tail];
      Shape();
      if head.next != tail {
        ReverseLinks(head, tail, s, t);
      }
      contents := Reversed(contents);
    }

    /** list_insert_ordered: in a sorted list, the new element goes after its equals. */
    method InsertOrdered(elem: Elem, less: Less)
      requires Valid() && elem !in Nodes() && Sorted(contents, less)
      requires StrictWeakOrder(Elements(contents) + {elem}, less)
      modifies this`contents, Elements(Nodes()), elem
      ensures Valid() && contents == StableSort(old(contents) + [elem], less)
    {
      hide Chain, Sorted, StrictWeakOrder, StableSort, InsertAt;
      ghost var s := Nodes();
      Shape();
      NodesOf(s);
      var e, k := OrderedPosition(elem, head.next, tail, less, s);
      InsertIntoNodes(head, contents, tail, k, elem, less);
      InsertInside(head, contents, tail, k - 1, elem);
      ghost var t := Insert(e, elem, s, k);
      contents := InsertAt(contents, k - 1, elem);
    }
  }

  lemma InsertIntoNodes(head: Elem, c: seq<Elem>, tail: Elem, k: nat, elem: Elem, less: Less)
    requires 1 <= k <= |c| + 1 && Sorted(c, less) && StrictWeakOrder(Elements(c) + {elem}, less)
    requires var s := [head] + c + [tail];
             (forall x | 1 <= x < k :: !less(elem, s[x])) && (k < |s| - 1 ==> less(elem, s[k]))
    ensures InsertAt(c, k - 1, elem) == StableSort(c + [elem], less)
  {
    hide Sorted, StrictWeakOrder, StableSort, InsertAt;
    var s := [head] + c + [tail];
    forall x | 0 <= x < k - 1 ensures !less(elem, c[x]) {
      assert c[x] == s[x + 1];
    }
    InsertPosition(c, k - 1, elem, less);
  }

  /** The search of list_insert_ordered: the first element that `elem` is less than. */
  method OrderedPosition(elem: Elem, first: Elem, tail: Elem, less: Less, ghost s: seq<Elem>)
    returns (e: Elem, ghost k: nat)
    requires Chain(s) && s[1] == first && s[|s| - 1] == tail
    ensures 1 <= k < |s| && s[k] == e
    ensures forall x | 1 <= x < k :: !less(elem, s[x])
    ensures k < |s| - 1 ==> less(elem, s[k])
  {
    e, k := first, 1;
    while e != tail && !less(elem, e)
      invariant 1 <= k < |s| && e == s[k]
      invariant forall x | 1 <= x < k :: !less(elem, s[x])
      decreases |s| - k
    {
      e, k := e.next, k + 1;
    }
  }

  lemma InsertInside<T>(a: T, c: seq<T>, b: T, k: nat, x: T)
    requires k <= |c|
    ensures [a] + InsertAt(c, k, x) + [b] == InsertAt([a] + c + [b], k + 1, x)
  {}

  /** The interior of `t` is the interior of `s` backwards. */
  ghost predicate Mirrored(s: seq<Elem>, t: seq<Elem>) {
    var n := |s| - 1;
    |t| == |s| >= 2 && t[0] == s[0] && t[n] == s[n] && forall x | 1 <= x < n :: t[x] == s[n - x]
  }

  method ReverseLinks(head: Elem, tail: Elem, ghost s: seq<Elem>, ghost t: seq<Elem>)
    requires Chain(s) && |s| > 2 && s[0] == head && s[|s| - 1] == tail && Mirrored(s, t)
    modifies Elements(s)
    ensures Chain(t)
  {
    ghost var n := |s| - 1;
    SwapLinks(head, tail, s);
    head.next, tail.prev := tail.prev, head.next;
    head.next.prev, tail.prev.next := tail.prev.next, head.next.prev;
    assert s[1] == t[n - 1] && s[n - 1] == t[1];
    forall x | 0 <= x < n ensures t[x].next == t[x + 1] {
      if 1 <= x < n - 1 {
        assert t[x] == s[n - x] && t[x + 1] == s[n - x - 1];
      }
    }
    forall x | 1 <= x <= n ensures t[x].prev == t[x - 1] {
      if 1 < x < n {
        assert t[x] == s[n - x] && t[x - 1] == s[n - x + 1];
      }
    }
    MirroredDistinct(s, t);
  }

  lemma MirroredDistinct(s: seq<Elem>, t: seq<Elem>)
    requires Mirrored(s, t) && forall i, j | 0 <= i < j < |s| :: s[i] != s[j]
    ensures forall i, j | 0 <= i < j < |t| :: t[i] != t[j]
  {}

  /** The loop of list_reverse: exchanges the two links of every interior node. */
  method SwapLinks(head: Elem, tail: Elem, ghost s: seq<Elem>)
    requires Chain(s) && |s| > 2 && s[0] == head && s[|s| - 1] == tail
    modifies Elements(s)
    ensures forall x | 1 <= x < |s| - 1 :: s[x].prev == s[x + 1] && s[x].next == s[x - 1]
    ensures head.prev == null && head.next == s[1] && tail.next == null && tail.prev == s[|s| - 2]
  {
    var e := head.next;
    ghost var i, n := 1, |s| - 1;
    NodesOf(s);
    while e != tail
      invariant 1 <= i <= n && e == s[i]
      invariant forall x | 1 <= x < i :: s[x].prev == s[x + 1] && s[x].next == s[x - 1]
      invariant forall x | i <= x <= n :: s[x].prev == s[x - 1]
      invariant forall x | i <= x < n :: s[x].next == s[x + 1]
      invariant head.prev == null && head.next == s[1] && tail.next == null
      decreases n - i
    {
      e.prev, e.next := e.next, e.prev;
      e, i := e.prev, i + 1;
    }
  }

  ghost function Reversed<T>(s: seq<T>): (r: seq<T>)
    ensures |r| == |s| && forall i | 0 <= i < |s| :: r[i] == s[|s| - 1 - i]
  {
    if s == [] then [] else Reversed(s[1..]) + [s[0]]
  }

  lemma AppendedAndInserted<T>(c: seq<T>, k: nat, x: T)
    requires k <= |c|
    ensures c[..k] + c[k..] + [x] + [] == c + [x]
    ensures c[..k] + [x] + c[k..] + [] == InsertAt(c, k, x)
  {}

  lemma InsertIndex<T>(c: seq<T>, k: nat, x: T)
    requires k <= |c|
    ensures |InsertAt(c, k, x)| == |c| + 1
    ensures forall i | 0 <= i <= |c| :: InsertAt(c, k, x)[i] == if i < k then c[i] else if i == k then x else c[i - 1]
  {}

  /** Everything before the place is at most the new element, everything after it is greater. */
  lemma InsertedSorted(c: seq<Elem>, k: nat, elem: Elem, less: Less)
    requires k <= |c| && Sorted(c, less)
    requires (forall x | 0 <= x < k :: !less(elem, c[x])) && (forall x | k <= x < |c| :: !less(c[x], elem))
    ensures Sorted(InsertAt(c, k, elem), less)
  {
    InsertIndex(c, k, elem);
  }

  /** The place list_insert_ordered finds makes the result the stable sort of the list and the new
      element behind it. */
  lemma InsertPosition(c: seq<Elem>, k: nat, elem: Elem, less: Less)
    requires k <= |c| && Sorted(c, less) && StrictWeakOrder(Elements(c) + {elem}, less)
    requires (forall x | 0 <= x < k :: !less(elem, c[x])) && (k < |c| ==> less(elem, c[k]))
    ensures InsertAt(c, k, elem) == StableSort(c + [elem], less)
  {
    var d := Elements(c) + {elem};
    forall x | k <= x < |c| ensures less(elem, c[x]) && !less(c[x], elem) && c[x] in d {
      assert c[k] in Elements(c) && c[x] in Elements(c);
      assert x == k || !less(c[x], c[k]);
    }
    InsertedSorted(c, k, elem, less);
    InsertedStable(c, k, elem, d, less);
    assert Elements(c + [elem]) <= d;
    StableSortIs(c + [elem], InsertAt(c, k, elem), d, less);
  }

  lemma InsertedStable(c: seq<Elem>, k: nat, elem: Elem, d: set<Elem>, less: Less)
    requires k <= |c| && StrictWeakOrder(d, less) && elem in d
    requires forall x | k <= x < |c| :: c[x] in d && less(elem, c[x])
    ensures StableRearrangement(c + [elem], InsertAt(c, k, elem), d, less)
  {
    MoveLeft(c[..k], c[k..], elem, [], d, less);
    AppendedAndInserted(c, k, elem);
  }

  lemma NodesOf(s: seq<Elem>)
    ensures forall i | 0 <= i < |s| :: s[i] in Elements(s)
  {}

  lemma SortStart(s: seq<Elem>, d: set<Elem>, less: Less)
    requires d == Elements(s)
    ensures Within(s, 0, |s|, d) && StableRearrangement(s, s, d, less)
    ensures Pow2(0) * (Runs(s, less) - 1) == Runs(s, less) - 1
  {}

  lemma SortDone(s: seq<Elem>, t: seq<Elem>, d: set<Elem>, less: Less)
    requires d == Elements(s) && StrictWeakOrder(d, less)
    requires StableRearrangement(s, t, d, less) && Within(t, 0, |t|, d) && Runs(t, less) <= 1
    ensures Sorted(t, less) && t == StableSort(s, less)
  {
    SameElements(s, t);
    if t != [] {
      OneRun(t, less);
      RunIsSorted(t, less);
    }
    StableSortIs(s, t, d, less);
  }

  /** A pass at least halves the number of run boundaries. */
  lemma Halved(passes: nat, runs: nat, outputRuns: nat, newRuns: nat, bound: int)
    requires outputRuns == (runs + 1) / 2 && newRuns <= outputRuns
    requires Pow2(passes) * (runs - 1) <= bound
    ensures outputRuns > 1 ==> newRuns < runs && Pow2(passes + 1) <= bound
    ensures runs >= 1 ==> Pow2(passes + 1) * (newRuns - 1) <= bound
  {
    var p := Pow2(passes);
    assert Pow2(passes + 1) == 2 * p;
    MulMono(2 * (outputRuns - 1), runs - 1, p);
    assert (2 * (outputRuns - 1)) * p == (2 * p) * (outputRuns - 1);
    MulMono(newRuns - 1, outputRuns - 1, 2 * p);
    if outputRuns > 1 {
      MulMono(1, outputRuns - 1, 2 * p);
    }
  }

  lemma ChainDistinct(s: seq<Elem>, i: nat, j: nat)
    requires Chain(s) && i < |s| && j < |s| && s[i] == s[j]
    ensures i == j
  {}

  lemma SubRange(s: seq<Elem>, a: nat, b: nat, i: nat, j: nat, d: set<Elem>)
    requires Within(s, a, b, d) && a <= i <= j <= b
    ensures Within(s, i, j, d)
  {}

  lemma PassStateFacts(s: seq<Elem>, t: seq<Elem>, i: nat, cnt: nat, d: set<Elem>, less: Less)
    requires |s| >= 1 && PassState(s, t, i, cnt, d, less)
    ensures |t| == |s| && 1 <= i <= |s| - 1 && t[i..] == s[i..]
    ensures Elements(t) == Elements(s) && Within(t, 1, |s| - 1, d)
  {}

  lemma MergedFacts(t: seq<Elem>, u: seq<Elem>, i: nat, j: nat, n: nat, d: set<Elem>, less: Less)
    requires MergedWithin(t, u, i, j, d, less) && j <= n < |t|
    ensures u[j] == t[j] && u[n] == t[n]
  {
    assert u[j] == u[j..][0] && t[j] == t[j..][0] && u[n] == u[j..][n - j] && t[n] == t[j..][n - j];
  }

  lemma PassResultFacts(s: seq<Elem>, t: seq<Elem>, cnt: nat, d: set<Elem>, less: Less)
    requires |s| >= 2 && PassResult(s, t, cnt, d, less) && Within(t, 1, |t| - 1, d)
    ensures var n := |s| - 1;
            && t[0] == s[0] && StableRearrangement(s[1..n], t[1..n], d, less)
            && Elements(t) == Elements(s)
            && Runs(t[1..n], less) <= cnt && cnt == (Runs(s[1..n], less) + 1) / 2
            && Within(t[1..n], 0, n - 1, d)
  {
    hide Runs, StableRearrangement, Elements;
    EndsAndMiddle(s, t);
  }

  lemma EndsAndMiddle(s: seq<Elem>, t: seq<Elem>)
    requires |s| == |t| >= 2 && s[0] == t[0] && s[|s| - 1] == t[|t| - 1]
    requires Elements(s[1..|s| - 1]) == Elements(t[1..|t| - 1])
    ensures Elements(s) == Elements(t)
  {
    var n := |s| - 1;
    assert s == [s[0]] + s[1..n] + [s[n]] && t == [t[0]] + t[1..n] + [t[n]];
    forall x ensures x in s <==> x in t {
      assert x in s[1..n] <==> x in Elements(s[1..n]);
      assert x in t[1..n] <==> x in Elements(t[1..n]);
    }
  }
}
