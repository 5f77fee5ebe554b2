/** The worker's side of a MapReduce job (task_handler.c, lib.c): map tasks partition what they emit by a
    hash of the key, reduce tasks read their parts back, sort them and call reduce once for each key. */
module MapReduce {
  import opened Bytes
  import opened Codec

  datatype Kv = Kv(key: seq<Byte>, value: seq<Byte>)

  // ---- comparing keys ----

  /** strncmp from position i on */
  function Strncmp(a: seq<Byte>, b: seq<Byte>, n: nat, i: nat): int
    requires i <= n <= |a| && n <= |b|
    decreases n - i
  {
    if i == n then 0
    else if a[i] != b[i] then (a[i] as int) - (b[i] as int)
    else if a[i] == 0 then 0
    else Strncmp(a, b, n, i + 1)
  }

  /** by_key */
  function ByKey(a: seq<Byte>, b: seq<Byte>): int {
    var ret := Strncmp(a, b, if |a| < |b| then |a| else |b|, 0);
    if ret == 0 then |a| - |b| else ret
  }

  lemma {:induction false} StrncmpZero(a: seq<Byte>, b: seq<Byte>, n: nat, i: nat)
    requires i <= n <= |a| && n <= |b| && NulFree(a)
    ensures Strncmp(a, b, n, i) == 0 <==> a[i..n] == b[i..n]
    decreases n - i
  {
    if i < n {
      StrncmpZero(a, b, n, i + 1);
      assert a[i..n] == [a[i]] + a[i + 1..n];
      assert b[i..n] == [b[i]] + b[i + 1..n];
    }
  }

  lemma {:induction false} StrncmpFlip(a: seq<Byte>, b: seq<Byte>, n: nat, i: nat)
    requires i <= n <= |a| && n <= |b|
    ensures Strncmp(a, b, n, i) == 0 - Strncmp(b, a, n, i)
    decreases n - i
  {
    if i < n {
      StrncmpFlip(a, b, n, i + 1);
    }
  }

  /** Without NUL bytes only equal keys compare equal, and the order of two keys turns around with them. */
  lemma ByKeyZero(a: seq<Byte>, b: seq<Byte>)
    requires NulFree(a)
    ensures ByKey(a, b) == 0 <==> a == b
    ensures ByKey(a, b) == 0 - ByKey(b, a)
  {
    var n := if |a| < |b| then |a| else |b|;
    StrncmpZero(a, b, n, 0);
    StrncmpFlip(a, b, n, 0);
    if a[0..n] == b[0..n] && |a| == |b| {
      assert a == a[0..n] && b == b[0..n];
    }
  }

  /** The first place where two keys differ decides, and if there is none the shorter key comes first. */
  lemma {:induction false} ByKeyFrom(a: seq<Byte>, b: seq<Byte>, i: nat)
    requires NulFree(a) && NulFree(b) && i <= |a| && i <= |b| && a[..i] == b[..i]
    ensures var n := if |a| < |b| then |a| else |b|; Strncmp(a, b, n, 0) == Strncmp(a, b, n, i)
    decreases i
  {
    if i > 0 {
      assert a[..i][i - 1] == b[..i][i - 1];
      assert a[..i - 1] == a[..i][..i - 1] == b[..i][..i - 1] == b[..i - 1];
      ByKeyFrom(a, b, i - 1);
    }
  }

  lemma FirstDifference(a: seq<Byte>, b: seq<Byte>, i: nat)
    requires NulFree(a) && NulFree(b) && i <= |a| && i <= |b| && a[..i] == b[..i]
    ensures i == |a| && i < |b| ==> ByKey(a, b) < 0
    ensures i < |a| && i == |b| ==> ByKey(a, b) > 0
    ensures i < |a| && i < |b| && a[i] != b[i] ==> (ByKey(a, b) < 0 <==> a[i] < b[i]) && ByKey(a, b) != 0
  {
    ByKeyFrom(a, b, i);
  }

  /** by_key is transitive, so that sorting by it makes sense. */
  lemma {:induction false} ByKeyTransitive(a: seq<Byte>, b: seq<Byte>, c: seq<Byte>, i: nat)
    requires NulFree(a) && NulFree(b) && NulFree(c) && ByKey(a, b) <= 0 && ByKey(b, c) <= 0
    requires i <= |a| && i <= |b| && i <= |c| && a[..i] == b[..i] == c[..i]
    ensures ByKey(a, c) <= 0
    decreases |a| - i
  {
    FirstDifference(a, b, i);
    FirstDifference(b, c, i);
    FirstDifference(a, c, i);
    hide ByKey;
    if i == |a| {
      if i == |c| {
        assert a == a[..i] && c == c[..i];
        ByKeyZero(a, c);
      }
    } else if i < |b| && i < |c| && a[i] == b[i] == c[i] {
      assert a[..i + 1] == a[..i] + [a[i]];
      assert b[..i + 1] == b[..i] + [b[i]];
      assert c[..i + 1] == c[..i] + [c[i]];
      ByKeyTransitive(a, b, c, i + 1);
    }
  }

  // ---- grouping ----

  ghost predicate KeysNulFree(s: seq<Kv>) { forall i | 0 <= i < |s| :: NulFree(s[i].key) }

  ghost predicate SortedByKey(s: seq<Kv>) { forall i, j | 0 <= i < j < |s| :: ByKey(s[i].key, s[j].key) <= 0 }

  /** One call of reduce: a key and its values. */
  datatype Group = Group(key: seq<Byte>, values: seq<seq<Byte>>)

  function Pairs(key: seq<Byte>, values: seq<seq<Byte>>): (s: seq<Kv>)
    ensures |s| == |values| && forall i | 0 <= i < |s| :: s[i] == Kv(key, values[i])
  {
    seq(|values|, i requires 0 <= i < |values| => Kv(key, values[i]))
  }

  /** The pairs that the groups are made of, in order. */
  function Ungroup(gs: seq<Group>): seq<Kv> {
    if gs == [] then [] else Ungroup(gs[..|gs| - 1]) + Pairs(gs[|gs| - 1].key, gs[|gs| - 1].values)
  }

  ghost predicate DistinctKeys(gs: seq<Group>) { forall i, j | 0 <= i < j < |gs| :: gs[i].key != gs[j].key }

  /** The groups of a sequence of pairs: a group for each key, with all the values of the key in order. */
  ghost predicate GroupsOf(s: seq<Kv>, gs: seq<Group>) {
    Ungroup(gs) == s && DistinctKeys(gs) && forall i | 0 <= i < |gs| :: gs[i].values != []
  }

  /** All values of a key, in order. */
  function Values(s: seq<Kv>, key: seq<Byte>): seq<seq<Byte>> {
    if s == [] then []
    else Values(s[..|s| - 1], key) + (if s[|s| - 1].key == key then [s[|s| - 1].value] else [])
  }

  lemma {:induction false} ValuesConcat(a: seq<Kv>, b: seq<Kv>, key: seq<Byte>)
    ensures Values(a + b, key) == Values(a, key) + Values(b, key)
    decreases |b|
  {
    if b == [] {
      assert a + b == a;
    } else {
      var n := |b| - 1;
      ValuesConcat(a, b[..n], key);
      assert (a + b)[..|a + b| - 1] == a + b[..n];
    }
  }

  lemma {:induction false} ValuesOfPairs(key: seq<Byte>, values: seq<seq<Byte>>, k: seq<Byte>)
    ensures Values(Pairs(key, values), k) == if k == key then values else []
    decreases |values|
  {
    if values != [] {
      var n := |values| - 1;
      ValuesOfPairs(key, values[..n], k);
      assert Pairs(key, values)[..n] == Pairs(key, values[..n]);
    }
  }

  /** The group of a key holds all its values, and keys without a group have no values. */
  lemma {:induction false} GroupHasValues(gs: seq<Group>, k: seq<Byte>)
    requires DistinctKeys(gs)
    ensures forall i | 0 <= i < |gs| && gs[i].key == k :: Values(Ungroup(gs), k) == gs[i].values
    ensures (forall i | 0 <= i < |gs| :: gs[i].key != k) ==> Values(Ungroup(gs), k) == []
    decreases |gs|
  {
    if gs != [] {
      var n := |gs| - 1;
      GroupHasValues(gs[..n], k);
      ValuesConcat(Ungroup(gs[..n]), Pairs(gs[n].key, gs[n].values), k);
      ValuesOfPairs(gs[n].key, gs[n].values, k);
    }
  }

  /** In a sorted sequence the pairs of a key stand side by side. */
  lemma SideBySide(s: seq<Kv>, i: nat, j: nat, k: nat)
    requires KeysNulFree(s) && SortedByKey(s) && i < j < k < |s| && s[i].key != s[j].key
    ensures s[i].key != s[k].key
  {
    ByKeyZero(s[i].key, s[j].key);
    ByKeyZero(s[j].key, s[k].key);
  }

  /** The pairs in front of p1 have been handed to reduce, and none of their keys comes again. */
  ghost predicate Grouped(s: seq<Kv>, p1: nat, gs: seq<Group>) {
    p1 <= |s| && GroupsOf(s[..p1], gs)
    && forall g, j | 0 <= g < |gs| && p1 <= j < |s| :: s[j].key != gs[g].key
  }

  /** The pairs from p1 up to p2 have the same key. */
  ghost predicate OneKey(s: seq<Kv>, p1: nat, p2: nat) {
    p1 < p2 && forall j | p1 <= j < p2 && j < |s| :: s[j].key == s[p1].key
  }

  /** One call of reduce, with its output written. */
  method CallReduce(kvs: seq<Kv>, p1: nat, p2: nat, writer: Writer, reduce: Group -> Kv, ghost calls: seq<Group>)
    returns (g: Group)
    requires KeysNulFree(kvs) && SortedByKey(kvs) && p2 <= |kvs| && Grouped(kvs, p1, calls) && OneKey(kvs, p1, p2)
    requires p2 < |kvs| ==> kvs[p1].key != kvs[p2].key
    modifies writer
    ensures Grouped(kvs, p2, calls + [g])
    ensures writer.outfile == old(writer.outfile) + (Record(reduce(g).key) + Record(reduce(g).value))
  {
    hide Record, SortedByKey;
    g := Group(kvs[p1].key, ValuesFrom(kvs, p1, p2));
    var kv := reduce(g);
    writer.Write(kv.key);
    writer.Write(kv.value);
    NewGroup(kvs, calls, p1, p2);
    KeyIsDone(kvs, p1, p2);
  }

  /** reduce_kvs behind its call of qsort: the pairs of each key are handed to reduce together. */
  method ReduceKvs(kvs: seq<Kv>, writer: Writer, reduce: Group -> Kv) returns (calls: seq<Group>)
    requires KeysNulFree(kvs) && SortedByKey(kvs)
    modifies writer
    ensures GroupsOf(kvs, calls)
    ensures writer.outfile == old(writer.outfile) + Output(calls, reduce)
  {
    hide Record, ByKey, SortedByKey, Grouped, GroupsOf, OneKey, Output, KeysNulFree;
    var p1, p2 := 0, 1;
    calls := [];
    GroupingBegins(kvs, reduce);
    while p1 < |kvs|
      invariant 0 <= p1 < p2 && p1 <= |kvs| && (p1 < |kvs| ==> p2 <= |kvs|)
      invariant Grouped(kvs, p1, calls) && OneKey(kvs, p1, p2)
      invariant writer.outfile == old(writer.outfile) + Output(calls, reduce)
      decreases |kvs| - p1, |kvs| - p2
    {
      KeysCompared(kvs, p1, p2);
      if p2 >= |kvs| || ByKey(kvs[p1].key, kvs[p2].key) != 0 {
        if p2 > p1 {
          var g := CallReduce(kvs, p1, p2, writer, reduce, calls);
          OutputMore(calls, g, reduce);
          calls := calls + [g];
        }
        p1 := p2;
        NextKey(kvs, p1);
      }
      p2 := p2 + 1;
    }
    assert kvs[..p1] == kvs;
    GroupingEnds(kvs, calls);
  }

  lemma GroupingBegins(s: seq<Kv>, reduce: Group -> Kv)
    ensures Grouped(s, 0, []) && OneKey(s, 0, 1) && Output([], reduce) == []
  {}

  lemma GroupingEnds(s: seq<Kv>, gs: seq<Group>)
    requires Grouped(s, |s|, gs)
    ensures GroupsOf(s, gs)
  {
    assert s[..|s|] == s;
  }

  lemma NextKey(s: seq<Kv>, p: nat)
    ensures OneKey(s, p, p + 1)
  {}

  lemma KeysCompared(s: seq<Kv>, p1: nat, p2: nat)
    requires KeysNulFree(s) && p1 < |s| && OneKey(s, p1, p2)
    ensures p2 < |s| ==> (ByKey(s[p1].key, s[p2].key) == 0 <==> s[p1].key == s[p2].key)
    ensures p2 < |s| && s[p1].key == s[p2].key ==> OneKey(s, p1, p2 + 1)
  {
    if p2 < |s| {
      ByKeyZero(s[p1].key, s[p2].key);
    }
  }

  function ValuesFrom(s: seq<Kv>, i: nat, j: nat): (v: seq<seq<Byte>>)
    requires i <= j <= |s|
    ensures |v| == j - i
  {
    seq(j - i, k requires 0 <= k < j - i => s[i + k].value)
  }

  /** What the calls of reduce write. */
  function Output(calls: seq<Group>, reduce: Group -> Kv): seq<Byte> {
    if calls == [] then []
    else
      var kv := reduce(calls[|calls| - 1]);
      Output(calls[..|calls| - 1], reduce) + (Record(kv.key) + Record(kv.value))
  }

  lemma OutputMore(calls: seq<Group>, g: Group, reduce: Group -> Kv)
    ensures Output(calls + [g], reduce) == Output(calls, reduce) + (Record(reduce(g).key) + Record(reduce(g).value))
  {
    hide Record;
    assert (calls + [g])[..|calls|] == calls;
  }

  lemma NewGroup(s: seq<Kv>, gs: seq<Group>, p1: nat, p2: nat)
    requires p1 < p2 <= |s| && GroupsOf(s[..p1], gs)
    requires forall j | p1 <= j < p2 :: s[j].key == s[p1].key
    requires forall g, j | 0 <= g < |gs| && p1 <= j < |s| :: s[j].key != gs[g].key
    ensures GroupsOf(s[..p2], gs + [Group(s[p1].key, ValuesFrom(s, p1, p2))])
  {
    var g := Group(s[p1].key, ValuesFrom(s, p1, p2));
    assert (gs + [g])[..|gs|] == gs;
    assert Pairs(g.key, g.values) == s[p1..p2];
    assert s[..p2] == s[..p1] + s[p1..p2];
  }

  /** Behind the last pair of a key the key does not come again. */
  lemma KeyIsDone(s: seq<Kv>, p1: nat, p2: nat)
    requires KeysNulFree(s) && SortedByKey(s) && p1 < p2 <= |s| && (p2 < |s| ==> s[p1].key != s[p2].key)
    ensures forall j | p2 <= j < |s| :: s[j].key != s[p1].key
  {
    hide SortedByKey;
    forall j | p2 <= j < |s| ensures s[j].key != s[p1].key {
      if j > p2 {
        SideBySide(s, p1, p2, j);
      }
    }
  }
}
