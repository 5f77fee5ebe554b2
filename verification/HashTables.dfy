/** The resizing hash table of hash.c: it refines a finite set of elements no two of which are equal in
    the caller's sense, whether or not memory for resizing is available. */
module HashTables {
  import opened Wrappers
  import opened Arithmetic
  import opened BitOps

  /** The functions a table is made for. */
  datatype Ops<!E> = Ops(hash: E -> nat, less: (E, E) -> bool)

  ghost predicate Same<E>(ops: Ops<E>, x: E, y: E) { !ops.less(x, y) && !ops.less(y, x) }

  /** What the table asks of them: being the same is an equivalence, and the same elements have the same
      hash value. */
  ghost predicate Lawful<E(!new)>(ops: Ops<E>) {
    && (forall x :: Same(ops, x, x))
    && (forall x, y, z :: Same(ops, x, y) && Same(ops, y, z) ==> Same(ops, x, z))
    && (forall x, y :: Same(ops, x, y) ==> ops.hash(x) == ops.hash(y))
  }

  /** find_bucket */
  function BucketOf<E>(ops: Ops<E>, x: E, cnt: nat): (i: nat)
    requires cnt > 0
    ensures i < cnt
  {
    And(ops.hash(x), cnt - 1)
  }

  /** For a number of buckets that is a power of two this is the remainder of the hash value. */
  lemma BucketIsRemainder<E>(ops: Ops<E>, x: E, cnt: nat)
    requires IsPowerOf2(cnt)
    ensures BucketOf(ops, x, cnt) == ops.hash(x) % cnt
  {
    PowerOf2Iff(cnt);
    AndMask(ops.hash(x), Log2(cnt));
  }

  // ---- tables ----

  ghost predicate Placed<E>(ops: Ops<E>, bs: seq<seq<E>>) {
    forall i, j | 0 <= i < |bs| && 0 <= j < |bs[i]| :: BucketOf(ops, bs[i][j], |bs|) == i
  }

  ghost predicate NoTwins<E>(ops: Ops<E>, bs: seq<seq<E>>) {
    forall i, j, k | 0 <= i < |bs| && 0 <= j < k < |bs[i]| :: !Same(ops, bs[i][j], bs[i][k])
  }

  ghost predicate InTable<E>(bs: seq<seq<E>>, x: E) { exists i :: 0 <= i < |bs| && x in bs[i] }

  /** The buckets hold exactly the elements of content, each in its place and once. */
  ghost predicate Table<E(!new)>(ops: Ops<E>, bs: seq<seq<E>>, content: set<E>) {
    |bs| > 0 && Placed(ops, bs) && NoTwins(ops, bs) && forall x :: x in content <==> InTable(bs, x)
  }

  lemma InBucket<E(!new)>(ops: Ops<E>, bs: seq<seq<E>>, content: set<E>, x: E)
    requires Table(ops, bs, content) && x in content
    ensures x in bs[BucketOf(ops, x, |bs|)]
  {
    assert InTable(bs, x);
    var i :| 0 <= i < |bs| && x in bs[i];
    var j :| 0 <= j < |bs[i]| && bs[i][j] == x;
    assert BucketOf(ops, bs[i][j], |bs|) == i;
  }

  lemma FromBucket<E(!new)>(ops: Ops<E>, bs: seq<seq<E>>, content: set<E>, i: nat, j: nat)
    requires Table(ops, bs, content) && i < |bs| && j < |bs[i]|
    ensures bs[i][j] in content && BucketOf(ops, bs[i][j], |bs|) == i
  {
    assert InTable(bs, bs[i][j]);
  }

  lemma OtherBucket<E(!new)>(ops: Ops<E>, x: E, y: E, cnt: nat)
    requires Lawful(ops) && cnt > 0 && BucketOf(ops, x, cnt) != BucketOf(ops, y, cnt)
    ensures !Same(ops, x, y)
  {}

  /** No two elements of a table are the same. */
  lemma ContentApart<E(!new)>(ops: Ops<E>, bs: seq<seq<E>>, content: set<E>, x: E, y: E)
    requires Lawful(ops) && Table(ops, bs, content) && x in content && y in content && x != y
    ensures !Same(ops, x, y)
  {
    InBucket(ops, bs, content, x);
    InBucket(ops, bs, content, y);
    if BucketOf(ops, x, |bs|) != BucketOf(ops, y, |bs|) {
      OtherBucket(ops, x, y, |bs|);
    } else {
      var b := bs[BucketOf(ops, x, |bs|)];
      var j :| 0 <= j < |b| && b[j] == x;
      var k :| 0 <= k < |b| && b[k] == y;
      assert j < k || k < j;
    }
  }

  /** list_push_front onto the bucket where the element belongs. */
  function Pushed<E>(ops: Ops<E>, bs: seq<seq<E>>, e: E): seq<seq<E>>
    requires |bs| > 0
  {
    var i := BucketOf(ops, e, |bs|);
    bs[i := [e] + bs[i]]
  }

  lemma PushedOk<E(!new)>(ops: Ops<E>, bs: seq<seq<E>>, content: set<E>, e: E)
    requires Lawful(ops) && Table(ops, bs, content) && forall x | x in content :: !Same(ops, x, e)
    ensures e !in content && Table(ops, Pushed(ops, bs, e), content + {e})
  {
    assert Same(ops, e, e);
    var i, cs := BucketOf(ops, e, |bs|), Pushed(ops, bs, e);
    PushedPlaces(ops, bs, content, e);
    forall x ensures x in content + {e} <==> InTable(cs, x) {
      PushedHolds(ops, bs, e, x);
    }
  }

  lemma PushedPlaces<E(!new)>(ops: Ops<E>, bs: seq<seq<E>>, content: set<E>, e: E)
    requires Table(ops, bs, content) && forall x | x in content :: !Same(ops, x, e)
    ensures Placed(ops, Pushed(ops, bs, e)) && NoTwins(ops, Pushed(ops, bs, e))
  {
    var i, cs := BucketOf(ops, e, |bs|), Pushed(ops, bs, e);
    forall a, j | 0 <= a < |cs| && 0 <= j < |cs[a]| ensures BucketOf(ops, cs[a][j], |cs|) == a {
      if a == i && j > 0 {
        assert cs[a][j] == bs[a][j - 1];
      }
    }
    forall a, j, k | 0 <= a < |cs| && 0 <= j < k < |cs[a]| ensures !Same(ops, cs[a][j], cs[a][k]) {
      if a == i {
        assert cs[a][k] == bs[a][k - 1];
        if j == 0 {
          FromBucket(ops, bs, content, a, k - 1);
        } else {
          assert cs[a][j] == bs[a][j - 1];
        }
      }
    }
  }

  lemma PushedHolds<E(!new)>(ops: Ops<E>, bs: seq<seq<E>>, e: E, x: E)
    requires |bs| > 0
    ensures InTable(Pushed(ops, bs, e), x) <==> x == e || InTable(bs, x)
  {
    var i, cs := BucketOf(ops, e, |bs|), Pushed(ops, bs, e);
    assert e in cs[i];
    if InTable(bs, x) {
      var a :| 0 <= a < |bs| && x in bs[a];
      assert x in cs[a];
    }
    if InTable(cs, x) {
      var a :| 0 <= a < |cs| && x in cs[a];
      assert a == i ==> x == e || x in bs[a];
    }
  }

  /** list_remove of the element at position k of bucket i. */
  function Dropped<E>(bs: seq<seq<E>>, i: nat, k: nat): seq<seq<E>>
    requires i < |bs| && k < |bs[i]|
  {
    bs[i := bs[i][..k] + bs[i][k + 1..]]
  }

  lemma DroppedOk<E(!new)>(ops: Ops<E>, bs: seq<seq<E>>, content: set<E>, i: nat, k: nat)
    requires Lawful(ops) && Table(ops, bs, content) && i < |bs| && k < |bs[i]|
    ensures bs[i][k] in content && Table(ops, Dropped(bs, i, k), content - {bs[i][k]})
  {
    FromBucket(ops, bs, content, i, k);
    var cs, e := Dropped(bs, i, k), bs[i][k];
    DroppedPlaces(ops, bs, i, k);
    forall x ensures x in content - {e} <==> InTable(cs, x) {
      DroppedHolds(ops, bs, content, i, k, x);
    }
  }

  lemma DroppedPlaces<E(!new)>(ops: Ops<E>, bs: seq<seq<E>>, i: nat, k: nat)
    requires |bs| > 0 && Placed(ops, bs) && NoTwins(ops, bs) && i < |bs| && k < |bs[i]|
    ensures Placed(ops, Dropped(bs, i, k)) && NoTwins(ops, Dropped(bs, i, k))
  {
    var cs := Dropped(bs, i, k);
    forall a, j | 0 <= a < |cs| && 0 <= j < |cs[a]| ensures BucketOf(ops, cs[a][j], |cs|) == a {
      assert cs[a][j] == bs[a][if a == i && j >= k then j + 1 else j];
    }
    forall a, j, m | 0 <= a < |cs| && 0 <= j < m < |cs[a]| ensures !Same(ops, cs[a][j], cs[a][m]) {
      assert cs[a][j] == bs[a][if a == i && j >= k then j + 1 else j];
      assert cs[a][m] == bs[a][if a == i && m >= k then m + 1 else m];
    }
  }

  lemma DroppedHolds<E(!new)>(ops: Ops<E>, bs: seq<seq<E>>, content: set<E>, i: nat, k: nat, x: E)
    requires Lawful(ops) && Table(ops, bs, content) && i < |bs| && k < |bs[i]|
    ensures InTable(Dropped(bs, i, k), x) <==> x != bs[i][k] && InTable(bs, x)
  {
    var cs, e := Dropped(bs, i, k), bs[i][k];
    assert Same(ops, e, e);
    if InTable(cs, x) {
      var a :| 0 <= a < |cs| && x in cs[a];
      var j :| 0 <= j < |cs[a]| && cs[a][j] == x;
      var j' := if a == i && j >= k then j + 1 else j;
      assert bs[a][j'] == x && x in bs[a];
      FromBucket(ops, bs, content, a, j');
      FromBucket(ops, bs, content, i, k);
    }
    if x != e && InTable(bs, x) {
      var a :| 0 <= a < |bs| && x in bs[a];
      var j :| 0 <= j < |bs[a]| && bs[a][j] == x;
      assert cs[a][if a == i && j > k then j - 1 else j] == x;
    }
  }

  // ---- resizing ----

  const MIN_BUCKETS: nat := 4

  /** The number of buckets that rehash aims at: a power of two, about one for two elements. */
  ghost predicate Ideal(cnt: nat, elems: nat) {
    && IsPowerOf2(cnt) && cnt >= MIN_BUCKETS && elems < 4 * cnt
    && (cnt > MIN_BUCKETS ==> 2 * cnt <= elems)
  }

  /** The element stands in front of position j of bucket i. */
  ghost predicate Before<E>(bs: seq<seq<E>>, i: nat, j: nat, x: E) {
    exists a, b :: 0 <= a < |bs| && 0 <= b < |bs[a]| && bs[a][b] == x && (a < i || (a == i && b < j))
  }

  ghost predicate Moved<E(!new)>(bs: seq<seq<E>>, i: nat, j: nat, moved: set<E>) {
    forall x :: x in moved <==> Before(bs, i, j, x)
  }

  /** What has been moved is not the same as what comes next. */
  lemma MovedApart<E(!new)>(ops: Ops<E>, bs: seq<seq<E>>, content: set<E>, i: nat, j: nat, moved: set<E>)
    requires Lawful(ops) && Table(ops, bs, content) && i < |bs| && j < |bs[i]| && Moved(bs, i, j, moved)
    ensures forall x | x in moved :: !Same(ops, x, bs[i][j])
  {
    forall x | x in moved ensures !Same(ops, x, bs[i][j]) {
      assert Before(bs, i, j, x);
      var a, b :| 0 <= a < |bs| && 0 <= b < |bs[a]| && bs[a][b] == x && (a < i || (a == i && b < j));
      FromBucket(ops, bs, content, a, b);
      FromBucket(ops, bs, content, i, j);
      if a < i {
        OtherBucket(ops, x, bs[i][j], |bs|);
      }
    }
  }

  lemma MovedOne<E(!new)>(bs: seq<seq<E>>, i: nat, j: nat, moved: set<E>)
    requires i < |bs| && j < |bs[i]| && Moved(bs, i, j, moved)
    ensures Moved(bs, i, j + 1, moved + {bs[i][j]})
  {
    forall x ensures x in moved + {bs[i][j]} <==> Before(bs, i, j + 1, x) {
      if Before(bs, i, j, x) {
        var a, b :| 0 <= a < |bs| && 0 <= b < |bs[a]| && bs[a][b] == x && (a < i || (a == i && b < j));
        assert bs[a][b] == x;
      }
      assert bs[i][j] == x ==> Before(bs, i, j + 1, x);
    }
  }

  lemma MovedBucket<E(!new)>(bs: seq<seq<E>>, i: nat, moved: set<E>)
    requires i < |bs| && Moved(bs, i, |bs[i]|, moved)
    ensures Moved(bs, i + 1, 0, moved)
  {
    forall x ensures Before(bs, i, |bs[i]|, x) <==> Before(bs, i + 1, 0, x) {}
  }

  lemma MovedAll<E(!new)>(ops: Ops<E>, bs: seq<seq<E>>, content: set<E>, moved: set<E>)
    requires Table(ops, bs, content) && Moved(bs, |bs|, 0, moved)
    ensures moved == content
  {
    forall x ensures x in moved <==> x in content {
      if x in content {
        assert InTable(bs, x);
        var a :| 0 <= a < |bs| && x in bs[a];
        var b :| 0 <= b < |bs[a]| && bs[a][b] == x;
        assert Before(bs, |bs|, 0, x);
      }
      if x in moved {
        assert Before(bs, |bs|, 0, x);
        var a, b :| 0 <= a < |bs| && 0 <= b < |bs[a]| && bs[a][b] == x;
        FromBucket(ops, bs, content, a, b);
      }
    }
  }

  lemma EmptyTable<E(!new)>(ops: Ops<E>, bs: seq<seq<E>>)
    requires |bs| > 0 && forall i | 0 <= i < |bs| :: bs[i] == []
    ensures Table(ops, bs, {})
  {}

  class Hash<E(==,!new)> {
    const ops: Ops<E>
    var buckets: array<seq<E>>
    var elemCnt: nat
    ghost var content: set<E>

    ghost predicate Valid()
      reads this, buckets
    {
      && Lawful(ops) && Table(ops, buckets[..], content) && elemCnt == |content|
      && IsPowerOf2(buckets.Length) && buckets.Length >= MIN_BUCKETS
    }

    /** hash_init, when memory for the buckets is available */
    constructor (ops: Ops<E>)
      requires Lawful(ops)
      ensures Valid() && content == {} && fresh(buckets) && this.ops == ops && buckets.Length == MIN_BUCKETS
    {
      this.ops := ops;
      buckets := new seq<E>[MIN_BUCKETS](i => []);
      elemCnt := 0;
      content := {};
      new;
      EmptyTable(ops, buckets[..]);
      PowerOf2(2);
    }

    /** find_elem: the position of an element that is the same as e. */
    method FindElem(i: nat, e: E) returns (k: Option<nat>)
      requires i < buckets.Length
      ensures k.Some? ==> k.value < |buckets[i]| && Same(ops, buckets[i][k.value], e)
      ensures k.None? ==> forall j | 0 <= j < |buckets[i]| :: !Same(ops, buckets[i][j], e)
    {
      var j := 0;
      while j < |buckets[i]|
        invariant 0 <= j <= |buckets[i]| && forall m | 0 <= m < j :: !Same(ops, buckets[i][m], e)
      {
        if !ops.less(buckets[i][j], e) && !ops.less(e, buckets[i][j]) {
          return Some(j);
        }
        j := j + 1;
      }
      return None;
    }

    /** What FindElem says about a bucket holds for the whole table. */
    lemma OnlyThere(e: E)
      requires Valid() && forall x | x in buckets[BucketOf(ops, e, buckets.Length)] :: !Same(ops, x, e)
      ensures forall x | x in content :: !Same(ops, x, e)
    {
      forall x | x in content ensures !Same(ops, x, e) {
        InBucket(ops, buckets[..], content, x);
        if BucketOf(ops, x, buckets.Length) != BucketOf(ops, e, buckets.Length) {
          OtherBucket(ops, x, e, buckets.Length);
        }
      }
    }

    /** hash_find: the element of the table that is the same as e, if there is one. */
    method Find(e: E) returns (r: Option<E>)
      requires Valid()
      ensures match r case Some(x) => x in content && Same(ops, x, e)
                      case None => forall x | x in content :: !Same(ops, x, e)
    {
      var i := BucketOf(ops, e, buckets.Length);
      var k := FindElem(i, e);
      if k == None {
        OnlyThere(e);
        return None;
      }
      FromBucket(ops, buckets[..], content, i, k.value);
      return Some(buckets[i][k.value]);
    }

    /** insert_elem */
    method InsertElem(i: nat, e: E)
      requires Valid() && i == BucketOf(ops, e, buckets.Length) && forall x | x in content :: !Same(ops, x, e)
      modifies this`elemCnt, this`content, buckets
      ensures Valid() && content == old(content) + {e}
    {
      ghost var bs := buckets[..];
      PushedOk(ops, bs, content, e);
      elemCnt := elemCnt + 1;
      buckets[i] := [e] + buckets[i];
      content := content + {e};
      assert buckets[..] == Pushed(ops, bs, e);
    }

    /** remove_elem */
    method RemoveElem(i: nat, k: nat)
      requires Valid() && i < buckets.Length && k < |buckets[i]|
      modifies this`elemCnt, this`content, buckets
      ensures Valid() && old(buckets[i][k]) in old(content) && content == old(content) - {old(buckets[i][k])}
      ensures buckets == old(buckets) && forall x | x in content :: !Same(ops, x, old(buckets[i][k]))
    {
      ghost var bs, e := buckets[..], buckets[i][k];
      DroppedOk(ops, bs, content, i, k);
      forall x | x in content && x != e ensures !Same(ops, x, e) {
        ContentApart(ops, bs, content, x, e);
      }
      elemCnt := elemCnt - 1;
      buckets[i] := buckets[i][..k] + buckets[i][k + 1..];
      content := content - {e};
      assert buckets[..] == Dropped(bs, i, k);
    }

    /** The loop of rehash that computes the number of buckets to use. */
    method IdealCount() returns (cnt: nat)
      ensures Ideal(cnt, elemCnt)
    {
      cnt := elemCnt / 2;
      if cnt < MIN_BUCKETS {
        cnt := MIN_BUCKETS;
      }
      ghost var wanted := cnt;
      while !IsPowerOf2(cnt)
        invariant 0 < cnt <= wanted && Log2(cnt) == Log2(wanted)
        decreases cnt
      {
        TurnOffKeeps(cnt);
        cnt := TurnOffLeast1Bit(cnt);
      }
      PowerOf2Iff(cnt);
      FourBuckets(wanted);
    }

    /** rehash: the elements stay, and when memory is available there are as many buckets as there should be. */
    method Rehash(reliable: bool)
      requires Valid()
      modifies this`buckets
      ensures Valid() && content == old(content) && elemCnt == old(elemCnt)
      ensures buckets == old(buckets) || fresh(buckets)
      ensures reliable ==> Ideal(buckets.Length, elemCnt)
    {
      var cnt := IdealCount();
      if cnt == buckets.Length {
        return;
      }
      var granted: bool := *;
      if !(granted || reliable) {
        return;
      }
      var oldBuckets := buckets;
      ghost var bs := buckets[..];
      var newBuckets := new seq<E>[cnt](i => []);
      EmptyTable(ops, newBuckets[..]);
      ghost var moved: set<E> := {};
      var i := 0;
      while i < oldBuckets.Length
        invariant 0 <= i <= oldBuckets.Length && oldBuckets[..] == bs
        invariant Table(ops, newBuckets[..], moved) && Moved(bs, i, 0, moved)
        modifies newBuckets
      {
        ghost var more := MoveBucket(newBuckets, oldBuckets[i], bs, i, moved);
        MovedBucket(bs, i, more);
        moved := more;
        i := i + 1;
      }
      MovedAll(ops, bs, content, moved);
      buckets := newBuckets;
    }

    /** The inner loop of rehash: each element goes to the front of its new bucket. */
    method MoveBucket(newBuckets: array<seq<E>>, bucket: seq<E>, ghost bs: seq<seq<E>>, ghost i: nat,
                      ghost moved: set<E>)
      returns (ghost moved': set<E>)
      requires Lawful(ops) && Table(ops, bs, content) && i < |bs| && bucket == bs[i]
      requires Table(ops, newBuckets[..], moved) && Moved(bs, i, 0, moved)
      modifies newBuckets
      ensures Table(ops, newBuckets[..], moved') && Moved(bs, i, |bucket|, moved')
    {
      hide Table, Moved, Lawful;
      NotEmpty(ops, newBuckets[..], moved);
      moved' := moved;
      var j := 0;
      while j < |bucket|
        invariant 0 <= j <= |bucket|
        invariant Table(ops, newBuckets[..], moved') && Moved(bs, i, j, moved')
      {
        var e := bucket[j];
        MovedApart(ops, bs, content, i, j, moved');
        PushedOk(ops, newBuckets[..], moved', e);
        MovedOne(bs, i, j, moved');
        ghost var was := newBuckets[..];
        var b := BucketOf(ops, e, newBuckets.Length);
        newBuckets[b] := [e] + newBuckets[b];
        assert newBuckets[..] == Pushed(ops, was, e);
        moved' := moved' + {e};
        j := j + 1;
      }
    }

    /** hash_insert: e goes in unless the same element is there already. */
    method Insert(e: E, reliable: bool) returns (r: Option<E>)
      requires Valid()
      modifies this, buckets
      ensures Valid() && (buckets == old(buckets) || fresh(buckets))
      ensures match r case Some(x) => x in old(content) && Same(ops, x, e) && content == old(content)
                      case None => (forall x | x in old(content) :: !Same(ops, x, e)) && content == old(content) + {e}
      ensures reliable ==> Ideal(buckets.Length, elemCnt)
    {
      var i := BucketOf(ops, e, buckets.Length);
      var k := FindElem(i, e);
      r := None;
      if k == None {
        OnlyThere(e);
        InsertElem(i, e);
      } else {
        FromBucket(ops, buckets[..], content, i, k.value);
        r := Some(buckets[i][k.value]);
      }
      Rehash(reliable);
    }

    /** hash_replace: e goes in, in place of the same element. */
    method Replace(e: E, reliable: bool) returns (r: Option<E>)
      requires Valid()
      modifies this, buckets
      ensures Valid() && (buckets == old(buckets) || fresh(buckets))
      ensures match r case Some(x) => x in old(content) && Same(ops, x, e) && content == old(content) - {x} + {e}
                      case None => (forall x | x in old(content) :: !Same(ops, x, e)) && content == old(content) + {e}
      ensures reliable ==> Ideal(buckets.Length, elemCnt)
    {
      var i := BucketOf(ops, e, buckets.Length);
      var k := FindElem(i, e);
      r := None;
      if k == None {
        OnlyThere(e);
      } else {
        var x := buckets[i][k.value];
        r := Some(x);
        RemoveElem(i, k.value);
        OthersApart(x, e);
      }
      InsertElem(i, e);
      Rehash(reliable);
    }

    lemma OthersApart(x: E, e: E)
      requires Lawful(ops) && Same(ops, x, e) && forall y | y in content :: !Same(ops, y, x)
      ensures forall y | y in content :: !Same(ops, y, e)
    {
      forall y | y in content ensures !Same(ops, y, e) {
        if Same(ops, y, e) {
          assert Same(ops, e, x);
        }
      }
    }

    /** hash_delete */
    method Delete(e: E, reliable: bool) returns (r: Option<E>)
      requires Valid()
      modifies this, buckets
      ensures Valid() && (buckets == old(buckets) || fresh(buckets))
      ensures match r case Some(x) => x in old(content) && Same(ops, x, e) && content == old(content) - {x}
                      case None => (forall x | x in old(content) :: !Same(ops, x, e)) && content == old(content)
      ensures reliable && r.Some? ==> Ideal(buckets.Length, elemCnt)
    {
      var i := BucketOf(ops, e, buckets.Length);
      var k := FindElem(i, e);
      if k == None {
        OnlyThere(e);
        return None;
      }
      r := Some(buckets[i][k.value]);
      RemoveElem(i, k.value);
      Rehash(reliable);
    }
  }

  lemma NotEmpty<E(!new)>(ops: Ops<E>, bs: seq<seq<E>>, content: set<E>)
    requires Table(ops, bs, content)
    ensures |bs| > 0
  {}

  lemma FourBuckets(wanted: nat)
    requires wanted >= MIN_BUCKETS
    ensures Pow2(Log2(wanted)) >= MIN_BUCKETS
  {
    assert Pow2(0) == 1 && Pow2(1) == 2 * Pow2(0);
    Pow2AtLeast4(Log2(wanted));
  }

  lemma {:induction false} Pow2AtLeast4(k: nat)
    ensures k >= 2 ==> Pow2(k) >= 4
    decreases k
  {
    if k > 2 {
      Pow2AtLeast4(k - 1);
    } else {
      assert Pow2(2) == 2 * Pow2(1) == 4;
    }
  }

  // ---- iteration ----

  /** The elements bucket by bucket. */
  function Flat<E>(bs: seq<seq<E>>): seq<E> {
    if bs == [] then [] else Flat(bs[..|bs| - 1]) + bs[|bs| - 1]
  }

  lemma FlatNext<E>(bs: seq<seq<E>>, b: nat)
    requires b < |bs|
    ensures Flat(bs[..b + 1]) == Flat(bs[..b]) + bs[b]
  {
    assert bs[..b + 1][..b] == bs[..b];
  }

  lemma {:induction false} FlatAt<E>(bs: seq<seq<E>>, b: nat, k: nat)
    requires b < |bs| && k < |bs[b]|
    ensures |Flat(bs[..b])| + k < |Flat(bs)| && Flat(bs)[|Flat(bs[..b])| + k] == bs[b][k]
    decreases |bs|
  {
    var n := |bs| - 1;
    if b < n {
      FlatAt(bs[..n], b, k);
      assert bs[..n][..b] == bs[..b];
    }
  }

  lemma {:induction false} FlatPlace<E>(bs: seq<seq<E>>, p: nat) returns (b: nat, k: nat)
    requires p < |Flat(bs)|
    ensures b < |bs| && k < |bs[b]| && p == |Flat(bs[..b])| + k && Flat(bs)[p] == bs[b][k]
    decreases |bs|
  {
    var n := |bs| - 1;
    if p < |Flat(bs[..n])| {
      b, k := FlatPlace(bs[..n], p);
      assert bs[..n][..b] == bs[..b];
    } else {
      b, k := n, p - |Flat(bs[..n])|;
    }
  }

  lemma {:induction false} SetOfDistinct<E>(s: seq<E>)
    requires forall p, q | 0 <= p < q < |s| :: s[p] != s[q]
    ensures |set x | x in s| == |s|
    decreases |s|
  {
    if s != [] {
      var n := |s| - 1;
      SetOfDistinct(s[..n]);
      assert (set x | x in s) == (set x | x in s[..n]) + {s[n]};
      assert s[n] !in s[..n];
    }
  }

  /** Bucket by bucket, every element of the table comes exactly once. */
  lemma FlatIsContent<E(!new)>(ops: Ops<E>, bs: seq<seq<E>>, content: set<E>)
    requires Lawful(ops) && Table(ops, bs, content)
    ensures |Flat(bs)| == |content|
    ensures forall x :: x in content <==> x in Flat(bs)
    ensures forall p, q | 0 <= p < q < |Flat(bs)| :: Flat(bs)[p] != Flat(bs)[q]
  {
    var f := Flat(bs);
    forall p, q | 0 <= p < q < |f| ensures f[p] != f[q] {
      var a, j := FlatPlace(bs, p);
      var b, k := FlatPlace(bs, q);
      FromBucket(ops, bs, content, a, j);
      FromBucket(ops, bs, content, b, k);
      assert Same(ops, f[p], f[p]);
    }
    forall x ensures x in content <==> x in f {
      if x in content {
        InBucket(ops, bs, content, x);
        var b := BucketOf(ops, x, |bs|);
        var k :| 0 <= k < |bs[b]| && bs[b][k] == x;
        FlatAt(bs, b, k);
      }
      if x in f {
        var p :| 0 <= p < |f| && f[p] == x;
        var b, k := FlatPlace(bs, p);
        FromBucket(ops, bs, content, b, k);
      }
    }
    SetOfDistinct(f);
    assert (set x | x in f) == content;
  }

  class HashIterator<E(==,!new)> {
    const hash: Hash<E>
    var bucket: nat
    /** The position of the current element; -1 stands for the head of the first list. */
    var elem: int

    /** hash_first */
    constructor (hash: Hash<E>)
      requires hash.Valid()
      ensures this.hash == hash && Ready() && Visited() == 0
    {
      this.hash := hash;
      bucket := 0;
      elem := -1;
    }

    /** Elements are left to be visited, or it is not known yet that none are. */
    ghost predicate Ready()
      reads this, hash, hash.buckets
    {
      bucket < hash.buckets.Length && -1 <= elem < |hash.buckets[bucket]| && (elem == -1 ==> bucket == 0)
    }

    /** How many elements have been visited. */
    ghost function Visited(): nat
      reads this, hash, hash.buckets
      requires Ready()
    {
      |Flat(hash.buckets[..bucket])| + elem + 1
    }

    /** hash_next: the elements come bucket by bucket, each exactly once. */
    method Next() returns (r: Option<E>)
      requires hash.Valid() && Ready()
      modifies this
      ensures var all := Flat(hash.buckets[..]);
              if old(Visited()) < |all|
              then r == Some(all[old(Visited())]) && Ready() && Visited() == old(Visited()) + 1
              else r == None && old(Visited()) == |hash.content|
    {
      ghost var bs, n := hash.buckets[..], Visited();
      FlatIsContent(hash.ops, bs, hash.content);
      hide Hash.Valid, Flat;
      elem := elem + 1;
      assert hash.buckets[..bucket] == bs[..bucket];
      while elem == |hash.buckets[bucket]|
        invariant bucket < hash.buckets.Length && 0 <= elem <= |hash.buckets[bucket]|
        invariant n == |Flat(bs[..bucket])| + elem
        decreases hash.buckets.Length - bucket
      {
        FlatNext(bs, bucket);
        bucket := bucket + 1;
        if bucket >= hash.buckets.Length {
          assert bs[..bucket] == bs;
          return None;
        }
        elem := 0;
      }
      FlatAt(bs, bucket, elem);
      assert hash.buckets[..bucket] == bs[..bucket];
      return Some(hash.buckets[bucket][elem]);
    }
  }
}
