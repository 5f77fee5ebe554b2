/** A whole MapReduce job: over all reduce tasks, reduce is called once for each key that any map task
    emitted, with all the values that were emitted for it. */
module MapReduceJob {
  import opened Wrappers
  import opened Bytes
  import opened Codec
  import opened MapReduce

  // ---- partitioning ----

  /** A char is signed: its sign is extended before it is XORed in. */
  function SignExtended(b: Byte): bv32 { if b >= 128 then 0xFFFF_FF00 | (b as bv32) else b as bv32 }

  /** One round of ihash's loop. */
  function FnvStep(hash: bv32, b: Byte): bv32 { (hash * 0x811C_9DC5) ^ SignExtended(b) }

  function Fnv(buf: seq<Byte>): bv32 {
    if buf == [] then 0 else FnvStep(Fnv(buf[..|buf| - 1]), buf[|buf| - 1])
  }

  function Masked(hash: bv32): nat { (hash & 0x7fff_ffff) as nat }

  function Ihash(buf: seq<Byte>): nat { Masked(Fnv(buf)) }

  /** ihash */
  method IHash(buf: seq<Byte>) returns (r: nat)
    ensures r == Ihash(buf)
  {
    hide SignExtended, FnvStep, Masked;
    var hash: bv32 := 0;
    var i := 0;
    while i < |buf|
      invariant 0 <= i <= |buf| && hash == Fnv(buf[..i])
    {
      assert buf[..i + 1][..i] == buf[..i];
      hash := FnvStep(hash, buf[i]);
      i := i + 1;
    }
    assert buf[..i] == buf;
    return Masked(hash);
  }

  /** The reduce task that a key goes to. */
  function TaskOf(key: seq<Byte>, n: nat): (r: nat)
    requires n > 0
    ensures r < n
  {
    Ihash(key) % n
  }

  /** The pairs that go to reduce task r. */
  function Part(s: seq<Kv>, r: nat, n: nat): seq<Kv>
    requires n > 0
  {
    if s == [] then []
    else Part(s[..|s| - 1], r, n) + (if TaskOf(s[|s| - 1].key, n) == r then [s[|s| - 1]] else [])
  }

  /** The buffers that are written for some pairs. */
  function Buffers(s: seq<Kv>): seq<seq<Byte>> {
    if s == [] then [] else Buffers(s[..|s| - 1]) + [s[|s| - 1].key, s[|s| - 1].value]
  }

  lemma BuffersMore(s: seq<Kv>, kv: Kv)
    ensures Records(Buffers(s + [kv])) == Records(Buffers(s)) + Record(kv.key) + Record(kv.value)
  {
    hide Record;
    assert (s + [kv])[..|s|] == s;
    var bs := Buffers(s);
    var two := bs + [kv.key, kv.value];
    assert two[..|two| - 1] == bs + [kv.key];
    assert (bs + [kv.key])[..|bs|] == bs;
  }

  lemma PartMore(s: seq<Kv>, i: nat, r: nat, n: nat)
    requires n > 0 && i < |s|
    ensures Part(s[..i + 1], r, n) == Part(s[..i], r, n) + (if TaskOf(s[i].key, n) == r then [s[i]] else [])
  {
    hide TaskOf;
    assert s[..i + 1][..i] == s[..i];
  }

  /** open_map_writers */
  method OpenMapWriters(n: nat) returns (writers: array<Writer>)
    ensures fresh(writers) && writers.Length == n
    ensures forall r | 0 <= r < n :: fresh(writers[r]) && writers[r].outfile == []
    ensures forall q, r | 0 <= q < r < n :: writers[q] != writers[r]
  {
    var blank := new Writer();
    writers := new Writer[n](i => blank);
    var i := 0;
    while i < n
      invariant 0 <= i <= n && blank !in writers[..i]
      invariant forall r | 0 <= r < i :: fresh(writers[r]) && writers[r].outfile == []
      invariant forall q, r | 0 <= q < r < i :: writers[q] != writers[r]
    {
      var w := new Writer();
      writers[i] := w;
      i := i + 1;
    }
  }

  /** write_map_kvs: file r gets the pairs whose keys go to reduce task r, in order. */
  method WriteMapKvs(kvs: seq<Kv>, n: nat) returns (files: seq<seq<Byte>>)
    requires n > 0
    ensures |files| == n && forall r | 0 <= r < n :: files[r] == Records(Buffers(Part(kvs, r, n)))
  {
    hide Records, Record, Buffers, Part, Ihash;
    var writers := OpenMapWriters(n);
    var i := 0;
    NothingWritten(n);
    while i < |kvs|
      invariant 0 <= i <= |kvs|
      invariant forall r | 0 <= r < n :: writers[r].outfile == Records(Buffers(Part(kvs[..i], r, n)))
      invariant forall r | 0 <= r < n :: fresh(writers[r])
      invariant forall q, r | 0 <= q < r < n :: writers[q] != writers[r]
    {
      var kv := kvs[i];
      var hash := IHash(kv.key);
      var reduceTask := hash % n;
      WrittenMore(kvs, i, n, reduceTask);
      writers[reduceTask].Write(kv.key);
      writers[reduceTask].Write(kv.value);
      i := i + 1;
    }
    assert kvs[..i] == kvs;
    files := seq(n, r requires 0 <= r < n reads writers, writers[..] => writers[r].outfile);
  }

  lemma NothingWritten(n: nat)
    requires n > 0
    ensures forall s: seq<Kv>, r: nat :: Records(Buffers(Part(s[..0], r, n))) == []
  {}

  lemma WrittenMore(kvs: seq<Kv>, i: nat, n: nat, task: nat)
    requires n > 0 && i < |kvs| && task == TaskOf(kvs[i].key, n)
    ensures forall r: nat :: Records(Buffers(Part(kvs[..i + 1], r, n))) ==
              Records(Buffers(Part(kvs[..i], r, n)))
              + (if r == task then Record(kvs[i].key) + Record(kvs[i].value) else [])
  {
    hide Records, Record, Buffers, Part, TaskOf;
    forall r: nat ensures Records(Buffers(Part(kvs[..i + 1], r, n))) ==
              Records(Buffers(Part(kvs[..i], r, n)))
              + (if r == task then Record(kvs[i].key) + Record(kvs[i].value) else [])
    {
      var p := Part(kvs[..i], r, n);
      PartMore(kvs, i, r, n);
      BuffersMore(p, kvs[i]);
      assert p + [] == p;
    }
  }

  // ---- reading back ----

  /** Records taken in pairs; a last one without a partner is left out. */
  function Paired(bs: seq<seq<Byte>>): (s: seq<Kv>)
    ensures |s| == |bs| / 2
  {
    if |bs| < 2 then [] else [Kv(bs[0], bs[1])] + Paired(bs[2..])
  }

  function AllPairs(files: seq<seq<Byte>>): seq<Kv> {
    if files == [] then [] else AllPairs(files[..|files| - 1]) + Paired(From(files[|files| - 1], 0))
  }

  function Entries(files: seq<seq<Byte>>): (n: nat)
    ensures |AllPairs(files)| <= n / 2
  {
    if files == [] then 0 else Entries(files[..|files| - 1]) + |From(files[|files| - 1], 0)|
  }

  lemma FilesMore(files: seq<seq<Byte>>, i: nat)
    requires i < |files|
    ensures AllPairs(files[..i + 1]) == AllPairs(files[..i]) + Paired(From(files[i], 0))
    ensures Entries(files[..i + 1]) == Entries(files[..i]) + |From(files[i], 0)|
  {
    assert files[..i + 1][..i] == files[..i];
  }

  lemma {:induction false} FewerPairs(files: seq<seq<Byte>>, i: nat)
    requires i <= |files|
    ensures |AllPairs(files[..i])| <= |AllPairs(files)|
    decreases |files| - i
  {
    if i == |files| {
      assert files[..i] == files;
    } else {
      FilesMore(files, i);
      FewerPairs(files, i + 1);
    }
  }

  /** One file of read_map_kvs: its pairs, while there is room for them. */
  method ReadFile(file: seq<Byte>, room: nat) returns (kvs: seq<Kv>)
    requires |Paired(From(file, 0))| <= room
    ensures kvs == Paired(From(file, 0))
  {
    hide At, From, Paired, Rest;
    var reader := new Reader(file);
    kvs := [];
    ghost var all, rest := Paired(From(file, 0)), From(file, 0);
    var key := reader.Next();
    ghost var more := From(file, reader.pos);
    var value := reader.Next();
    TwoRead(rest, key, more, value, From(file, reader.pos));
    while |kvs| < room && key.Some? && value.Some?
      invariant reader.infile == file && reader.pos <= |file|
      invariant kvs + Paired(Rest(key, value, From(file, reader.pos))) == all
      decreases room - |kvs|
    {
      rest := From(file, reader.pos);
      PairRead(kvs, key.value, value.value, rest);
      kvs := kvs + [Kv(key.value, value.value)];
      key := reader.Next();
      more := From(file, reader.pos);
      value := reader.Next();
      TwoRead(rest, key, more, value, From(file, reader.pos));
    }
    NoRoomLeft(kvs, key, value, From(file, reader.pos), all, room);
  }

  lemma TwoRead(all: seq<seq<Byte>>, key: Option<seq<Byte>>, more: seq<seq<Byte>>, value: Option<seq<Byte>>,
                rest: seq<seq<Byte>>)
    requires all == if key.None? then [] else [key.value] + more
    requires more == if value.None? then [] else [value.value] + rest
    ensures Rest(key, value, rest) == all && [] + Paired(all) == Paired(all)
  {
    if key.Some? && value.Some? {
      assert [key.value, value.value] + rest == [key.value] + ([value.value] + rest);
    }
  }

  lemma PairRead(kvs: seq<Kv>, key: seq<Byte>, value: seq<Byte>, rest: seq<seq<Byte>>)
    ensures kvs + Paired(Rest(Some(key), Some(value), rest)) == kvs + [Kv(key, value)] + Paired(rest)
  {
    assert Rest(Some(key), Some(value), rest)[2..] == rest;
  }

  /** The records that are still to come, with the two that have been read. */
  function Rest(key: Option<seq<Byte>>, value: Option<seq<Byte>>, more: seq<seq<Byte>>): seq<seq<Byte>> {
    if key.None? then [] else if value.None? then [key.value] else [key.value, value.value] + more
  }

  lemma NoRoomLeft(kvs: seq<Kv>, key: Option<seq<Byte>>, value: Option<seq<Byte>>, more: seq<seq<Byte>>,
                   all: seq<Kv>, room: nat)
    requires kvs + Paired(Rest(key, value, more)) == all && |all| <= room
    requires !(|kvs| < room && key.Some? && value.Some?)
    ensures kvs == all
  {
    assert Paired(Rest(key, value, more)) == [];
  }

  /** read_map_kvs: the pairs of all files, one file after the other. */
  method ReadMapKvs(files: seq<seq<Byte>>, length: nat) returns (kvs: seq<Kv>)
    requires length == Entries(files) / 2
    ensures kvs == AllPairs(files)
  {
    hide Paired, From;
    kvs := [];
    var i := 0;
    while i < |files|
      invariant 0 <= i <= |files| && kvs == AllPairs(files[..i])
    {
      FilesMore(files, i);
      FewerPairs(files, i + 1);
      var more := ReadFile(files[i], length - |kvs|);
      kvs := kvs + more;
      i := i + 1;
    }
    assert files[..i] == files;
  }

  /** open_reduce_readers: the number of records in all files. */
  method CountEntries(files: seq<seq<Byte>>) returns (entries: nat)
    ensures entries == Entries(files)
  {
    hide Paired, From;
    entries := 0;
    var i := 0;
    while i < |files|
      invariant 0 <= i <= |files| && entries == Entries(files[..i])
    {
      FilesMore(files, i);
      var reader := new Reader(files[i]);
      var n := reader.Count();
      reader.Rewind();
      entries := entries + n;
      i := i + 1;
    }
    assert files[..i] == files;
  }

  /** What the C library's qsort promises: the same pairs, in the order of by_key. */
  ghost predicate Qsorted(s: seq<Kv>, t: seq<Kv>) { multiset(s) == multiset(t) && SortedByKey(t) }

  /** handle_reduce_task, given how qsort arranges the pairs: the file that is written and the calls of
      reduce. An odd number of records is an error. */
  method HandleReduceTask(files: seq<seq<Byte>>, ghost sorted: seq<Kv>, qsort: seq<Kv> -> seq<Kv>,
                          reduce: Group -> Kv)
    returns (ok: bool, output: seq<Byte>, calls: seq<Group>)
    requires KeysNulFree(AllPairs(files))
    requires sorted == qsort(AllPairs(files)) && Qsorted(AllPairs(files), sorted)
    ensures ok <==> Entries(files) % 2 == 0
    ensures ok ==> GroupsOf(sorted, calls) && output == Output(calls, reduce)
  {
    hide AllPairs, SortedByKey, Output, GroupsOf;
    output, calls := [], [];
    var entries := CountEntries(files);
    if entries % 2 == 1 {
      return false, output, calls;
    }
    var writer := new Writer();
    var kvs := ReadMapKvs(files, entries / 2);
    SameKeys(kvs, sorted);
    calls := ReduceKvs(qsort(kvs), writer, reduce);
    return true, writer.outfile, calls;
  }

  lemma SameKeys(s: seq<Kv>, t: seq<Kv>)
    requires KeysNulFree(s) && multiset(s) == multiset(t)
    ensures KeysNulFree(t)
  {
    forall i | 0 <= i < |t| ensures NulFree(t[i].key) {
      assert t[i] in multiset(s);
    }
  }

  // ---- the whole job ----

  lemma {:induction false} PairedBuffers(s: seq<Kv>)
    ensures Paired(Buffers(s)) == s
    decreases |s|
  {
    if s != [] {
      var t := s[1..];
      PairedBuffers(t);
      BuffersFirst(s);
      assert ([s[0].key, s[0].value] + Buffers(t))[2..] == Buffers(t);
    }
  }

  lemma {:induction false} BuffersFirst(s: seq<Kv>)
    requires s != []
    ensures Buffers(s) == [s[0].key, s[0].value] + Buffers(s[1..])
    decreases |s|
  {
    var n := |s| - 1;
    if n > 0 {
      BuffersFirst(s[..n]);
      assert s[1..][..n - 1] == s[..n][1..];
      assert s[1..][n - 1] == s[n];
    } else {
      assert s[..n] == [] && s[1..] == [];
    }
  }

  ghost predicate Fits(s: seq<Kv>) { forall i | 0 <= i < |s| :: Storable(s[i].key) && Storable(s[i].value) }

  lemma {:induction false} BuffersFit(s: seq<Kv>)
    requires Fits(s)
    ensures forall b | b in Buffers(s) :: Storable(b)
    decreases |s|
  {
    hide Storable;
    if s != [] {
      BuffersFit(s[..|s| - 1]);
    }
  }

  lemma {:induction false} PartOf(s: seq<Kv>, r: nat, n: nat)
    requires n > 0 && Fits(s) && KeysNulFree(s)
    ensures Fits(Part(s, r, n)) && KeysNulFree(Part(s, r, n))
    decreases |s|
  {
    hide Storable, TaskOf;
    if s != [] {
      PartOf(s[..|s| - 1], r, n);
    }
  }

  /** The values of a key all go to one reduce task, and it gets them all. */
  lemma {:induction false} PartValues(s: seq<Kv>, r: nat, n: nat, k: seq<Byte>)
    requires n > 0
    ensures Values(Part(s, r, n), k) == if TaskOf(k, n) == r then Values(s, k) else []
    decreases |s|
  {
    hide TaskOf;
    if s != [] {
      var m := |s| - 1;
      PartValues(s[..m], r, n, k);
      var p := Part(s[..m], r, n);
      assert p + [] == p;
      if TaskOf(s[m].key, n) == r {
        assert (p + [s[m]])[..|p|] == p;
      }
    }
  }

  /** What the map tasks emit, one task after the other. */
  function Emitted(maps: seq<seq<Kv>>): seq<Kv> {
    if maps == [] then [] else Emitted(maps[..|maps| - 1]) + maps[|maps| - 1]
  }

  /** The files that the map tasks leave for reduce task r. */
  function FilesFor(maps: seq<seq<Kv>>, r: nat, n: nat): seq<seq<Byte>>
    requires n > 0
  {
    seq(|maps|, i requires 0 <= i < |maps| => Records(Buffers(Part(maps[i], r, n))))
  }

  ghost predicate JobOk(maps: seq<seq<Kv>>) { forall i | 0 <= i < |maps| :: Fits(maps[i]) && KeysNulFree(maps[i]) }

  /** A reduce task reads back what the map tasks emitted for it. */
  lemma {:induction false} ReadBackParts(maps: seq<seq<Kv>>, r: nat, n: nat)
    requires n > 0 && JobOk(maps)
    ensures AllPairs(FilesFor(maps, r, n)) == Part(Emitted(maps), r, n)
    ensures Entries(FilesFor(maps, r, n)) % 2 == 0
    ensures KeysNulFree(AllPairs(FilesFor(maps, r, n)))
    decreases |maps|
  {
    hide TaskOf, Fits, KeysNulFree, Records, From;
    if maps == [] {
      NoKeys();
    } else {
      var m := |maps| - 1;
      var p := Part(maps[m], r, n);
      ReadBackParts(maps[..m], r, n);
      assert FilesFor(maps, r, n)[..m] == FilesFor(maps[..m], r, n);
      PartOf(maps[m], r, n);
      BuffersFit(p);
      RoundTrip(Buffers(p));
      PairedBuffers(p);
      EvenBuffers(p);
      PartConcat(Emitted(maps[..m]), maps[m], r, n);
      KeysConcat(Part(Emitted(maps[..m]), r, n), p);
    }
  }

  lemma NoKeys()
    ensures KeysNulFree([])
  {}

  lemma KeysConcat(a: seq<Kv>, b: seq<Kv>)
    requires KeysNulFree(a) && KeysNulFree(b)
    ensures KeysNulFree(a + b)
  {}

  lemma {:induction false} EvenBuffers(s: seq<Kv>)
    ensures |Buffers(s)| == 2 * |s|
    decreases |s|
  {
    if s != [] {
      EvenBuffers(s[..|s| - 1]);
    }
  }

  lemma {:induction false} PartConcat(a: seq<Kv>, b: seq<Kv>, r: nat, n: nat)
    requires n > 0
    ensures Part(a + b, r, n) == Part(a, r, n) + Part(b, r, n)
    decreases |b|
  {
    hide TaskOf;
    if b == [] {
      assert a + b == a;
    } else {
      var m := |b| - 1;
      PartConcat(a, b[..m], r, n);
      assert (a + b)[..|a + b| - 1] == a + b[..m];
    }
  }

  /** Rearranging pairs rearranges the values of each key. */
  lemma {:induction false} ValuesCount(s: seq<Kv>, k: seq<Byte>, v: seq<Byte>)
    ensures multiset(Values(s, k))[v] == multiset(s)[Kv(k, v)]
    decreases |s|
  {
    if s != [] {
      var m := |s| - 1;
      ValuesCount(s[..m], k, v);
      assert s == s[..m] + [s[m]];
    }
  }

  lemma SameValues(s: seq<Kv>, t: seq<Kv>, k: seq<Byte>)
    requires multiset(s) == multiset(t)
    ensures multiset(Values(s, k)) == multiset(Values(t, k))
  {
    forall v ensures multiset(Values(s, k))[v] == multiset(Values(t, k))[v] {
      ValuesCount(s, k, v);
      ValuesCount(t, k, v);
    }
  }

  /** Reduce task r of the job ran, and made these calls. */
  ghost predicate TaskRan(maps: seq<seq<Kv>>, r: nat, n: nat, calls: seq<Group>)
    requires n > 0
  {
    exists sorted :: Qsorted(AllPairs(FilesFor(maps, r, n)), sorted) && GroupsOf(sorted, calls)
  }

  /** How often reduce is called for a key. */
  ghost predicate CalledFor(gs: seq<Group>, i: nat, k: seq<Byte>) { i < |gs| && gs[i].key == k }

  /** Over all reduce tasks, reduce is called for a key exactly if some map task emitted it; then it is
      called once, by the task that the key's hash names, with all the values that were emitted for it. */
  lemma OneCallForEachKey(maps: seq<seq<Kv>>, n: nat, calls: seq<seq<Group>>, k: seq<Byte>)
    requires n > 0 && JobOk(maps) && |calls| == n
    requires forall r | 0 <= r < n :: TaskRan(maps, r, n, calls[r])
    ensures var all := Values(Emitted(maps), k);
            if all == [] then forall r, i: nat | 0 <= r < n :: !CalledFor(calls[r], i, k)
            else exists i: nat :: CalledFor(calls[TaskOf(k, n)], i, k)
                   && multiset(calls[TaskOf(k, n)][i].values) == multiset(all)
                   && forall r, j: nat | 0 <= r < n && CalledFor(calls[r], j, k) :: r == TaskOf(k, n) && j == i
  {
    hide TaskOf, Values, Qsorted, JobOk, Emitted, TaskRan;
    var all := Values(Emitted(maps), k);
    forall r | 0 <= r < n
      ensures if r == TaskOf(k, n) && all != [] then
                exists i: nat :: CalledFor(calls[r], i, k) && multiset(calls[r][i].values) == multiset(all)
                  && forall j: nat | CalledFor(calls[r], j, k) :: j == i
              else forall j: nat :: !CalledFor(calls[r], j, k)
    {
      TaskCalls(maps, r, n, calls[r], k);
    }
    if all != [] {
      var t := TaskOf(k, n);
      var i: nat :| CalledFor(calls[t], i, k) && multiset(calls[t][i].values) == multiset(all)
                 && forall j: nat | CalledFor(calls[t], j, k) :: j == i;
    }
  }

  /** The same for one reduce task. */
  lemma TaskCalls(maps: seq<seq<Kv>>, r: nat, n: nat, gs: seq<Group>, k: seq<Byte>)
    requires n > 0 && JobOk(maps) && r < n && TaskRan(maps, r, n, gs)
    ensures var all := Values(Emitted(maps), k);
            if r == TaskOf(k, n) && all != [] then
              exists i: nat :: CalledFor(gs, i, k) && multiset(gs[i].values) == multiset(all)
                && forall j: nat | CalledFor(gs, j, k) :: j == i
            else forall j: nat :: !CalledFor(gs, j, k)
  {
    hide TaskOf, Values, JobOk, Emitted;
    var all := Values(Emitted(maps), k);
    var sorted :| Qsorted(AllPairs(FilesFor(maps, r, n)), sorted) && GroupsOf(sorted, gs);
    ReadBackParts(maps, r, n);
    PartValues(Emitted(maps), r, n, k);
    SameValues(AllPairs(FilesFor(maps, r, n)), sorted, k);
    GroupHasValues(gs, k);
    var mine := Values(sorted, k);
    assert multiset(mine) == multiset(if r == TaskOf(k, n) then all else []);
    assert |mine| == |multiset(mine)|;
    if r == TaskOf(k, n) && all != [] {
      assert |multiset(all)| == |all|;
      var i :| 0 <= i < |gs| && gs[i].key == k;
      assert CalledFor(gs, i, k);
    } else {
      forall j: nat ensures !CalledFor(gs, j, k) {
        assert mine == [];
      }
    }
  }

  /** What the job promises for a key. */
  ghost predicate ReducedOnce(maps: seq<seq<Kv>>, n: nat, calls: seq<seq<Group>>, k: seq<Byte>)
    requires n > 0 && |calls| == n
  {
    var all := Values(Emitted(maps), k);
    if all == [] then forall r, i: nat | 0 <= r < n :: !CalledFor(calls[r], i, k)
    else exists i: nat :: CalledFor(calls[TaskOf(k, n)], i, k)
           && multiset(calls[TaskOf(k, n)][i].values) == multiset(all)
           && forall r, j: nat | 0 <= r < n && CalledFor(calls[r], j, k) :: r == TaskOf(k, n) && j == i
  }

  /** The files of the map tasks, by task. */
  ghost predicate MapsWritten(maps: seq<seq<Kv>>, n: nat, written: seq<seq<seq<Byte>>>)
    requires n > 0
  {
    |written| <= |maps| && forall i | 0 <= i < |written| :: MapWritten(maps[i], n, written[i])
  }

  ghost predicate MapWritten(kvs: seq<Kv>, n: nat, files: seq<seq<Byte>>)
    requires n > 0
  {
    |files| == n && forall r | 0 <= r < n :: files[r] == Records(Buffers(Part(kvs, r, n)))
  }

  /** The worker's part of a job: all map tasks write their files, then each reduce task reads its own. */
  method RunJob(maps: seq<seq<Kv>>, n: nat, qsort: seq<Kv> -> seq<Kv>, reduce: Group -> Kv)
    returns (calls: seq<seq<Group>>, outputs: seq<seq<Byte>>)
    requires n > 0 && JobOk(maps)
    requires forall s | KeysNulFree(s) :: Qsorted(s, qsort(s))
    ensures |calls| == |outputs| == n
    ensures forall r | 0 <= r < n :: outputs[r] == Output(calls[r], reduce)
    ensures forall k :: ReducedOnce(maps, n, calls, k)
  {
    hide TaskOf, Values, JobOk, Emitted, Output, AllPairs, Part, Buffers, Records, MapWritten, TaskRan, FilesFor;
    var written: seq<seq<seq<Byte>>> := [];
    while |written| < |maps|
      invariant MapsWritten(maps, n, written)
    {
      var files := WriteMapKvs(maps[|written|], n);
      WrittenIs(maps[|written|], n, files);
      written := written + [files];
    }
    calls, outputs := [], [];
    while |calls| < n
      invariant |calls| == |outputs| <= n
      invariant forall r | 0 <= r < |calls| :: TaskRan(maps, r, n, calls[r]) && outputs[r] == Output(calls[r], reduce)
    {
      var r := |calls|;
      var files, output, groups := FilesOfTask(maps, n, written, r), [], [];
      ReadBackParts(maps, r, n);
      var ok;
      ghost var sorted := qsort(AllPairs(files));
      assert Qsorted(AllPairs(files), sorted);
      ok, output, groups := HandleReduceTask(files, sorted, qsort, reduce);
      TaskHasRun(maps, r, n, sorted, groups);
      calls, outputs := calls + [groups], outputs + [output];
    }
    forall k ensures ReducedOnce(maps, n, calls, k) {
      OneCallForEachKey(maps, n, calls, k);
    }
  }

  lemma WrittenIs(kvs: seq<Kv>, n: nat, files: seq<seq<Byte>>)
    requires n > 0 && |files| == n && forall r | 0 <= r < n :: files[r] == Records(Buffers(Part(kvs, r, n)))
    ensures MapWritten(kvs, n, files)
  {}

  function FilesOfTask(maps: seq<seq<Kv>>, n: nat, written: seq<seq<seq<Byte>>>, r: nat): (files: seq<seq<Byte>>)
    requires r < n && |written| == |maps| && MapsWritten(maps, n, written)
    ensures files == FilesFor(maps, r, n)
  {
    assert forall i | 0 <= i < |maps| :: MapWritten(maps[i], n, written[i]);
    seq(|maps|, i requires 0 <= i < |maps| => written[i][r])
  }

  lemma TaskHasRun(maps: seq<seq<Kv>>, r: nat, n: nat, sorted: seq<Kv>, gs: seq<Group>)
    requires n > 0 && Qsorted(AllPairs(FilesFor(maps, r, n)), sorted) && GroupsOf(sorted, gs)
    ensures TaskRan(maps, r, n, gs)
  {}
}
