/** Loading of executables (process.c): segments of a file become pages of a new address space. */
module Loader {
  import opened Wrappers
  import opened Bytes
  import opened PageTables

  /** What a read of n bytes at a position of a file delivers. */
  function ReadBytes(file: seq<Byte>, pos: nat, n: nat): (r: seq<Byte>)
    ensures |r| <= n
    ensures |r| == n <==> n == 0 || pos + n <= |file|
  {
    if pos >= |file| then [] else file[pos..if pos + n <= |file| then pos + n else |file|]
  }

  function ZeroBytes(n: nat): (r: seq<Byte>)
    ensures |r| == n && forall k :: 0 <= k < n ==> r[k] == 0
  {
    seq(n, _ => 0)
  }

  ghost predicate PageHolds(pd: seq<bv32>, tables: map<Frame, seq<bv32>>, data: map<Frame, seq<Byte>>,
                            page: nat, content: seq<Byte>, writable: bool)
  {
    && page < USER_PAGES
    && var m := At(pd, tables, page);
    m.Some? && m.value.writable == writable && m.value.frame in data && data[m.value.frame] == content
  }

  /** The pages outside `except` are mapped as before, and hold what they held. */
  ghost predicate PagesKept(pd: seq<bv32>, tables: map<Frame, seq<bv32>>, data: map<Frame, seq<Byte>>,
                            pd': seq<bv32>, tables': map<Frame, seq<bv32>>, data': map<Frame, seq<Byte>>,
                            except: set<nat>)
  {
    && SameMappings(pd, tables, pd', tables', except)
    && forall q: nat :: q < USER_PAGES && q !in except && At(pd, tables, q).Some? ==>
         var f := At(pd, tables, q).value.frame;
         f in data && f in data' && data'[f] == data[f]
  }

  /** A page without an owner changes and no mapped page does. */
  lemma OwnerlessChanges(pd: seq<bv32>, tables: map<Frame, seq<bv32>>, data: map<Frame, seq<Byte>>,
                         pd': seq<bv32>, tables': map<Frame, seq<bv32>>, data': map<Frame, seq<Byte>>,
                         f: Frame, except: set<nat>)
    requires FramesOk(pd, tables, data) && Unmapped(pd, tables, f)
    requires SameMappings(pd, tables, pd', tables', except)
    requires forall g :: g in data && g != f ==> g in data' && data'[g] == data[g]
    ensures PagesKept(pd, tables, data, pd', tables', data', except)
  {
    hide At;
  }

  /** Loads one page: n bytes of the file and zeros. */
  method LoadPage(space: AddressSpace, file: seq<Byte>, pos: nat, n: nat, page: nat, writable: bool)
    returns (ok: bool)
    requires space.Valid() && page < USER_PAGES && n <= PGSIZE
    modifies space
    ensures space.Valid() && |old(space.pd)| == ENTRIES && PdNo(page) < ENTRIES
    ensures ok <==>
      && old(space.userFree) != {} && (n == 0 || pos + n <= |file|)
      && old(At(space.pd, space.tables, page)).None?
      && (old(space.pd)[PdNo(page)] != 0 || old(space.kernelFree) != {})
    ensures ok ==> PageHolds(space.pd, space.tables, space.data, page,
                             ReadBytes(file, pos, n) + ZeroBytes(PGSIZE - n), writable)
    ensures PagesKept(old(space.pd), old(space.tables), old(space.data), space.pd, space.tables, space.data,
                      if ok then {page} else {})
    ensures |space.userFree| == if ok then |old(space.userFree)| - 1 else |old(space.userFree)|
    ensures WithTable(space.pd) == WithTable(old(space.pd)) + (if ok then {PdNo(page)} else {})
    ensures |space.kernelFree| + |WithTable(space.pd)| == |old(space.kernelFree)| + |WithTable(old(space.pd))|
    ensures old(AllMapped(space.pd, space.tables, space.data)) ==> AllMapped(space.pd, space.tables, space.data)
  {
    hide At, FramesOk, DirOk, PoolsOk, Unmapped, PdNo, ReadBytes, WithTable, AllMapped;
    ghost var pd0, tables0, data0 := space.pd, space.tables, space.data;
    DirLength(pd0, tables0, page);
    assert SameMappings(pd0, tables0, pd0, tables0, {});
    var f := space.TakePage();
    if f.None? {
      NothingChanges(pd0, tables0, data0);
      return false;
    }
    ghost var data1 := space.data;
    ok := LoadInto(space, f.value, file, pos, n, page, writable);
    if ok {
      OwnerlessChanges(pd0, tables0, data0, space.pd, space.tables, space.data, f.value, {page});
      NowAllMapped(pd0, tables0, data0, space.pd, space.tables, space.data, page, f.value);
    } else {
      assert space.data == data0;
      OwnerlessChanges(pd0, tables0, data0, space.pd, space.tables, space.data, f.value, {});
      StillAllMapped(pd0, tables0, space.pd, space.tables, data0);
    }
  }

  /** The part of it after a page of memory has been found. */
  method LoadInto(space: AddressSpace, f: Frame, file: seq<Byte>, pos: nat, n: nat, page: nat, writable: bool)
    returns (ok: bool)
    requires space.Valid() && page < USER_PAGES && n <= PGSIZE
    requires f in space.data && Unmapped(space.pd, space.tables, f)
    modifies space
    ensures space.Valid() && |old(space.pd)| == ENTRIES && PdNo(page) < ENTRIES
    ensures ok <==> (n == 0 || pos + n <= |file|) && old(At(space.pd, space.tables, page)).None?
                    && (old(space.pd)[PdNo(page)] != 0 || old(space.kernelFree) != {})
    ensures ok ==> At(space.pd, space.tables, page) == Some(Mapping(f, writable))
    ensures SameMappings(old(space.pd), old(space.tables), space.pd, space.tables, if ok then {page} else {})
    ensures space.data == if ok then old(space.data)[f := ReadBytes(file, pos, n) + ZeroBytes(PGSIZE - n)]
                          else old(space.data) - {f}
    ensures f !in old(space.userFree) && space.userFree == if ok then old(space.userFree) else old(space.userFree) + {f}
    ensures WithTable(space.pd) == WithTable(old(space.pd)) + (if ok then {PdNo(page)} else {})
    ensures |space.kernelFree| + |WithTable(space.pd)| == |old(space.kernelFree)| + |WithTable(old(space.pd))|
  {
    hide At, FramesOk, Unmapped, PdNo, ReadBytes, WithTable, SameMappings, Aligned;
    DirLength(space.pd, space.tables, page);
    NoMappingChanges(space.pd, space.tables);
    var bytes := ReadBytes(file, pos, n);
    if |bytes| != n {
      space.FreePage(f);
      return false;
    }
    space.FillPage(f, bytes + ZeroBytes(PGSIZE - n));
    ok := InstallOrFree(space, f, page, writable);
  }

  /** install_page, and palloc_free_page if that fails. */
  method InstallOrFree(space: AddressSpace, f: Frame, page: nat, writable: bool) returns (ok: bool)
    requires space.Valid() && page < USER_PAGES && f in space.data && Unmapped(space.pd, space.tables, f)
    modifies space
    ensures space.Valid() && |old(space.pd)| == ENTRIES && PdNo(page) < ENTRIES
    ensures ok <==> old(At(space.pd, space.tables, page)).None?
                    && (old(space.pd)[PdNo(page)] != 0 || old(space.kernelFree) != {})
    ensures ok ==> At(space.pd, space.tables, page) == Some(Mapping(f, writable))
    ensures SameMappings(old(space.pd), old(space.tables), space.pd, space.tables, if ok then {page} else {})
    ensures space.data == if ok then old(space.data) else old(space.data) - {f}
    ensures f !in old(space.userFree) && space.userFree == if ok then old(space.userFree) else old(space.userFree) + {f}
    ensures WithTable(space.pd) == WithTable(old(space.pd)) + (if ok then {PdNo(page)} else {})
    ensures |space.kernelFree| + |WithTable(space.pd)| == |old(space.kernelFree)| + |WithTable(old(space.pd))|
  {
    hide At, FramesOk, DirOk, Unmapped, PdNo, WithTable, SameMappings, Aligned;
    ghost var pd0, tables0 := space.pd, space.tables;
    ok := space.InstallPage(page, f, writable);
    if !ok {
      SameUnmapped(pd0, tables0, space.pd, space.tables, f);
      space.FreePage(f);
    }
  }

  lemma StillAllMapped(pd: seq<bv32>, tables: map<Frame, seq<bv32>>, pd': seq<bv32>, tables': map<Frame, seq<bv32>>,
                       data: map<Frame, seq<Byte>>)
    requires SameMappings(pd, tables, pd', tables', {})
    ensures AllMapped(pd, tables, data) ==> AllMapped(pd', tables', data)
  {
    hide At;
    forall f | f in data && !Unmapped(pd, tables, f)
      ensures !Unmapped(pd', tables', f)
    {
      var p: nat :| p < USER_PAGES && At(pd, tables, p).Some? && At(pd, tables, p).value.frame == f;
      assert At(pd', tables', p).Some?;
    }
  }

  lemma NowAllMapped(pd: seq<bv32>, tables: map<Frame, seq<bv32>>, data: map<Frame, seq<Byte>>,
                     pd': seq<bv32>, tables': map<Frame, seq<bv32>>, data': map<Frame, seq<Byte>>,
                      page: nat, frame: Frame)
    requires SameMappings(pd, tables, pd', tables', {page}) && page < USER_PAGES && At(pd, tables, page).None?
    requires At(pd', tables', page).Some? && At(pd', tables', page).value.frame == frame
    requires forall f :: f in data' ==> f in data || f == frame
    ensures AllMapped(pd, tables, data) ==> AllMapped(pd', tables', data')
  {
    hide At;
    forall f | f in data && !Unmapped(pd, tables, f)
      ensures !Unmapped(pd', tables', f)
    {
      var p: nat :| p < USER_PAGES && At(pd, tables, p).Some? && At(pd, tables, p).value.frame == f;
      assert At(pd', tables', p).Some?;
    }
    assert !Unmapped(pd', tables', frame);
  }

  lemma DirLength(pd: seq<bv32>, tables: map<Frame, seq<bv32>>, page: nat)
    requires DirOk(pd, tables) && page < USER_PAGES
    ensures |pd| == ENTRIES && PdNo(page) < ENTRIES
  {}

  lemma NothingChanges(pd: seq<bv32>, tables: map<Frame, seq<bv32>>, data: map<Frame, seq<Byte>>)
    requires FramesOk(pd, tables, data)
    ensures PagesKept(pd, tables, data, pd, tables, data, {})
  {
    hide At;
  }

  lemma SameUnmapped(pd: seq<bv32>, tables: map<Frame, seq<bv32>>, pd': seq<bv32>, tables': map<Frame, seq<bv32>>,
                     f: Frame)
    requires Unmapped(pd, tables, f) && SameMappings(pd, tables, pd', tables', {})
    ensures Unmapped(pd', tables', f)
  {
    hide At;
  }

  // ---- segments ----

  function Min(x: nat, y: nat): nat {
    if x < y then x else y
  }

  /** How many of the first `readBytes` bytes fall into page j. */
  function Part(readBytes: nat, j: nat): nat {
    if readBytes <= j * PGSIZE then 0 else Min(readBytes - j * PGSIZE, PGSIZE)
  }

  /** Page j of a segment whose first `readBytes` bytes come from the file and whose others are zero. */
  function SegmentPage(file: seq<Byte>, ofs: nat, readBytes: nat, j: nat): seq<Byte> {
    var n := Part(readBytes, j);
    ReadBytes(file, ofs + j * PGSIZE, n) + ZeroBytes(PGSIZE - n)
  }

  ghost predicate LoadedAt(pd: seq<bv32>, tables: map<Frame, seq<bv32>>, data: map<Frame, seq<Byte>>,
                           upage: nat, q: nat, file: seq<Byte>, ofs: nat, readBytes: nat, writable: bool)
  {
    upage <= q && PageHolds(pd, tables, data, q, SegmentPage(file, ofs, readBytes, q - upage), writable)
  }

  ghost predicate Loaded(pd: seq<bv32>, tables: map<Frame, seq<bv32>>, data: map<Frame, seq<Byte>>,
                         upage: nat, count: nat, file: seq<Byte>, ofs: nat, readBytes: nat, writable: bool)
  {
    forall q: nat :: upage <= q < upage + count ==>
      LoadedAt(pd, tables, data, upage, q, file, ofs, readBytes, writable)
  }

  function Range(upage: nat, count: nat): (r: set<nat>)
    ensures forall q: nat :: q in r <==> upage <= q < upage + count
  {
    if count == 0 then {} else Range(upage, count - 1) + {upage + count - 1}
  }

  ghost predicate NoneMapped(pd: seq<bv32>, tables: map<Frame, seq<bv32>>, upage: nat, count: nat) {
    forall q: nat :: upage <= q < upage + count && q < USER_PAGES ==> At(pd, tables, q).None?
  }

  lemma KeptTwice(pd0: seq<bv32>, tables0: map<Frame, seq<bv32>>, data0: map<Frame, seq<Byte>>,
                  pd1: seq<bv32>, tables1: map<Frame, seq<bv32>>, data1: map<Frame, seq<Byte>>,
                  pd2: seq<bv32>, tables2: map<Frame, seq<bv32>>, data2: map<Frame, seq<Byte>>,
                  a: set<nat>, b: set<nat>)
    requires PagesKept(pd0, tables0, data0, pd1, tables1, data1, a)
    requires PagesKept(pd1, tables1, data1, pd2, tables2, data2, b)
    ensures PagesKept(pd0, tables0, data0, pd2, tables2, data2, a + b)
  {
    hide At;
  }

  lemma HoldsKept(pd: seq<bv32>, tables: map<Frame, seq<bv32>>, data: map<Frame, seq<Byte>>,
                  pd': seq<bv32>, tables': map<Frame, seq<bv32>>, data': map<Frame, seq<Byte>>,
                  except: set<nat>, page: nat, content: seq<Byte>, writable: bool)
    requires PagesKept(pd, tables, data, pd', tables', data', except) && page !in except
    requires PageHolds(pd, tables, data, page, content, writable)
    ensures PageHolds(pd', tables', data', page, content, writable)
  {
    hide At;
  }

  lemma LoadedKept(pd: seq<bv32>, tables: map<Frame, seq<bv32>>, data: map<Frame, seq<Byte>>,
                   pd': seq<bv32>, tables': map<Frame, seq<bv32>>, data': map<Frame, seq<Byte>>, except: set<nat>,
                   upage: nat, count: nat, file: seq<Byte>, ofs: nat, readBytes: nat, writable: bool)
    requires PagesKept(pd, tables, data, pd', tables', data', except)
    requires Loaded(pd, tables, data, upage, count, file, ofs, readBytes, writable)
    requires forall q: nat :: upage <= q < upage + count ==> q !in except
    ensures Loaded(pd', tables', data', upage, count, file, ofs, readBytes, writable)
  {
    hide PagesKept, PageHolds, SegmentPage;
    forall q: nat | upage <= q < upage + count
      ensures LoadedAt(pd', tables', data', upage, q, file, ofs, readBytes, writable)
    {
      assert LoadedAt(pd, tables, data, upage, q, file, ofs, readBytes, writable);
      HoldsKept(pd, tables, data, pd', tables', data', except, q,
                SegmentPage(file, ofs, readBytes, q - upage), writable);
    }
  }

  /** Enough free pages and bytes for a segment, and nothing in its place. */
  ghost predicate Loadable(pd: seq<bv32>, tables: map<Frame, seq<bv32>>, userFree: set<Frame>,
                           upage: nat, count: nat, file: seq<Byte>, ofs: nat, readBytes: nat)
  {
    && (readBytes == 0 || ofs + readBytes <= |file|)
    && NoneMapped(pd, tables, upage, count) && |userFree| >= count
  }

  /** The tables that pages need. */
  ghost function TablesOf(pages: set<nat>): set<nat> { set q | q in pages :: PdNo(q) }

  /** The tables that are still to be made for them. */
  ghost function Missing(pd: seq<bv32>, pages: set<nat>): set<nat> { TablesOf(pages) - WithTable(pd) }

  lemma TablesOfUnion(a: set<nat>, b: set<nat>)
    ensures TablesOf(a + b) == TablesOf(a) + TablesOf(b) && TablesOf({}) == {}
  {
    forall i | i in TablesOf(a) + TablesOf(b)
      ensures i in TablesOf(a + b)
    {
      var q :| (q in a || q in b) && PdNo(q) == i;
      assert q in a + b;
    }
  }

  lemma TablesOfOne(q: nat)
    ensures TablesOf({q}) == {PdNo(q)}
  {
    assert q in {q};
  }

  /** With n pages taken for the tables of a, one more table is needed than there are pages. */
  lemma TooFewTables(had: set<nat>, a: set<nat>, i: nat, b: set<nat>, n: nat)
    requires a + {i} <= b && i !in had + a && n + |had| == |had + a|
    ensures n < |b - had|
  {
    Union(had, a);
    Smaller(a - had, b - had, i);
  }

  lemma EnoughTables(had: set<nat>, a: set<nat>, n: nat, rest: nat)
    requires rest + |had + a| == n + |had|
    ensures n >= |a - had|
  {
    Union(had, a);
  }

  lemma Union(a: set<nat>, b: set<nat>)
    ensures |a + b| == |a| + |b - a|
  {
    assert a + b == a + (b - a);
  }

  lemma Smaller(a: set<nat>, b: set<nat>, i: nat)
    requires a <= b && i in b && i !in a
    ensures |a| < |b|
  {
    assert b == a + (b - a);
    assert i in b - a;
  }

  method LoadSegment(space: AddressSpace, file: seq<Byte>, ofs: nat, upage: nat, readBytes: nat, zeroBytes: nat,
                     writable: bool)
    returns (ok: bool, ghost count: nat)
    requires space.Valid() && (readBytes + zeroBytes) % PGSIZE == 0 && ofs % PGSIZE == 0
    requires upage * PGSIZE + readBytes + zeroBytes <= USER_PAGES * PGSIZE
    modifies space
    ensures space.Valid() && count * PGSIZE == readBytes + zeroBytes && upage + count <= USER_PAGES
    ensures ok ==> Loaded(space.pd, space.tables, space.data, upage, count, file, ofs, readBytes, writable)
    ensures PagesKept(old(space.pd), old(space.tables), old(space.data), space.pd, space.tables, space.data,
                      Range(upage, count))
    ensures ok <==> Loadable(old(space.pd), old(space.tables), old(space.userFree), upage, count, file, ofs, readBytes)
                    && |Missing(old(space.pd), Range(upage, count))| <= |old(space.kernelFree)|
    ensures ok ==> |space.userFree| + count == |old(space.userFree)|
    ensures ok ==> WithTable(space.pd) == WithTable(old(space.pd)) + TablesOf(Range(upage, count))
    ensures |space.kernelFree| + |WithTable(space.pd)| == |old(space.kernelFree)| + |WithTable(old(space.pd))|
    ensures old(AllMapped(space.pd, space.tables, space.data)) ==> AllMapped(space.pd, space.tables, space.data)
  {
    count := (readBytes + zeroBytes) / PGSIZE;
    ok := LoadPages(space, file, ofs, upage, readBytes, zeroBytes, count, writable);
  }

  method LoadPages(space: AddressSpace, file: seq<Byte>, ofs: nat, upage: nat, readBytes: nat, zeroBytes: nat,
                   ghost count: nat, writable: bool)
    returns (ok: bool)
    requires space.Valid() && readBytes + zeroBytes == count * PGSIZE && upage + count <= USER_PAGES
    modifies space
    ensures space.Valid()
    ensures ok ==> Loaded(space.pd, space.tables, space.data, upage, count, file, ofs, readBytes, writable)
    ensures PagesKept(old(space.pd), old(space.tables), old(space.data), space.pd, space.tables, space.data,
                      Range(upage, count))
    ensures ok <==> Loadable(old(space.pd), old(space.tables), old(space.userFree), upage, count, file, ofs, readBytes)
                    && |Missing(old(space.pd), Range(upage, count))| <= |old(space.kernelFree)|
    ensures ok ==> |space.userFree| + count == |old(space.userFree)|
    ensures ok ==> WithTable(space.pd) == WithTable(old(space.pd)) + TablesOf(Range(upage, count))
    ensures |space.kernelFree| + |WithTable(space.pd)| == |old(space.kernelFree)| + |WithTable(old(space.pd))|
    ensures old(AllMapped(space.pd, space.tables, space.data)) ==> AllMapped(space.pd, space.tables, space.data)
  {
    hide AddressSpace.Valid, PagesKept, Loaded, NoneMapped, PageHolds, Range, SegmentPage, PdNo, At,
         WithTable, TablesOf, AllMapped, Part, Left, Tabled, Missing, Loadable, ReadBytes;
    ghost var pd0, tables0, data0 := space.pd, space.tables, space.data;
    ghost var had, pages := WithTable(pd0), Range(upage, count);
    NoneTabled(had, upage);
    var pos, page, readLeft, zeroLeft := ofs, upage, readBytes, zeroBytes;
    ghost var k: nat := 0;
    assert Left(readBytes, 0) == readBytes by { NothingRead(readBytes); }
    NothingYet(space, upage, file, ofs, readBytes, writable);
    while readLeft > 0 || zeroLeft > 0
      invariant space.Valid() && k <= count && page == upage + k
      invariant readLeft + zeroLeft == (count - k) * PGSIZE && zeroLeft >= 0
      invariant readLeft <= readBytes && pos == ofs + (readBytes - readLeft)
      invariant readLeft == Left(readBytes, k)
      invariant readLeft < readBytes ==> pos <= |file|
      invariant Loaded(space.pd, space.tables, space.data, upage, k, file, ofs, readBytes, writable)
      invariant PagesKept(pd0, tables0, data0, space.pd, space.tables, space.data, Range(upage, k))
      invariant NoneMapped(pd0, tables0, upage, k)
      invariant |space.userFree| + k == |old(space.userFree)|
      invariant WithTable(space.pd) == Tabled(had, upage, k)
      invariant |space.kernelFree| + |WithTable(space.pd)| == |old(space.kernelFree)| + |had|
      invariant old(AllMapped(space.pd, space.tables, space.data)) ==> AllMapped(space.pd, space.tables, space.data)
      decreases count - k
    {
      assert k < count;
      var pageReadBytes := if readLeft < PGSIZE then readLeft else PGSIZE;
      var pageZeroBytes := PGSIZE - pageReadBytes;
      ghost var pd1, tables1, data1 := space.pd, space.tables, space.data;
      SameAt(pd0, tables0, data0, pd1, tables1, data1, upage, k);
      OneMoreTabled(had, upage, k);
      TableThereIff(space, page);
      PartOf(readBytes, readLeft, pageReadBytes, k);
      ok := LoadPage(space, file, pos, pageReadBytes, page, writable);
      if !ok {
        CannotLoad(pd0, tables0, old(space.userFree), old(space.kernelFree), upage, k, count, file, ofs, readBytes);
        KeptToTheEnd(pd0, tables0, data0, pd1, tables1, data1, space.pd, space.tables, space.data, upage, k, count);
        return;
      }
      PageContent(file, ofs, readBytes, k, pos, pageReadBytes);
      PageDone(pd0, tables0, data0, pd1, tables1, data1, space.pd, space.tables, space.data,
               upage, k, file, ofs, readBytes, writable);
      readLeft := readLeft - pageReadBytes;
      zeroLeft := zeroLeft - pageZeroBytes;
      pos := pos + pageReadBytes;
      page := page + 1;
      k := k + 1;
    }
    AllLoaded(had, upage, count, |old(space.kernelFree)|, |space.kernelFree|);
    LoadableThen(pd0, tables0, old(space.userFree), upage, count, file, ofs, readBytes);
    ok := true;
  }

  /** How many bytes of the file are still to be read after k pages. */
  function Left(readBytes: nat, k: nat): nat {
    if readBytes <= k * PGSIZE then 0 else readBytes - k * PGSIZE
  }

  lemma LoadableThen(pd: seq<bv32>, tables: map<Frame, seq<bv32>>, userFree: set<Frame>,
                     upage: nat, count: nat, file: seq<Byte>, ofs: nat, readBytes: nat)
    requires (readBytes == 0 || ofs + readBytes <= |file|) && NoneMapped(pd, tables, upage, count)
    requires |userFree| >= count
    ensures Loadable(pd, tables, userFree, upage, count, file, ofs, readBytes)
    ensures Missing(pd, Range(upage, count)) == TablesOf(Range(upage, count)) - WithTable(pd)
  {}

  lemma NothingRead(readBytes: nat)
    ensures Left(readBytes, 0) == readBytes
  {}

  /** The entries with a table after k pages. */
  ghost function Tabled(had: set<nat>, upage: nat, k: nat): set<nat> { had + TablesOf(Range(upage, k)) }

  lemma NoneTabled(had: set<nat>, upage: nat)
    ensures Tabled(had, upage, 0) == had
  {
    TablesOfUnion({}, {});
    assert Range(upage, 0) == {};
  }

  lemma OneMoreTabled(had: set<nat>, upage: nat, k: nat)
    ensures Tabled(had, upage, k + 1) == Tabled(had, upage, k) + {PdNo(upage + k)}
  {
    OneMorePage(upage, k, k + 1);
  }

  lemma AllLoaded(had: set<nat>, upage: nat, count: nat, before: nat, after: nat)
    requires after + |Tabled(had, upage, count)| == before + |had|
    ensures |TablesOf(Range(upage, count)) - had| <= before
    ensures Tabled(had, upage, count) == had + TablesOf(Range(upage, count))
  {
    EnoughTables(had, TablesOf(Range(upage, count)), before, after);
  }

  /** The pages loaded so far, one more, and all of them. */
  lemma OneMorePage(upage: nat, k: nat, count: nat)
    requires k < count
    ensures TablesOf(Range(upage, k + 1)) == TablesOf(Range(upage, k)) + {PdNo(upage + k)}
    ensures TablesOf(Range(upage, k + 1)) <= TablesOf(Range(upage, count))
  {
    hide TablesOf;
    assert Range(upage, k + 1) == Range(upage, k) + {upage + k};
    TablesOfUnion(Range(upage, k), {upage + k});
    TablesOfOne(upage + k);
    assert Range(upage, count) == Range(upage, k + 1) + Range(upage + k + 1, count - k - 1);
    TablesOfUnion(Range(upage, k + 1), Range(upage + k + 1, count - k - 1));
  }

  lemma TableThereIff(space: AddressSpace, page: nat)
    requires space.Valid() && page < USER_PAGES
    ensures PdNo(page) < |space.pd|
    ensures space.pd[PdNo(page)] != 0 <==> PdNo(page) in WithTable(space.pd)
  {
    PageNumbers(page);
  }

  lemma NothingYet(space: AddressSpace, upage: nat, file: seq<Byte>, ofs: nat, readBytes: nat, writable: bool)
    requires space.Valid()
    ensures Loaded(space.pd, space.tables, space.data, upage, 0, file, ofs, readBytes, writable)
    ensures PagesKept(space.pd, space.tables, space.data, space.pd, space.tables, space.data, Range(upage, 0))
    ensures NoneMapped(space.pd, space.tables, upage, 0)
  {
    hide At;
  }

  /** A page of the segment that is not loaded yet is mapped as at the beginning. */
  lemma SameAt(pd: seq<bv32>, tables: map<Frame, seq<bv32>>, data: map<Frame, seq<Byte>>,
               pd': seq<bv32>, tables': map<Frame, seq<bv32>>, data': map<Frame, seq<Byte>>, upage: nat, k: nat)
    requires PagesKept(pd, tables, data, pd', tables', data', Range(upage, k)) && upage + k < USER_PAGES
    ensures At(pd', tables', upage + k) == At(pd, tables, upage + k)
  {
    hide At;
  }

  lemma PartOf(readBytes: nat, readLeft: nat, n: nat, k: nat)
    requires readLeft == Left(readBytes, k)
    requires n == if readLeft < PGSIZE then readLeft else PGSIZE
    ensures n == Part(readBytes, k)
    ensures readLeft - n == Left(readBytes, k + 1)
    ensures readLeft < readBytes && n > 0 ==> readBytes - readLeft == k * PGSIZE
    ensures readLeft == readBytes && n > 0 ==> k == 0
  {}

  /** Whatever keeps page k from being loaded was missing at the beginning. */
  lemma CannotLoad(pd: seq<bv32>, tables: map<Frame, seq<bv32>>, userFree: set<Frame>, kernelFree: set<Frame>,
                   upage: nat, k: nat, count: nat, file: seq<Byte>, ofs: nat, readBytes: nat)
    requires k < count && upage + count <= USER_PAGES
    requires
      || |userFree| == k
      || (readBytes > 0 && ofs + readBytes > |file|)
      || At(pd, tables, upage + k).Some?
      || (PdNo(upage + k) !in Tabled(WithTable(pd), upage, k)
          && |Tabled(WithTable(pd), upage, k)| == |kernelFree| + |WithTable(pd)|)
    ensures !(Loadable(pd, tables, userFree, upage, count, file, ofs, readBytes)
              && |Missing(pd, Range(upage, count))| <= |kernelFree|)
  {
    hide At, WithTable, TablesOf, PdNo;
    OneMorePage(upage, k, count);
    var had, a := WithTable(pd), TablesOf(Range(upage, k));
    if PdNo(upage + k) !in had + a && |had + a| == |kernelFree| + |had| {
      TooFewTables(had, a, PdNo(upage + k), TablesOf(Range(upage, count)), |kernelFree|);
    }
  }

  lemma KeptToTheEnd(pd0: seq<bv32>, tables0: map<Frame, seq<bv32>>, data0: map<Frame, seq<Byte>>,
                     pd1: seq<bv32>, tables1: map<Frame, seq<bv32>>, data1: map<Frame, seq<Byte>>,
                     pd2: seq<bv32>, tables2: map<Frame, seq<bv32>>, data2: map<Frame, seq<Byte>>,
                     upage: nat, k: nat, count: nat)
    requires PagesKept(pd0, tables0, data0, pd1, tables1, data1, Range(upage, k)) && k <= count
    requires PagesKept(pd1, tables1, data1, pd2, tables2, data2, {})
    ensures PagesKept(pd0, tables0, data0, pd2, tables2, data2, Range(upage, count))
  {
    hide PagesKept;
    KeptTwice(pd0, tables0, data0, pd1, tables1, data1, pd2, tables2, data2, Range(upage, k), {});
    KeptMore(pd0, tables0, data0, pd2, tables2, data2, Range(upage, k) + {}, upage, count, k);
  }

  lemma KeptMore(pd: seq<bv32>, tables: map<Frame, seq<bv32>>, data: map<Frame, seq<Byte>>,
                 pd': seq<bv32>, tables': map<Frame, seq<bv32>>, data': map<Frame, seq<Byte>>,
                 a: set<nat>, upage: nat, count: nat, k: nat)
    requires PagesKept(pd, tables, data, pd', tables', data', a) && a == Range(upage, k) + {} && k <= count
    ensures PagesKept(pd, tables, data, pd', tables', data', Range(upage, count))
  {
    hide At;
  }

  lemma PageContent(file: seq<Byte>, ofs: nat, readBytes: nat, k: nat, pos: nat, n: nat)
    requires n == Part(readBytes, k) && (n > 0 ==> pos == ofs + k * PGSIZE)
    ensures n <= PGSIZE
    ensures ReadBytes(file, pos, n) + ZeroBytes(PGSIZE - n) == SegmentPage(file, ofs, readBytes, k)
  {}

  lemma PageDone(pd0: seq<bv32>, tables0: map<Frame, seq<bv32>>, data0: map<Frame, seq<Byte>>,
                 pd1: seq<bv32>, tables1: map<Frame, seq<bv32>>, data1: map<Frame, seq<Byte>>,
                 pd2: seq<bv32>, tables2: map<Frame, seq<bv32>>, data2: map<Frame, seq<Byte>>,
                 upage: nat, k: nat, file: seq<Byte>, ofs: nat, readBytes: nat, writable: bool)
    requires PagesKept(pd0, tables0, data0, pd1, tables1, data1, Range(upage, k))
    requires PagesKept(pd1, tables1, data1, pd2, tables2, data2, {upage + k})
    requires Loaded(pd1, tables1, data1, upage, k, file, ofs, readBytes, writable)
    requires PageHolds(pd2, tables2, data2, upage + k, SegmentPage(file, ofs, readBytes, k), writable)
    requires NoneMapped(pd0, tables0, upage, k) && upage + k < USER_PAGES && At(pd0, tables0, upage + k).None?
    ensures Loaded(pd2, tables2, data2, upage, k + 1, file, ofs, readBytes, writable)
    ensures PagesKept(pd0, tables0, data0, pd2, tables2, data2, Range(upage, k + 1))
    ensures NoneMapped(pd0, tables0, upage, k + 1)
  {
    hide PagesKept, PageHolds, SegmentPage, At;
    KeptTwice(pd0, tables0, data0, pd1, tables1, data1, pd2, tables2, data2, Range(upage, k), {upage + k});
    assert Range(upage, k) + {upage + k} == Range(upage, k + 1);
    assert LoadedAt(pd2, tables2, data2, upage, upage + k, file, ofs, readBytes, writable);
    LoadedKept(pd1, tables1, data1, pd2, tables2, data2, {upage + k}, upage, k, file, ofs, readBytes, writable);
  }
}
