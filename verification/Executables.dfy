/** Program headers of executables (process.c): which are accepted, and what the loaded image holds. */
module Executables {
  import opened Wrappers
  import opened Bytes
  import opened PageTables
  import opened Loader

  const WORD: nat := 0x1_0000_0000
  const PHYS_BASE: nat := 0xc000_0000
  const EHDR_SIZE: nat := 52
  const PHDR_SIZE: nat := 32

  const PT_LOAD: nat := 1
  const PT_DYNAMIC: nat := 2
  const PT_INTERP: nat := 3
  const PT_SHLIB: nat := 5

  datatype Phdr = Phdr(kind: nat, offset: nat, vaddr: nat, filesz: nat, memsz: nat, flags: nat)

  ghost predicate Words(p: Phdr) {
    p.kind < WORD && p.offset < WORD && p.vaddr < WORD && p.filesz < WORD && p.memsz < WORD && p.flags < WORD
  }

  /** The tests in the order and in the 32-bit arithmetic of the program. */
  predicate ValidateSegment(p: Phdr, fileLength: nat) {
    && p.offset % PGSIZE == p.vaddr % PGSIZE
    && p.offset <= fileLength
    && p.filesz <= p.memsz
    && p.memsz != 0
    && p.vaddr < PHYS_BASE
    && (p.vaddr + p.memsz) % WORD < PHYS_BASE
    && p.vaddr <= (p.vaddr + p.memsz) % WORD
    && PGSIZE <= p.vaddr
  }

  /** What the tests mean without wrap-around. */
  lemma AcceptedSegments(p: Phdr, fileLength: nat)
    requires Words(p)
    ensures ValidateSegment(p, fileLength) <==>
      && p.offset % PGSIZE == p.vaddr % PGSIZE && p.offset <= fileLength
      && p.filesz <= p.memsz && 0 < p.memsz
      && PGSIZE <= p.vaddr && p.vaddr + p.memsz < PHYS_BASE
  {
    if p.vaddr + p.memsz >= WORD {
      assert (p.vaddr + p.memsz) % WORD == p.vaddr + p.memsz - WORD;
    }
  }

  function RoundUp(x: nat): nat {
    (x + PGSIZE - 1) % WORD / PGSIZE * PGSIZE % WORD
  }

  datatype Extent = Extent(filePage: nat, memPage: nat, readBytes: nat, zeroBytes: nat)

  /** The arithmetic of load for a segment, modulo 2^32. */
  function ExtentOf(p: Phdr): Extent {
    var filePage := p.offset - p.offset % PGSIZE;
    var memPage := p.vaddr - p.vaddr % PGSIZE;
    var pageOffset := p.vaddr % PGSIZE;
    if p.filesz > 0 then
      var readBytes := (pageOffset + p.filesz) % WORD;
      Extent(filePage, memPage, readBytes, (RoundUp((pageOffset + p.memsz) % WORD) + WORD - readBytes) % WORD)
    else
      Extent(filePage, memPage, 0, RoundUp((pageOffset + p.memsz) % WORD))
  }

  lemma RoundUpExact(x: nat)
    requires x < PHYS_BASE
    ensures x <= RoundUp(x) < x + PGSIZE && RoundUp(x) % PGSIZE == 0
    ensures RoundUp(x) == (x + PGSIZE - 1) / PGSIZE * PGSIZE
  {}

  /** For an accepted segment nothing wraps around and the assertions of load_segment hold. */
  lemma SegmentExtent(p: Phdr, fileLength: nat)
    requires Words(p) && ValidateSegment(p, fileLength)
    ensures var e := ExtentOf(p);
      && (e.readBytes + e.zeroBytes) % PGSIZE == 0 && e.memPage % PGSIZE == 0 && e.filePage % PGSIZE == 0
      && e.readBytes == (if p.filesz > 0 then p.vaddr % PGSIZE + p.filesz else 0)
      && e.memPage + p.vaddr % PGSIZE == p.vaddr && e.filePage + p.vaddr % PGSIZE == p.offset
      && e.memPage + e.readBytes + e.zeroBytes <= PHYS_BASE && PGSIZE <= e.memPage
      && p.vaddr + p.memsz <= e.memPage + e.readBytes + e.zeroBytes < p.vaddr + p.memsz + PGSIZE
  {
    hide RoundUp;
    AcceptedSegments(p, fileLength);
    RoundUpExact(p.vaddr % PGSIZE + p.memsz);
    ExtentSum(p);
    LastPage(p.vaddr - p.vaddr % PGSIZE, RoundUp(p.vaddr % PGSIZE + p.memsz));
  }

  lemma ExtentSum(p: Phdr)
    requires p.vaddr + p.memsz < PHYS_BASE && p.filesz <= p.memsz
    requires p.vaddr % PGSIZE + p.memsz <= RoundUp(p.vaddr % PGSIZE + p.memsz) < p.vaddr % PGSIZE + p.memsz + PGSIZE
    ensures ExtentOf(p).readBytes + ExtentOf(p).zeroBytes == RoundUp(p.vaddr % PGSIZE + p.memsz)
    ensures ExtentOf(p).readBytes == if p.filesz > 0 then p.vaddr % PGSIZE + p.filesz else 0
  {
    hide RoundUp;
  }

  lemma LastPage(memPage: nat, length: nat)
    requires memPage % PGSIZE == 0 && length % PGSIZE == 0 && memPage + length < PHYS_BASE + PGSIZE
    ensures memPage + length <= PHYS_BASE
  {}

  // ---- addresses ----

  ghost function ByteAt(pd: seq<bv32>, tables: map<Frame, seq<bv32>>, data: map<Frame, seq<Byte>>, a: nat): Option<Byte>
    requires a < PHYS_BASE
  {
    var m := At(pd, tables, a / PGSIZE);
    if m.Some? && m.value.frame in data && |data[m.value.frame]| == PGSIZE
    then Some(data[m.value.frame][a % PGSIZE]) else None
  }

  /** A loaded page shows the file or zero at each of its addresses. */
  lemma LoadedByte(pd: seq<bv32>, tables: map<Frame, seq<bv32>>, data: map<Frame, seq<Byte>>, upage: nat, count: nat,
                   file: seq<Byte>, ofs: nat, readBytes: nat, writable: bool, a: nat)
    requires Loaded(pd, tables, data, upage, count, file, ofs, readBytes, writable)
    requires readBytes == 0 || ofs + readBytes <= |file|
    requires upage * PGSIZE <= a < (upage + count) * PGSIZE && a < PHYS_BASE
    ensures var d := a - upage * PGSIZE;
      ByteAt(pd, tables, data, a) == Some(if d < readBytes then file[ofs + d] else 0)
    ensures At(pd, tables, a / PGSIZE).Some? && At(pd, tables, a / PGSIZE).value.writable == writable
  {
    hide At, SegmentPage;
    var q := a / PGSIZE;
    assert LoadedAt(pd, tables, data, upage, q, file, ofs, readBytes, writable);
    SegmentByte(file, ofs, readBytes, q - upage, a % PGSIZE);
  }

  lemma SegmentByte(file: seq<Byte>, ofs: nat, readBytes: nat, j: nat, x: nat)
    requires x < PGSIZE && (readBytes == 0 || ofs + readBytes <= |file|)
    ensures |SegmentPage(file, ofs, readBytes, j)| == PGSIZE
    ensures var d := j * PGSIZE + x;
      SegmentPage(file, ofs, readBytes, j)[x] == if d < readBytes then file[ofs + d] else 0
  {}

  // ---- headers, stored with the least significant byte first. ----

  function Half(file: seq<Byte>, at: nat): (r: nat)
    requires at + 2 <= |file|
    ensures r < 0x1_0000
  {
    var low: int, high: int := file[at], file[at + 1];
    low + 0x100 * high
  }

  function Word(file: seq<Byte>, at: nat): (r: nat)
    requires at + 4 <= |file|
    ensures r < WORD
  {
    Half(file, at) + 0x1_0000 * Half(file, at + 2)
  }

  predicate HeaderOk(file: seq<Byte>) {
    && EHDR_SIZE <= |file|
    && file[..7] == [0x7f, 'E' as int, 'L' as int, 'F' as int, 1, 1, 1]
    && Half(file, 16) == 2 && Half(file, 18) == 3 && Word(file, 20) == 1
    && Half(file, 42) == PHDR_SIZE && Half(file, 44) <= 1024
  }

  /** The offset of the program headers, as a signed number. */
  function HeadersAt(file: seq<Byte>): int
    requires EHDR_SIZE <= |file|
  {
    var w := Word(file, 28);
    if w < 0x8000_0000 then w else w - WORD
  }

  predicate HeaderRead(file: seq<Byte>, at: int) {
    0 <= at && at + PHDR_SIZE <= |file|
  }

  function PhdrAt(file: seq<Byte>, at: int): (p: Phdr)
    requires HeaderRead(file, at)
    ensures Words(p)
  {
    Phdr(Word(file, at), Word(file, at + 4), Word(file, at + 8), Word(file, at + 16), Word(file, at + 20),
         Word(file, at + 24))
  }

  predicate IsWritable(p: Phdr) { p.flags / 2 % 2 == 1 }

  function FirstPage(p: Phdr): nat { ExtentOf(p).memPage / PGSIZE }

  function PageCount(p: Phdr): nat { (ExtentOf(p).readBytes + ExtentOf(p).zeroBytes) / PGSIZE }

  /** The segment of a header is in memory. */
  ghost predicate SegmentLoaded(pd: seq<bv32>, tables: map<Frame, seq<bv32>>, data: map<Frame, seq<Byte>>,
                                file: seq<Byte>, p: Phdr)
  {
    && ValidateSegment(p, |file|)
    && (ExtentOf(p).readBytes == 0 || ExtentOf(p).filePage + ExtentOf(p).readBytes <= |file|)
    && Loaded(pd, tables, data, FirstPage(p), PageCount(p), file, ExtentOf(p).filePage, ExtentOf(p).readBytes,
              IsWritable(p))
  }

  /** Every address of a loaded segment shows the byte of the file or, beyond the file size, zero. */
  lemma SegmentBytes(pd: seq<bv32>, tables: map<Frame, seq<bv32>>, data: map<Frame, seq<Byte>>, file: seq<Byte>,
                     p: Phdr, i: nat)
    requires Words(p) && SegmentLoaded(pd, tables, data, file, p) && i < p.memsz
    ensures p.vaddr + i < PHYS_BASE && (i < p.filesz ==> p.offset + i < |file|)
    ensures ByteAt(pd, tables, data, p.vaddr + i) == Some(if i < p.filesz then file[p.offset + i] else 0)
    ensures var m := At(pd, tables, (p.vaddr + i) / PGSIZE); m.Some? && m.value.writable == IsWritable(p)
  {
    hide Loaded, ExtentOf, ValidateSegment, ByteAt, At;
    SegmentExtent(p, |file|);
    AcceptedSegments(p, |file|);
    var e := ExtentOf(p);
    WholePages(e.memPage, e.readBytes + e.zeroBytes);
    LoadedByte(pd, tables, data, FirstPage(p), PageCount(p), file, e.filePage, e.readBytes, IsWritable(p), p.vaddr + i);
  }

  lemma WholePages(x: nat, n: nat)
    requires x % PGSIZE == 0 && n % PGSIZE == 0
    ensures x / PGSIZE * PGSIZE == x && n / PGSIZE * PGSIZE == n && (x / PGSIZE + n / PGSIZE) * PGSIZE == x + n
  {}

  /** The pages of the segment of a header. */
  function SegmentPages(p: Phdr): set<nat> {
    if p.kind == PT_LOAD then Range(FirstPage(p), PageCount(p)) else {}
  }

  /** The pages of the segments of the first k program headers. */
  function Covered(file: seq<Byte>, at: int, k: nat): set<nat> {
    if k == 0 then {}
    else Covered(file, at, k - 1) + (if HeaderRead(file, at + (k - 1) * PHDR_SIZE)
                                     then SegmentPages(PhdrAt(file, at + (k - 1) * PHDR_SIZE)) else {})
  }

  /** A program header that can be loaded, as far as the file alone can tell. */
  predicate HeaderGood(file: seq<Byte>, at: int) {
    && HeaderRead(file, at)
    && var p := PhdrAt(file, at);
    && p.kind !in {PT_DYNAMIC, PT_INTERP, PT_SHLIB}
    && (p.kind == PT_LOAD ==>
          ValidateSegment(p, |file|)
          && (ExtentOf(p).readBytes == 0 || ExtentOf(p).filePage + ExtentOf(p).readBytes <= |file|))
  }

  /** Header j is good, and the pages of its segment are mapped neither before nor for an earlier header. */
  ghost predicate HeaderPlaced(pd: seq<bv32>, tables: map<Frame, seq<bv32>>, file: seq<Byte>, at: int, j: nat) {
    && HeaderGood(file, at + j * PHDR_SIZE)
    && var p := PhdrAt(file, at + j * PHDR_SIZE);
    && SegmentPages(p) !! Covered(file, at, j)
    && (p.kind == PT_LOAD ==> NoneMapped(pd, tables, FirstPage(p), PageCount(p)))
  }

  ghost predicate HeadersPlaced(pd: seq<bv32>, tables: map<Frame, seq<bv32>>, file: seq<Byte>, at: int, k: nat) {
    forall j: nat :: j < k ==> HeaderPlaced(pd, tables, file, at, j)
  }

  /** There is a page of memory for each page of the image, and a page for each table that they need. */
  ghost predicate Room(pd: seq<bv32>, users: nat, kernels: nat, pages: set<nat>) {
    |pages| <= users && |Missing(pd, pages)| <= kernels
  }

  /** The first k program headers are acceptable, and their segments are in memory. */
  ghost predicate HeadersLoaded(pd: seq<bv32>, tables: map<Frame, seq<bv32>>, data: map<Frame, seq<Byte>>,
                                file: seq<Byte>, at: int, k: nat)
  {
    forall j: nat :: j < k ==> HeaderDone(pd, tables, data, file, at, j)
  }

  ghost predicate HeaderDone(pd: seq<bv32>, tables: map<Frame, seq<bv32>>, data: map<Frame, seq<Byte>>,
                             file: seq<Byte>, at: int, j: nat)
  {
    && HeaderRead(file, at + j * PHDR_SIZE)
    && var p := PhdrAt(file, at + j * PHDR_SIZE);
    && p.kind !in {PT_DYNAMIC, PT_INTERP, PT_SHLIB}
    && (p.kind == PT_LOAD ==> SegmentLoaded(pd, tables, data, file, p))
  }

  lemma SegmentKept(pd: seq<bv32>, tables: map<Frame, seq<bv32>>, data: map<Frame, seq<Byte>>,
                    pd': seq<bv32>, tables': map<Frame, seq<bv32>>, data': map<Frame, seq<Byte>>,
                    upage: nat, count: nat, file: seq<Byte>, p: Phdr)
    requires PagesKept(pd, tables, data, pd', tables', data', Range(upage, count))
    requires NoneMapped(pd, tables, upage, count) && SegmentLoaded(pd, tables, data, file, p)
    ensures SegmentLoaded(pd', tables', data', file, p)
  {
    hide PagesKept, ExtentOf, ValidateSegment, At, SegmentPage;
    forall q: nat | FirstPage(p) <= q < FirstPage(p) + PageCount(p)
      ensures q !in Range(upage, count)
    {
      assert LoadedAt(pd, tables, data, FirstPage(p), q, file, ExtentOf(p).filePage, ExtentOf(p).readBytes,
                      IsWritable(p));
    }
    LoadedKept(pd, tables, data, pd', tables', data', Range(upage, count), FirstPage(p), PageCount(p), file,
               ExtentOf(p).filePage, ExtentOf(p).readBytes, IsWritable(p));
  }

  /** Loading into pages that are not mapped leaves the segments that are already there. */
  lemma HeadersKept(pd: seq<bv32>, tables: map<Frame, seq<bv32>>, data: map<Frame, seq<Byte>>,
                    pd': seq<bv32>, tables': map<Frame, seq<bv32>>, data': map<Frame, seq<Byte>>,
                    upage: nat, count: nat, file: seq<Byte>, at: int, k: nat)
    requires PagesKept(pd, tables, data, pd', tables', data', Range(upage, count))
    requires NoneMapped(pd, tables, upage, count) && HeadersLoaded(pd, tables, data, file, at, k)
    ensures HeadersLoaded(pd', tables', data', file, at, k)
  {
    hide PagesKept, NoneMapped, SegmentLoaded;
    forall j: nat | j < k
      ensures HeaderDone(pd', tables', data', file, at, j)
    {
      assert HeaderDone(pd, tables, data, file, at, j);
      var p := PhdrAt(file, at + j * PHDR_SIZE);
      if p.kind == PT_LOAD {
        SegmentKept(pd, tables, data, pd', tables', data', upage, count, file, p);
      }
    }
  }

  /** What it takes to load one header with the pages that are free. */
  ghost predicate CanLoad(pd: seq<bv32>, tables: map<Frame, seq<bv32>>, users: nat, kernels: nat,
                          file: seq<Byte>, at: int)
  {
    && HeaderGood(file, at)
    && var p := PhdrAt(file, at);
    && (p.kind == PT_LOAD ==> NoneMapped(pd, tables, FirstPage(p), PageCount(p)) && PageCount(p) <= users
                              && |Missing(pd, SegmentPages(p))| <= kernels)
  }

  /** The pages have been taken from the pools and nothing else has. */
  ghost predicate Taken(pd: seq<bv32>, users: nat, kernels: nat, pd': seq<bv32>, users': nat, kernels': nat,
                        pages: set<nat>)
  {
    && users' + |pages| == users
    && WithTable(pd') == WithTable(pd) + TablesOf(pages)
    && kernels' + |WithTable(pd')| == kernels + |WithTable(pd)|
  }

  lemma NothingTaken(pd: seq<bv32>, users: nat, kernels: nat)
    ensures Taken(pd, users, kernels, pd, users, kernels, {})
  {
    TablesOfUnion({}, {});
  }

  lemma {:induction false} RangeSize(upage: nat, count: nat)
    ensures |Range(upage, count)| == count
  {
    if count > 0 {
      RangeSize(upage, count - 1);
    }
  }

  /** Every page of the set is mapped. */
  ghost predicate MappedAll(pd: seq<bv32>, tables: map<Frame, seq<bv32>>, pages: set<nat>) {
    forall q | q in pages :: q < USER_PAGES && At(pd, tables, q).Some?
  }

  lemma LoadedMapped(pd: seq<bv32>, tables: map<Frame, seq<bv32>>, data: map<Frame, seq<Byte>>,
                     file: seq<Byte>, p: Phdr)
    requires SegmentLoaded(pd, tables, data, file, p)
    ensures MappedAll(pd, tables, Range(FirstPage(p), PageCount(p)))
  {
    hide ExtentOf, ValidateSegment, At, SegmentPage;
    forall q: nat | FirstPage(p) <= q < FirstPage(p) + PageCount(p)
      ensures q < USER_PAGES && At(pd, tables, q).Some?
    {
      assert LoadedAt(pd, tables, data, FirstPage(p), q, file, ExtentOf(p).filePage, ExtentOf(p).readBytes,
                      IsWritable(p));
    }
  }

  method LoadHeader(space: AddressSpace, file: seq<Byte>, at: int) returns (ok: bool)
    requires space.Valid() && HeaderRead(file, at)
    modifies space
    ensures space.Valid()
    ensures var p := PhdrAt(file, at);
      && (ok <==> CanLoad(old(space.pd), old(space.tables), |old(space.userFree)|, |old(space.kernelFree)|, file, at))
      && (ok && p.kind == PT_LOAD ==> SegmentLoaded(space.pd, space.tables, space.data, file, p))
      && (ok ==> PagesKept(old(space.pd), old(space.tables), old(space.data), space.pd, space.tables, space.data,
                           SegmentPages(p)))
      && (ok ==> Taken(old(space.pd), |old(space.userFree)|, |old(space.kernelFree)|,
                       space.pd, |space.userFree|, |space.kernelFree|, SegmentPages(p)))
    ensures old(AllMapped(space.pd, space.tables, space.data)) ==> AllMapped(space.pd, space.tables, space.data)
  {
    hide ValidateSegment, ExtentOf, Loaded, PagesKept, NoneMapped, FramesOk, DirOk, PoolsOk, WithTable, TablesOf,
         Missing, AllMapped, PhdrAt, Range;
    ghost var pd0, tables0, data0 := space.pd, space.tables, space.data;
    NothingChanges(pd0, tables0, data0);
    NothingTaken(pd0, |space.userFree|, |space.kernelFree|);
    var p := PhdrAt(file, at);
    if p.kind == PT_DYNAMIC || p.kind == PT_INTERP || p.kind == PT_SHLIB {
      return false;
    }
    if p.kind != PT_LOAD {
      return true;
    }
    var valid := ValidateSegment(p, |file|);
    if !valid {
      return false;
    }
    SegmentExtent(p, |file|);
    var e := ExtentOf(p);
    WholePages(e.memPage, e.readBytes + e.zeroBytes);
    RangeSize(FirstPage(p), PageCount(p));
    ghost var count;
    ok, count := LoadSegment(space, file, e.filePage, e.memPage / PGSIZE, e.readBytes, e.zeroBytes, IsWritable(p));
    assert count == PageCount(p);
  }

  method LoadHeaders(space: AddressSpace, file: seq<Byte>, at: int, count: nat) returns (ok: bool)
    requires space.Valid() && |file| < 0x8000_0000
    modifies space
    ensures space.Valid()
    ensures ok <==> HeadersPlaced(old(space.pd), old(space.tables), file, at, count)
                    && Room(old(space.pd), |old(space.userFree)|, |old(space.kernelFree)|, Covered(file, at, count))
    ensures ok ==> HeadersLoaded(space.pd, space.tables, space.data, file, at, count)
    ensures ok ==> MappedAll(space.pd, space.tables, Covered(file, at, count))
    ensures ok ==> PagesKept(old(space.pd), old(space.tables), old(space.data), space.pd, space.tables, space.data,
                             Covered(file, at, count))
    ensures ok ==> Taken(old(space.pd), |old(space.userFree)|, |old(space.kernelFree)|,
                         space.pd, |space.userFree|, |space.kernelFree|, Covered(file, at, count))
    ensures old(AllMapped(space.pd, space.tables, space.data)) ==> AllMapped(space.pd, space.tables, space.data)
  {
    hide AddressSpace.Valid, SegmentLoaded, PagesKept, NoneMapped, Range, HeaderDone, PhdrAt, HeadersPlaced, Taken,
         HeaderGood, AllMapped, MappedAll, Covered, HeadersLoaded, CanLoad, Room;
    ghost var pd0, tables0, data0 := space.pd, space.tables, space.data;
    ghost var users, kernels := |space.userFree|, |space.kernelFree|;
    LoadingBegins(space, file, at);
    var fileOfs, i: nat := at, 0;
    while i < count
      invariant i <= count && fileOfs == at + i * PHDR_SIZE && space.Valid()
      invariant HeadersPlaced(pd0, tables0, file, at, i) && Room(pd0, users, kernels, Covered(file, at, i))
      invariant HeadersLoaded(space.pd, space.tables, space.data, file, at, i)
      invariant MappedAll(space.pd, space.tables, Covered(file, at, i))
      invariant PagesKept(pd0, tables0, data0, space.pd, space.tables, space.data, Covered(file, at, i))
      invariant Taken(pd0, users, kernels, space.pd, |space.userFree|, |space.kernelFree|, Covered(file, at, i))
      invariant old(AllMapped(space.pd, space.tables, space.data)) ==> AllMapped(space.pd, space.tables, space.data)
    {
      if fileOfs < 0 || fileOfs > |file| || fileOfs + PHDR_SIZE > |file| {
        Unreadable(pd0, tables0, file, at, i, count);
        return false;
      }
      ghost var pd1, tables1, data1 := space.pd, space.tables, space.data;
      CanLoadIff(pd0, tables0, data0, users, kernels, pd1, tables1, data1, |space.userFree|, |space.kernelFree|,
                 file, at, i);
      ghost var users1, kernels1 := |space.userFree|, |space.kernelFree|;
      ok := LoadHeader(space, file, fileOfs);
      if !ok {
        UpToFewer(pd0, tables0, users, kernels, file, at, i + 1, count);
        return false;
      }
      HeaderAdded(pd0, tables0, data0, users, kernels, pd1, tables1, data1, users1, kernels1,
                  space.pd, space.tables, space.data, |space.userFree|, |space.kernelFree|, file, at, i);
      fileOfs := fileOfs + PHDR_SIZE;
      i := i + 1;
    }
    ok := true;
  }

  lemma LoadingBegins(space: AddressSpace, file: seq<Byte>, at: int)
    requires space.Valid()
    ensures HeadersPlaced(space.pd, space.tables, file, at, 0)
    ensures Room(space.pd, |space.userFree|, |space.kernelFree|, Covered(file, at, 0))
    ensures HeadersLoaded(space.pd, space.tables, space.data, file, at, 0)
    ensures MappedAll(space.pd, space.tables, Covered(file, at, 0))
    ensures PagesKept(space.pd, space.tables, space.data, space.pd, space.tables, space.data, Covered(file, at, 0))
    ensures Taken(space.pd, |space.userFree|, |space.kernelFree|, space.pd, |space.userFree|, |space.kernelFree|,
                  Covered(file, at, 0))
  {
    hide DirOk, PoolsOk;
    NothingChanges(space.pd, space.tables, space.data);
    NothingTaken(space.pd, |space.userFree|, |space.kernelFree|);
    TablesOfUnion({}, {});
  }

  lemma {:induction false} CoveredGrows(file: seq<Byte>, at: int, i: nat, k: nat)
    requires i <= k
    ensures Covered(file, at, i) <= Covered(file, at, k)
  {
    if i < k {
      CoveredGrows(file, at, i, k - 1);
    }
  }

  lemma {:induction false} CoveredIff(file: seq<Byte>, at: int, k: nat, q: nat)
    ensures q in Covered(file, at, k)
      <==> exists j: nat :: j < k && HeaderRead(file, at + j * PHDR_SIZE)
                            && q in SegmentPages(PhdrAt(file, at + j * PHDR_SIZE))
  {
    hide SegmentPages, PhdrAt, HeaderRead;
    if k > 0 {
      CoveredIff(file, at, k - 1, q);
    }
  }

  lemma RoomForFewer(pd: seq<bv32>, users: nat, kernels: nat, pages: set<nat>, more: set<nat>)
    requires pages <= more && Room(pd, users, kernels, more)
    ensures Room(pd, users, kernels, pages)
  {
    assert more == pages + (more - pages);
    TablesOfUnion(pages, more - pages);
    NotLarger(Missing(pd, pages), Missing(pd, more));
  }

  lemma NotLarger(a: set<nat>, b: set<nat>)
    requires a <= b
    ensures |a| <= |b|
  {
    assert b == a + (b - a);
  }

  /** What holds for all headers holds for the first ones. */
  lemma UpToFewer(pd: seq<bv32>, tables: map<Frame, seq<bv32>>, users: nat, kernels: nat, file: seq<Byte>, at: int,
                  i: nat, k: nat)
    requires i <= k
    ensures HeadersPlaced(pd, tables, file, at, k) && Room(pd, users, kernels, Covered(file, at, k))
        ==> HeadersPlaced(pd, tables, file, at, i) && Room(pd, users, kernels, Covered(file, at, i))
  {
    hide HeaderPlaced, Room, Covered;
    CoveredGrows(file, at, i, k);
    if Room(pd, users, kernels, Covered(file, at, k)) {
      RoomForFewer(pd, users, kernels, Covered(file, at, i), Covered(file, at, k));
    }
  }

  lemma Unreadable(pd: seq<bv32>, tables: map<Frame, seq<bv32>>, file: seq<Byte>, at: int, i: nat, k: nat)
    requires i < k && !HeaderRead(file, at + i * PHDR_SIZE)
    ensures !HeadersPlaced(pd, tables, file, at, k)
  {
    assert !HeaderPlaced(pd, tables, file, at, i);
  }

  /** A header can be loaded after the others if and only if it is placed apart from them and there is room for all. */
  lemma CanLoadIff(pd0: seq<bv32>, tables0: map<Frame, seq<bv32>>, data0: map<Frame, seq<Byte>>,
                   users: nat, kernels: nat,
                   pd1: seq<bv32>, tables1: map<Frame, seq<bv32>>, data1: map<Frame, seq<Byte>>,
                   users1: nat, kernels1: nat,
                   file: seq<Byte>, at: int, i: nat)
    requires HeadersPlaced(pd0, tables0, file, at, i) && Room(pd0, users, kernels, Covered(file, at, i))
    requires PagesKept(pd0, tables0, data0, pd1, tables1, data1, Covered(file, at, i))
    requires MappedAll(pd1, tables1, Covered(file, at, i)) && HeaderRead(file, at + i * PHDR_SIZE)
    requires Taken(pd0, users, kernels, pd1, users1, kernels1, Covered(file, at, i))
    ensures CanLoad(pd1, tables1, users1, kernels1, file, at + i * PHDR_SIZE)
      <==> HeadersPlaced(pd0, tables0, file, at, i + 1) && Room(pd0, users, kernels, Covered(file, at, i + 1))
  {
    hide PagesKept, Room, Taken, Covered, PhdrAt, HeaderGood, At;
    var p, c := PhdrAt(file, at + i * PHDR_SIZE), Covered(file, at, i);
    CoveredNext(file, at, i);
    assert HeadersPlaced(pd0, tables0, file, at, i + 1) <==> HeaderPlaced(pd0, tables0, file, at, i) by {
      PlacedNext(pd0, tables0, file, at, i);
    }
    if p.kind == PT_LOAD {
      NoneMappedIff(pd0, tables0, data0, pd1, tables1, data1, c, FirstPage(p), PageCount(p));
      if c !! SegmentPages(p) {
        RoomIff(pd0, users, kernels, pd1, users1, kernels1, c, SegmentPages(p));
        RangeSize(FirstPage(p), PageCount(p));
      }
    } else {
      assert c + SegmentPages(p) == c;
    }
  }

  lemma CoveredNext(file: seq<Byte>, at: int, i: nat)
    requires HeaderRead(file, at + i * PHDR_SIZE)
    ensures Covered(file, at, i + 1) == Covered(file, at, i) + SegmentPages(PhdrAt(file, at + i * PHDR_SIZE))
  {}

  lemma PlacedNext(pd: seq<bv32>, tables: map<Frame, seq<bv32>>, file: seq<Byte>, at: int, i: nat)
    requires HeadersPlaced(pd, tables, file, at, i)
    ensures HeadersPlaced(pd, tables, file, at, i + 1) <==> HeaderPlaced(pd, tables, file, at, i)
  {
    hide HeaderPlaced;
  }

  lemma NoneMappedIff(pd0: seq<bv32>, tables0: map<Frame, seq<bv32>>, data0: map<Frame, seq<Byte>>,
                      pd1: seq<bv32>, tables1: map<Frame, seq<bv32>>, data1: map<Frame, seq<Byte>>, c: set<nat>,
                      upage: nat, count: nat)
    requires PagesKept(pd0, tables0, data0, pd1, tables1, data1, c) && MappedAll(pd1, tables1, c)
    ensures NoneMapped(pd1, tables1, upage, count)
       <==> Range(upage, count) !! c && NoneMapped(pd0, tables0, upage, count)
  {
    hide At;
  }

  lemma RoomIff(pd0: seq<bv32>, users: nat, kernels: nat, pd1: seq<bv32>, users1: nat, kernels1: nat,
                c: set<nat>, more: set<nat>)
    requires Taken(pd0, users, kernels, pd1, users1, kernels1, c) && c !! more
    ensures Room(pd0, users, kernels, c + more) <==> |more| <= users1 && |Missing(pd1, more)| <= kernels1
  {
    hide WithTable, TablesOf;
    TablesOfUnion(c, more);
    var had, t, u := WithTable(pd0), TablesOf(c), TablesOf(more);
    Union(had, t + u);
    Union(had + t, u);
    assert had + t + u == had + (t + u);
  }

  lemma TakenTwice(pd0: seq<bv32>, users: nat, kernels: nat, pd1: seq<bv32>, users1: nat, kernels1: nat,
                   pd2: seq<bv32>, users2: nat, kernels2: nat, c: set<nat>, more: set<nat>)
    requires Taken(pd0, users, kernels, pd1, users1, kernels1, c)
    requires Taken(pd1, users1, kernels1, pd2, users2, kernels2, more)
    requires c !! more
    ensures Taken(pd0, users, kernels, pd2, users2, kernels2, c + more)
  {
    hide WithTable, TablesOf;
    TablesOfUnion(c, more);
  }

  lemma HeaderAdded(pd0: seq<bv32>, tables0: map<Frame, seq<bv32>>, data0: map<Frame, seq<Byte>>,
                    users: nat, kernels: nat,
                    pd1: seq<bv32>, tables1: map<Frame, seq<bv32>>, data1: map<Frame, seq<Byte>>,
                    users1: nat, kernels1: nat,
                    pd2: seq<bv32>, tables2: map<Frame, seq<bv32>>, data2: map<Frame, seq<Byte>>,
                    users2: nat, kernels2: nat,
                    file: seq<Byte>, at: int, i: nat)
    requires HeaderRead(file, at + i * PHDR_SIZE)
    requires HeadersLoaded(pd1, tables1, data1, file, at, i) && MappedAll(pd1, tables1, Covered(file, at, i))
    requires CanLoad(pd1, tables1, users1, kernels1, file, at + i * PHDR_SIZE)
    requires PagesKept(pd0, tables0, data0, pd1, tables1, data1, Covered(file, at, i))
    requires Taken(pd0, users, kernels, pd1, users1, kernels1, Covered(file, at, i))
    requires var p := PhdrAt(file, at + i * PHDR_SIZE);
      && (p.kind == PT_LOAD ==> SegmentLoaded(pd2, tables2, data2, file, p))
      && PagesKept(pd1, tables1, data1, pd2, tables2, data2, SegmentPages(p))
      && Taken(pd1, users1, kernels1, pd2, users2, kernels2, SegmentPages(p))
    ensures HeadersLoaded(pd2, tables2, data2, file, at, i + 1) && MappedAll(pd2, tables2, Covered(file, at, i + 1))
    ensures PagesKept(pd0, tables0, data0, pd2, tables2, data2, Covered(file, at, i + 1))
    ensures Taken(pd0, users, kernels, pd2, users2, kernels2, Covered(file, at, i + 1))
  {
    hide PagesKept, NoneMapped, SegmentLoaded, PhdrAt, At, Taken, Covered, MappedAll, Range;
    var p, c := PhdrAt(file, at + i * PHDR_SIZE), Covered(file, at, i);
    CoveredNext(file, at, i);
    KeptTwice(pd0, tables0, data0, pd1, tables1, data1, pd2, tables2, data2, c, SegmentPages(p));
    if p.kind == PT_LOAD {
      HeadersKept(pd1, tables1, data1, pd2, tables2, data2, FirstPage(p), PageCount(p), file, at, i);
      MappedApart(pd1, tables1, c, FirstPage(p), PageCount(p));
      LoadedMapped(pd2, tables2, data2, file, p);
      StillMapped(pd1, tables1, data1, pd2, tables2, data2, c, FirstPage(p), PageCount(p));
    } else {
      EmptyRange(pd1, tables1);
      NothingToMap(pd2, tables2);
      HeadersKept(pd1, tables1, data1, pd2, tables2, data2, 0, 0, file, at, i);
      StillMapped(pd1, tables1, data1, pd2, tables2, data2, c, 0, 0);
    }
    TakenTwice(pd0, users, kernels, pd1, users1, kernels1, pd2, users2, kernels2, c, SegmentPages(p));
    assert HeaderDone(pd2, tables2, data2, file, at, i);
  }

  lemma NothingToMap(pd: seq<bv32>, tables: map<Frame, seq<bv32>>)
    ensures MappedAll(pd, tables, {})
  {}

  lemma MappedApart(pd: seq<bv32>, tables: map<Frame, seq<bv32>>, c: set<nat>, upage: nat, count: nat)
    requires MappedAll(pd, tables, c) && NoneMapped(pd, tables, upage, count)
    ensures c !! Range(upage, count)
  {
    hide At;
  }

  lemma StillMapped(pd: seq<bv32>, tables: map<Frame, seq<bv32>>, data: map<Frame, seq<Byte>>,
                    pd': seq<bv32>, tables': map<Frame, seq<bv32>>, data': map<Frame, seq<Byte>>,
                    c: set<nat>, upage: nat, count: nat)
    requires MappedAll(pd, tables, c) && c !! Range(upage, count)
    requires PagesKept(pd, tables, data, pd', tables', data', Range(upage, count))
    requires MappedAll(pd', tables', Range(upage, count))
    ensures MappedAll(pd', tables', c + Range(upage, count))
  {
    hide At;
  }

  lemma EmptyRange(pd: seq<bv32>, tables: map<Frame, seq<bv32>>)
    ensures Range(0, 0) == {} && NoneMapped(pd, tables, 0, 0)
  {}

  const STACK_PAGE: nat := USER_PAGES - 1

  /** A zeroed page at the top of the user address space, if it is not mapped and there is memory. */
  method SetupStack(space: AddressSpace) returns (ok: bool)
    requires space.Valid()
    modifies space
    ensures space.Valid()
    ensures ok <==> old(At(space.pd, space.tables, STACK_PAGE)).None? && old(space.userFree) != {}
                    && |Missing(old(space.pd), {STACK_PAGE})| <= |old(space.kernelFree)|
    ensures ok ==> PageHolds(space.pd, space.tables, space.data, STACK_PAGE, ZeroBytes(PGSIZE), true)
    ensures PagesKept(old(space.pd), old(space.tables), old(space.data), space.pd, space.tables, space.data,
                      if ok then {STACK_PAGE} else {})
    ensures old(AllMapped(space.pd, space.tables, space.data)) ==> AllMapped(space.pd, space.tables, space.data)
  {
    hide At, FramesOk, DirOk, PoolsOk, Unmapped, WithTable, TablesOf, AllMapped, Missing;
    ghost var pd0, tables0, data0 := space.pd, space.tables, space.data;
    TableMissing(space, STACK_PAGE);
    var f := space.TakePage();
    if f.None? {
      NothingChanges(pd0, tables0, data0);
      return false;
    }
    space.FillPage(f.value, ZeroBytes(PGSIZE));
    ok := InstallOrFree(space, f.value, STACK_PAGE, true);
    if ok {
      OwnerlessChanges(pd0, tables0, data0, space.pd, space.tables, space.data, f.value, {STACK_PAGE});
      NowAllMapped(pd0, tables0, data0, space.pd, space.tables, space.data, STACK_PAGE, f.value);
    } else {
      assert space.data == data0;
      OwnerlessChanges(pd0, tables0, data0, space.pd, space.tables, space.data, f.value, {});
      StillAllMapped(pd0, tables0, space.pd, space.tables, data0);
    }
  }

  lemma TableMissing(space: AddressSpace, page: nat)
    requires space.Valid() && page < USER_PAGES
    ensures PdNo(page) < |space.pd|
    ensures |Missing(space.pd, {page})| == if space.pd[PdNo(page)] != 0 then 0 else 1
  {
    hide DirOk, FramesOk, PoolsOk, PdNo;
    DirLength(space.pd, space.tables, page);
    TableThereIff(space, page);
    TablesOfOne(page);
    assert Missing(space.pd, {page}) == if space.pd[PdNo(page)] != 0 then {} else {PdNo(page)};
  }

  /** What the file, the pages mapped before and the free pages must be like for load to succeed. */
  ghost predicate CanBeLoaded(pd: seq<bv32>, tables: map<Frame, seq<bv32>>, users: nat, kernels: nat, file: seq<Byte>) {
    && HeaderOk(file)
    && var covered := Covered(file, HeadersAt(file), Half(file, 44));
    && HeadersPlaced(pd, tables, file, HeadersAt(file), Half(file, 44))
    && STACK_PAGE !in covered && At(pd, tables, STACK_PAGE).None?
    && Room(pd, users, kernels, covered + {STACK_PAGE})
  }

  /** What a loaded executable finds: its segments, a zeroed stack page and its entry point; other pages are as they
      were. It is loaded if and only if it can be, and a failing load loses no page of memory. */
  method Load(space: AddressSpace, file: seq<Byte>) returns (ok: bool, eip: nat, esp: nat)
    requires space.Valid() && |file| < 0x8000_0000
    modifies space
    ensures space.Valid()
    ensures ok <==> CanBeLoaded(old(space.pd), old(space.tables), |old(space.userFree)|, |old(space.kernelFree)|, file)
    ensures ok ==> HeaderOk(file) && eip == Word(file, 24) && esp == PHYS_BASE
    ensures ok ==> HeadersLoaded(space.pd, space.tables, space.data, file, HeadersAt(file), Half(file, 44))
    ensures ok ==> PageHolds(space.pd, space.tables, space.data, STACK_PAGE, ZeroBytes(PGSIZE), true)
    ensures ok ==> PagesKept(old(space.pd), old(space.tables), old(space.data), space.pd, space.tables, space.data,
                             Covered(file, HeadersAt(file), Half(file, 44)) + {STACK_PAGE})
    ensures old(AllMapped(space.pd, space.tables, space.data)) ==> AllMapped(space.pd, space.tables, space.data)
  {
    hide AddressSpace.Valid, HeadersLoaded, PagesKept, PageHolds, Covered, At, HeadersPlaced, Room, Missing, Taken,
         AllMapped, MappedAll, HeaderOk;
    eip, esp := 0, 0;
    ok := HeaderOk(file);
    if !ok {
      return;
    }
    HeaderOkSize(file);
    ghost var pd0, tables0, data0 := space.pd, space.tables, space.data;
    ghost var users, kernels := |space.userFree|, |space.kernelFree|;
    var at, count := HeadersAt(file), Half(file, 44);
    ghost var covered := Covered(file, at, count);
    ok := LoadHeaders(space, file, at, count);
    if !ok {
      StackNeedsMore(pd0, users, kernels, covered);
      return;
    }
    ghost var pd1, tables1, data1 := space.pd, space.tables, space.data;
    StackIff(pd0, tables0, data0, users, kernels, pd1, tables1, data1, |space.userFree|, |space.kernelFree|, covered);
    ok := SetupStack(space);
    if !ok {
      return;
    }
    KeptTwice(pd0, tables0, data0, pd1, tables1, data1, space.pd, space.tables, space.data, covered, {STACK_PAGE});
    OnePage(pd1, tables1, STACK_PAGE);
    HeadersKept(pd1, tables1, data1, space.pd, space.tables, space.data, STACK_PAGE, 1, file, at, count);
    eip, esp := Word(file, 24), PHYS_BASE;
  }

  lemma HeaderOkSize(file: seq<Byte>)
    requires HeaderOk(file)
    ensures EHDR_SIZE <= |file|
  {}

  lemma StackNeedsMore(pd: seq<bv32>, users: nat, kernels: nat, covered: set<nat>)
    ensures Room(pd, users, kernels, covered + {STACK_PAGE}) ==> Room(pd, users, kernels, covered)
  {
    hide Room;
    if Room(pd, users, kernels, covered + {STACK_PAGE}) {
      RoomForFewer(pd, users, kernels, covered, covered + {STACK_PAGE});
    }
  }

  /** The stack page finds its place after the segments if and only if it is clear of them and there is room for all. */
  lemma StackIff(pd0: seq<bv32>, tables0: map<Frame, seq<bv32>>, data0: map<Frame, seq<Byte>>, users: nat, kernels: nat,
                 pd1: seq<bv32>, tables1: map<Frame, seq<bv32>>, data1: map<Frame, seq<Byte>>,
                 users1: nat, kernels1: nat,
                 covered: set<nat>)
    requires PagesKept(pd0, tables0, data0, pd1, tables1, data1, covered) && MappedAll(pd1, tables1, covered)
    requires Taken(pd0, users, kernels, pd1, users1, kernels1, covered)
    ensures (At(pd1, tables1, STACK_PAGE).None? && users1 >= 1 && |Missing(pd1, {STACK_PAGE})| <= kernels1)
      <==> (STACK_PAGE !in covered && At(pd0, tables0, STACK_PAGE).None?
             && Room(pd0, users, kernels, covered + {STACK_PAGE}))
  {
    hide At, Room, Taken, Missing;
    if STACK_PAGE !in covered {
      RoomIff(pd0, users, kernels, pd1, users1, kernels1, covered, {STACK_PAGE});
    }
  }

  lemma OnePage(pd: seq<bv32>, tables: map<Frame, seq<bv32>>, page: nat)
    requires page < USER_PAGES && At(pd, tables, page).None?
    ensures Range(page, 1) == {page} && NoneMapped(pd, tables, page, 1)
  {
    hide At;
  }
}
