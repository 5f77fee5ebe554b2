/** Two-level page tables (pagedir.c, pte.h, vaddr.h) over pages of physical memory. */
module PageTables {
  import opened Wrappers
  import opened Bytes

  const PGSIZE: nat := 4096
  const ENTRIES: nat := 1024
  /** Page directory entries and pages below PHYS_BASE, which is 0xc0000000. */
  const USER_TABLES: nat := 768
  const USER_PAGES: nat := USER_TABLES * ENTRIES

  /** A page is named by its physical address. */
  datatype Frame = Frame(address: bv32)

  datatype Mapping = Mapping(frame: Frame, writable: bool)

  // ---- entries ----

  function PdeCreate(pt: Frame): bv32 { pt.address | 4 | 1 | 2 }

  function PteCreateUser(page: Frame, writable: bool): bv32 {
    page.address | 1 | (if writable then 2 else 0) | 4
  }

  function AddressOf(e: bv32): Frame { Frame(e & 0xffff_f000) }

  predicate Present(e: bv32) { e & 1 != 0 }

  predicate Writable(e: bv32) { e & 2 != 0 }

  function NotPresent(e: bv32): bv32 { e & 0xffff_fffe }

  predicate Aligned(f: Frame) { f.address & 0xfff == 0 }

  lemma PdeBits(pt: Frame)
    requires Aligned(pt)
    ensures PdeCreate(pt) != 0 && Present(PdeCreate(pt)) && AddressOf(PdeCreate(pt)) == pt
  {}

  lemma PteBits(page: Frame, writable: bool)
    requires Aligned(page)
    ensures var e := PteCreateUser(page, writable);
      Present(e) && AddressOf(e) == page && (Writable(e) <==> writable)
  {}

  lemma NotPresentBits(e: bv32)
    ensures !Present(NotPresent(e)) && AddressOf(NotPresent(e)) == AddressOf(e)
    ensures !Present(0)
  {}

  // ---- what the tables say ----

  function PdNo(page: nat): nat { page / ENTRIES }

  function PtNo(page: nat): nat { page % ENTRIES }

  /** The directory has a table of its own for every nonzero user entry. */
  ghost predicate DirOk(pd: seq<bv32>, tables: map<Frame, seq<bv32>>) {
    && |pd| == ENTRIES
    && (forall i: nat :: i < USER_TABLES && pd[i] != 0 ==>
          AddressOf(pd[i]) in tables && Aligned(AddressOf(pd[i])) && Present(pd[i]))
    && (forall i: nat, j: nat :: i < j < USER_TABLES && pd[i] != 0 && pd[j] != 0 ==>
          AddressOf(pd[i]) != AddressOf(pd[j]))
    && (forall t :: t in tables ==> |tables[t]| == ENTRIES)
  }

  function Entry(pd: seq<bv32>, tables: map<Frame, seq<bv32>>, page: nat): bv32
    requires page < USER_PAGES
  {
    var i := PdNo(page);
    if i < |pd| && pd[i] != 0 && AddressOf(pd[i]) in tables && |tables[AddressOf(pd[i])]| == ENTRIES
    then tables[AddressOf(pd[i])][PtNo(page)] else 0
  }

  /** The user entries of the directory that have a table. */
  ghost function WithTable(pd: seq<bv32>): set<nat> { set i: nat | i < |pd| && i < USER_TABLES && pd[i] != 0 }

  /** The page of memory that a page of the user address space is mapped to. */
  function At(pd: seq<bv32>, tables: map<Frame, seq<bv32>>, page: nat): Option<Mapping>
    requires page < USER_PAGES
  {
    var e := Entry(pd, tables, page);
    if Present(e) then Some(Mapping(AddressOf(e), Writable(e))) else None
  }

  lemma PageNumbers(page: nat)
    requires page < USER_PAGES
    ensures PdNo(page) < USER_TABLES && PtNo(page) < ENTRIES
    ensures page == PdNo(page) * ENTRIES + PtNo(page)
  {}

  function EmptyTable(): (t: seq<bv32>)
    ensures |t| == ENTRIES && forall k :: 0 <= k < ENTRIES ==> t[k] == 0
  {
    seq(ENTRIES, _ => 0)
  }

  /** Adding an empty table maps nothing. */
  lemma TableAdded(pd: seq<bv32>, tables: map<Frame, seq<bv32>>, i: nat, pt: Frame)
    requires DirOk(pd, tables) && i < USER_TABLES && pd[i] == 0 && pt !in tables && Aligned(pt)
    ensures var pd' := pd[i := PdeCreate(pt)];
      var tables' := tables[pt := EmptyTable()];
      && DirOk(pd', tables')
      && (forall page: nat :: page < USER_PAGES ==> At(pd', tables', page) == At(pd, tables, page))
  {
    hide PdeCreate, AddressOf, Present, Aligned, Writable;
    PdeBits(pt);
    NotPresentBits(0);
    var pd' := pd[i := PdeCreate(pt)];
    var tables' := tables[pt := EmptyTable()];
    forall page: nat | page < USER_PAGES
      ensures Entry(pd', tables', page) == Entry(pd, tables, page)
    {
      PageNumbers(page);
    }
  }

  lemma TableThere(pd: seq<bv32>, i: nat)
    requires i < |pd| && i < USER_TABLES && pd[i] != 0
    ensures WithTable(pd) + {i} == WithTable(pd)
  {}

  lemma TableCounted(pd: seq<bv32>, i: nat, e: bv32)
    requires i < |pd| && i < USER_TABLES && pd[i] == 0 && e != 0
    ensures WithTable(pd[i := e]) == WithTable(pd) + {i} && i !in WithTable(pd)
  {}

  /** Changing one entry changes what it maps and nothing else. */
  lemma EntrySet(pd: seq<bv32>, tables: map<Frame, seq<bv32>>, page: nat, e: bv32)
    requires DirOk(pd, tables) && page < USER_PAGES && PdNo(page) < |pd| && pd[PdNo(page)] != 0
    ensures var t := AddressOf(pd[PdNo(page)]);
      && t in tables && PtNo(page) < |tables[t]|
      && var tables' := tables[t := tables[t][PtNo(page) := e]];
      && DirOk(pd, tables')
      && Entry(pd, tables', page) == e
      && (forall q: nat :: q < USER_PAGES && q != page ==> Entry(pd, tables', q) == Entry(pd, tables, q))
  {
    hide AddressOf, Present, Aligned;
    PageNumbers(page);
    var t := AddressOf(pd[PdNo(page)]);
    var tables' := tables[t := tables[t][PtNo(page) := e]];
    forall q: nat | q < USER_PAGES && q != page
      ensures Entry(pd, tables', q) == Entry(pd, tables, q)
    {
      PageNumbers(q);
      if PdNo(q) != PdNo(page) && pd[PdNo(q)] != 0 {
        OtherTable(pd, tables, PdNo(q), PdNo(page));
      }
    }
  }

  lemma OtherTable(pd: seq<bv32>, tables: map<Frame, seq<bv32>>, i: nat, j: nat)
    requires DirOk(pd, tables) && i < USER_TABLES && j < USER_TABLES && i != j && pd[i] != 0 && pd[j] != 0
    ensures AddressOf(pd[i]) != AddressOf(pd[j])
  {
    hide AddressOf, Present, Aligned;
  }

  // ---- pages of data ----

  /** Every mapped page is a page of data, and no two pages are mapped to the same one. */
  ghost predicate FramesOk(pd: seq<bv32>, tables: map<Frame, seq<bv32>>, data: map<Frame, seq<Byte>>) {
    && (forall p: nat :: p < USER_PAGES && At(pd, tables, p).Some? ==> At(pd, tables, p).value.frame in data)
    && (forall p: nat, q: nat :: p < q < USER_PAGES && At(pd, tables, p).Some? && At(pd, tables, q).Some? ==>
          At(pd, tables, p).value.frame != At(pd, tables, q).value.frame)
  }

  ghost predicate PoolsOk(kernelFree: set<Frame>, userFree: set<Frame>,
                          tables: map<Frame, seq<bv32>>, data: map<Frame, seq<Byte>>)
  {
    && kernelFree !! userFree && tables.Keys !! data.Keys
    && (forall f :: f in kernelFree + userFree ==> f !in tables && f !in data && Aligned(f))
    && (forall f :: f in tables ==> Aligned(f))
    && (forall f :: f in data ==> Aligned(f) && |data[f]| == PGSIZE)
  }

  /** A page that is neither free nor in use as a table or for data. */
  ghost predicate Apart(f: Frame, kernelFree: set<Frame>, userFree: set<Frame>,
                        tables: map<Frame, seq<bv32>>, data: map<Frame, seq<Byte>>)
  {
    f !in kernelFree && f !in userFree && f !in tables && f !in data
  }

  /** No page is mapped to f. */
  ghost predicate Unmapped(pd: seq<bv32>, tables: map<Frame, seq<bv32>>, f: Frame) {
    forall p: nat :: p < USER_PAGES && At(pd, tables, p).Some? ==> At(pd, tables, p).value.frame != f
  }

  /** No page of data is lost: each is mapped somewhere. */
  ghost predicate AllMapped(pd: seq<bv32>, tables: map<Frame, seq<bv32>>, data: map<Frame, seq<Byte>>) {
    forall f :: f in data ==> !Unmapped(pd, tables, f)
  }

  ghost predicate SameMappings(pd: seq<bv32>, tables: map<Frame, seq<bv32>>,
                               pd': seq<bv32>, tables': map<Frame, seq<bv32>>, except: set<nat>)
  {
    forall q: nat :: q < USER_PAGES && q !in except ==> At(pd', tables', q) == At(pd, tables, q)
  }

  /** The address space of a process: its page directory and page tables, its pages and the two pools of free pages. */
  class AddressSpace {
    var pd: seq<bv32>
    var tables: map<Frame, seq<bv32>>
    var data: map<Frame, seq<Byte>>
    var kernelFree: set<Frame>
    var userFree: set<Frame>
    // The page of the directory itself.
    const directory: Frame

    ghost predicate Valid()
      reads this
    {
      && DirOk(pd, tables) && FramesOk(pd, tables, data) && PoolsOk(kernelFree, userFree, tables, data)
      && Apart(directory, kernelFree, userFree, tables, data)
    }

    /** A copy of the directory of the kernel, which maps no user page. */
    constructor (initPageDir: seq<bv32>, kernelFree: set<Frame>, userFree: set<Frame>, page: Frame)
      requires |initPageDir| == ENTRIES && (forall i: nat :: i < USER_TABLES ==> initPageDir[i] == 0)
      requires PoolsOk(kernelFree, userFree, map[], map[]) && page in kernelFree
      ensures Valid() && (forall q: nat :: q < USER_PAGES ==> At(pd, tables, q).None?)
      ensures this.kernelFree == kernelFree - {page} && this.userFree == userFree && directory == page
    {
      pd, tables, data, directory := initPageDir, map[], map[], page;
      this.kernelFree, this.userFree := kernelFree - {page}, userFree;
      new;
      NotPresentBits(0);
      forall q: nat | q < USER_PAGES
        ensures At(pd, tables, q).None?
      {
        PageNumbers(q);
      }
    }

    /** The table with the entry of a page, made if it is missing and wanted. */
    method LookupPage(page: nat, create: bool) returns (t: Option<Frame>)
      requires Valid() && page < USER_PAGES
      modifies this`pd, this`tables, this`kernelFree
      ensures Valid() && SameMappings(old(pd), old(tables), pd, tables, {})
      ensures PdNo(page) < |pd| && |pd| == |old(pd)|
      ensures t.Some? <==> old(pd)[PdNo(page)] != 0 || (create && old(kernelFree) != {})
      ensures t.Some? ==> pd[PdNo(page)] != 0 && t.value == AddressOf(pd[PdNo(page)]) && t.value in tables
      ensures t.None? || !create ==> pd == old(pd) && tables == old(tables) && kernelFree == old(kernelFree)
      ensures WithTable(pd) == WithTable(old(pd)) + (if t.Some? then {PdNo(page)} else {})
      ensures |kernelFree| + |WithTable(pd)| == |old(kernelFree)| + |WithTable(old(pd))|
    {
      hide AddressOf, PdeCreate, Aligned, Present, At, FramesOk, Unmapped, WithTable, SameMappings, PoolsOk;
      PageNumbers(page);
      NoMappingChanges(pd, tables);
      var i := PdNo(page);
      if pd[i] == 0 {
        if !create || kernelFree == {} {
          return None;
        }
        MakeTable(i);
      } else {
        TableThere(pd, i);
      }
      t := Some(AddressOf(pd[i]));
    }

    /** A page of zeros becomes a table. */
    method MakeTable(i: nat)
      requires Valid() && i < USER_TABLES && pd[i] == 0 && kernelFree != {}
      modifies this`pd, this`tables, this`kernelFree
      ensures Valid() && SameMappings(old(pd), old(tables), pd, tables, {})
      ensures i < |pd| == |old(pd)| && pd[i] != 0 && AddressOf(pd[i]) in tables
      ensures WithTable(pd) == WithTable(old(pd)) + {i}
      ensures |kernelFree| + |WithTable(pd)| == |old(kernelFree)| + |WithTable(old(pd))|
    {
      hide AddressOf, PdeCreate, Aligned, Present, At, FramesOk, Unmapped, WithTable;
      var pt :| pt in kernelFree;
      TableAdded(pd, tables, i, pt);
      PdeBits(pt);
      SameFrames(pd, tables, pd[i := PdeCreate(pt)], tables[pt := EmptyTable()], data);
      TableCounted(pd, i, PdeCreate(pt));
      kernelFree := kernelFree - {pt};
      tables := tables[pt := EmptyTable()];
      pd := pd[i := PdeCreate(pt)];
    }

    /** Fails, changing nothing, only when a table is missing and no page is left for it. */
    method SetPage(page: nat, frame: Frame, writable: bool) returns (ok: bool)
      requires Valid() && page < USER_PAGES && frame in data
      requires At(pd, tables, page).None? && Unmapped(pd, tables, frame)
      modifies this`pd, this`tables, this`kernelFree
      ensures Valid() && |old(pd)| == |pd| == ENTRIES
      ensures ok <==> old(pd)[PdNo(page)] != 0 || old(kernelFree) != {}
      ensures ok ==> At(pd, tables, page) == Some(Mapping(frame, writable))
      ensures SameMappings(old(pd), old(tables), pd, tables, if ok then {page} else {})
      ensures WithTable(pd) == WithTable(old(pd)) + (if ok then {PdNo(page)} else {})
      ensures |kernelFree| + |WithTable(pd)| == |old(kernelFree)| + |WithTable(old(pd))|
    {
      hide AddressOf, PteCreateUser, Aligned, Present, Writable, FramesOk, Unmapped, Entry, WithTable;
      var t := LookupPage(page, true);
      ghost var pd0, tables0 := pd, tables;
      if t.None? {
        return false;
      }
      PteBits(frame, writable);
      EntrySet(pd, tables, page, PteCreateUser(frame, writable));
      ghost var tables1 := tables[t.value := tables[t.value][PtNo(page) := PteCreateUser(frame, writable)]];
      StillUnmapped(old(pd), old(tables), pd, tables, frame);
      FrameAdded(pd, tables, tables1, data, page, frame);
      tables := tables[t.value := tables[t.value][PtNo(page) := PteCreateUser(frame, writable)]];
      assert AddressOf(pd[PdNo(page)]) in tables0;
      return true;
    }

    method GetPage(page: nat) returns (m: Option<Mapping>)
      requires Valid() && page < USER_PAGES
      ensures m == At(pd, tables, page)
    {
      PageNumbers(page);
      var i := PdNo(page);
      m := None;
      if pd[i] != 0 {
        var e := tables[AddressOf(pd[i])][PtNo(page)];
        if Present(e) {
          m := Some(Mapping(AddressOf(e), Writable(e)));
        }
      }
    }

    /** The page stays where it is in memory, and only its own mapping goes. */
    method ClearPage(page: nat)
      requires Valid() && page < USER_PAGES
      modifies this`tables
      ensures Valid() && At(pd, tables, page).None?
      ensures SameMappings(pd, old(tables), pd, tables, {page})
    {
      hide AddressOf, NotPresent, Aligned, Present, Writable, FramesOk, DirOk, Entry;
      ghost var tables0 := tables;
      var m := GetPage(page);
      if m.Some? {
        var i, j := PdNo(page), PtNo(page);
        PresentEntry(pd, tables, page);
        var t := AddressOf(pd[i]);
        var e := NotPresent(tables[t][j]);
        NotPresentBits(tables[t][j]);
        EntrySet(pd, tables, page, e);
        FrameDropped(pd, tables, tables[t := tables[t][j := e]], data, page);
        tables := tables[t := tables[t][j := e]];
      }
    }

    /** palloc_get_page for the user pool; the page holds what it held before. */
    method TakePage() returns (f: Option<Frame>)
      requires Valid()
      modifies this`data, this`userFree
      ensures Valid() && (f.None? <==> old(userFree) == {})
      ensures f.None? ==> data == old(data) && userFree == old(userFree)
      ensures f.Some? ==> f.value in old(userFree) && userFree == old(userFree) - {f.value}
      ensures f.Some? ==> f.value !in old(data) && f.value in data && data == old(data)[f.value := data[f.value]]
      ensures f.Some? ==> Unmapped(pd, tables, f.value)
    {
      hide At, Aligned, DirOk;
      if userFree == {} {
        return None;
      }
      var page :| page in userFree;
      userFree := userFree - {page};
      data := data[page := seq(PGSIZE, _ => 0)];
      return Some(page);
    }

    method FillPage(f: Frame, content: seq<Byte>)
      requires Valid() && f in data && |content| == PGSIZE
      modifies this`data
      ensures Valid() && data == old(data)[f := content]
    {
      hide At, Aligned, DirOk;
      data := data[f := content];
    }

    method FreePage(f: Frame)
      requires Valid() && f in data && Unmapped(pd, tables, f)
      modifies this`data, this`userFree
      ensures Valid() && data == old(data) - {f} && userFree == old(userFree) + {f}
    {
      hide At, Aligned, DirOk;
      data := data - {f};
      userFree := userFree + {f};
    }

    /** A page that is mapped already is not mapped again. */
    method InstallPage(page: nat, frame: Frame, writable: bool) returns (ok: bool)
      requires Valid() && page < USER_PAGES && frame in data && Unmapped(pd, tables, frame)
      modifies this`pd, this`tables, this`kernelFree
      ensures Valid() && |old(pd)| == |pd| == ENTRIES && PdNo(page) < ENTRIES
      ensures ok <==> At(old(pd), old(tables), page).None? && (old(pd)[PdNo(page)] != 0 || old(kernelFree) != {})
      ensures ok ==> At(pd, tables, page) == Some(Mapping(frame, writable))
      ensures SameMappings(old(pd), old(tables), pd, tables, if ok then {page} else {})
      ensures WithTable(pd) == WithTable(old(pd)) + (if ok then {PdNo(page)} else {})
      ensures |kernelFree| + |WithTable(pd)| == |old(kernelFree)| + |WithTable(old(pd))|
    {
      hide At, Aligned, FramesOk, PoolsOk, Unmapped;
      PageNumbers(page);
      assert SameMappings(pd, tables, pd, tables, {});
      var m := GetPage(page);
      ok := false;
      if m.None? {
        ok := SetPage(page, frame, writable);
      }
    }

    /** palloc_free_page, which accepts used pages only. */
    method ReleaseData(f: Frame)
      requires f in data && f !in userFree
      modifies this`data, this`userFree
      ensures data == old(data) - {f} && userFree == old(userFree) + {f}
    {
      data := data - {f};
      userFree := userFree + {f};
    }

    method ReleaseTable(t: Frame)
      requires t in tables && t !in kernelFree
      modifies this`tables, this`kernelFree
      ensures tables == old(tables) - {t} && kernelFree == old(kernelFree) + {t}
    {
      tables := tables - {t};
      kernelFree := kernelFree + {t};
    }

    method ReleaseDirectory()
      requires directory !in kernelFree
      modifies this`kernelFree
      ensures kernelFree == old(kernelFree) + {directory}
    {
      kernelFree := kernelFree + {directory};
    }

    /** Frees the pages that one table maps; those of the tables before it are free already. */
    method DestroyPages(i: nat, ghost tables0: map<Frame, seq<bv32>>, ghost data0: map<Frame, seq<Byte>>,
                        ghost userFree0: set<Frame>)
      requires i < USER_TABLES && DirOk(pd, tables0) && FramesOk(pd, tables0, data0)
      requires data0.Keys !! userFree0
      requires pd[i] != 0 && AddressOf(pd[i]) in tables && tables[AddressOf(pd[i])] == tables0[AddressOf(pd[i])]
      requires data == data0 - MappedBelow(pd, tables0, i * ENTRIES)
      requires userFree == userFree0 + MappedBelow(pd, tables0, i * ENTRIES)
      modifies this`data, this`userFree
      ensures data == data0 - MappedBelow(pd, tables0, (i + 1) * ENTRIES)
      ensures userFree == userFree0 + MappedBelow(pd, tables0, (i + 1) * ENTRIES)
    {
      hide FramesOk, AddressOf, Present, At, Writable;
      var pt := tables[AddressOf(pd[i])];
      var j: nat := 0;
      while j < ENTRIES
        invariant j <= ENTRIES
        invariant data == data0 - MappedBelow(pd, tables0, i * ENTRIES + j)
        invariant userFree == userFree0 + MappedBelow(pd, tables0, i * ENTRIES + j)
      {
        EntryOf(pd, tables0, i, j);
        if Present(pt[j]) {
          NotYetFreed(pd, tables0, data0, i * ENTRIES + j, i * ENTRIES + j);
          ReleaseData(AddressOf(pt[j]));
        }
        j := j + 1;
      }
    }

    /** Frees every mapped page, every table of user pages, the directory, and nothing else, each of them once. */
    method Destroy()
      requires Valid()
      modifies this`data, this`userFree, this`tables, this`kernelFree
      ensures data == old(data) - MappedBelow(pd, old(tables), USER_PAGES)
      ensures userFree == old(userFree) + MappedBelow(pd, old(tables), USER_PAGES)
      ensures tables == old(tables) - TablesBelow(pd, USER_TABLES)
      ensures kernelFree == old(kernelFree) + TablesBelow(pd, USER_TABLES) + {directory}
    {
      hide FramesOk, AddressOf, Present, At, MappedBelow, Aligned;
      var i: nat := 0;
      ghost var tables0, data0, userFree0 := tables, data, userFree;
      NothingMappedBelow(pd, tables0);
      while i < USER_TABLES
        invariant i <= USER_TABLES
        invariant data == data0 - MappedBelow(pd, tables0, i * ENTRIES)
        invariant userFree == userFree0 + MappedBelow(pd, tables0, i * ENTRIES)
        invariant tables == tables0 - TablesBelow(pd, i) && kernelFree == old(kernelFree) + TablesBelow(pd, i)
      {
        TableNotFreed(pd, tables0, i, i);
        if Present(pd[i]) {
          PresentIsNonzero(pd[i]);
          DestroyPages(i, tables0, data0, userFree0);
          ReleaseTable(AddressOf(pd[i]));
        } else {
          UnmappedTable(pd, tables0, i, ENTRIES);
        }
        i := i + 1;
      }
      TablesInUse(pd, tables0, USER_TABLES);
      ReleaseDirectory();
    }
  }

  lemma NoMappingChanges(pd: seq<bv32>, tables: map<Frame, seq<bv32>>)
    ensures SameMappings(pd, tables, pd, tables, {})
  {}

  lemma SameFrames(pd: seq<bv32>, tables: map<Frame, seq<bv32>>, pd': seq<bv32>, tables': map<Frame, seq<bv32>>,
                   data: map<Frame, seq<Byte>>)
    requires FramesOk(pd, tables, data)
    requires forall q: nat :: q < USER_PAGES ==> At(pd', tables', q) == At(pd, tables, q)
    ensures FramesOk(pd', tables', data) && SameMappings(pd, tables, pd', tables', {})
  {
    hide At;
  }

  lemma StillUnmapped(pd: seq<bv32>, tables: map<Frame, seq<bv32>>, pd': seq<bv32>, tables': map<Frame, seq<bv32>>,
                      f: Frame)
    requires Unmapped(pd, tables, f) && SameMappings(pd, tables, pd', tables', {})
    ensures Unmapped(pd', tables', f)
  {
    hide At;
  }

  lemma OthersSame(pd: seq<bv32>, tables: map<Frame, seq<bv32>>, tables': map<Frame, seq<bv32>>, page: nat)
    requires forall q: nat :: q < USER_PAGES && q != page ==> Entry(pd, tables', q) == Entry(pd, tables, q)
    ensures SameMappings(pd, tables, pd, tables', {page})
  {
    hide Entry, AddressOf, Present, Writable;
    forall q: nat | q < USER_PAGES && q !in {page}
      ensures At(pd, tables', q) == At(pd, tables, q)
    {
      assert Entry(pd, tables', q) == Entry(pd, tables, q);
    }
  }

  lemma FramesAfter(pd: seq<bv32>, tables: map<Frame, seq<bv32>>, tables': map<Frame, seq<bv32>>,
                    data: map<Frame, seq<Byte>>, page: nat)
    requires FramesOk(pd, tables, data) && SameMappings(pd, tables, pd, tables', {page}) && page < USER_PAGES
    requires At(pd, tables', page).Some? ==>
      At(pd, tables', page).value.frame in data && Unmapped(pd, tables, At(pd, tables', page).value.frame)
    ensures FramesOk(pd, tables', data)
  {
    hide At;
  }

  lemma FrameAdded(pd: seq<bv32>, tables: map<Frame, seq<bv32>>, tables': map<Frame, seq<bv32>>,
                   data: map<Frame, seq<Byte>>, page: nat, frame: Frame)
    requires FramesOk(pd, tables, data) && Unmapped(pd, tables, frame) && frame in data && page < USER_PAGES
    requires Present(Entry(pd, tables', page)) && AddressOf(Entry(pd, tables', page)) == frame
    requires forall q: nat :: q < USER_PAGES && q != page ==> Entry(pd, tables', q) == Entry(pd, tables, q)
    ensures FramesOk(pd, tables', data) && SameMappings(pd, tables, pd, tables', {page})
  {
    hide Entry, AddressOf, Present, Writable, FramesOk;
    OthersSame(pd, tables, tables', page);
    FramesAfter(pd, tables, tables', data, page);
  }

  lemma PresentEntry(pd: seq<bv32>, tables: map<Frame, seq<bv32>>, page: nat)
    requires page < USER_PAGES && At(pd, tables, page).Some?
    ensures PdNo(page) < |pd| && pd[PdNo(page)] != 0
    ensures var t := AddressOf(pd[PdNo(page)]);
      t in tables && PtNo(page) < |tables[t]| && tables[t][PtNo(page)] == Entry(pd, tables, page)
  {
    PageNumbers(page);
    NotPresentBits(0);
  }

  lemma FrameDropped(pd: seq<bv32>, tables: map<Frame, seq<bv32>>, tables': map<Frame, seq<bv32>>,
                     data: map<Frame, seq<Byte>>, page: nat)
    requires FramesOk(pd, tables, data) && page < USER_PAGES && !Present(Entry(pd, tables', page))
    requires forall q: nat :: q < USER_PAGES && q != page ==> Entry(pd, tables', q) == Entry(pd, tables, q)
    ensures FramesOk(pd, tables', data) && SameMappings(pd, tables, pd, tables', {page})
  {
    hide Entry, AddressOf, Present, Writable, FramesOk;
    OthersSame(pd, tables, tables', page);
    FramesAfter(pd, tables, tables', data, page);
  }

  /** The pages that the first n pages of the address space are mapped to. */
  function MappedBelow(pd: seq<bv32>, tables: map<Frame, seq<bv32>>, n: nat): set<Frame>
    requires n <= USER_PAGES
  {
    if n == 0 then {}
    else
      var m := At(pd, tables, n - 1);
      MappedBelow(pd, tables, n - 1) + (if m.Some? then {m.value.frame} else {})
  }

  function TablesBelow(pd: seq<bv32>, n: nat): set<Frame>
    requires n <= |pd|
  {
    if n == 0 then {} else TablesBelow(pd, n - 1) + (if pd[n - 1] != 0 then {AddressOf(pd[n - 1])} else {})
  }

  lemma EntryOf(pd: seq<bv32>, tables: map<Frame, seq<bv32>>, i: nat, j: nat)
    requires DirOk(pd, tables) && i < USER_TABLES && j < ENTRIES && pd[i] != 0
    ensures i * ENTRIES + j < USER_PAGES && AddressOf(pd[i]) in tables && |tables[AddressOf(pd[i])]| == ENTRIES
    ensures var e := tables[AddressOf(pd[i])][j];
      At(pd, tables, i * ENTRIES + j) == if Present(e) then Some(Mapping(AddressOf(e), Writable(e))) else None
  {
    hide AddressOf, Present, Writable;
    assert PdNo(i * ENTRIES + j) == i && PtNo(i * ENTRIES + j) == j;
  }

  lemma {:induction false} NotYetFreed(pd: seq<bv32>, tables: map<Frame, seq<bv32>>, data: map<Frame, seq<Byte>>,
                                       p: nat, n: nat)
    requires FramesOk(pd, tables, data) && n <= p < USER_PAGES && At(pd, tables, p).Some?
    ensures At(pd, tables, p).value.frame in data && At(pd, tables, p).value.frame !in MappedBelow(pd, tables, n)
  {
    hide At;
    if n > 0 {
      NotYetFreed(pd, tables, data, p, n - 1);
    }
  }

  lemma {:induction false} TableNotFreed(pd: seq<bv32>, tables: map<Frame, seq<bv32>>, i: nat, n: nat)
    requires DirOk(pd, tables) && n <= i < USER_TABLES
    ensures pd[i] != 0 ==> AddressOf(pd[i]) in tables && AddressOf(pd[i]) !in TablesBelow(pd, n)
  {
    hide AddressOf, Present, Aligned;
    if n > 0 {
      TableNotFreed(pd, tables, i, n - 1);
    }
  }

  lemma {:induction false} TablesInUse(pd: seq<bv32>, tables: map<Frame, seq<bv32>>, n: nat)
    requires DirOk(pd, tables) && n <= USER_TABLES
    ensures TablesBelow(pd, n) <= tables.Keys
  {
    hide AddressOf, Present, Aligned;
    if n > 0 {
      TablesInUse(pd, tables, n - 1);
    }
  }

  lemma PresentIsNonzero(e: bv32)
    ensures Present(e) ==> e != 0
  {}

  lemma {:induction false} UnmappedTable(pd: seq<bv32>, tables: map<Frame, seq<bv32>>, i: nat, j: nat)
    requires DirOk(pd, tables) && i < USER_TABLES && !Present(pd[i]) && j <= ENTRIES
    ensures pd[i] == 0
    ensures MappedBelow(pd, tables, i * ENTRIES + j) == MappedBelow(pd, tables, i * ENTRIES)
  {
    hide AddressOf, Present, Writable;
    if j > 0 {
      UnmappedTable(pd, tables, i, j - 1);
      assert PdNo(i * ENTRIES + j - 1) == i;
      NotPresentBits(0);
    }
  }

  lemma NothingMappedBelow(pd: seq<bv32>, tables: map<Frame, seq<bv32>>)
    ensures MappedBelow(pd, tables, 0) == {}
  {}

  lemma {:induction false} MappedBelowIff(pd: seq<bv32>, tables: map<Frame, seq<bv32>>, n: nat, f: Frame)
    requires n <= USER_PAGES
    ensures f in MappedBelow(pd, tables, n)
      <==> exists p: nat :: p < n && At(pd, tables, p).Some? && At(pd, tables, p).value.frame == f
  {
    hide At;
    if n > 0 {
      MappedBelowIff(pd, tables, n - 1, f);
      assert n - 1 < n;
    }
  }
}
