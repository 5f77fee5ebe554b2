/** The file system as it runs: the free map, the list of in-memory inodes, and the operations of
    filesys.c that sequence their effects, with what each of them rolls back. The root directory is the
    map that module Directories shows its file to be. */
module Filesys {
  import opened Wrappers
  import opened Bytes
  import opened Bitmaps
  import opened Inodes
  import opened Ledgers
  import opened FilesysState
  import D = Directories

  // ---- the list of in-memory inodes ----

  /** At most one in-memory inode for a sector, with what the sector says. */
  ghost predicate ListOk(list: seq<Inode>, disk: map<nat, Extent>) {
    && (forall i, j | 0 <= i < j < |list| :: list[i].sector != list[j].sector)
    && (forall i | 0 <= i < |list| :: list[i].sector in disk
                                      && disk[list[i].sector] == Extent(list[i].start, list[i].length))
  }

  ghost function StateOf(i: Inode): OpenInode
    reads i
  {
    OpenInode(i.openCnt, i.removed)
  }

  ghost function ViewOf(list: seq<Inode>): map<nat, OpenInode>
    reads list
  {
    if list == [] then map[] else ViewOf(list[1..])[list[0].sector := StateOf(list[0])]
  }

  ghost predicate Distinct(list: seq<Inode>) {
    forall i, j | 0 <= i < j < |list| :: list[i].sector != list[j].sector
  }

  lemma {:induction false} InView(list: seq<Inode>, k: nat)
    requires Distinct(list) && k < |list|
    ensures list[k].sector in ViewOf(list) && ViewOf(list)[list[k].sector] == StateOf(list[k])
    decreases |list|
  {
    if k > 0 {
      InView(list[1..], k - 1);
    }
  }

  lemma {:induction false} FromView(list: seq<Inode>, sector: nat) returns (k: nat)
    requires sector in ViewOf(list)
    ensures k < |list| && list[k].sector == sector
    decreases |list|
  {
    if list[0].sector == sector {
      k := 0;
    } else {
      k := FromView(list[1..], sector);
      k := k + 1;
    }
  }

  /** What the view says about the list, entry by entry. */
  ghost predicate Describes(m: map<nat, OpenInode>, list: seq<Inode>)
    reads list
  {
    && (forall k | 0 <= k < |list| :: list[k].sector in m && m[list[k].sector] == StateOf(list[k]))
    && (forall n | n in m :: InList(list, n))
  }

  /** The same except for what it says about n. */
  ghost predicate DescribesBut(m: map<nat, OpenInode>, list: seq<Inode>, n: nat)
    reads list
  {
    && (forall k | 0 <= k < |list| :: list[k].sector in m)
    && (forall k | 0 <= k < |list| && list[k].sector != n :: m[list[k].sector] == StateOf(list[k]))
    && (forall n | n in m :: InList(list, n))
  }

  lemma ListOkPart(list: seq<Inode>, part: seq<Inode>, disk: map<nat, Extent>)
    requires ListOk(list, disk) && Distinct(part) && forall i | i in part :: i in list
    ensures ListOk(part, disk)
  {
    forall i | 0 <= i < |part|
      ensures part[i].sector in disk && disk[part[i].sector] == Extent(part[i].start, part[i].length)
    {
      assert part[i] in part;
    }
  }

  lemma OneChanged(list: seq<Inode>, m: map<nat, OpenInode>, inode: Inode)
    requires Distinct(list) && inode in list && DescribesBut(m, list, inode.sector)
    ensures ViewOf(list) == m[inode.sector := StateOf(inode)]
  {
    hide ViewOf;
    ViewIs(list, m[inode.sector := StateOf(inode)]);
  }

  ghost predicate InList(list: seq<Inode>, n: nat) { exists k :: 0 <= k < |list| && list[k].sector == n }

  lemma ViewDescribes(list: seq<Inode>)
    requires Distinct(list)
    ensures Describes(ViewOf(list), list)
  {
    forall k | 0 <= k < |list|
      ensures list[k].sector in ViewOf(list) && ViewOf(list)[list[k].sector] == StateOf(list[k])
    {
      InView(list, k);
    }
    forall n | n in ViewOf(list) ensures InList(list, n) {
      var k := FromView(list, n);
    }
  }

  /** The view is the only map that describes the list. */
  lemma ViewIs(list: seq<Inode>, m: map<nat, OpenInode>)
    requires Distinct(list) && Describes(m, list)
    ensures ViewOf(list) == m
  {
    ViewDescribes(list);
    var v := ViewOf(list);
    hide ViewOf;
    forall n | n in v ensures n in m && m[n] == v[n] {
      var k :| 0 <= k < |list| && list[k].sector == n;
    }
    forall n | n in m ensures n in v {
      var k :| 0 <= k < |list| && list[k].sector == n;
    }
  }

  lemma InodeInView(list: seq<Inode>, i: Inode)
    requires Distinct(list) && i in list
    ensures i.sector in ViewOf(list) && ViewOf(list)[i.sector] == StateOf(i)
  {
    var k :| 0 <= k < |list| && list[k] == i;
    InView(list, k);
  }

  lemma AllInView(list: seq<Inode>)
    requires Distinct(list)
    ensures forall i | i in list :: i.sector in ViewOf(list)
  {
    forall i | i in list ensures i.sector in ViewOf(list) {
      InodeInView(list, i);
    }
  }

  lemma ViewHas(list: seq<Inode>, n: nat)
    requires Distinct(list)
    ensures n in ViewOf(list) <==> InList(list, n)
  {
    hide ViewOf;
    ViewDescribes(list);
  }

  lemma LongerList(list: seq<Inode>, i: Inode)
    ensures forall n :: InList([i] + list, n) <==> InList(list, n) || n == i.sector
  {
    var all := [i] + list;
    forall n ensures InList(all, n) <==> InList(list, n) || n == i.sector {
      if InList(list, n) {
        var k :| 0 <= k < |list| && list[k].sector == n;
        assert all[k + 1].sector == n;
      }
      assert all[0].sector == i.sector;
      if InList(all, n) && n != i.sector {
        var k :| 0 <= k < |all| && all[k].sector == n;
        assert list[k - 1].sector == n;
      }
    }
  }

  lemma ShorterList(list: seq<Inode>, k: nat, n: nat)
    requires Distinct(list) && k < |list|
    ensures InList(list[..k] + list[k + 1..], n) <==> InList(list, n) && n != list[k].sector
  {
    var rest := list[..k] + list[k + 1..];
    if InList(list, n) && n != list[k].sector {
      var j :| 0 <= j < |list| && list[j].sector == n;
      assert rest[if j < k then j else j - 1].sector == n;
    }
    if InList(rest, n) {
      var j :| 0 <= j < |rest| && rest[j].sector == n;
      assert list[if j < k then j else j + 1].sector == n;
    }
  }

  /** Files that were open are still open, and the other open inodes were allocated meanwhile. */
  twostate predicate Grown(was: seq<Inode>, new list: seq<Inode>) {
    && (forall i | i in was && i.sector != ROOT_DIR_SECTOR :: i in list)
    && (forall i | i in list :: i in was || fresh(i))
  }

  class FileSystem {
    const freeMap: Bitmap
    const slots: nat
    var disk: map<nat, Extent>
    var names: map<seq<Byte>, nat>
    var openInodes: seq<Inode>
    ghost var owner: map<nat, nat>
    ghost var leaked: set<nat>

    ghost predicate Concrete()
      reads this, freeMap.bits
    {
      freeMap.Valid() && ListOk(openInodes, disk)
    }

    ghost function Book(): Ledger
      reads this, freeMap.bits
      requires freeMap.Valid()
    {
      Ledger(freeMap.View(), owner, leaked, disk)
    }

    ghost function Abs(): State
      reads this, freeMap.bits, openInodes
      requires freeMap.Valid()
    {
      State(Book(), names, ViewOf(openInodes))
    }

    ghost predicate ValidWith(pending: set<nat>)
      reads this, freeMap.bits, openInodes
    {
      Concrete() && Inv(Abs(), pending)
    }

    /** free_map_init, and empty lists. */
    constructor (size: nat, slots: nat)
      requires size >= 2
      ensures Concrete() && fresh(freeMap) && fresh(freeMap.bits) && this.slots == slots && freeMap.bitCnt == size
      ensures names == map[] && openInodes == [] && Book().Ok() && leaked == {FREE_MAP_SECTOR, ROOT_DIR_SECTOR}
      ensures owner == map[]
    {
      var bitmap := new Bitmap(size);
      freeMap := bitmap;
      this.slots := slots;
      disk, names, openInodes := map[], map[], [];
      owner, leaked := map[], {FREE_MAP_SECTOR, ROOT_DIR_SECTOR};
      new;
      freeMap.Mark(FREE_MAP_SECTOR);
      freeMap.Mark(ROOT_DIR_SECTOR);
    }

    /** inode_reopen */
    method InodeReopen(inode: Inode, ghost pending: set<nat>)
      requires ValidWith(pending) && inode in openInodes
      modifies inode`openCnt
      ensures ValidWith(pending) && Abs() == Opened(old(Abs()), inode.sector)
    {
      hide Inv, ViewOf, Bitmap.View;
      ghost var s, v := Abs(), ViewOf(openInodes);
      ViewDescribes(openInodes);
      OpenedOk(s, pending, inode.sector);
      inode.openCnt := inode.openCnt + 1;
      ViewIs(openInodes, v[inode.sector := StateOf(inode)]);
    }

    /** The search through the open inodes. */
    method FindOpen(sector: nat) returns (inode: Inode?)
      ensures inode != null ==> inode in openInodes && inode.sector == sector
      ensures inode == null ==> !InList(openInodes, sector)
    {
      var k := 0;
      while k < |openInodes|
        invariant 0 <= k <= |openInodes| && forall j | 0 <= j < k :: openInodes[j].sector != sector
      {
        if openInodes[k].sector == sector {
          return openInodes[k];
        }
        k := k + 1;
      }
      return null;
    }

    /** A new in-memory inode goes to the front of the list. */
    method PushInode(sector: nat) returns (inode: Inode)
      requires Concrete() && !InList(openInodes, sector) && sector in disk
      modifies this`openInodes
      ensures Concrete() && inode.sector == sector && fresh(inode) && openInodes == [inode] + old(openInodes)
      ensures ViewOf(openInodes) == old(ViewOf(openInodes))[sector := OpenInode(1, false)]
    {
      hide ViewOf;
      ghost var v := ViewOf(openInodes);
      ViewDescribes(openInodes);
      inode := new Inode(sector, disk[sector].start, disk[sector].length);
      LongerList(openInodes, inode);
      openInodes := [inode] + openInodes;
      ViewIs(openInodes, v[sector := OpenInode(1, false)]);
    }

    /** inode_open, for an inode that has a name or is the root directory or the free map file. */
    method InodeOpen(sector: nat, reliable: bool, ghost pending: set<nat>) returns (inode: Inode?)
      requires ValidWith(pending) && (IsNamed(names, sector) || sector in Abs().opens)
      modifies this`openInodes, openInodes
      ensures ValidWith(pending)
      ensures inode == null ==> !reliable && sector !in old(Abs()).opens && Abs() == old(Abs())
                                && openInodes == old(openInodes)
      ensures inode != null ==> inode in openInodes && inode.sector == sector && Abs() == Opened(old(Abs()), sector)
      ensures Grown(old(openInodes), openInodes) && forall i | i in old(openInodes) :: i in openInodes
    {
      hide Inv, ViewOf, Bitmap.View, IsNamed;
      ghost var s := Abs();
      ViewHas(openInodes, sector);
      OpenedOk(s, pending, sector);
      LiveOnDisk(s, pending, sector);
      inode := FindOpen(sector);
      if inode != null {
        InodeReopen(inode, pending);
        return;
      }
      var granted: bool := *;
      if granted || reliable {
        inode := PushInode(sector);
      }
    }

    /** free_map_allocate: the first cnt consecutive free sectors; the free map file may fail to be written. */
    method Allocate(cnt: nat, reliable: bool) returns (r: Option<nat>)
      requires freeMap.Valid() && Book().Ok()
      modifies this`leaked, freeMap.bits
      ensures r.Some? ==> FirstFit(old(Book()).used, 0, cnt, false, r) && r.value + cnt <= freeMap.bitCnt
                          && Book() == Claim(old(Book()), r.value, cnt) && Book().Ok()
                          && Range(r.value, cnt) !! old(leaked)
      ensures r.None? ==> Book() == old(Book())
      ensures r.None? && reliable ==> FirstFit(old(Book()).used, 0, cnt, false, None)
    {
      ghost var l := Book();
      hide Ledger.Ok, Bitmap.View;
      r := freeMap.ScanAndFlip(0, cnt, false);
      if r.Some? {
        FoundFree(l, cnt, r.value);
        var written: bool := *;
        if !(written || reliable) {
          freeMap.SetMultiple(r.value, cnt, false);
          UndoSetRange(l.used, r.value, cnt);
          return None;
        }
        leaked := leaked + Range(r.value, cnt);
      }
    }

    /** free_map_release: the sectors, which belong to no inode any more, are marked free. */
    method Release(start: nat, cnt: nat)
      requires freeMap.Valid() && Book().Ok() && start + cnt <= freeMap.bitCnt && Range(start, cnt) <= leaked
      modifies this`leaked, freeMap.bits
      ensures Book() == Free(old(Book()), start, cnt) && Book().Ok()
    {
      FreeOk(Book(), start, cnt);
      var allUsed := freeMap.Contains(start, cnt, false);
      assert !allUsed;
      freeMap.SetMultiple(start, cnt, false);
      leaked := leaked - Range(start, cnt);
    }

    /** list_remove */
    method RemoveFromList(inode: Inode)
      requires Distinct(openInodes) && inode in openInodes
      modifies this`openInodes
      ensures Distinct(openInodes)
      ensures forall i | i in openInodes :: i in old(openInodes) && i.sector != inode.sector
      ensures forall i | i in old(openInodes) && i != inode :: i in openInodes
      ensures forall n :: InList(openInodes, n) <==> InList(old(openInodes), n) && n != inode.sector
    {
      var k := 0;
      while openInodes[k] != inode
        invariant 0 <= k < |openInodes| && inode !in openInodes[..k]
        invariant openInodes == old(openInodes)
        decreases |openInodes| - k
      {
        k := k + 1;
      }
      ghost var was := openInodes;
      openInodes := openInodes[..k] + openInodes[k + 1..];
      assert was == was[..k] + [was[k]] + was[k + 1..];
      forall i | i in was && i != inode ensures i in openInodes {
        var j :| 0 <= j < |was| && was[j] == i;
        assert openInodes[if j < k then j else j - 1] == i;
      }
      forall n ensures InList(openInodes, n) <==> InList(was, n) && n != inode.sector {
        ShorterList(was, k, n);
      }
    }

    /** The sectors of a removed inode are released: its own, and those of its data. */
    method ReleaseInode(inode: Inode)
      requires freeMap.Valid() && Book().Ok() && Book().Live(inode.sector)
      requires inode.sector in disk && disk[inode.sector] == Extent(inode.start, inode.length)
      modifies this`owner, this`leaked, freeMap.bits
      ensures Book() == Released(old(Book()), inode.sector)
    {
      ghost var l, n := Book(), inode.sector;
      LiveOwns(l, n);
      ReleaseBounds(l, n);
      DropOk(l, n);
      SectorsHave(n, l.disk[n]);
      hide Ledger.Ok, Ledger.Live, Bitmap.View;
      owner, leaked := owner - l.Owned(n), leaked + l.Owned(n);
      Release(inode.sector, 1);
      Release(inode.start, BytesToSectors(inode.length));
    }

    /** inode_close: the last opener of a removed inode frees its sectors. */
    method InodeClose(inode: Inode, ghost pending: set<nat>)
      requires ValidWith(pending) && inode in openInodes
      modifies this`openInodes, this`owner, this`leaked, inode, freeMap.bits
      ensures ValidWith(pending) && old(Abs()).ledger.Live(inode.sector) && inode.sector in old(Abs()).opens
      ensures Abs() == Closed(old(Abs()), inode.sector)
      ensures inode.sector in Abs().opens ==> inode in openInodes
      ensures forall i | i in openInodes :: i in old(openInodes)
      ensures forall i | i in old(openInodes) && i != inode :: i in openInodes
    {
      hide Inv, ViewOf, Bitmap.View, Released, Ledger.Ok, Ledger.Live;
      ghost var s, n := Abs(), inode.sector;
      InodeInView(openInodes, inode);
      OpenHasOpeners(s, pending, n);
      ClosedOk(s, pending, n);
      CloseOpener(inode);
      if inode.openCnt == 0 && inode.removed {
        ReleaseInode(inode);
      }
    }

    /** One opener less; the last one takes the inode off the list. */
    method CloseOpener(inode: Inode)
      requires Concrete() && inode in openInodes && inode.openCnt > 0
      modifies this`openInodes, inode`openCnt
      ensures Concrete() && inode.openCnt == old(inode.openCnt) - 1 && inode.sector in old(ViewOf(openInodes))
      ensures inode.openCnt > 0 ==> inode in openInodes
      ensures ViewOf(openInodes) == if inode.openCnt == 0 then old(ViewOf(openInodes)) - {inode.sector}
                                    else old(ViewOf(openInodes))[inode.sector := StateOf(inode)]
      ensures forall i | i in openInodes :: i in old(openInodes)
      ensures forall i | i in old(openInodes) && i != inode :: i in openInodes
    {
      hide ViewOf;
      ghost var v, n := ViewOf(openInodes), inode.sector;
      ViewDescribes(openInodes);
      inode.openCnt := inode.openCnt - 1;
      assert DescribesBut(v, openInodes, n);
      if inode.openCnt == 0 {
        ghost var was := openInodes;
        LastOpenerGone(inode, v);
        ListOkPart(was, openInodes, disk);
      } else {
        OneChanged(openInodes, v, inode);
      }
    }

    method LastOpenerGone(inode: Inode, ghost v: map<nat, OpenInode>)
      requires Distinct(openInodes) && inode in openInodes && DescribesBut(v, openInodes, inode.sector)
      modifies this`openInodes
      ensures Distinct(openInodes) && ViewOf(openInodes) == v - {inode.sector}
      ensures forall i | i in openInodes :: i in old(openInodes) && i != inode
      ensures forall i | i in old(openInodes) && i != inode :: i in openInodes
    {
      hide ViewOf;
      RemoveFromList(inode);
      ViewIs(openInodes, v - {inode.sector});
    }

    /** inode_create: an inode of the given length in a sector that is marked used but is nobody's. */
    method InodeCreate(sector: nat, length: nat, reliable: bool) returns (success: bool)
      requires Concrete() && Book().Ok() && sector in leaked && !InList(openInodes, sector)
      modifies this`disk, this`owner, this`leaked, freeMap.bits
      ensures Concrete() && Book().Ok()
      ensures if success then Created(old(Book()), Book(), sector, length) else Book() == old(Book())
      ensures !success && reliable ==> FirstFit(old(Book()).used, 0, BytesToSectors(length), false, None)
    {
      hide Bitmap.View, Ledger.Ok, Sectors, PlacedAt, SetRange;
      ghost var l := Book();
      var granted: bool := *;
      if !(granted || reliable) {
        return false;
      }
      var r := Allocate(BytesToSectors(length), reliable);
      if r == None {
        return false;
      }
      ghost var e := Extent(r.value, length);
      Unowned(l, sector, e);
      ghost var l' := Adopt(Book(), sector, e);
      AdoptOk(Book(), sector, e);
      disk := disk[sector := Extent(r.value, length)];
      owner, leaked := l'.owner, l'.leaked;
      success := true;
      assert Book() == l';
    }

    /** dir_open_root: it needs memory for the in-memory inode, and for the directory. */
    method OpenRoot(reliable: bool) returns (root: Inode?)
      requires ValidWith({})
      modifies this, openInodes, freeMap.bits
      ensures ValidWith({}) && names == old(names) && Book() == old(Book())
      ensures root == null ==> !reliable && Abs() == old(Abs())
      ensures root != null ==> root in openInodes && root.sector == ROOT_DIR_SECTOR
                               && Abs() == Opened(old(Abs()), ROOT_DIR_SECTOR)
      ensures Grown(old(openInodes), openInodes)
    {
      hide Inv, ViewOf, Bitmap.View, Closed, Opened;
      ghost var s := Abs();
      RootNamed(s);
      root := InodeOpen(ROOT_DIR_SECTOR, reliable, {});
      var granted: bool := *;
      if root != null && !(granted || reliable) {
        OpenedClosed(s, Abs(), {}, ROOT_DIR_SECTOR);
        InodeClose(root, {});
        root := null;
      }
    }

    /** dir_close for the root directory: everything but its openers stays. */
    method CloseRoot(root: Inode, ghost s: State, ghost pending: set<nat>)
      requires ValidWith(pending) && root in openInodes && root.sector == ROOT_DIR_SECTOR && Inv(s, {})
      requires Abs().opens == Opened(s, ROOT_DIR_SECTOR).opens
      modifies this, root, freeMap.bits
      ensures ValidWith(pending) && Abs() == old(Abs()).(opens := s.opens)
      ensures forall i | i in openInodes :: i in old(openInodes)
      ensures forall i | i in old(openInodes) && i != root :: i in openInodes
    {
      hide Inv, ViewOf, Bitmap.View, Closed, Opened;
      RootNamed(s);
      RootNamed(Abs());
      OpenedClosed(s, Abs(), pending, ROOT_DIR_SECTOR);
      InodeClose(root, pending);
    }

    /** Whether dir_add succeeds: module Directories proves that it is this, when the write goes well. */
    predicate CanAdd(name: seq<Byte>)
      reads this
    {
      D.ValidName(name) && name !in names && |names| < slots
    }

    /** The steps of filesys_create while the root directory is open. */
    method CreateInode(name: seq<Byte>, initialSize: nat, reliable: bool) returns (success: bool, ghost sector: nat)
      requires ValidWith({})
      modifies this`disk, this`names, this`owner, this`leaked, freeMap.bits
      ensures ValidWith({}) && Abs().opens == old(Abs()).opens
      ensures success ==> old(CanAdd(name)) && names == old(names)[name := sector]
                          && NewInode(old(Book()), Book(), sector, initialSize)
      ensures !success ==> names == old(names) && (Book() == old(Book()) || Lost(old(Book()), Book(), initialSize))
      ensures reliable ==> (success <==> old(CanAdd(name)) && !NoRoom(old(Book()), initialSize))
      ensures reliable && !success ==> if NoRoom(old(Book()), initialSize) then Book() == old(Book())
                                       else Lost(old(Book()), Book(), initialSize)
    {
      hide Inv, ViewOf, Bitmap.View, Ledger.Ok, Free, Claim, Adopt, Drop, Created, NoRoom, Lost, NewInode, FirstFit,
           SetRange;
      ghost var s := Abs();
      sector := 0;
      success := false;
      InvBook(s, {});
      var r := Allocate(1, reliable);
      NoInodeRoom(s.ledger, initialSize, r);
      if r == None {
        return;
      }
      var inodeSector := r.value;
      sector := inodeSector;
      ClaimedOne(s, sector);
      SameOwnersOk(s, {}, Book());
      ghost var l := Book();
      NewSector(Abs(), openInodes, sector);
      success := InodeCreate(inodeSector, initialSize, reliable);
      ghost var k := Book();
      if success {
        CreatedInv(s.(ledger := l), k, sector, initialSize);
        CreatedRoom(s.ledger, k, sector, initialSize);
        NewInodeIs(s.ledger, k, sector, initialSize);
        success := AddName(name, inodeSector, l, initialSize, reliable);
        if !success {
          LostIs(s.ledger, k, sector, initialSize);
        }
      } else {
        NoRoomFor(s.ledger, sector, initialSize);
        ClaimFree(s.ledger, sector);
      }
      if !success && inodeSector != 0 {
        ClaimLeaked(s.ledger, sector);
        Rollback(inodeSector, s.ledger.leaked);
      }
    }

    /** The roll-back of filesys_create: the inode's sector is released, whatever became of its data. */
    method Rollback(inodeSector: nat, ghost others: set<nat>)
      requires ValidWith({}) && inodeSector in leaked && inodeSector !in others && others <= leaked
      modifies this`leaked, freeMap.bits
      ensures inodeSector + 1 <= |old(Book()).used| && Book() == Free(old(Book()), inodeSector, 1)
      ensures ValidWith({}) && others <= leaked
    {
      hide Inv, ViewOf, Bitmap.View, Ledger.Ok, SetRange;
      ghost var s := Abs();
      InvBook(s, {});
      LeakedOnDevice(s.ledger, inodeSector);
      Release(inodeSector, 1);
      SameOwnersOk(s, {}, Book());
    }

    /** dir_add for a new inode; when it fails the inode's sectors are nobody's any more. */
    method AddName(name: seq<Byte>, inodeSector: nat, ghost l: Ledger, ghost length: nat, reliable: bool)
      returns (success: bool)
      requires ValidWith({inodeSector}) && l.Ok() && Created(l, Book(), inodeSector, length) && inodeSector in l.leaked
      modifies this`names, this`owner, this`leaked
      ensures ValidWith({}) && inodeSector in old(disk)
      ensures success ==> old(CanAdd(name)) && names == old(names)[name := inodeSector] && Book() == old(Book())
      ensures !success ==> names == old(names) && Book() == Drop(old(Book()), inodeSector) && l.leaked <= leaked
      ensures reliable ==> (success <==> old(CanAdd(name)))
    {
      hide Inv, ViewOf, Bitmap.View, Ledger.Ok, Drop, Created;
      ghost var s := Abs();
      CreatedOnDisk(l, s.ledger, inodeSector, length);
      var written: bool := *;
      success := (written || reliable) && CanAdd(name);
      if success {
        NewNameOk(s, {inodeSector}, name, inodeSector);
        assert {inodeSector} - {inodeSector} == {};
        names := names[name := inodeSector];
      } else {
        AbandonedOk(s, inodeSector);
        InvBook(s, {inodeSector});
        CreatedDropped(l, s.ledger, inodeSector, length);
        ghost var d := Drop(s.ledger, inodeSector);
        owner, leaked := d.owner, d.leaked;
        DropUsed(s.ledger, inodeSector);
      }
    }

    /** filesys_create. When it succeeds the name stands for a new inode on sectors that were free. When it
        fails nothing is named, but sectors may be lost: if dir_add fails only the inode's own sector is
        released. */
    method Create(name: seq<Byte>, initialSize: nat, reliable: bool) returns (success: bool, ghost sector: nat)
      requires ValidWith({})
      modifies this, openInodes, freeMap.bits
      ensures ValidWith({}) && Abs().opens == old(Abs()).opens
      ensures success ==> old(CanAdd(name)) && names == old(names)[name := sector]
                          && NewInode(old(Book()), Book(), sector, initialSize)
      ensures !success ==> names == old(names) && (Book() == old(Book()) || Lost(old(Book()), Book(), initialSize))
      ensures reliable ==> (success <==> old(CanAdd(name)) && !NoRoom(old(Book()), initialSize))
      ensures reliable && !success ==> if NoRoom(old(Book()), initialSize) then Book() == old(Book())
                                       else Lost(old(Book()), Book(), initialSize)
      ensures reliable ==> (leaked != old(leaked)
                            <==> !old(CanAdd(name)) && !NoRoom(old(Book()), initialSize) && initialSize > 0)
      ensures Grown(old(openInodes), openInodes)
    {
      hide Inv, ViewOf, Bitmap.View, Opened, Ledger.Ok, NoRoom, Lost, NewInode;
      ghost var s := Abs();
      sector := 0;
      var root := OpenRoot(reliable);
      if root == null {
        return false, sector;
      }
      assert Book() == s.ledger;
      success, sector := CreateInode(name, initialSize, reliable);
      LeakedAfterCreate(s, Book(), sector, initialSize, success);
      CloseRoot(root, s, {});
    }

    /** filesys_open, with the file_open that takes the inode over. */
    method Open(name: seq<Byte>, reliable: bool) returns (inode: Inode?)
      requires ValidWith({})
      modifies this, openInodes, freeMap.bits
      ensures ValidWith({})
      ensures inode != null ==> name in names && inode.sector == names[name] && inode in openInodes
                                && Abs() == Opened(old(Abs()), names[name])
      ensures inode == null ==> Abs() == old(Abs()) && (reliable ==> name !in names)
      ensures Grown(old(openInodes), openInodes)
    {
      hide Inv, ViewOf, Bitmap.View, Opened, Closed, Ledger.Ok, IsNamed;
      ghost var s := Abs();
      AllInView(openInodes);
      var root := OpenRoot(reliable);
      inode := null;
      if root == null {
        return;
      }
      ghost var u := s;
      if name in names {
        FileIsLive(s, {}, name);
        OpenedOk(s, {}, names[name]);
        OpenedTwo(s, ROOT_DIR_SECTOR, names[name]);
        inode := InodeOpen(names[name], reliable, {});
        if inode != null {
          u := Opened(s, names[name]);
        }
      }
      CloseRootTo(root, u);
      var granted: bool := *;
      if inode != null && !(granted || reliable) {
        OpenedClosed(s, Abs(), {}, names[name]);
        InodeClose(inode, {});
        inode := null;
      }
    }

    /** dir_remove's last steps: the name is erased and inode_remove marks the inode. */
    method EraseName(inode: Inode, name: seq<Byte>)
      requires ValidWith({}) && inode in openInodes && name in names && names[name] == inode.sector
      requires inode.sector in Abs().opens
      modifies this`names, inode`removed
      ensures ValidWith({}) && Abs() == Unnamed(old(Abs()), name)
    {
      hide Inv, ViewOf, Bitmap.View;
      ghost var s, v := Abs(), ViewOf(openInodes);
      ViewDescribes(openInodes);
      UnnamedOk(s, {}, name);
      names := names - {name};
      inode.removed := true;
      ViewIs(openInodes, v[inode.sector := v[inode.sector].(removed := true)]);
    }

    /** dir_remove, while the root directory is open. */
    method RemoveName(name: seq<Byte>, reliable: bool) returns (success: bool)
      requires ValidWith({})
      modifies this, openInodes, freeMap.bits
      ensures ValidWith({}) && Grown(old(openInodes), openInodes)
      ensures forall i | i in old(openInodes) && i.sector == ROOT_DIR_SECTOR :: i in openInodes
      ensures success ==> name in old(names) && old(Abs()).ledger.Ok() && old(Abs()).ledger.Live(old(names)[name])
                          && Abs() == Deleted(old(Abs()), name)
      ensures !success ==> Abs() == old(Abs()) && (reliable ==> name !in names)
    {
      hide Inv, ViewOf, Bitmap.View, Opened, Closed, Unnamed, Deleted, Ledger.Ok, Ledger.Live, IsNamed;
      ghost var s := Abs();
      AllInView(openInodes);
      success := false;
      if name !in names {
        return;
      }
      FileIsLive(s, {}, name);
      DeletedInSteps(s, name);
      OpenedClosed(s, Opened(s, names[name]), {}, names[name]);
      ghost var n := names[name];
      var inode := InodeOpen(names[name], reliable, {});
      if inode == null {
        return;
      }
      var written: bool := *;
      if written || reliable {
        EraseName(inode, name);
        success := true;
      }
      InodeClose(inode, {});
      if success {
        DeletedOpens(s, name);
      }
    }

    /** filesys_remove: the file loses its name, and its sectors at once unless it is open. */
    method Remove(name: seq<Byte>, reliable: bool) returns (success: bool)
      requires ValidWith({})
      modifies this, openInodes, freeMap.bits
      ensures ValidWith({}) && Grown(old(openInodes), openInodes)
      ensures success ==> name in old(names) && old(Abs()).ledger.Ok() && old(Abs()).ledger.Live(old(names)[name])
                          && Abs() == Deleted(old(Abs()), name)
      ensures !success ==> Abs() == old(Abs()) && (reliable ==> name !in names)
    {
      hide Inv, ViewOf, Bitmap.View, Opened, Closed, Deleted, Ledger.Ok, Ledger.Live, IsNamed;
      ghost var s := Abs();
      AllInView(openInodes);
      var root := OpenRoot(reliable);
      if root == null {
        return false;
      }
      success := RemoveName(name, reliable);
      ghost var u := s;
      if success {
        FileIsLive(s, {}, name);
        DeletedInSteps(s, name);
        DeletedUnderRoot(s, name);
        u := Deleted(s, name);
      }
      CloseRootTo(root, u);
    }

    /** do_format and free_map_open: the free map file and the root directory are created, and the free map
        file stays open. The kernel stops when this fails. */
    method Format(freeMapSize: nat, reliable: bool) returns (ok: bool)
      requires Concrete() && openInodes == [] && names == map[] && owner == map[]
      requires Book().Ok() && leaked == {FREE_MAP_SECTOR, ROOT_DIR_SECTOR}
      modifies this, freeMap.bits
      ensures ok ==> ValidWith({}) && names == map[] && leaked == {}
                     && Abs().opens == map[FREE_MAP_SECTOR := OpenInode(1, false)]
    {
      hide ViewOf, Bitmap.View, Ledger.Ok, Created, IsNamed;
      ghost var l0 := Book();
      ok := InodeCreate(FREE_MAP_SECTOR, freeMapSize, reliable);
      if !ok {
        return;
      }
      ghost var l1 := Book();
      CreatedLeaves(l0, l1, FREE_MAP_SECTOR, freeMapSize);
      ok := InodeCreate(ROOT_DIR_SECTOR, slots * D.ENTRY_SIZE, reliable);
      if !ok {
        return;
      }
      CreatedLeaves(l1, Book(), ROOT_DIR_SECTOR, slots * D.ENTRY_SIZE);
      LiveOwns(Book(), FREE_MAP_SECTOR);
      EmptyView();
      var inode := PushInode(FREE_MAP_SECTOR);
      FormattedOk(Abs());
    }

    /** dir_close for the root directory, which was opened on top of the state u. */
    method CloseRootTo(root: Inode, ghost u: State)
      requires ValidWith({}) && root in openInodes && root.sector == ROOT_DIR_SECTOR && Inv(u, {})
      requires Abs() == Opened(u, ROOT_DIR_SECTOR)
      modifies this, root, freeMap.bits
      ensures ValidWith({}) && Abs() == u
      ensures forall i | i in openInodes :: i in old(openInodes)
      ensures forall i | i in old(openInodes) && i != root :: i in openInodes
    {
      hide Inv, ViewOf, Bitmap.View, Closed, Ledger.Ok;
      CloseRoot(root, u, {});
    }
  }

  /** The new inode got its data sectors from the free ones, and nothing else changed owner. */
  ghost predicate Created(l: Ledger, l': Ledger, n: nat, length: nat) {
    n in l'.disk && l'.disk[n].length == length
    && FirstFit(l.used, 0, BytesToSectors(length), false, Some(l'.disk[n].start))
    && l'.disk[n].start + BytesToSectors(length) <= |l.used|
    && l' == Adopt(Claim(l, l'.disk[n].start, BytesToSectors(length)), n, l'.disk[n])
  }

  /** A new inode in the first free sector, with its data in the first free sectors behind that. */
  ghost predicate NewInode(l: Ledger, l': Ledger, n: nat, length: nat) {
    FirstFit(l.used, 0, 1, false, Some(n)) && n + 1 <= |l.used| && Created(Claim(l, n, 1), l', n, length)
  }

  /** Live inodes keep their data where they are. */
  ghost predicate SameExtents(l: Ledger, l': Ledger) {
    forall m: nat | l.Live(m) && m in l.disk :: m in l'.disk && l'.disk[m] == l.disk[m]
  }

  lemma CreatedOnDisk(l: Ledger, l': Ledger, n: nat, length: nat)
    requires Created(l, l', n, length)
    ensures n in l'.disk
  {}

  lemma CreatedExtents(l: Ledger, l': Ledger, n: nat, length: nat)
    requires Created(l, l', n, length) && !l.Live(n)
    ensures SameExtents(l, l')
  {}

  /** No sector is free for the inode, or no consecutive ones for its data. */
  ghost predicate NoRoom(l: Ledger, length: nat) {
    || FirstFit(l.used, 0, 1, false, None)
    || exists n: nat :: FirstFit(l.used, 0, 1, false, Some(n)) && n + 1 <= |l.used|
         && FirstFit(SetRange(l.used, n, 1, true), 0, BytesToSectors(length), false, None)
  }

  /** What filesys_create loses when dir_add fails: the data sectors of the inode in sector n, the first ones
      that were free behind it, stay marked used and belong to nobody. */
  ghost predicate LostData(l: Ledger, l': Ledger, n: nat, start: nat, length: nat) {
    && FirstFit(l.used, 0, 1, false, Some(n)) && n + 1 <= |l.used|
    && FirstFit(SetRange(l.used, n, 1, true), 0, BytesToSectors(length), false, Some(start))
    && start + BytesToSectors(length) <= |l.used|
    && l' == Ledger(SetRange(l.used, start, BytesToSectors(length), true), l.owner,
                    l.leaked + Range(start, BytesToSectors(length)), l.disk[n := Extent(start, length)])
  }

  ghost predicate Lost(l: Ledger, l': Ledger, length: nat) {
    exists n: nat, start: nat :: LostData(l, l', n, start, length)
  }

  /** Sectors are lost unless the data has none, and only those. */
  lemma LostSectors(l: Ledger, l': Ledger, n: nat, start: nat, length: nat)
    requires l.Ok() && LostData(l, l', n, start, length)
    ensures l'.leaked == l.leaked + Range(start, BytesToSectors(length))
    ensures l.leaked !! Range(start, BytesToSectors(length))
    ensures l'.owner == l.owner && |l'.used| == |l.used| && n !in l.owner
    ensures l'.leaked != l.leaked <==> length > 0
  {
    hide Owners, Placed;
    var k := BytesToSectors(length);
    var u := SetRange(l.used, n, 1, true);
    assert l.used[n] == false;
    assert forall x | start <= x < start + k :: u[x] == false;
    assert k > 0 ==> start in Range(start, k);
    assert k > 0 <==> length > 0;
  }

  lemma LostIs(l: Ledger, l2: Ledger, n: nat, length: nat)
    requires l.Ok() && FirstFit(l.used, 0, 1, false, Some(n)) && n + 1 <= |l.used|
    requires Created(Claim(l, n, 1), l2, n, length)
    ensures n in l2.disk && |l2.used| == |l.used| && Lost(l, Free(Drop(l2, n), n, 1), length)
  {
    var e, k := l2.disk[n], BytesToSectors(length);
    var u := SetRange(l.used, n, 1, true);
    assert l.used[n] == false;
    assert forall x | e.start <= x < e.start + k :: u[x] == false;
    assert n !in Range(e.start, k) by {
      assert u[n];
    }
    NotUsedNotOwned(l, n);
    forall x | x in Range(e.start, k) ensures x !in l.owner && x !in l.leaked {
      assert !u[x] && !l.used[x];
      NotUsedNotOwned(l, x);
    }
    hide Ledger.Ok, FirstFit;
    LostLedger(l, l2, n, e, k);
    assert LostData(l, Free(Drop(l2, n), n, 1), n, e.start, length);
  }

  lemma NotUsedNotOwned(l: Ledger, x: nat)
    requires l.Ok() && x < |l.used| && !l.used[x]
    ensures x !in l.owner && x !in l.leaked
  {}

  lemma LostLedger(l: Ledger, l2: Ledger, n: nat, e: Extent, k: nat)
    requires n + 1 <= |l.used| && e.start + k <= |l.used| && k == BytesToSectors(e.length)
    requires l2 == Adopt(Claim(Claim(l, n, 1), e.start, k), n, e)
    requires !l.used[n] && n !in Range(e.start, k) && n !in l.owner && n !in l.leaked
    requires forall x | x in Range(e.start, k) :: x !in l.owner && x !in l.leaked
    ensures n in l2.disk && |l2.used| == |l.used|
    ensures var f := Free(Drop(l2, n), n, 1);
      && f.used == SetRange(l.used, e.start, k, true) && f.owner == l.owner
      && f.leaked == l.leaked + Range(e.start, k) && f.disk == l.disk[n := e]
  {
    assert SetRange(SetRange(SetRange(l.used, n, 1, true), e.start, k, true), n, 1, false)
        == SetRange(l.used, e.start, k, true);
    assert Range(n, 1) == {n};
    hide SetRange;
    assert l2.owner - Sectors(n, e) == l.owner;
    assert l2.leaked + Sectors(n, e) - {n} == l.leaked + Range(e.start, k);
  }

  /** A run found is not absent. */
  lemma FitIsUnique(v: seq<bool>, cnt: nat, r: Option<nat>, q: Option<nat>)
    requires FirstFit(v, 0, cnt, false, r) && FirstFit(v, 0, cnt, false, q)
    ensures r == q
  {
    hide AllBits;
  }

  lemma NoInodeRoom(l: Ledger, length: nat, r: Option<nat>)
    ensures r == None && FirstFit(l.used, 0, 1, false, None) ==> NoRoom(l, length)
  {}

  lemma CreatedRoom(l: Ledger, k: Ledger, n: nat, length: nat)
    requires FirstFit(l.used, 0, 1, false, Some(n)) && n + 1 <= |l.used| && Created(Claim(l, n, 1), k, n, length)
    ensures !NoRoom(l, length)
  {
    hide FirstFit, Adopt;
    if FirstFit(l.used, 0, 1, false, None) {
      FitIsUnique(l.used, 1, Some(n), None);
    }
    forall m: nat | FirstFit(l.used, 0, 1, false, Some(m)) && m + 1 <= |l.used|
      ensures !FirstFit(SetRange(l.used, m, 1, true), 0, BytesToSectors(length), false, None)
    {
      FitIsUnique(l.used, 1, Some(n), Some(m));
      if FirstFit(SetRange(l.used, m, 1, true), 0, BytesToSectors(length), false, None) {
        FitIsUnique(SetRange(l.used, m, 1, true), BytesToSectors(length), Some(k.disk[n].start), None);
      }
    }
  }

  lemma NewInodeIs(l: Ledger, k: Ledger, n: nat, length: nat)
    requires FirstFit(l.used, 0, 1, false, Some(n)) && n + 1 <= |l.used| && Created(Claim(l, n, 1), k, n, length)
    ensures NewInode(l, k, n, length)
  {}

  lemma ClaimLeaked(l: Ledger, n: nat)
    requires l.Ok() && FirstFit(l.used, 0, 1, false, Some(n)) && n + 1 <= |l.used|
    ensures n !in l.leaked && l.leaked <= Claim(l, n, 1).leaked
  {
    assert l.used[n] == false;
    NotUsedNotOwned(l, n);
  }

  lemma LeakedOnDevice(l: Ledger, n: nat)
    requires l.Ok() && n in l.leaked
    ensures n < |l.used|
  {}

  lemma NoRoomFor(l: Ledger, n: nat, length: nat)
    requires FirstFit(l.used, 0, 1, false, Some(n)) && n + 1 <= |l.used|
    ensures FirstFit(SetRange(l.used, n, 1, true), 0, BytesToSectors(length), false, None) ==> NoRoom(l, length)
  {
    hide FirstFit, SetRange;
  }

  /** The sector of a new inode is not sector 0, which the free map file has. */
  lemma ClaimedOne(s: State, n: nat)
    requires Inv(s, {}) && FirstFit(s.ledger.used, 0, 1, false, Some(n))
    ensures n != 0 && n + 1 <= |s.ledger.used| && n in Claim(s.ledger, n, 1).leaked
    ensures Claim(s.ledger, n, 1).owner == s.ledger.owner && Claim(s.ledger, n, 1).disk == s.ledger.disk
    ensures Claim(s.ledger, n, 1).used == SetRange(s.ledger.used, n, 1, true)
    ensures s.ledger.leaked <= Claim(s.ledger, n, 1).leaked
  {
    NamedIsLive(s, {}, FREE_MAP_SECTOR);
    hide Inv;
    LiveOwns(s.ledger, FREE_MAP_SECTOR);
    SectorsHave(FREE_MAP_SECTOR, s.ledger.disk[FREE_MAP_SECTOR]);
    assert s.ledger.used[n] == false;
  }

  lemma ClaimFree(l: Ledger, n: nat)
    requires l.Ok() && FirstFit(l.used, 0, 1, false, Some(n))
    ensures n + 1 <= |l.used| && Free(Claim(l, n, 1), n, 1) == l
  {
    FoundFree(l, 1, n);
    UndoSetRange(l.used, n, 1);
    hide Ledger.Ok;
    assert l.leaked + Range(n, 1) - Range(n, 1) == l.leaked;
  }

  /** Giving sectors to a new inode and taking them away again. */
  lemma CreatedDropped(l: Ledger, l': Ledger, n: nat, length: nat)
    requires l.Ok() && Created(l, l', n, length) && n in l.leaked && l'.Ok() && l'.Live(n)
    ensures n in l'.disk && Drop(l', n).owner == l.owner && l.leaked <= Drop(l', n).leaked
  {
    var e := l'.disk[n];
    var k := BytesToSectors(length);
    FoundFree(l, k, e.start);
    assert Sectors(n, e) !! l.owner.Keys by {
      NotOwned(l, n);
    }
    hide Ledger.Ok, Sectors, Range, FirstFit;
    GivenTaken(l.owner, Sectors(n, e), n);
  }

  lemma NotOwned(l: Ledger, n: nat)
    requires l.Ok() && n in l.leaked
    ensures n !in l.owner
  {}

  lemma GivenTaken(owner: map<nat, nat>, mine: set<nat>, n: nat)
    requires mine !! owner.Keys
    ensures Given(owner, mine, n) - mine == owner
  {}

  lemma DropUsed(l: Ledger, n: nat)
    requires n in l.disk
    ensures Drop(l, n).used == l.used && Drop(l, n).disk == l.disk
  {}

  lemma RootNamed(s: State)
    ensures IsNamed(s.names, ROOT_DIR_SECTOR)
  {}

  lemma UndoSetRange(v: seq<bool>, start: nat, cnt: nat)
    requires start + cnt <= |v| && AllBits(v, start, cnt, false)
    ensures SetRange(SetRange(v, start, cnt, true), start, cnt, false) == v
  {}

  lemma InvBook(s: State, pending: set<nat>)
    requires Inv(s, pending)
    ensures s.ledger.Ok()
  {}

  /** A sector that is used is not among those that are claimed afterwards. */
  lemma Unowned(l: Ledger, n: nat, e: Extent)
    requires l.Ok() && n in l.leaked && e.start + BytesToSectors(e.length) <= |l.used|
    requires DataSectors(e) !! l.leaked
    ensures var k := Claim(l, e.start, BytesToSectors(e.length));
            Sectors(n, e) <= k.leaked && PlacedAt(|k.used|, n, e)
  {}

  lemma NewSector(s: State, list: seq<Inode>, n: nat)
    requires Inv(s, {}) && n in s.ledger.leaked && s.opens == ViewOf(list) && Distinct(list)
    ensures !InList(list, n)
  {
    ViewHas(list, n);
    hide ViewOf;
    if n in s.opens {
      OpenHasOpeners(s, {}, n);
    }
  }

  lemma CreatedInv(s: State, l: Ledger, n: nat, length: nat)
    requires Inv(s, {}) && Created(s.ledger, l, n, length) && n in s.ledger.leaked
    ensures Inv(s.(ledger := l), {n}) && !s.ledger.Live(n)
  {
    hide Inv, Ledger.Ok, Ledger.Live, Sectors, FirstFit, PlacedAt, Adopt;
    InvBook(s, {});
    var e := l.disk[n];
    var k := Claim(s.ledger, e.start, BytesToSectors(length));
    FoundFree(s.ledger, BytesToSectors(length), e.start);
    Unowned(s.ledger, n, e);
    SameOwnersOk(s, {}, k);
    CreatedOk(s.(ledger := k), {}, n, e);
    assert {} + {n} == {n};
    AdoptOk(k, n, e);
    SameLive(s.ledger, k, n);
  }

  lemma SameLive(l: Ledger, k: Ledger, n: nat)
    requires l.owner == k.owner
    ensures l.Live(n) <==> k.Live(n)
  {}

  /** Besides its own sector, a new inode takes only free sectors, and it is the only new live inode. */
  lemma CreatedLeaves(l: Ledger, l': Ledger, n: nat, length: nat)
    requires l.Ok() && Created(l, l', n, length) && n in l.leaked
    ensures l'.leaked == l.leaked - {n}
    ensures forall m: nat :: l'.Live(m) <==> m == n || l.Live(m)
  {
    var e := l'.disk[n];
    var k := Claim(l, e.start, BytesToSectors(length));
    FoundFree(l, BytesToSectors(length), e.start);
    Unowned(l, n, e);
    forall m: nat ensures l'.Live(m) <==> m == n || l.Live(m) {
      AdoptLive(k, n, e, m);
      SameLive(l, k, m);
    }
    hide Ledger.Ok, Ledger.Live, FirstFit;
  }

  lemma LeakedAfterCreate(s: State, l': Ledger, n: nat, length: nat, success: bool)
    requires Inv(s, {})
    requires if success then NewInode(s.ledger, l', n, length) else l' == s.ledger || Lost(s.ledger, l', length)
    ensures success || l' == s.ledger ==> l'.leaked == s.ledger.leaked
    ensures Lost(s.ledger, l', length) ==> (l'.leaked != s.ledger.leaked <==> length > 0)
  {
    hide Created, Ledger.Ok, FirstFit, SetRange, Range, LostData;
    InvBook(s, {});
    if success {
      hide Inv;
      FoundFree(s.ledger, 1, n);
      ClaimedOne(s, n);
      ClaimLeaked(s.ledger, n);
      CreatedLeaves(Claim(s.ledger, n, 1), l', n, length);
      OneSector(n);
    }
    if Lost(s.ledger, l', length) {
      var m: nat, start: nat :| LostData(s.ledger, l', m, start, length);
      LostSectors(s.ledger, l', m, start, length);
    }
  }

  lemma OneSector(n: nat)
    ensures Range(n, 1) == {n}
  {
    assert Range(n, 0) == {};
  }

  lemma EmptyView()
    ensures ViewOf([]) == map[]
  {}

  lemma FormattedOk(s: State)
    requires s.ledger.Ok() && s.names == map[] && s.opens == map[FREE_MAP_SECTOR := OpenInode(1, false)]
    requires forall m: nat :: s.ledger.Live(m) <==> m == FREE_MAP_SECTOR || m == ROOT_DIR_SECTOR
    ensures Inv(s, {})
  {
    hide Ledger.Ok, Ledger.Live;
  }

  /** Deleting a file closes no other inode. */
  lemma DeletedOpens(s: State, name: seq<Byte>)
    requires name in s.names && s.ledger.Ok() && s.ledger.Live(s.names[name])
    ensures Deleted(s, name).opens.Keys == s.opens.Keys
  {
    hide Ledger.Ok, Released;
  }

  lemma LiveOnDisk(s: State, pending: set<nat>, n: nat)
    requires Inv(s, pending) && (IsNamed(s.names, n) || n in s.opens)
    ensures n in s.ledger.disk
  {
    assert s.ledger.Live(n);
    LiveOwns(s.ledger, n);
  }
}
