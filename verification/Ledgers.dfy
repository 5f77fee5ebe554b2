/** Who owns the sectors of a file system: every sector marked used belongs to exactly one inode, or to
    none (leaked), and the sectors of an inode are its own sector and those of its data. */
module Ledgers {
  import opened Bitmaps
  import opened Inodes

  /** What an inode's own sector says: the first data sector, and the length in bytes. */
  datatype Extent = Extent(start: nat, length: nat)

  ghost function Range(start: nat, cnt: nat): (r: set<nat>)
    ensures forall s: nat :: s in r <==> start <= s < start + cnt
  {
    if cnt == 0 then {} else Range(start, cnt - 1) + {start + cnt - 1}
  }

  /** The sectors of the inode in sector n: its own and those of its data. */
  ghost function Sectors(n: nat, e: Extent): set<nat> { {n} + DataSectors(e) }

  ghost function DataSectors(e: Extent): set<nat> { Range(e.start, BytesToSectors(e.length)) }

  ghost predicate LiveIn(owner: map<nat, nat>, n: nat) { n in owner && owner[n] == n }

  /** The bits that are set are those of the owned and the leaked sectors. */
  ghost predicate Marks(used: seq<bool>, owner: map<nat, nat>, leaked: set<nat>) {
    && (forall s | 0 <= s < |used| :: used[s] <==> s in owner || s in leaked)
    && (forall s | s in owner :: s < |used| && s !in leaked)
    && (forall s | s in leaked :: s < |used|)
  }

  /** Owned sectors are exactly the sectors of live inodes. */
  ghost predicate Owners(owner: map<nat, nat>, disk: map<nat, Extent>) {
    && (forall s | s in owner :: LiveIn(owner, owner[s]))
    && (forall s | s in owner :: owner[s] in disk && s in Sectors(owner[s], disk[owner[s]]))
    && (forall n, s | LiveIn(owner, n) && n in disk && s in Sectors(n, disk[n]) :: s in owner && owner[s] == n)
  }

  /** The data of a live inode lie on the device, and not in the inode's own sector. */
  ghost predicate Placed(size: nat, owner: map<nat, nat>, disk: map<nat, Extent>) {
    forall n | LiveIn(owner, n) && n in disk :: PlacedAt(size, n, disk[n])
  }

  ghost predicate PlacedAt(size: nat, n: nat, e: Extent) {
    n !in DataSectors(e) && e.start + BytesToSectors(e.length) <= size
  }

  /** owner gives for each owned sector the sector of its inode. */
  datatype Ledger = Ledger(used: seq<bool>, owner: map<nat, nat>, leaked: set<nat>, disk: map<nat, Extent>) {

    ghost predicate Live(n: nat) { LiveIn(owner, n) }

    ghost function Owned(n: nat): set<nat>
      requires n in disk
    {
      Sectors(n, disk[n])
    }

    ghost predicate Ok() { Marks(used, owner, leaked) && Owners(owner, disk) && Placed(|used|, owner, disk) }
  }

  /** Sectors that are marked free become used, without an owner. */
  ghost function Claim(l: Ledger, start: nat, cnt: nat): Ledger
    requires start + cnt <= |l.used|
  {
    l.(used := SetRange(l.used, start, cnt, true), leaked := l.leaked + Range(start, cnt))
  }

  lemma ClaimOk(l: Ledger, start: nat, cnt: nat)
    requires l.Ok() && start + cnt <= |l.used| && AllBits(l.used, start, cnt, false)
    ensures Claim(l, start, cnt).Ok()
    ensures Range(start, cnt) !! l.owner.Keys && Range(start, cnt) !! l.leaked
  {
    hide Owners, Range, Placed;
    forall s | s in Range(start, cnt) ensures s !in l.owner && s !in l.leaked {
      assert l.used[s] == false;
    }
  }

  /** Sectors without an owner are marked free. */
  ghost function Free(l: Ledger, start: nat, cnt: nat): Ledger
    requires start + cnt <= |l.used|
  {
    l.(used := SetRange(l.used, start, cnt, false), leaked := l.leaked - Range(start, cnt))
  }

  lemma FreeOk(l: Ledger, start: nat, cnt: nat)
    requires l.Ok() && start + cnt <= |l.used| && Range(start, cnt) <= l.leaked
    ensures Free(l, start, cnt).Ok() && AllBits(l.used, start, cnt, true)
  {
    hide Owners, Range, Placed;
    forall s | start <= s < start + cnt ensures l.used[s] && s !in l.owner {
      assert s in Range(start, cnt);
    }
  }

  ghost function Given(owner: map<nat, nat>, mine: set<nat>, n: nat): map<nat, nat> {
    owner + (map s | s in mine :: n)
  }

  /** An inode is written to sector n, and with it its sectors get an owner. */
  ghost function Adopt(l: Ledger, n: nat, e: Extent): Ledger {
    l.(owner := Given(l.owner, Sectors(n, e), n), leaked := l.leaked - Sectors(n, e), disk := l.disk[n := e])
  }

  lemma GivenLive(owner: map<nat, nat>, mine: set<nat>, n: nat, m: nat)
    requires n in mine && mine !! owner.Keys
    ensures LiveIn(Given(owner, mine, n), m) <==> m == n || LiveIn(owner, m)
  {}

  lemma OwnerOf(owner: map<nat, nat>, disk: map<nat, Extent>, s: nat)
    requires Owners(owner, disk) && s in owner
    ensures LiveIn(owner, owner[s]) && owner[s] in disk && s in Sectors(owner[s], disk[owner[s]])
  {}

  lemma OwnsAll(owner: map<nat, nat>, disk: map<nat, Extent>, n: nat, s: nat)
    requires Owners(owner, disk) && LiveIn(owner, n)
    ensures n in disk && (s in Sectors(n, disk[n]) ==> s in owner && owner[s] == n)
  {}

  lemma GivenOwner(owner: map<nat, nat>, disk: map<nat, Extent>, n: nat, e: Extent, s: nat)
    requires Owners(owner, disk) && Sectors(n, e) !! owner.Keys && s in Given(owner, Sectors(n, e), n)
    ensures var o := Given(owner, Sectors(n, e), n); var d := disk[n := e];
            LiveIn(o, o[s]) && o[s] in d && s in Sectors(o[s], d[o[s]])
  {
    SectorsHave(n, e);
    hide Sectors, Owners, LiveIn;
    if s !in Sectors(n, e) {
      OwnerOf(owner, disk, s);
      GivenLive(owner, Sectors(n, e), n, owner[s]);
      LiveIsKey(owner, owner[s]);
    } else {
      GivenLive(owner, Sectors(n, e), n, n);
    }
  }

  lemma LiveIsKey(owner: map<nat, nat>, n: nat)
    requires LiveIn(owner, n)
    ensures n in owner
  {}

  lemma GivenAll(owner: map<nat, nat>, disk: map<nat, Extent>, n: nat, e: Extent, m: nat, s: nat)
    requires Owners(owner, disk) && Sectors(n, e) !! owner.Keys && LiveIn(Given(owner, Sectors(n, e), n), m)
    ensures var o := Given(owner, Sectors(n, e), n); var d := disk[n := e];
            m in d && (s in Sectors(m, d[m]) ==> s in o && o[s] == m)
  {
    SectorsHave(n, e);
    hide Sectors, Owners, LiveIn;
    GivenLive(owner, Sectors(n, e), n, m);
    if m != n {
      OwnsAll(owner, disk, m, s);
    }
  }

  lemma GivenOwners(owner: map<nat, nat>, disk: map<nat, Extent>, n: nat, e: Extent)
    requires Owners(owner, disk) && Sectors(n, e) !! owner.Keys
    ensures Owners(Given(owner, Sectors(n, e), n), disk[n := e])
  {
    var owner', disk' := Given(owner, Sectors(n, e), n), disk[n := e];
    hide Sectors, Given, LiveIn;
    forall s | s in owner'
      ensures LiveIn(owner', owner'[s]) && owner'[s] in disk' && s in Sectors(owner'[s], disk'[owner'[s]])
    {
      GivenOwner(owner, disk, n, e, s);
    }
    forall m, s | LiveIn(owner', m) && m in disk' && s in Sectors(m, disk'[m]) ensures s in owner' && owner'[s] == m {
      GivenAll(owner, disk, n, e, m, s);
    }
  }

  lemma AdoptOk(l: Ledger, n: nat, e: Extent)
    requires l.Ok() && Sectors(n, e) <= l.leaked && PlacedAt(|l.used|, n, e)
    ensures Adopt(l, n, e).Ok() && !l.Live(n)
  {
    hide Owners, Sectors, PlacedAt;
    assert Sectors(n, e) !! l.owner.Keys;
    assert n in Sectors(n, e) by {
      SectorsHave(n, e);
    }
    GivenOwners(l.owner, l.disk, n, e);
    forall m | LiveIn(Given(l.owner, Sectors(n, e), n), m) && m in l.disk[n := e]
      ensures PlacedAt(|l.used|, m, l.disk[n := e][m])
    {
      GivenLive(l.owner, Sectors(n, e), n, m);
    }
  }

  lemma SectorsHave(n: nat, e: Extent)
    ensures n in Sectors(n, e)
  {}

  lemma AdoptLive(l: Ledger, n: nat, e: Extent, m: nat)
    requires l.Ok() && Sectors(n, e) <= l.leaked
    ensures Adopt(l, n, e).Live(m) <==> m == n || l.Live(m)
  {
    hide Owners, Sectors;
    SectorsHave(n, e);
    GivenLive(l.owner, Sectors(n, e), n, m);
  }

  /** An inode's sectors lose their owner. */
  ghost function Drop(l: Ledger, n: nat): Ledger
    requires n in l.disk
  {
    l.(owner := l.owner - l.Owned(n), leaked := l.leaked + l.Owned(n))
  }

  lemma LiveOwns(l: Ledger, n: nat)
    requires l.Ok() && l.Live(n)
    ensures n in l.disk && l.Owned(n) <= l.owner.Keys && l.Owned(n) !! l.leaked
    ensures forall s | s in l.Owned(n) :: l.owner[s] == n && s < |l.used| && l.used[s]
  {
    hide Sectors;
    assert l.owner[n] in l.disk;
  }

  lemma DropLive(l: Ledger, n: nat, m: nat)
    requires l.Ok() && l.Live(n) && n in l.disk
    ensures Drop(l, n).Live(m) <==> m != n && l.Live(m)
  {
    LiveOwns(l, n);
    SectorsHave(n, l.disk[n]);
    hide Sectors, Owners, Marks;
  }

  lemma DropOwner(l: Ledger, n: nat, s: nat)
    requires l.Ok() && l.Live(n) && n in l.disk && s in Drop(l, n).owner
    ensures var k := Drop(l, n);
            LiveIn(k.owner, k.owner[s]) && k.owner[s] in k.disk && s in Sectors(k.owner[s], k.disk[k.owner[s]])
  {
    LiveOwns(l, n);
    OwnerOf(l.owner, l.disk, s);
    DropLive(l, n, l.owner[s]);
  }

  lemma DropAll(l: Ledger, n: nat, m: nat, s: nat)
    requires l.Ok() && l.Live(n) && n in l.disk && LiveIn(Drop(l, n).owner, m)
    ensures var k := Drop(l, n); m in k.disk && (s in Sectors(m, k.disk[m]) ==> s in k.owner && k.owner[s] == m)
  {
    DropLive(l, n, m);
    LiveOwns(l, n);
    OwnsAll(l.owner, l.disk, m, s);
  }

  lemma DropOwners(l: Ledger, n: nat, o: map<nat, nat>, d: map<nat, Extent>)
    requires l.Ok() && l.Live(n) && n in l.disk && o == Drop(l, n).owner && d == Drop(l, n).disk
    ensures Owners(o, d)
  {
    hide Sectors, LiveIn, Drop, Ledger.Live, Ledger.Ok, Ledger.Owned;
    forall s | s in o ensures LiveIn(o, o[s]) && o[s] in d && s in Sectors(o[s], d[o[s]]) {
      DropOwner(l, n, s);
    }
    forall m, s | LiveIn(o, m) && m in d && s in Sectors(m, d[m]) ensures s in o && o[s] == m {
      DropAll(l, n, m, s);
    }
    forall m | LiveIn(o, m) ensures m in d {
      DropAll(l, n, m, 0);
    }
  }

  lemma DropOk(l: Ledger, n: nat)
    requires l.Ok() && l.Live(n)
    ensures n in l.disk && Drop(l, n).Ok()
  {
    LiveOwns(l, n);
    DropOwners(l, n, Drop(l, n).owner, Drop(l, n).disk);
    forall m | Drop(l, n).Live(m) && m in l.disk ensures PlacedAt(|l.used|, m, l.disk[m]) {
      DropLive(l, n, m);
    }
    hide Owners, Sectors, PlacedAt;
  }

  /** Live inodes own disjoint sets of sectors, and all of them are marked used. */
  lemma OwnershipDisjoint(l: Ledger, m: nat, n: nat)
    requires l.Ok() && l.Live(m) && l.Live(n) && m != n
    ensures m in l.disk && n in l.disk && l.Owned(m) !! l.Owned(n)
    ensures forall s | s in l.Owned(m) :: s < |l.used| && l.used[s]
  {
    LiveOwns(l, m);
    LiveOwns(l, n);
  }
}
