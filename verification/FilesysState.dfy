/** The state of the file system as its callers see it: which names there are, which inodes are open how
    often, and who owns the sectors. Every operation keeps the invariant. */
module FilesysState {
  import opened Wrappers
  import opened Bytes
  import opened Bitmaps
  import opened Inodes
  import opened Ledgers

  const FREE_MAP_SECTOR: nat := 0
  const ROOT_DIR_SECTOR: nat := 1

  /** An open inode: the number of its openers, and whether its name has been removed. */
  datatype OpenInode = OpenInode(cnt: nat, removed: bool)

  datatype State = State(ledger: Ledger, names: map<seq<Byte>, nat>, opens: map<nat, OpenInode>)

  ghost predicate IsNamed(names: map<seq<Byte>, nat>, n: nat) {
    n == FREE_MAP_SECTOR || n == ROOT_DIR_SECTOR || n in names.Values
  }

  /** Inodes are live while they have a name or are open; those in pending have been created but have no
      name yet. */
  ghost predicate LiveSectors(s: State, pending: set<nat>) {
    forall n: nat :: s.ledger.Live(n) <==> IsNamed(s.names, n) || n in pending || n in s.opens
  }

  ghost predicate NamesOk(names: map<seq<Byte>, nat>) {
    && (forall a | a in names :: names[a] > ROOT_DIR_SECTOR)
    && (forall a, b | a in names && b in names && names[a] == names[b] :: a == b)
  }

  ghost predicate PendingOk(s: State, pending: set<nat>) {
    forall n | n in pending :: !IsNamed(s.names, n) && n !in s.opens
  }

  /** An open inode has openers, and it is marked removed exactly when it has no name any more. */
  ghost predicate OpensOk(s: State) {
    forall n | n in s.opens :: s.opens[n].cnt > 0 && (s.opens[n].removed <==> !IsNamed(s.names, n))
  }

  ghost predicate Inv(s: State, pending: set<nat>) {
    s.ledger.Ok() && LiveSectors(s, pending) && NamesOk(s.names) && PendingOk(s, pending) && OpensOk(s)
  }

  // ---- steps ----

  /** inode_open, and inode_reopen for an inode that is open already. */
  ghost function Opened(s: State, n: nat): (t: State)
    ensures n in t.opens && t.names == s.names && t.ledger == s.ledger
  {
    s.(opens := s.opens[n := if n in s.opens then s.opens[n].(cnt := s.opens[n].cnt + 1) else OpenInode(1, false)])
  }

  lemma OpenedOk(s: State, pending: set<nat>, n: nat)
    requires Inv(s, pending) && (IsNamed(s.names, n) || n in s.opens)
    ensures Inv(Opened(s, n), pending)
  {
    hide Ledger.Ok, IsNamed;
    var t := Opened(s, n);
    assert t.opens.Keys == s.opens.Keys + {n};
    forall m: nat ensures t.ledger.Live(m) <==> IsNamed(t.names, m) || m in pending || m in t.opens {
      assert s.ledger.Live(m) <==> IsNamed(s.names, m) || m in pending || m in s.opens;
    }
  }

  /** The sectors of an inode are marked free: its own, then those of its data. */
  ghost function Released(l: Ledger, n: nat): Ledger
    requires l.Ok() && l.Live(n)
  {
    LiveOwns(l, n);
    ReleaseBounds(l, n);
    Free(Free(Drop(l, n), n, 1), l.disk[n].start, BytesToSectors(l.disk[n].length))
  }

  lemma ReleaseBounds(l: Ledger, n: nat)
    requires l.Ok() && l.Live(n)
    ensures n in l.disk && n < |l.used| && n !in DataSectors(l.disk[n])
    ensures l.disk[n].start + BytesToSectors(l.disk[n].length) <= |l.used|
  {
    LiveOwns(l, n);
    SectorsHave(n, l.disk[n]);
    PlacedOf(l, n);
  }

  lemma PlacedOf(l: Ledger, n: nat)
    requires l.Ok() && l.Live(n) && n in l.disk
    ensures PlacedAt(|l.used|, n, l.disk[n])
  {
    hide Owners, Marks;
  }

  /** Releasing an inode frees exactly its sectors, all of which were marked used. */
  lemma ReleasedOk(l: Ledger, n: nat)
    requires l.Ok() && l.Live(n)
    ensures n in l.disk
    ensures Released(l, n).Ok() && Released(l, n).leaked == l.leaked && Released(l, n).disk == l.disk
    ensures forall m: nat :: Released(l, n).Live(m) <==> m != n && l.Live(m)
    ensures forall s | s in l.Owned(n) :: s < |l.used| && l.used[s]
    ensures |Released(l, n).used| == |l.used|
    ensures forall s | 0 <= s < |l.used| :: Released(l, n).used[s] <==> l.used[s] && s !in l.Owned(n)
  {
    LiveOwns(l, n);
    ReleaseBounds(l, n);
    DropOk(l, n);
    var d, e := Drop(l, n), l.disk[n];
    SectorsHave(n, e);
    FreeOk(d, n, 1);
    FreeOk(Free(d, n, 1), e.start, BytesToSectors(e.length));
    forall m: nat ensures d.Live(m) <==> m != n && l.Live(m) {
      DropLive(l, n, m);
    }
  }

  /** inode_close: the last opener of a removed inode releases its sectors. */
  ghost function Closed(s: State, n: nat): State
    requires n in s.opens && s.ledger.Ok() && s.ledger.Live(n)
  {
    var i := s.opens[n];
    if i.cnt > 1 then s.(opens := s.opens[n := i.(cnt := i.cnt - 1)])
    else s.(opens := s.opens - {n}, ledger := if i.removed then Released(s.ledger, n) else s.ledger)
  }

  lemma ClosedOk(s: State, pending: set<nat>, n: nat)
    requires Inv(s, pending) && n in s.opens
    ensures s.ledger.Live(n) && Inv(Closed(s, n), pending)
  {
    assert s.ledger.Live(n);
    if s.opens[n].cnt > 1 {
      FewerOpeners(s, pending, n);
    } else if s.opens[n].removed {
      ReleasedOk(s.ledger, n);
      hide Released, Inv;
      LastOpener(s, pending, n, Released(s.ledger, n));
    } else {
      LastOpener(s, pending, n, s.ledger);
    }
  }

  lemma FewerOpeners(s: State, pending: set<nat>, n: nat)
    requires Inv(s, pending) && n in s.opens && s.opens[n].cnt > 1
    ensures Inv(s.(opens := s.opens[n := s.opens[n].(cnt := s.opens[n].cnt - 1)]), pending)
  {
    hide Ledger.Ok, Ledger.Live, IsNamed;
    var t := s.(opens := s.opens[n := s.opens[n].(cnt := s.opens[n].cnt - 1)]);
    assert t.opens.Keys == s.opens.Keys;
  }

  lemma LastOpener(s: State, pending: set<nat>, n: nat, l: Ledger)
    requires Inv(s, pending) && n in s.opens && l.Ok()
    requires forall m: nat :: l.Live(m) <==> s.ledger.Live(m) && !(m == n && s.opens[n].removed)
    ensures Inv(s.(opens := s.opens - {n}, ledger := l), pending)
  {
    hide Ledger.Ok, Ledger.Live, IsNamed;
    var t := s.(opens := s.opens - {n}, ledger := l);
    forall m: nat ensures t.ledger.Live(m) <==> IsNamed(t.names, m) || m in pending || m in t.opens {
      assert s.ledger.Live(m) <==> IsNamed(s.names, m) || m in pending || m in s.opens;
    }
  }

  /** dir_remove, while it has the inode open: the name goes, and the inode is marked. */
  ghost function Unnamed(s: State, name: seq<Byte>): State
    requires name in s.names && s.names[name] in s.opens
  {
    var n := s.names[name];
    s.(names := s.names - {name}, opens := s.opens[n := s.opens[n].(removed := true)])
  }

  lemma UnnamedOk(s: State, pending: set<nat>, name: seq<Byte>)
    requires Inv(s, pending) && name in s.names && s.names[name] in s.opens
    ensures Inv(Unnamed(s, name), pending)
  {
    var n := s.names[name];
    var names', opens' := s.names - {name}, s.opens[n := s.opens[n].(removed := true)];
    forall m: nat ensures IsNamed(names', m) <==> IsNamed(s.names, m) && m != n {
      StillNamed(s.names, name, m);
    }
    UnnamedLive(s, pending, n, names', opens');
  }

  lemma UnnamedLive(s: State, pending: set<nat>, n: nat, names: map<seq<Byte>, nat>, opens: map<nat, OpenInode>)
    requires Inv(s, pending) && n in s.opens && NamesOk(names)
    requires opens == s.opens[n := s.opens[n].(removed := true)]
    requires forall m: nat :: IsNamed(names, m) <==> IsNamed(s.names, m) && m != n
    ensures Inv(s.(names := names, opens := opens), pending)
  {
    hide Ledger.Ok, Ledger.Live, IsNamed, NamesOk;
    var t := s.(names := names, opens := opens);
    assert t.opens.Keys == s.opens.Keys;
    forall m: nat ensures t.ledger.Live(m) <==> IsNamed(t.names, m) || m in pending || m in t.opens {
      assert s.ledger.Live(m) <==> IsNamed(s.names, m) || m in pending || m in s.opens;
    }
  }

  lemma StillNamed(names: map<seq<Byte>, nat>, name: seq<Byte>, m: nat)
    requires NamesOk(names) && name in names
    ensures IsNamed(names - {name}, m) <==> IsNamed(names, m) && m != names[name]
  {
    if m in names.Values && m != names[name] {
      var a :| a in names && names[a] == m;
      assert a in names - {name} && (names - {name})[a] == m;
    }
    if m in (names - {name}).Values {
      var a :| a in names - {name} && (names - {name})[a] == m;
      assert a in names && names[a] == m;
    }
  }

  /** dir_add for an inode that has just been created. */
  ghost function NewName(s: State, name: seq<Byte>, n: nat): State { s.(names := s.names[name := n]) }

  lemma NewNameOk(s: State, pending: set<nat>, name: seq<Byte>, n: nat)
    requires Inv(s, pending) && n in pending && name !in s.names
    ensures Inv(NewName(s, name, n), pending - {n})
  {
    var t := NewName(s, name, n);
    hide Ledger.Ok;
    forall m: nat ensures IsNamed(t.names, m) <==> IsNamed(s.names, m) || m == n {
      NowNamed(s.names, name, n, m);
    }
    forall a | a in s.names ensures s.names[a] != n {
      assert s.names[a] in s.names.Values;
    }
    hide IsNamed;
    forall m: nat ensures t.ledger.Live(m) <==> IsNamed(t.names, m) || m in pending - {n} || m in t.opens {
      assert s.ledger.Live(m) <==> IsNamed(s.names, m) || m in pending || m in s.opens;
    }
  }

  lemma NowNamed(names: map<seq<Byte>, nat>, name: seq<Byte>, n: nat, m: nat)
    requires name !in names
    ensures IsNamed(names[name := n], m) <==> IsNamed(names, m) || m == n
  {
    var t := names[name := n];
    assert name in t && t[name] == n;
    if m in names.Values {
      var a :| a in names && names[a] == m;
      assert a in t && t[a] == m;
    }
    if m in t.Values {
      var a :| a in t && t[a] == m;
    }
  }

  // ---- creating an inode ----

  /** Marking sectors used or free without giving or taking an owner changes no inode. */
  lemma SameOwnersOk(s: State, pending: set<nat>, l: Ledger)
    requires Inv(s, pending) && l.Ok() && l.owner == s.ledger.owner
    ensures Inv(s.(ledger := l), pending)
  {
    hide Ledger.Ok, IsNamed;
    forall n: nat ensures l.Live(n) <==> IsNamed(s.names, n) || n in pending || n in s.opens {
      assert s.ledger.Live(n) <==> IsNamed(s.names, n) || n in pending || n in s.opens;
    }
  }

  lemma CreatedOk(s: State, pending: set<nat>, n: nat, e: Extent)
    requires Inv(s, pending) && Sectors(n, e) <= s.ledger.leaked && PlacedAt(|s.ledger.used|, n, e)
    ensures Inv(s.(ledger := Adopt(s.ledger, n, e)), pending + {n})
    ensures !IsNamed(s.names, n) && n !in s.opens && n !in pending
  {
    var l := Adopt(s.ledger, n, e);
    AdoptOk(s.ledger, n, e);
    forall m: nat ensures l.Live(m) <==> m == n || s.ledger.Live(m) {
      AdoptLive(s.ledger, n, e, m);
    }
    hide Ledger.Ok, IsNamed, Ledger.Live, Adopt;
    AddedLive(s, pending, n, l);
  }

  lemma AddedLive(s: State, pending: set<nat>, n: nat, l: Ledger)
    requires Inv(s, pending) && l.Ok() && !s.ledger.Live(n)
    requires forall m: nat :: l.Live(m) <==> m == n || s.ledger.Live(m)
    ensures Inv(s.(ledger := l), pending + {n}) && !IsNamed(s.names, n) && n !in s.opens && n !in pending
  {
    hide Ledger.Ok, IsNamed, Ledger.Live;
    forall m: nat ensures l.Live(m) <==> IsNamed(s.names, m) || m in pending + {n} || m in s.opens {
      assert s.ledger.Live(m) <==> IsNamed(s.names, m) || m in pending || m in s.opens;
    }
  }

  /** An inode that never got a name loses its sectors to nobody. */
  lemma AbandonedOk(s: State, n: nat)
    requires Inv(s, {n})
    ensures s.ledger.Live(n) && n in s.ledger.disk && Inv(s.(ledger := Drop(s.ledger, n)), {})
  {
    assert n in {n};
    assert s.ledger.Live(n);
    DropOk(s.ledger, n);
    forall m: nat ensures Drop(s.ledger, n).Live(m) <==> m != n && s.ledger.Live(m) {
      DropLive(s.ledger, n, m);
    }
    RemovedLive(s, n, Drop(s.ledger, n));
  }

  lemma RemovedLive(s: State, n: nat, l: Ledger)
    requires Inv(s, {n}) && l.Ok()
    requires forall m: nat :: l.Live(m) <==> m != n && s.ledger.Live(m)
    ensures Inv(s.(ledger := l), {})
  {
    hide Ledger.Ok, IsNamed, Ledger.Live;
    assert n in {n};
    forall m: nat ensures l.Live(m) <==> IsNamed(s.names, m) || m in {} || m in s.opens {
      assert s.ledger.Live(m) <==> IsNamed(s.names, m) || m in {n} || m in s.opens;
    }
  }

  /** Opening and closing again leaves everything as it was, for an inode that has a name. */
  lemma OpenedClosed(s: State, t: State, pending: set<nat>, n: nat)
    requires Inv(s, {}) && Inv(t, pending) && IsNamed(s.names, n) && IsNamed(t.names, n)
    requires t.opens == Opened(s, n).opens
    ensures n in t.opens && t.ledger.Live(n) && Closed(t, n) == t.(opens := s.opens)
  {
    hide Inv, Ledger.Live, Ledger.Ok, Released, IsNamed;
    NamedIsLive(t, pending, n);
    NamedNotRemoved(s, {}, n);
    var o := s.opens;
    if n in o {
      assert t.opens[n := o[n]] == o;
    } else {
      assert t.opens - {n} == o;
    }
  }

  lemma NamedIsLive(s: State, pending: set<nat>, n: nat)
    requires Inv(s, pending) && IsNamed(s.names, n)
    ensures s.ledger.Live(n) && s.ledger.Ok()
  {}

  lemma NamedNotRemoved(s: State, pending: set<nat>, n: nat)
    requires Inv(s, pending) && IsNamed(s.names, n)
    ensures n in s.opens ==> !s.opens[n].removed && s.opens[n].cnt > 0
  {}

  /** What FirstFit finds free belongs to nobody. */
  lemma FoundFree(l: Ledger, cnt: nat, start: nat)
    requires l.Ok() && FirstFit(l.used, 0, cnt, false, Some(start))
    ensures start + cnt <= |l.used| && Claim(l, start, cnt).Ok()
    ensures Range(start, cnt) !! l.leaked && Range(start, cnt) !! l.owner.Keys
  {
    ClaimOk(l, start, cnt);
  }

  lemma OpenHasOpeners(s: State, pending: set<nat>, n: nat)
    requires Inv(s, pending) && n in s.opens
    ensures s.opens[n].cnt > 0 && s.ledger.Ok() && s.ledger.Live(n)
  {}

  // ---- what happens while the root directory is open ----

  lemma OpenedTwo(s: State, m: nat, n: nat)
    requires m != n
    ensures Opened(Opened(s, m), n) == Opened(Opened(s, n), m)
  {
    assert Opened(Opened(s, m), n).opens == Opened(Opened(s, n), m).opens;
  }

  /** filesys_remove as its callers see it: the name goes, and if the inode is not open its sectors are
      free at once; if it is open it is marked, and keeps them. */
  ghost function Deleted(s: State, name: seq<Byte>): State
    requires name in s.names && s.ledger.Ok() && s.ledger.Live(s.names[name])
  {
    var n := s.names[name];
    if n in s.opens then s.(names := s.names - {name}, opens := s.opens[n := s.opens[n].(removed := true)])
    else s.(names := s.names - {name}, ledger := Released(s.ledger, n))
  }

  lemma FileIsLive(s: State, pending: set<nat>, name: seq<Byte>)
    requires Inv(s, pending) && name in s.names
    ensures IsNamed(s.names, s.names[name]) && s.names[name] > ROOT_DIR_SECTOR
    ensures s.ledger.Ok() && s.ledger.Live(s.names[name])
    ensures s.names[name] in s.opens ==> s.opens[s.names[name]].cnt > 0 && !s.opens[s.names[name]].removed
  {}

  /** The steps of dir_remove: the inode is opened, its name erased, the inode marked, and closed again. */
  lemma DeletedInSteps(s: State, name: seq<Byte>)
    requires Inv(s, {}) && name in s.names && s.ledger.Ok() && s.ledger.Live(s.names[name])
    ensures var n := s.names[name]; var t := Opened(s, n);
            Inv(t, {}) && n in t.opens && Inv(Unnamed(t, name), {})
            && t.ledger == s.ledger && t.names == s.names
            && Closed(Unnamed(t, name), n) == Deleted(s, name) && Inv(Deleted(s, name), {})
  {
    hide Inv, Ledger.Ok, Ledger.Live, Released, IsNamed;
    FileIsLive(s, {}, name);
    var n, o := s.names[name], s.opens;
    OpenedOk(s, {}, n);
    UnnamedOk(Opened(s, n), {}, name);
    ClosedOk(Unnamed(Opened(s, n), name), {}, n);
    if n in o {
      UpdateThrice(o, n, OpenInode(o[n].cnt + 1, false), OpenInode(o[n].cnt + 1, true), OpenInode(o[n].cnt, true));
    } else {
      UpdateThrice(o, n, OpenInode(1, false), OpenInode(1, true), OpenInode(1, true));
    }
  }

  lemma UpdateThrice(o: map<nat, OpenInode>, n: nat, a: OpenInode, b: OpenInode, c: OpenInode)
    ensures n in o ==> o[n := a][n := b][n := c] == o[n := c]
    ensures n !in o ==> o[n := a][n := b] - {n} == o
  {}

  /** With the root directory open it is the same, but for the root directory being open. */
  lemma DeletedUnderRoot(s: State, name: seq<Byte>)
    requires Inv(s, {}) && name in s.names && s.ledger.Ok() && s.ledger.Live(s.names[name])
    ensures Deleted(Opened(s, ROOT_DIR_SECTOR), name) == Opened(Deleted(s, name), ROOT_DIR_SECTOR)
  {
    hide Inv, Ledger.Ok, Ledger.Live, Released, IsNamed;
    FileIsLive(s, {}, name);
    var n, o := s.names[name], s.opens;
    if n in o {
      var a, b := if ROOT_DIR_SECTOR in o then o[ROOT_DIR_SECTOR].(cnt := o[ROOT_DIR_SECTOR].cnt + 1)
                  else OpenInode(1, false),
                  o[n].(removed := true);
      assert o[ROOT_DIR_SECTOR := a][n := b] == o[n := b][ROOT_DIR_SECTOR := a];
    }
  }
}
