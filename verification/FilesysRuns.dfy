/** Runs of the file system: any sequence of creates, opens, reopens, removes and closes, in any order and
    by any number of callers. The steps are what the methods of module Filesys are shown to do. */
module FilesysRuns {
  import opened Wrappers
  import opened Bytes
  import opened Bitmaps
  import opened Inodes
  import opened Ledgers
  import opened FilesysState
  import opened Filesys
  import D = Directories

  datatype Action =
    | Create(name: seq<Byte>, n: nat, length: nat)
    | CreateFails(name: seq<Byte>, length: nat)
    | Open(n: nat)
    | Close(n: nat)
    | Remove(name: seq<Byte>)
    | Nothing              // a call that could not open what it needs

  ghost predicate Next(s: State, a: Action, t: State) {
    match a
    case Create(name, n, length) =>
      name !in s.names && NewInode(s.ledger, t.ledger, n, length) && t.names == s.names[name := n] && t.opens == s.opens
    case CreateFails(name, length) =>
      t.names == s.names && t.opens == s.opens && (t.ledger == s.ledger || Lost(s.ledger, t.ledger, length))
    case Open(n) => (n in s.names.Values || n in s.opens) && t == Opened(s, n)
    case Close(n) => n in s.opens && s.ledger.Ok() && s.ledger.Live(n) && t == Closed(s, n)
    case Remove(name) =>
      name in s.names && s.ledger.Ok() && s.ledger.Live(s.names[name]) && t == Deleted(s, name)
    case Nothing => t == s
  }

  // ---- the methods take such steps ----

  /** A call of the file system; inodes are open ones. */
  datatype Call =
    | CallCreate(name: seq<Byte>, length: nat)
    | CallOpen(name: seq<Byte>)
    | CallReopen(inode: Inode)
    | CallClose(inode: Inode)
    | CallRemove(name: seq<Byte>)

  /** Whether dir_add accepts the name. */
  ghost predicate Usable(s: State, name: seq<Byte>, slots: nat) {
    D.ValidName(name) && name !in s.names && |s.names| < slots
  }

  /** When memory and the disk can be depended on, a create fails for lack of room, which changes nothing, or because
      of its name, which loses the data sectors. */
  ghost predicate Dependable(s: State, a: Action, t: State, slots: nat) {
    match a
    case Create(name, _, length) => Usable(s, name, slots) && !NoRoom(s.ledger, length)
    case CreateFails(name, length) =>
      if NoRoom(s.ledger, length) then t.ledger == s.ledger
      else !Usable(s, name, slots) && Lost(s.ledger, t.ledger, length)
    case _ => true
  }

  method Perform(fs: FileSystem, c: Call, reliable: bool) returns (ghost a: Action)
    requires fs.ValidWith({})
    requires (c.CallReopen? || c.CallClose?) ==> c.inode in fs.openInodes
    modifies fs, fs.openInodes, fs.freeMap.bits
    ensures fs.ValidWith({}) && Next(old(fs.Abs()), a, fs.Abs())
    ensures reliable ==> Dependable(old(fs.Abs()), a, fs.Abs(), fs.slots)
  {
    hide Inv, Lost, NoRoom, NewInode, Opened, Closed, Deleted, Ledger.Ok, Ledger.Live;
    ghost var s := fs.Abs();
    a := Nothing;
    match c {
      case CallCreate(name, length) =>
        var success;
        ghost var n;
        success, n := fs.Create(name, length, reliable);
        a := if success then Create(name, n, length) else CreateFails(name, length);
      case CallOpen(name) =>
        var inode := fs.Open(name, reliable);
        if inode != null {
          a := Open(inode.sector);
        }
      case CallReopen(inode) =>
        AllInView(fs.openInodes);
        fs.InodeReopen(inode, {});
        a := Open(inode.sector);
      case CallClose(inode) =>
        InvBook(s, {});
        fs.InodeClose(inode, {});
        a := Close(inode.sector);
      case CallRemove(name) =>
        var success := fs.Remove(name, reliable);
        if success {
          a := Remove(name);
        }
    }
  }

  // ---- every step keeps the invariant ----

  /** A create that fails at its name leaves every owner as it was. */
  lemma LostOk(l: Ledger, l': Ledger, length: nat)
    requires l.Ok() && Lost(l, l', length)
    ensures l'.Ok() && l'.owner == l.owner && |l'.used| == |l.used| && l.leaked <= l'.leaked && SameExtents(l, l')
    ensures l'.leaked != l.leaked <==> length > 0
  {
    hide Ledger.Ok, LostData;
    var n: nat, start: nat :| LostData(l, l', n, start, length);
    LostSectors(l, l', n, start, length);
    LostStillOk(l, l', n, start, length);
  }

  lemma LostStillOk(l: Ledger, l': Ledger, n: nat, start: nat, length: nat)
    requires l.Ok() && LostData(l, l', n, start, length) && n !in l.owner
    ensures l'.Ok() && SameExtents(l, l')
  {
    hide Owners, Placed, FirstFit, Sectors, PlacedAt, Marks;
    LostMarks(l, l', n, start, length);
    SameOwners(l.owner, l.disk, n, Extent(start, length), |l.used|);
  }

  lemma LostMarks(l: Ledger, l': Ledger, n: nat, start: nat, length: nat)
    requires l.Ok() && LostData(l, l', n, start, length)
    ensures Marks(l'.used, l'.owner, l'.leaked)
  {
    hide Owners, Placed;
    assert l.used[n] == false;
    var u := SetRange(l.used, n, 1, true);
    forall x | start <= x < start + BytesToSectors(length)
      ensures x !in l.owner
    {
      assert !u[x];
    }
  }

  /** An extent in a sector that is not an inode's does not matter. */
  lemma SameOwners(owner: map<nat, nat>, disk: map<nat, Extent>, n: nat, e: Extent, size: nat)
    requires Owners(owner, disk) && Placed(size, owner, disk) && n !in owner
    ensures Owners(owner, disk[n := e]) && Placed(size, owner, disk[n := e])
    ensures forall m: nat | LiveIn(owner, m) && m in disk :: disk[n := e][m] == disk[m]
  {
    hide Sectors, PlacedAt;
  }

  lemma CreateOk(s: State, name: seq<Byte>, n: nat, length: nat, t: State)
    requires Inv(s, {}) && Next(s, Create(name, n, length), t)
    ensures Inv(t, {}) && !s.ledger.Live(n) && SameExtents(s.ledger, t.ledger)
    ensures t.ledger.leaked == s.ledger.leaked
  {
    hide Inv, Created, Ledger.Ok, Ledger.Live, FirstFit, SetRange;
    InvBook(s, {});
    var l := Claim(s.ledger, n, 1);
    FoundFree(s.ledger, 1, n);
    ClaimedOne(s, n);
    SameOwnersOk(s, {}, l);
    CreatedInv(s.(ledger := l), t.ledger, n, length);
    CreatedLeaves(l, t.ledger, n, length);
    CreatedExtents(l, t.ledger, n, length);
    ClaimExtents(s.ledger, l, t.ledger);
    SameLive(s.ledger, l, n);
    NewNameOk(s.(ledger := t.ledger), {n}, name, n);
    assert {n} - {n} == {};
    assert s.ledger.leaked + Range(n, 1) - {n} == s.ledger.leaked;
  }

  lemma ClaimExtents(l: Ledger, k: Ledger, l': Ledger)
    requires l.owner == k.owner && l.disk == k.disk && SameExtents(k, l')
    ensures SameExtents(l, l')
  {}

  /** Every step keeps the invariant. */
  lemma StepOk(s: State, a: Action, t: State)
    requires Inv(s, {}) && Next(s, a, t)
    ensures Inv(t, {})
  {
    hide Inv, Ledger.Ok, Ledger.Live, Closed, Opened, Deleted, NewInode, IsNamed, Lost;
    match a
    case Create(name, n, length) => CreateOk(s, name, n, length, t);
    case CreateFails(name, length) =>
      if t.ledger != s.ledger {
        InvBook(s, {});
        LostOk(s.ledger, t.ledger, length);
        SameOwnersOk(s, {}, t.ledger);
      }
    case Open(n) =>
      if n in s.names.Values {
        ValueIsNamed(s.names, n);
      }
      OpenedOk(s, {}, n);
    case Close(n) => ClosedOk(s, {}, n);
    case Remove(name) => DeletedInSteps(s, name);
    case Nothing =>
  }

  lemma ValueIsNamed(names: map<seq<Byte>, nat>, n: nat)
    requires n in names.Values
    ensures IsNamed(names, n)
  {}

  ghost predicate Run(states: seq<State>, actions: seq<Action>) {
    |states| == |actions| + 1 && forall i | 0 <= i < |actions| :: Next(states[i], actions[i], states[i + 1])
  }

  lemma {:induction false} RunOk(states: seq<State>, actions: seq<Action>, i: nat)
    requires Run(states, actions) && Inv(states[0], {}) && i < |states|
    ensures Inv(states[i], {})
    decreases i
  {
    hide Inv, Next;
    if i > 0 {
      RunOk(states, actions, i - 1);
      StepOk(states[i - 1], actions[i - 1], states[i]);
    }
  }

  /** In every state of every run, the inodes that have a name or are open own pairwise disjoint sets of
      sectors, all of them marked used. */
  lemma RunDisjoint(states: seq<State>, actions: seq<Action>, i: nat, m: nat, n: nat)
    requires Run(states, actions) && Inv(states[0], {}) && i < |states| && m != n
    requires IsNamed(states[i].names, m) || m in states[i].opens
    requires IsNamed(states[i].names, n) || n in states[i].opens
    ensures var l := states[i].ledger;
            m in l.disk && n in l.disk && l.Owned(m) !! l.Owned(n)
            && forall x | x in l.Owned(m) :: x < |l.used| && l.used[x]
  {
    RunOk(states, actions, i);
    hide Run, Ledger.Ok, IsNamed;
    assert states[i].ledger.Live(m) && states[i].ledger.Live(n);
    OwnershipDisjoint(states[i].ledger, m, n);
  }

  // ---- when sectors become free ----

  /** The step that frees the sectors of n: the last close of a removed inode, or the removal of one that
      is not open. */
  ghost predicate Frees(s: State, a: Action, n: nat) {
    match a
    case Close(m) => m == n && n in s.opens && s.opens[n] == OpenInode(1, true)
    case Remove(name) => name in s.names && s.names[name] == n && n !in s.opens
    case _ => false
  }

  /** Of the used sectors exactly those of n have become free. */
  ghost predicate Freed(l: Ledger, l': Ledger, n: nat)
    requires n in l.disk
  {
    |l'.used| == |l.used| && forall x | 0 <= x < |l.used| :: l'.used[x] <==> l.used[x] && x !in l.Owned(n)
  }

  /** The inode in sector n is live as before, with its data in the same place. */
  ghost predicate Kept(l: Ledger, l': Ledger, n: nat)
    requires n in l.disk
  {
    l'.Live(n) && n in l'.disk && l'.disk[n] == l.disk[n]
  }

  /** In that step exactly the inode's sectors become free. In every other step it keeps its sectors. */
  lemma StepKeeps(s: State, a: Action, t: State, n: nat)
    requires Inv(s, {}) && Next(s, a, t) && s.ledger.Live(n) && n in s.ledger.disk
    ensures if Frees(s, a, n) then !t.ledger.Live(n) && Freed(s.ledger, t.ledger, n) else Kept(s.ledger, t.ledger, n)
  {
    match a
    case Create(name, m, length) =>
      hide Inv, Next, Ledger.Live;
      CreateOk(s, name, m, length, t);
      CreateLive(s, name, m, length, t, n);
      ExtentKept(s.ledger, t.ledger, n);
    case CreateFails(name, length) =>
      hide Ledger.Ok, Lost;
      if t.ledger != s.ledger {
        LostOk(s.ledger, t.ledger, length);
        ExtentKept(s.ledger, t.ledger, n);
      } else {
        SameKept(s.ledger, n);
      }
    case Open(m) =>
      hide Inv, Ledger.Ok, Opened;
    case Close(m) =>
      hide Inv, Ledger.Ok, Ledger.Live, Released, Kept, Freed;
      OpenHasOpeners(s, {}, m);
      ReleasedKeeps(s.ledger, m, n);
      SameKept(s.ledger, n);
    case Remove(name) =>
      hide Inv, Ledger.Ok, Ledger.Live, Released, Kept, Freed;
      ReleasedKeeps(s.ledger, s.names[name], n);
      SameKept(s.ledger, n);
    case Nothing =>
      SameKept(s.ledger, n);
  }

  lemma ExtentKept(l: Ledger, l': Ledger, n: nat)
    requires SameExtents(l, l') && l.Live(n) && n in l.disk
    ensures n in l'.disk && l'.disk[n] == l.disk[n]
    ensures l'.Live(n) ==> Kept(l, l', n)
  {}

  lemma SameKept(l: Ledger, n: nat)
    requires l.Live(n) && n in l.disk
    ensures Kept(l, l, n)
  {}

  lemma ReleasedKeeps(l: Ledger, m: nat, n: nat)
    requires l.Ok() && l.Live(m) && l.Live(n) && n in l.disk
    ensures if m == n then !Released(l, m).Live(n) && Freed(l, Released(l, m), n) else Kept(l, Released(l, m), n)
  {
    ReleasedOk(l, m);
    hide Ledger.Ok, Released;
  }

  lemma CreateLive(s: State, name: seq<Byte>, m: nat, length: nat, t: State, n: nat)
    requires Inv(s, {}) && Next(s, Create(name, m, length), t) && s.ledger.Live(n)
    ensures t.ledger.Live(n)
  {
    hide Inv, Created, Ledger.Ok, Ledger.Live, FirstFit, SetRange;
    InvBook(s, {});
    var l := Claim(s.ledger, m, 1);
    FoundFree(s.ledger, 1, m);
    ClaimedOne(s, m);
    CreatedLeaves(l, t.ledger, m, length);
    SameLive(s.ledger, l, n);
  }

  /** A file that stays open keeps its sectors for as long, whatever else happens: they are marked used,
      belong to it, and its data stay where they are. */
  lemma {:induction false} OpenFileKeeps(states: seq<State>, actions: seq<Action>, i: nat, j: nat, n: nat)
    requires Run(states, actions) && Inv(states[0], {}) && i <= j < |states|
    requires forall k | i <= k <= j :: n in states[k].opens
    ensures var l, l' := states[i].ledger, states[j].ledger;
            l.Live(n) && n in l.disk && l'.Live(n) && n in l'.disk && l'.disk[n] == l.disk[n]
            && forall x | x in l.Owned(n) :: x in l'.owner && l'.owner[x] == n && x < |l'.used| && l'.used[x]
    decreases j - i
  {
    hide Next, Ledger.Ok;
    RunOk(states, actions, j);
    OpenHasOpeners(states[j], {}, n);
    LiveOwns(states[j].ledger, n);
    if i < j {
      OpenFileKeeps(states, actions, i, j - 1, n);
      RunOk(states, actions, j - 1);
      StepKeeps(states[j - 1], actions[j - 1], states[j], n);
    }
  }

  // ---- what failing creates lose ----

  /** A create that will lose sectors: its name is not usable, there is room, and it asks for data. */
  ghost predicate Loses(s: State, a: Action, slots: nat) {
    match a
    case Create(name, _, length) => !Usable(s, name, slots) && !NoRoom(s.ledger, length) && length > 0
    case CreateFails(name, length) => !Usable(s, name, slots) && !NoRoom(s.ledger, length) && length > 0
    case _ => false
  }

  ghost predicate DependableRun(states: seq<State>, actions: seq<Action>, slots: nat)
    requires |states| == |actions| + 1
  {
    forall i | 0 <= i < |actions| :: Dependable(states[i], actions[i], states[i + 1], slots)
  }

  /** With dependable memory a step loses sectors exactly when that could be told before the call. */
  lemma StepLoses(s: State, a: Action, t: State, slots: nat)
    requires Inv(s, {}) && Next(s, a, t) && Dependable(s, a, t, slots)
    ensures s.ledger.leaked <= t.ledger.leaked
    ensures t.ledger.leaked != s.ledger.leaked <==> Loses(s, a, slots)
  {
    match a
    case CreateFails(name, length) =>
      hide Ledger.Ok, Lost, NoRoom;
      if t.ledger != s.ledger {
        LostOk(s.ledger, t.ledger, length);
      }
    case _ =>
      hide Inv, Next, NoRoom;
      LeakedSame(s, a, t);
  }

  /** The used sectors are the owned ones after a dependable run if and only if no create of it had a name that
      was not usable while there was room for its data. */
  lemma {:induction false} NothingLost(states: seq<State>, actions: seq<Action>, slots: nat, i: nat)
    requires Run(states, actions) && Inv(states[0], {}) && states[0].ledger.leaked == {} && i < |states|
    requires DependableRun(states, actions, slots)
    ensures AllOwned(states[i].ledger) <==> forall k | 0 <= k < i :: !Loses(states[k], actions[k], slots)
    decreases i
  {
    hide Inv, Next, Ledger.Ok, AllOwned, Loses, Dependable;
    RunOk(states, actions, i);
    InvBook(states[i], {});
    OnlyOwned(states[i].ledger);
    if i > 0 {
      NothingLost(states, actions, slots, i - 1);
      RunOk(states, actions, i - 1);
      InvBook(states[i - 1], {});
      OnlyOwned(states[i - 1].ledger);
      StepLoses(states[i - 1], actions[i - 1], states[i], slots);
    }
  }

  ghost predicate AllOwned(l: Ledger) {
    l.leaked == {} && forall x | 0 <= x < |l.used| :: l.used[x] <==> x in l.owner
  }

  lemma OnlyOwned(l: Ledger)
    requires l.Ok()
    ensures l.leaked == {} <==> AllOwned(l)
  {}

  lemma LeakedSame(s: State, a: Action, t: State)
    requires Inv(s, {}) && Next(s, a, t) && !a.CreateFails?
    ensures t.ledger.leaked == s.ledger.leaked
  {
    match a
    case Create(name, n, length) =>
      hide Inv, NewInode;
      CreateOk(s, name, n, length, t);
    case Open(n) =>
    case Close(n) =>
      hide Inv, Ledger.Ok, Released;
      ReleasedOk(s.ledger, n);
    case Remove(name) =>
      hide Inv, Ledger.Ok, Released;
      ReleasedOk(s.ledger, s.names[name]);
    case Nothing =>
  }

  /** A file system with one empty file in sector 2, behind the inodes of the free map and of the root
      directory, and three free sectors. */
  ghost function OneFile(): State {
    var used := [true, true, true, false, false, false];
    State(Ledger(used, map s | s in Range(0, 3) :: s, {}, map s | s in Range(0, 3) :: Extent(0, 0)),
          map[[97] := 2], map[])
  }

  lemma OneFileOk()
    ensures Inv(OneFile(), {})
  {
    OneFileLedger();
    hide Ledger.Ok;
    assert OneFile().names.Values == {2} by {
      assert OneFile().names[[97]] == 2;
    }
  }

  lemma OneFileLedger()
    ensures OneFile().ledger.Ok()
  {
    var l := OneFile().ledger;
    assert Marks(l.used, l.owner, l.leaked);
    hide Marks, Sectors, DataSectors;
    forall n: nat ensures Sectors(n, Extent(0, 0)) == {n} && DataSectors(Extent(0, 0)) == {} {
      NoData(n);
    }
    assert Owners(l.owner, l.disk) && Placed(|l.used|, l.owner, l.disk);
  }

  lemma NoData(n: nat)
    ensures Sectors(n, Extent(0, 0)) == {n} && DataSectors(Extent(0, 0)) == {}
  {}

  /** Creating the file again, with data of one sector, fails and loses sector 4. */
  lemma ExistingNameLoses() returns (t: State)
    ensures Inv(OneFile(), {}) && Next(OneFile(), CreateFails([97], 512), t)
    ensures Loses(OneFile(), CreateFails([97], 512), 16)
    ensures OneFile().ledger.leaked == {} && t.ledger.leaked == {4}
  {
    t := OneFile().(ledger := OneLost());
    OneFileOk();
    OneLostData();
    hide LostData, OneLost, NoRoom, Inv;
    RoomThere(OneFile().ledger, OneLost(), 3, 4, 512);
    assert Lost(OneFile().ledger, t.ledger, 512);
  }

  ghost function OneLost(): Ledger {
    var l := OneFile().ledger;
    Ledger([true, true, true, false, true, false], l.owner, {4}, l.disk[3 := Extent(4, 512)])
  }

  lemma OneLostData()
    ensures LostData(OneFile().ledger, OneLost(), 3, 4, 512) && OneLost().leaked == {4}
  {
    var l := OneFile().ledger;
    var u := SetRange(l.used, 3, 1, true);
    assert u == [true, true, true, true, false, false];
    assert SetRange(l.used, 4, 1, true) == OneLost().used;
    assert Range(4, 1) == {4};
    FirstClear(l.used, 3);
    FirstClear(u, 4);
  }

  lemma FirstClear(v: seq<bool>, i: nat)
    requires i < |v| && !v[i] && forall j | 0 <= j < i :: v[j]
    ensures FirstFit(v, 0, 1, false, Some(i))
  {
    forall j | 0 <= j < i ensures !AllBits(v, j, 1, false) {
      assert v[j];
    }
  }

  lemma RoomThere(l: Ledger, l': Ledger, n: nat, start: nat, length: nat)
    requires LostData(l, l', n, start, length)
    ensures !NoRoom(l, length)
  {
    hide FirstFit;
    if FirstFit(l.used, 0, 1, false, None) {
      FitIsUnique(l.used, 1, Some(n), None);
    }
    forall m: nat | FirstFit(l.used, 0, 1, false, Some(m)) && m + 1 <= |l.used|
      ensures !FirstFit(SetRange(l.used, m, 1, true), 0, BytesToSectors(length), false, None)
    {
      FitIsUnique(l.used, 1, Some(n), Some(m));
      if FirstFit(SetRange(l.used, m, 1, true), 0, BytesToSectors(length), false, None) {
        FitIsUnique(SetRange(l.used, m, 1, true), BytesToSectors(length), Some(start), None);
      }
    }
  }
}
