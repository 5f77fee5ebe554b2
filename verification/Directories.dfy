/** Directories (directory.c): a file of fixed-size entries that refines a finite map from names to
    inode sectors with a fixed number of slots. */
module Directories {
  import opened Wrappers
  import opened Bytes
  import opened Inodes

  const NAME_MAX: nat := 14
  const ENTRY_SIZE: nat := 20

  // ---- entries and their bytes ----

  datatype Entry = Entry(sector: nat, name: seq<Byte>, inUse: bool)

  function Sector32(b: seq<Byte>): nat
    requires |b| == 4
  {
    (b[0] as int) + 0x100 * (b[1] as int) + 0x1_0000 * (b[2] as int) + 0x100_0000 * (b[3] as int)
  }

  function SectorBytes(n: nat): (b: seq<Byte>)
    requires n < 0x1_0000_0000
    ensures |b| == 4 && Sector32(b) == n
  {
    var a := n / 0x100;
    var b := a / 0x100;
    [n % 0x100, a % 0x100, b % 0x100, b / 0x100]
  }

  /** struct dir_entry: the sector, NAME_MAX + 1 bytes for the name, and one byte for in_use. */
  function Decode(b: seq<Byte>): Entry
    requires |b| == ENTRY_SIZE
  {
    Entry(Sector32(b[..4]), CString(b[4..19]), b[19] != 0)
  }

  predicate ValidName(name: seq<Byte>) { 0 < |name| <= NAME_MAX && NulFree(name) }

  /** What dir_add writes over the bytes of a slot: strlcpy leaves what follows the name's NUL. */
  function Filled(was: seq<Byte>, name: seq<Byte>, sector: nat): (b: seq<Byte>)
    requires |was| == ENTRY_SIZE && |name| <= NAME_MAX && sector < 0x1_0000_0000
    ensures |b| == ENTRY_SIZE
  {
    SectorBytes(sector) + (name + [0] + was[4 + |name| + 1..19]) + [1]
  }

  lemma FilledMeans(was: seq<Byte>, name: seq<Byte>, sector: nat)
    requires |was| == ENTRY_SIZE && ValidName(name) && sector < 0x1_0000_0000
    ensures Decode(Filled(was, name, sector)) == Entry(sector, name, true)
  {
    var b := Filled(was, name, sector);
    assert b[..4] == SectorBytes(sector);
    assert b[4..19] == name + [0] + was[4 + |name| + 1..19];
    hide SectorBytes, Sector32;
    CStringUpTo(name, was[4 + |name| + 1..19]);
    CStringWithoutNul(name);
  }

  /** What dir_remove writes back. */
  lemma ErasedMeans(b: seq<Byte>)
    requires |b| == ENTRY_SIZE
    ensures Decode(b[19 := 0]) == Decode(b).(inUse := false)
  {
    assert b[19 := 0][..4] == b[..4] && b[19 := 0][4..19] == b[4..19];
  }

  // ---- slots ----

  function SlotCount(data: seq<Byte>): nat { |data| / ENTRY_SIZE }

  function SlotBytes(data: seq<Byte>, k: nat): (b: seq<Byte>)
    requires k < SlotCount(data)
    ensures |b| == ENTRY_SIZE
  {
    data[k * ENTRY_SIZE..k * ENTRY_SIZE + ENTRY_SIZE]
  }

  function Slots(data: seq<Byte>): (s: seq<Entry>)
    ensures |s| == SlotCount(data)
    ensures forall k | 0 <= k < |s| :: s[k] == Decode(SlotBytes(data, k))
  {
    seq(SlotCount(data), k requires 0 <= k < SlotCount(data) => Decode(SlotBytes(data, k)))
  }

  /** Writing one entry changes that slot and no other. */
  lemma SlotWritten(data: seq<Byte>, k: nat, b: seq<Byte>)
    requires k < SlotCount(data) && |b| == ENTRY_SIZE
    ensures k * ENTRY_SIZE + ENTRY_SIZE <= |data|
    ensures Slots(Patch(data, k * ENTRY_SIZE, b)) == Slots(data)[k := Decode(b)]
  {
    var after := Patch(data, k * ENTRY_SIZE, b);
    hide Decode;
    forall j | 0 <= j < SlotCount(data) ensures SlotBytes(after, j) == if j == k then b else SlotBytes(data, j) {
      if j < k {
        assert j * ENTRY_SIZE + ENTRY_SIZE <= k * ENTRY_SIZE;
      } else if j > k {
        assert k * ENTRY_SIZE + ENTRY_SIZE <= j * ENTRY_SIZE;
      }
    }
  }

  /** A write that stops inside an entry changes that slot at most, and not whether it is in use. */
  lemma SlotPartlyWritten(data: seq<Byte>, k: nat, b: seq<Byte>)
    requires k < SlotCount(data) && |b| < ENTRY_SIZE
    ensures k * ENTRY_SIZE + |b| <= |data|
    ensures PartlyWritten(Slots(data), Slots(Patch(data, k * ENTRY_SIZE, b)), k)
  {
    var at := k * ENTRY_SIZE;
    var whole := b + SlotBytes(data, k)[|b|..];
    assert whole[19] == SlotBytes(data, k)[19];
    SamePatch(data, at, b);
    SlotWritten(data, k, whole);
  }

  /** The slot at ofs after n bytes of b have been written there. */
  lemma SlotAfterWrite(data: seq<Byte>, ofs: nat, b: seq<Byte>, n: nat)
    requires |b| == ENTRY_SIZE && 0 < n <= ENTRY_SIZE && ofs / ENTRY_SIZE * ENTRY_SIZE == ofs
    requires ofs / ENTRY_SIZE < SlotCount(data)
    ensures ofs + n <= |data|
    ensures var k, t := ofs / ENTRY_SIZE, Slots(Patch(data, ofs, b[..n]));
            if n == ENTRY_SIZE then t == Slots(data)[k := Decode(b)] else PartlyWritten(Slots(data), t, k)
  {
    hide Slots, PartlyWritten, Decode, Patch;
    if n == ENTRY_SIZE {
      assert b[..n] == b;
      SlotWritten(data, ofs / ENTRY_SIZE, b);
    } else {
      SlotPartlyWritten(data, ofs / ENTRY_SIZE, b[..n]);
    }
  }

  lemma SamePatch(data: seq<Byte>, at: nat, b: seq<Byte>)
    requires |b| <= ENTRY_SIZE && at + ENTRY_SIZE <= |data|
    ensures Patch(data, at, b) == Patch(data, at, b + data[at..at + ENTRY_SIZE][|b|..])
  {
    var rest := data[at..at + ENTRY_SIZE][|b|..];
    assert rest == data[at + |b|..at + ENTRY_SIZE];
    assert data[at + |b|..] == rest + data[at + ENTRY_SIZE..];
  }

  ghost predicate PartlyWritten(s: seq<Entry>, t: seq<Entry>, k: nat) {
    |t| == |s| && k < |s| && t[k].inUse == s[k].inUse && t == s[k := t[k]]
  }

  // ---- directories as maps ----

  /** Entries in use have valid names, each a different one. */
  ghost predicate Wf(s: seq<Entry>) {
    && (forall i | 0 <= i < |s| && s[i].inUse :: ValidName(s[i].name))
    && (forall i, j | 0 <= i < j < |s| && s[i].inUse && s[j].inUse :: s[i].name != s[j].name)
  }

  ghost function AsMap(s: seq<Entry>): map<seq<Byte>, nat> {
    if s == [] then map[]
    else
      var e := s[|s| - 1];
      if e.inUse then AsMap(s[..|s| - 1])[e.name := e.sector] else AsMap(s[..|s| - 1])
  }

  lemma WfPrefix(s: seq<Entry>, n: nat)
    requires Wf(s) && n <= |s|
    ensures Wf(s[..n])
  {}

  /** Every entry in use is in the map. */
  lemma {:induction false} InMap(s: seq<Entry>, i: nat)
    requires Wf(s) && i < |s| && s[i].inUse
    ensures s[i].name in AsMap(s) && AsMap(s)[s[i].name] == s[i].sector
    decreases |s|
  {
    var n := |s| - 1;
    if i < n {
      WfPrefix(s, n);
      InMap(s[..n], i);
      assert s[n].inUse ==> s[i].name != s[n].name;
    }
  }

  /** The map holds nothing else. */
  lemma {:induction false} FromMap(s: seq<Entry>, name: seq<Byte>) returns (i: nat)
    requires name in AsMap(s)
    ensures Found(s, name, i)
    decreases |s|
  {
    var n := |s| - 1;
    if s[n].inUse && s[n].name == name {
      i := n;
    } else {
      i := FromMap(s[..n], name);
    }
  }

  /** The slot that lookup finds. */
  ghost predicate Found(s: seq<Entry>, name: seq<Byte>, k: nat) {
    k < |s| && s[k].inUse && s[k].name == name
  }

  ghost predicate Absent(s: seq<Entry>, name: seq<Byte>, n: nat)
    requires n <= |s|
  {
    forall i | 0 <= i < n :: !(s[i].inUse && s[i].name == name)
  }

  lemma AbsentFromMap(s: seq<Entry>, name: seq<Byte>)
    requires Absent(s, name, |s|)
    ensures name !in AsMap(s)
  {
    if name in AsMap(s) {
      var i := FromMap(s, name);
    }
  }

  /** Filling a free slot with a new name adds the name to the map. */
  lemma SlotFilled(s: seq<Entry>, k: nat, name: seq<Byte>, sector: nat)
    requires Wf(s) && k < |s| && !s[k].inUse && ValidName(name) && name !in AsMap(s)
    ensures var t := s[k := Entry(sector, name, true)]; Wf(t) && AsMap(t) == AsMap(s)[name := sector]
  {
    hide AsMap;
    var t := s[k := Entry(sector, name, true)];
    forall i | 0 <= i < |s| && i != k && s[i].inUse ensures s[i].name != name {
      InMap(s, i);
    }
    assert Wf(t);
    var m := AsMap(s)[name := sector];
    forall n | n in m ensures n in AsMap(t) && AsMap(t)[n] == m[n] {
      if n == name {
        InMap(t, k);
      } else {
        var i := FromMap(s, n);
        InMap(s, i);
        InMap(t, i);
      }
    }
    forall n | n in AsMap(t) ensures n in m {
      var i := FromMap(t, n);
      if i != k {
        InMap(s, i);
      }
    }
  }

  /** Marking a slot free removes its name from the map. */
  lemma SlotErased(s: seq<Entry>, k: nat)
    requires Wf(s) && k < |s| && s[k].inUse
    ensures var t := s[k := s[k].(inUse := false)]; Wf(t) && AsMap(t) == AsMap(s) - {s[k].name}
  {
    hide AsMap;
    var t := s[k := s[k].(inUse := false)];
    var m := AsMap(s) - {s[k].name};
    forall n | n in m ensures n in AsMap(t) && AsMap(t)[n] == m[n] {
      var i := FromMap(s, n);
      InMap(s, i);
      InMap(t, i);
    }
    forall n | n in AsMap(t) ensures n in m {
      var i := FromMap(t, n);
      InMap(s, i);
    }
  }

  /** An entry in use is overwritten. */
  lemma SlotOverwritten(s: seq<Entry>, k: nat, name: seq<Byte>, sector: nat)
    requires Wf(s) && Found(s, name, k)
    ensures var t := s[k := Entry(sector, name, true)]; Wf(t) && AsMap(t) == AsMap(s)[name := sector]
  {
    hide AsMap;
    var t := s[k := Entry(sector, name, true)];
    var m := AsMap(s)[name := sector];
    InMap(s, k);
    InMap(t, k);
    forall n | n in m ensures n in AsMap(t) && AsMap(t)[n] == m[n] {
      if n != name {
        var i := FromMap(s, n);
        InMap(s, i);
        InMap(t, i);
      }
    }
    forall n | n in AsMap(t) ensures n in m {
      var i := FromMap(t, n);
      if i != k {
        InMap(s, i);
      }
    }
  }

  /** What dir_add writes is right, wherever its two loops have stopped, if and only if the slot is free and the name
      is new, or the slot has that name already. */
  lemma AddRightIff(s: seq<Entry>, k: nat, name: seq<Byte>, sector: nat)
    requires Wf(s) && k < |s| && ValidName(name)
    ensures var t := s[k := Entry(sector, name, true)];
      (Wf(t) && AsMap(t) == AsMap(s)[name := sector])
      <==> (if s[k].inUse then s[k].name == name else name !in AsMap(s))
  {
    hide AsMap;
    var t := s[k := Entry(sector, name, true)];
    if s[k].inUse {
      InMap(s, k);
      if s[k].name == name {
        SlotOverwritten(s, k, name, sector);
      } else {
        AbsentFromMap(t, s[k].name);
      }
    } else if name in AsMap(s) {
      var i := FromMap(s, name);
      assert t[i].name == name == t[k].name && i != k;
    } else {
      SlotFilled(s, k, name, sector);
    }
  }

  /** lookup stops after `looked` slots: what it reports is right if and only if the others do not have the name. */
  lemma LookupRightIff(s: seq<Entry>, name: seq<Byte>, looked: nat)
    requires Wf(s) && looked <= |s| && Absent(s, name, looked)
    ensures name !in AsMap(s) <==> forall i | looked <= i < |s| :: !Found(s, name, i)
  {
    hide AsMap;
    if name in AsMap(s) {
      var i := FromMap(s, name);
      assert i >= looked;
    }
    forall i | looked <= i < |s| && Found(s, name, i) ensures name in AsMap(s) {
      InMap(s, i);
    }
  }

  /** What dir_add can leave when lookup stops after `looked` slots and the other loop at slot k: with dependable
      memory, at the end and at a free slot. */
  ghost predicate AddOutcome(s: seq<Entry>, t: seq<Entry>, name: seq<Byte>, sector: nat, success: bool,
                             looked: nat, k: nat, reliable: bool)
  {
    && looked <= |s| && Absent(s, name, looked)
    && (success ==> ValidName(name) && k < |s| && t == s[k := Entry(sector, name, true)]
                    && forall j | 0 <= j < k :: s[j].inUse)
    && (!success ==> t == s || (!reliable && PartlyWritten(s, t, k)))
    && (reliable && success ==> looked == |s| && !s[k].inUse)
  }

  /** Of the two slots the first has the name "a". The read of lookup fails at the first slot, the other loop reads
      both: the name is then in the directory twice. */
  lemma NameAddedTwice() returns (s: seq<Entry>, t: seq<Entry>)
    ensures Wf(s) && |s| == 2 && Found(s, [97], 0) && AddOutcome(s, t, [97], 9, true, 0, 1, false)
    ensures Found(t, [97], 0) && Found(t, [97], 1) && !Wf(t)
  {
    s := [Entry(5, [97], true), Entry(0, [], false)];
    t := s[1 := Entry(9, [97], true)];
  }

  /** Lookup reads both slots, and the read of the other loop fails at the first one, which is in use: that file
      loses its name. */
  lemma EntryOverwritten() returns (s: seq<Entry>, t: seq<Entry>)
    ensures Wf(s) && |s| == 2 && Found(s, [97], 0) && AddOutcome(s, t, [98], 9, true, 2, 0, false)
    ensures Wf(t) && [97] in AsMap(s) && [97] !in AsMap(t)
  {
    s := [Entry(5, [97], true), Entry(0, [], false)];
    t := s[0 := Entry(9, [98], true)];
    InMap(s, 0);
    AbsentFromMap(t, [97]);
  }

  /** A slot is free exactly when there are fewer names than slots. */
  lemma {:induction false} FreeSlotIff(s: seq<Entry>)
    requires Wf(s)
    ensures |AsMap(s)| <= |s|
    ensures (exists k | 0 <= k < |s| :: !s[k].inUse) <==> |AsMap(s)| < |s|
    decreases |s|
  {
    if s != [] {
      var n := |s| - 1;
      var rest := s[..n];
      WfPrefix(s, n);
      FreeSlotIff(rest);
      if s[n].inUse {
        if s[n].name in AsMap(rest) {
          var i := FromMap(rest, s[n].name);
        }
        assert |AsMap(s)| == |AsMap(rest)| + 1;
        if k :| 0 <= k < |s| && !s[k].inUse {
          assert !rest[k].inUse;
        }
        if k :| 0 <= k < n && !rest[k].inUse {
          assert !s[k].inUse;
        }
      }
    }
  }

  // ---- operations ----

  class Dir {
    const inode: Inode
    var pos: nat

    constructor (inode: Inode)
      ensures this.inode == inode && pos == 0
    {
      this.inode := inode;
      pos := 0;
    }

    /** The directory's data are whole entries, and they form a map. */
    ghost predicate Valid(device: Device)
      reads device.bytes
    {
      inode.On(device) && inode.length % ENTRY_SIZE == 0 && Wf(Slots(inode.Data(device)))
    }

    ghost function Entries(device: Device): seq<Entry>
      reads device.bytes
      requires inode.On(device)
    {
      Slots(inode.Data(device))
    }

    /** One read of an entry: with dependable memory it is short exactly at the end of the file. */
    method ReadEntry(device: Device, e: array<Byte>, ofs: nat, reliable: bool) returns (full: bool)
      requires Valid(device) && e != device.bytes && e.Length == ENTRY_SIZE && ofs % ENTRY_SIZE == 0
      modifies e
      ensures full ==> ofs / ENTRY_SIZE < SlotCount(inode.Data(device))
                       && e[..] == SlotBytes(inode.Data(device), ofs / ENTRY_SIZE)
      ensures reliable ==> (full <==> ofs / ENTRY_SIZE < SlotCount(inode.Data(device)))
    {
      hide Wf, Slots;
      var n := inode.ReadAt(device, e, ENTRY_SIZE, ofs, reliable);
      WholeEntries(inode.length, ofs);
      hide Inode.Data;
      full := n == ENTRY_SIZE;
      if full {
        assert e[..] == e[..ENTRY_SIZE];
      }
    }

    /** lookup: the first entry in use with the name, and where it is. Otherwise it reports where it stopped, which
        is the end of the directory if memory can be depended on. */
    method Lookup(device: Device, name: seq<Byte>, e: array<Byte>, reliable: bool) returns (found: bool, ofs: nat)
      requires Valid(device) && e != device.bytes && e.Length == ENTRY_SIZE
      modifies e
      ensures var s := Entries(device);
              ofs % ENTRY_SIZE == 0 && ofs / ENTRY_SIZE <= |s| && Absent(s, name, ofs / ENTRY_SIZE)
              && (found ==> Found(s, name, ofs / ENTRY_SIZE)
                            && e[..] == SlotBytes(inode.Data(device), ofs / ENTRY_SIZE))
              && (!found && reliable ==> ofs / ENTRY_SIZE == |s|)
    {
      hide Decode, Wf;
      ofs := 0;
      while true
        invariant ofs % ENTRY_SIZE == 0 && ofs / ENTRY_SIZE <= |Entries(device)|
        invariant Absent(Entries(device), name, ofs / ENTRY_SIZE)
        decreases |Entries(device)| - ofs / ENTRY_SIZE
      {
        var full := ReadEntry(device, e, ofs, reliable);
        if !full {
          return false, ofs;
        }
        var entry := Decode(e[..]);
        if entry.inUse && name == entry.name {
          return true, ofs;
        }
        NextEntry(ofs);
        ofs := ofs + ENTRY_SIZE;
      }
    }

    /** Bytes of the directory's data are replaced; nothing else on the device changes. A write that fails may have
        changed the front of the entry. */
    method WriteEntry(device: Device, e: array<Byte>, ofs: nat, reliable: bool) returns (success: bool, ghost n: nat)
      requires Valid(device) && e != device.bytes && e.Length == ENTRY_SIZE && ofs % ENTRY_SIZE == 0
      requires inode.denyWriteCnt == 0
      modifies device.bytes
      ensures inode.On(device) && e[..] == old(e[..])
      ensures success ==> ofs / ENTRY_SIZE < |old(Entries(device))|
      ensures reliable ==> (success <==> ofs / ENTRY_SIZE < |old(Entries(device))|) && (success || n == 0)
      ensures success ==> Entries(device) == old(Entries(device))[ofs / ENTRY_SIZE := Decode(e[..])]
      ensures n <= ENTRY_SIZE && (success <==> n == ENTRY_SIZE)
      ensures n == 0 ==> Entries(device) == old(Entries(device))
      ensures n > 0 ==> ofs + n <= |old(inode.Data(device))|
                        && inode.Data(device) == Patch(old(inode.Data(device)), ofs, e[..n])
      ensures n > 0 && !success ==> PartlyWritten(old(Entries(device)), Entries(device), ofs / ENTRY_SIZE)
      ensures inode.OnlyData(old(device.bytes[..]), device.bytes[..])
    {
      hide Decode, SlotBytes, Wf, Slots, PartlyWritten, Patch, InFile;
      ghost var before, data := device.bytes[..], inode.Data(device);
      WholeEntries(inode.length, ofs);
      inode.OnDevice(device);
      var written := inode.WriteAt(device, e, ENTRY_SIZE, ofs, reliable);
      n := written;
      success := written == ENTRY_SIZE;
      assert e[..][..n] == e[..n];
      if written > 0 {
        inode.PatchedData(before, ofs, e[..n]);
        EntryInside(inode.length, ofs, n);
        SlotAfterWrite(data, ofs, e[..], n);
      }
    }

    /** dir_add: with dependable memory it succeeds exactly for a valid new name while a slot is free. Otherwise
        `looked` says how many slots the lookup has read, and `k` which slot is then taken to be free. */
    method Add(device: Device, name: seq<Byte>, sector: nat, reliable: bool)
      returns (success: bool, ghost looked: nat, ghost k: nat)
      requires Valid(device) && NulFree(name) && sector < 0x1_0000_0000 && inode.denyWriteCnt == 0
      modifies device.bytes
      ensures inode.On(device) && |Entries(device)| == |old(Entries(device))|
      ensures AddOutcome(old(Entries(device)), Entries(device), name, sector, success, looked, k, reliable)
      ensures reliable
          ==> (success <==> ValidName(name) && name !in AsMap(old(Entries(device)))
                            && exists i | 0 <= i < |old(Entries(device))| :: !old(Entries(device))[i].inUse)
      ensures reliable ==> Valid(device) && (success ==>
                AsMap(Entries(device)) == AsMap(old(Entries(device)))[name := sector])
      ensures success ==> ((Wf(Entries(device))
                             && AsMap(Entries(device)) == AsMap(old(Entries(device)))[name := sector])
                <==> (if old(Entries(device))[k].inUse then old(Entries(device))[k].name == name
                      else name !in AsMap(old(Entries(device)))))
      ensures inode.OnlyData(old(device.bytes[..]), device.bytes[..])
    {
      hide AsMap, Decode, SlotBytes, Filled;
      looked, k := 0, 0;
      if name == [] || |name| > NAME_MAX {
        return false, looked, k;
      }
      ghost var s := Entries(device);
      var e := new Byte[ENTRY_SIZE];
      var found, ofs := Lookup(device, name, e, reliable);
      looked := ofs / ENTRY_SIZE;
      if found {
        InMap(s, looked);
        return false, looked, k;
      }
      ofs := FreeSlot(device, e, reliable);
      k := ofs / ENTRY_SIZE;
      var b := Filled(e[..], name, sector);
      FilledMeans(e[..], name, sector);
      forall i | 0 <= i < ENTRY_SIZE {
        e[i] := b[i];
      }
      assert e[..] == b;
      ghost var n;
      success, n := WriteEntry(device, e, ofs, reliable);
      if success {
        AddRightIff(s, k, name, sector);
      }
      if reliable {
        AbsentFromMap(s, name);
      }
    }

    /** The loop of dir_add: the first free slot or the end of the file, or an entry that could not be read. */
    method FreeSlot(device: Device, e: array<Byte>, reliable: bool) returns (ofs: nat)
      requires Valid(device) && e != device.bytes && e.Length == ENTRY_SIZE
      modifies e
      ensures var s := Entries(device); var k := ofs / ENTRY_SIZE;
              ofs % ENTRY_SIZE == 0 && k <= |s| && (reliable && k < |s| ==> !s[k].inUse)
              && forall j | 0 <= j < k :: s[j].inUse
    {
      hide Decode, Wf;
      ofs := 0;
      while true
        invariant ofs % ENTRY_SIZE == 0 && ofs / ENTRY_SIZE <= |Entries(device)|
        invariant forall j | 0 <= j < ofs / ENTRY_SIZE :: Entries(device)[j].inUse
        decreases |Entries(device)| - ofs / ENTRY_SIZE
      {
        var full := ReadEntry(device, e, ofs, reliable);
        if !full {
          return;
        }
        if !Decode(e[..]).inUse {
          return;
        }
        NextEntry(ofs);
        ofs := ofs + ENTRY_SIZE;
      }
    }

    /** dir_remove, given whether inode_open succeeds: the sector of the inode that is marked removed. Whatever memory
        does, it takes away that name or leaves the directory as it is. */
    method Remove(device: Device, name: seq<Byte>, opens: bool, reliable: bool) returns (success: bool, sector: nat)
      requires Valid(device) && inode.denyWriteCnt == 0
      modifies device.bytes
      ensures Valid(device) && |Entries(device)| == |old(Entries(device))|
      ensures success ==> opens && name in AsMap(old(Entries(device)))
      ensures reliable ==> (success <==> opens && name in AsMap(old(Entries(device))))
      ensures success ==> sector == AsMap(old(Entries(device)))[name]
                          && AsMap(Entries(device)) == AsMap(old(Entries(device))) - {name}
      ensures !success ==> Entries(device) == old(Entries(device))
      ensures inode.OnlyData(old(device.bytes[..]), device.bytes[..])
    {
      hide AsMap, Decode, SlotBytes;
      sector := 0;
      ghost var s, data := Entries(device), inode.Data(device);
      var e := new Byte[ENTRY_SIZE];
      var found, ofs := Lookup(device, name, e, reliable);
      if !found {
        if reliable {
          AbsentFromMap(s, name);
        }
        return false, sector;
      }
      InMap(s, ofs / ENTRY_SIZE);
      if !opens {
        return false, sector;
      }
      sector := Decode(e[..]).sector;
      ghost var b := e[..];
      ErasedMeans(b);
      e[19] := 0;
      assert e[..] == b[19 := 0];
      ghost var n;
      success, n := WriteEntry(device, e, ofs, reliable);
      if success {
        SlotErased(s, ofs / ENTRY_SIZE);
      } else {
        assert e[..n] == b[..n];
        SameBytes(data, ofs / ENTRY_SIZE, n);
        WholeEntries(inode.length, ofs);
      }
    }

    /** dir_readdir: the name of the first entry in use at or behind the position, which moves past it. */
    method Readdir(device: Device, reliable: bool) returns (success: bool, name: seq<Byte>)
      requires Valid(device) && pos % ENTRY_SIZE == 0 && pos / ENTRY_SIZE <= |Entries(device)|
      modifies this`pos
      ensures pos % ENTRY_SIZE == 0 && old(pos) <= pos && pos / ENTRY_SIZE <= |Entries(device)|
      ensures var s := Entries(device);
              if success then pos > old(pos) && Found(s, name, pos / ENTRY_SIZE - 1)
                              && forall k | old(pos) / ENTRY_SIZE <= k < pos / ENTRY_SIZE - 1 :: !s[k].inUse
              else (reliable ==> pos / ENTRY_SIZE == |s|)
                   && forall k | old(pos) / ENTRY_SIZE <= k < pos / ENTRY_SIZE :: !s[k].inUse
    {
      hide Decode, Wf;
      var e := new Byte[ENTRY_SIZE];
      while true
        invariant pos % ENTRY_SIZE == 0 && old(pos) <= pos && pos / ENTRY_SIZE <= |Entries(device)|
        invariant forall k | old(pos) / ENTRY_SIZE <= k < pos / ENTRY_SIZE :: !Entries(device)[k].inUse
        decreases |Entries(device)| - pos / ENTRY_SIZE
      {
        var full := ReadEntry(device, e, pos, reliable);
        if !full {
          return false, [];
        }
        NextEntry(pos);
        pos := pos + ENTRY_SIZE;
        var entry := Decode(e[..]);
        if entry.inUse {
          return true, entry.name;
        }
      }
    }
  }

  /** Writing back bytes that are there already. */
  lemma SameBytes(data: seq<Byte>, k: nat, n: nat)
    requires k < SlotCount(data) && n <= ENTRY_SIZE
    ensures k * ENTRY_SIZE + n <= |data| && Patch(data, k * ENTRY_SIZE, SlotBytes(data, k)[..n]) == data
  {}

  lemma EntryInside(length: nat, ofs: nat, n: nat)
    requires length % ENTRY_SIZE == 0 && ofs % ENTRY_SIZE == 0 && n > 0 && ofs + n <= length
    ensures ofs / ENTRY_SIZE < length / ENTRY_SIZE && ofs / ENTRY_SIZE * ENTRY_SIZE == ofs
  {}

  lemma WholeEntries(length: nat, ofs: nat)
    requires length % ENTRY_SIZE == 0 && ofs % ENTRY_SIZE == 0
    ensures InFile(ENTRY_SIZE, ofs, length) == ENTRY_SIZE <==> ofs / ENTRY_SIZE < length / ENTRY_SIZE
    ensures InFile(ENTRY_SIZE, ofs, length) == 0 <==> ofs / ENTRY_SIZE >= length / ENTRY_SIZE
    ensures ofs / ENTRY_SIZE * ENTRY_SIZE == ofs
  {}

  lemma NextEntry(ofs: nat)
    requires ofs % ENTRY_SIZE == 0
    ensures (ofs + ENTRY_SIZE) % ENTRY_SIZE == 0 && (ofs + ENTRY_SIZE) / ENTRY_SIZE == ofs / ENTRY_SIZE + 1
  {}
}
