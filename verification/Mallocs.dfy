/** malloc, free and realloc as they run (malloc.c), over the bitmap of a page pool (palloc.c). */
module Mallocs {
  import opened Wrappers
  import opened Bytes
  import opened Bitmaps
  import opened AllocatorState

  /** The addresses in a free list. */
  ghost function Addresses(list: seq<nat>): set<nat> { set x | x in list }

  ghost predicate Distinct(list: seq<nat>) { forall i, j | 0 <= i < j < |list| :: list[i] != list[j] }

  ghost function AsSets(lists: seq<seq<nat>>): seq<set<nat>> {
    seq(|lists|, d requires 0 <= d < |lists| => Addresses(lists[d]))
  }

  /** The smallest block size that is enough, as malloc's first loop finds it. */
  ghost predicate Fits(d: nat, size: nat) {
    d <= DESC_CNT && (d < DESC_CNT ==> size <= BlockSize(d)) && forall e | 0 <= e < d :: BlockSize(e) < size
  }

  const SIZE_T: nat := 0x1_0000_0000

  /** The pages for a big block, in 32-bit arithmetic. */
  function PagesFor(size: nat): nat { ((size + ARENA_SIZE) % SIZE_T + PGSIZE - 1) % SIZE_T / PGSIZE }

  /** How many bytes malloc really has for a block that is asked for: fewer when the sum with the header
      wraps around. */
  function Served(size: nat): nat {
    if PagesFor(size) * PGSIZE < size + ARENA_SIZE then PGSIZE - ARENA_SIZE else size
  }

  /** A block is smaller than it was asked to be exactly for the eleven largest sizes; for the sizes just below
      no page at all is asked for, and malloc fails. */
  lemma ServedIff(size: nat)
    requires 0 < size < SIZE_T
    ensures PagesFor(size) == 0 <==> SIZE_T - PGSIZE - ARENA_SIZE < size <= SIZE_T - ARENA_SIZE
    ensures PagesFor(size) > 0 ==> (Served(size) == size <==> size <= SIZE_T - ARENA_SIZE)
    ensures size > SIZE_T - ARENA_SIZE ==> PagesFor(size) == 1 && Served(size) == PGSIZE - ARENA_SIZE
    ensures size + ARENA_SIZE + PGSIZE <= SIZE_T ==> PagesFor(size) == (size + ARENA_SIZE + PGSIZE - 1) / PGSIZE
  {}

  /** What realloc copies fits into a block that malloc gives exactly if the new size is none of the eleven
      largest or the old block is no larger than a page less the header. */
  lemma CopyFitsIff(newSize: nat, oldSize: nat)
    requires 0 < newSize < SIZE_T && PagesFor(newSize) > 0
    ensures Min(newSize, oldSize) <= Served(newSize)
       <==> newSize <= SIZE_T - ARENA_SIZE || oldSize <= PGSIZE - ARENA_SIZE
  {
    ServedIff(newSize);
    hide Served, PagesFor;
  }

  /** The old block has two pages, and one page is asked for: 8180 bytes are copied into a block of 4084. */
  lemma CopyTooLong()
    ensures var newSize, oldSize := SIZE_T - 11, 2 * PGSIZE - ARENA_SIZE;
            && PagesFor(oldSize) == 2 && Served(oldSize) == oldSize
            && PagesFor(newSize) == 1 && Served(newSize) == 4084 && Min(newSize, oldSize) == 8180
  {}

  lemma ServedFits(size: nat)
    requires 0 < size < SIZE_T && PagesFor(size) > 0
    ensures 0 < Served(size) <= PagesFor(size) * PGSIZE - ARENA_SIZE
  {
    ServedIff(size);
  }

  class Allocator {
    const usedMap: Bitmap
    /** The page number of the first page of the pool; page 0 is none of them. */
    const base: nat
    /** The bytes of the pool. */
    const mem: array<Byte>
    /** The headers of the arenas, by page number. */
    var arenas: map<nat, Arena>
    var freeLists: seq<seq<nat>>
    ghost var live: map<nat, nat>
    ghost var owner: map<nat, nat>

    ghost function Abs(): State
      reads this
    {
      State(arenas, AsSets(freeLists), live)
    }

    ghost predicate Separate() { usedMap.bits as object != mem as object }

    ghost predicate Basic()
      reads this, usedMap.bits
    {
      && Separate() && usedMap.Valid() && base > 0 && mem.Length == usedMap.bitCnt * PGSIZE
      && |freeLists| == DESC_CNT && (forall d | 0 <= d < DESC_CNT :: Distinct(freeLists[d]))
      && PagesOk(usedMap.View(), base, owner, arenas)
      && Inv(Abs())
    }

    /** Between calls no arena is kept whose blocks are all free. */
    ghost predicate Valid()
      reads this, usedMap.bits
    {
      Basic() && NoneIdle(Abs())
    }

    /** init_pool and malloc_init */
    constructor (pages: nat, base: nat)
      requires base > 0
      ensures Valid() && live == map[] && arenas == map[] && fresh(usedMap) && fresh(usedMap.bits) && fresh(mem)
      ensures this.base == base && usedMap.bitCnt == pages
    {
      var bitmap := new Bitmap(pages);
      usedMap := bitmap;
      this.base := base;
      mem := new Byte[pages * PGSIZE](i => 0);
      arenas := map[];
      freeLists := seq(DESC_CNT, i => []);
      live, owner := map[], map[];
    }

    /** palloc_get_multiple and the arena header: free pages become an arena. */
    method GetArena(a: Arena) returns (p: Option<nat>)
      requires Basic() && ArenaOk(a)
      modifies this`arenas, this`owner, usedMap.bits
      ensures usedMap.Valid()
      ensures match p
              case None => arenas == old(arenas) && owner == old(owner) && usedMap.View() == old(usedMap.View())
                           && FirstFit(old(usedMap.View()), 0, PageCount(a), false, None)
              case Some(q) => q !in old(arenas) && arenas == old(arenas)[q := a] && q >= base
                              && PagesOk(usedMap.View(), base, owner, arenas)
                              && !FirstFit(old(usedMap.View()), 0, PageCount(a), false, None)
    {
      hide Bitmap.View, Inv, Distinct, AsSets, PagesOk;
      ghost var used := usedMap.View();
      var r := usedMap.ScanAndFlip(0, PageCount(a), false);
      if r == None {
        return None;
      }
      var q := base + r.value;
      GotPages(used, base, owner, arenas, r.value, a);
      ArenasHavePages(Abs(), q);
      arenas := arenas[q := a];
      owner := Given(owner, q, PageCount(a));
      return Some(q);
    }

    /** palloc_free_multiple: the pages of an arena are free again, with their bytes overwritten. */
    method FreeArena(p: nat)
      requires Separate() && usedMap.Valid() && mem.Length == usedMap.bitCnt * PGSIZE
      requires p in arenas && ArenaOk(arenas[p])
      requires PagesOk(usedMap.View(), base, owner, arenas)
      modifies this`arenas, this`owner, usedMap.bits, mem
      ensures usedMap.Valid() && arenas == old(arenas) - {p} && PagesOk(usedMap.View(), base, owner, arenas)
      ensures base <= p && OnlyChanged(old(mem[..]), mem[..], (p - base) * PGSIZE, PageCount(old(arenas)[p]) * PGSIZE)
    {
      hide Bitmap.View, PagesOk;
      var cnt := PageCount(arenas[p]);
      FreedPages(usedMap.View(), base, owner, arenas, p);
      RangeInPool(p - base, cnt, usedMap.bitCnt);
      Fill((p - base) * PGSIZE, cnt * PGSIZE);
      var notAll := usedMap.Contains(p - base, cnt, false);
      assert !notAll;
      usedMap.SetMultiple(p - base, cnt, false);
      arenas := arenas - {p};
      owner := owner - PageRange(p, cnt);
    }

    /** The loop of malloc that carves an arena into blocks. */
    method PushBlocks(p: nat, d: nat)
      requires |freeLists| == DESC_CNT && d < DESC_CNT && Distinct(freeLists[d])
      requires forall x | x in freeLists[d] :: x / PGSIZE != p
      modifies this`freeLists
      ensures |freeLists| == DESC_CNT && Distinct(freeLists[d])
      ensures AsSets(freeLists) == AsSets(old(freeLists))[d := Addresses(old(freeLists[d])) + Blocks(p, d)]
      ensures forall e | 0 <= e < DESC_CNT && e != d :: freeLists[e] == old(freeLists[e])
    {
      hide BlocksPerArena, AsSets, BlockAddr, IsBlock;
      var i := 0;
      assert Addresses(freeLists[d]) + {} == Addresses(freeLists[d]);
      while i < BlocksPerArena(d)
        invariant 0 <= i <= BlocksPerArena(d) && |freeLists| == DESC_CNT && Distinct(freeLists[d])
        invariant Addresses(freeLists[d]) == Addresses(old(freeLists[d])) + FirstBlocks(p, d, i)
        invariant forall e | 0 <= e < DESC_CNT && e != d :: freeLists[e] == old(freeLists[e])
      {
        NewBlock(p, d, i, Addresses(old(freeLists[d])));
        PushedBack(freeLists[d], BlockAddr(p, d, i));
        freeLists := freeLists[d := freeLists[d] + [BlockAddr(p, d, i)]];
        i := i + 1;
      }
      assert freeLists == old(freeLists)[d := freeLists[d]];
      OneList(old(freeLists), d, freeLists[d]);
    }

    /** malloc, when the free list of a descriptor is empty. */
    method NewSmallArena(d: nat) returns (ok: bool)
      requires Valid() && d < DESC_CNT && freeLists[d] == []
      modifies this`arenas, this`owner, this`freeLists, usedMap.bits
      ensures Basic() && live == old(live)
      ensures if ok then freeLists[d] != [] && exists p: nat :: p !in old(arenas) && Abs() == NewArena(old(Abs()), p, d)
              else Abs() == old(Abs()) && FirstFit(old(usedMap.View()), 0, 1, false, None) && NoneIdle(Abs())
    {
      hide Inv, AsSets, BlocksPerArena, NoneIdle, Bitmap.View, Blocks, Given, PagesOk;
      ghost var s := Abs();
      EmptyList(freeLists, d);
      var r := GetArena(Small(d, BlocksPerArena(d)));
      if r == None {
        return false;
      }
      var p := r.value;
      NewArenaOk(s, p, d);
      PushBlocks(p, d);
      assert {} + Blocks(p, d) == Blocks(p, d);
      assert Abs() == NewArena(s, p, d);
      ArenaHasBlocks(p, d);
      ListOf(freeLists, d);
      return true;
    }

    /** The first loop of malloc. */
    method FindDescriptor(size: nat) returns (d: nat)
      ensures Fits(d, size)
    {
      d := 0;
      while d < DESC_CNT && BlockSize(d) < size
        invariant d <= DESC_CNT && forall e | 0 <= e < d :: BlockSize(e) < size
      {
        d := d + 1;
      }
    }

    /** malloc's last steps: the first free block is handed out, and its arena counts one free block less. */
    method TakeBlock(d: nat, ghost size: nat) returns (x: nat)
      requires Basic() && d < DESC_CNT && freeLists[d] != [] && 0 < size <= BlockSize(d)
      modifies this`arenas, this`freeLists, this`live
      ensures Basic() && x in old(Abs()).frees[d] && x !in old(live) && x / PGSIZE in old(arenas)
      ensures old(arenas)[x / PGSIZE].Small? && Abs() == Take(old(Abs()), d, x, size)
    {
      hide Inv, AsSets, BlocksPerArena, BlockSize, Bitmap.View, PagesOk;
      ghost var s := Abs();
      ListOf(freeLists, d);
      PoppedFront(freeLists[d]);
      x := freeLists[d][0];
      TakeOk(s, d, x, size);
      PagesKept(usedMap.View(), base, owner, arenas, x / PGSIZE);
      OneList(freeLists, d, freeLists[d][1..]);
      freeLists := freeLists[d := freeLists[d][1..]];
      var p := x / PGSIZE;
      arenas := arenas[p := arenas[p].(freeCnt := arenas[p].freeCnt - 1)];
      live := live[x := size];
    }

    /** malloc: a block that nobody else has, of at least size bytes unless the sum with the header wraps around. It
        fails only when no page, or for a big block not enough consecutive pages, can be had; for a big block it
        does fail then. */
    method Malloc(size: nat) returns (r: Option<nat>)
      requires Valid() && size < SIZE_T
      modifies this`arenas, this`owner, this`freeLists, this`live, usedMap.bits
      ensures Valid() && SameKinds(old(arenas), arenas)
      ensures match r
              case None => Abs() == old(Abs()) && (size == 0 || NoPages(old(usedMap.View()), size))
              case Some(x) => 0 < size && x !in old(live) && live == old(live)[x := Served(size)]
                              && (Fits(DESC_CNT, size) ==> !NoPages(old(usedMap.View()), size))
    {
      hide Inv, AsSets, BlocksPerArena, BlockSize, Bitmap.View, NoneIdle, PagesOk, PagesFor, Served;
      if size == 0 {
        return None;
      }
      ghost var s := Abs();
      var d := FindDescriptor(size);
      if d == DESC_CNT {
        r := MallocBig(size);
        return;
      }
      DescriptorFits(d, size);
      SmallServed(d, size);
      ListOf(freeLists, d);
      ghost var t := s;
      ghost var p: nat := 0;
      if freeLists[d] == [] {
        EmptyList(freeLists, d);
        var ok := NewSmallArena(d);
        if !ok {
          return None;
        }
        p :| p !in s.arenas && Abs() == NewArena(s, p, d);
        t := Abs();
        OnlyNewIdle(s, p, d);
      }
      var x := TakeBlock(d, size);
      TakenNotIdle(t, d, x, size);
      TakenKinds(s, t, p, d, x, size);
      r := Some(x);
    }

    /** malloc for a size that no descriptor is big enough for. */
    method MallocBig(size: nat) returns (r: Option<nat>)
      requires Valid() && 0 < size < SIZE_T && Fits(DESC_CNT, size)
      modifies this`arenas, this`owner, this`live, usedMap.bits
      ensures Valid() && SameKinds(old(arenas), arenas)
      ensures match r
              case None => Abs() == old(Abs()) && NoPages(old(usedMap.View()), size)
              case Some(x) => x !in old(live) && live == old(live)[x := Served(size)]
                              && !NoPages(old(usedMap.View()), size)
    {
      hide Inv, AsSets, BlocksPerArena, BlockSize, Bitmap.View, PagesOk, Fits, PagesFor, Served;
      ghost var s := Abs();
      var pages := PagesFor(size);
      if pages == 0 {
        TooManyPages(usedMap.View(), size);
        return None;
      }
      ServedFits(size);
      ghost var used := usedMap.View();
      var q := GetArena(Big(pages));
      if q == None {
        TooManyPages(usedMap.View(), size);
        return None;
      }
      var p := q.value;
      EnoughPages(used, size);
      NewBigOk(s, p, pages, Served(size));
      live := live[p * PGSIZE + ARENA_SIZE := Served(size)];
      return Some(p * PGSIZE + ARENA_SIZE);
    }

    /** list_remove */
    method ListRemove(d: nat, x: nat)
      requires d < |freeLists| && Distinct(freeLists[d]) && x in freeLists[d]
      modifies this`freeLists
      ensures |freeLists| == |old(freeLists)| && Distinct(freeLists[d])
      ensures Addresses(freeLists[d]) == Addresses(old(freeLists[d])) - {x}
      ensures forall e | 0 <= e < |freeLists| && e != d :: freeLists[e] == old(freeLists[e])
    {
      var l, k := freeLists[d], 0;
      while l[k] != x
        invariant 0 <= k < |l| && x !in l[..k]
        decreases |l| - k
        modifies {}
      {
        k := k + 1;
      }
      Removed(l, k);
      freeLists := freeLists[d := l[..k] + l[k + 1..]];
    }

    /** The loop of free that takes the blocks of an unused arena off the free list. */
    method RemoveBlocks(p: nat, d: nat)
      requires |freeLists| == DESC_CNT && d < DESC_CNT && Distinct(freeLists[d])
      requires Blocks(p, d) <= Addresses(freeLists[d])
      modifies this`freeLists
      ensures |freeLists| == DESC_CNT && Distinct(freeLists[d])
      ensures AsSets(freeLists) == AsSets(old(freeLists))[d := Addresses(old(freeLists[d])) - Blocks(p, d)]
      ensures forall e | 0 <= e < DESC_CNT && e != d :: freeLists[e] == old(freeLists[e])
    {
      hide BlocksPerArena, AsSets, BlockAddr, IsBlock, FirstBlocks;
      var i := 0;
      NoBlocks(p, d, Addresses(freeLists[d]));
      while i < BlocksPerArena(d)
        invariant 0 <= i <= BlocksPerArena(d) && |freeLists| == DESC_CNT && Distinct(freeLists[d])
        invariant Addresses(freeLists[d]) == Addresses(old(freeLists[d])) - FirstBlocks(p, d, i)
        invariant forall e | 0 <= e < DESC_CNT && e != d :: freeLists[e] == old(freeLists[e])
      {
        NextBlock(p, d, i, Addresses(old(freeLists[d])));
        ListRemove(d, BlockAddr(p, d, i));
        i := i + 1;
      }
      assert freeLists == old(freeLists)[d := freeLists[d]];
      OneList(old(freeLists), d, freeLists[d]);
    }

    /** free's steps for a block of a descriptor, up to the check of its arena. */
    method GiveBlock(x: nat)
      requires Basic() && x in live && x / PGSIZE in arenas && arenas[x / PGSIZE].Small?
      modifies this`arenas, this`freeLists, this`live
      ensures Basic() && Abs() == Give(old(Abs()), x)
    {
      hide Inv, AsSets, BlocksPerArena, BlockSize, Bitmap.View, PagesOk;
      ghost var s := Abs();
      var p := x / PGSIZE;
      SmallDescriptor(s, p);
      var d := arenas[p].d;
      ListOf(freeLists, d);
      GiveOk(s, x);
      PushedBack(freeLists[d], x);
      PagesKept(usedMap.View(), base, owner, arenas, p);
      OneList(freeLists, d, [x] + freeLists[d]);
      freeLists := freeLists[d := [x] + freeLists[d]];
      arenas := arenas[p := arenas[p].(freeCnt := arenas[p].freeCnt + 1)];
      live := live - {x};
    }

    /** free's last steps: an arena whose blocks are all free goes back to the page allocator. */
    method GiveUpArena(p: nat)
      requires Basic() && p in arenas && arenas[p].Small? && arenas[p].d < DESC_CNT
      requires arenas[p].freeCnt == BlocksPerArena(arenas[p].d)
      modifies this`arenas, this`freeLists, this`owner, usedMap.bits, mem
      ensures Basic() && Abs() == DropArena(old(Abs()), p) && (forall y | y in live :: y / PGSIZE != p)
      ensures base <= p && OnlyChanged(old(mem[..]), mem[..], (p - base) * PGSIZE, PGSIZE)
    {
      hide Inv, AsSets, BlocksPerArena, BlockSize, Bitmap.View, PagesOk, Blocks;
      ghost var s := Abs();
      var d := arenas[p].d;
      ListOf(freeLists, d);
      AllFree(s, p);
      DropArenaOk(s, p);
      RemoveBlocks(p, d);
      FreeArena(p);
    }

    /** free, for a block of a descriptor */
    method FreeSmall(x: nat)
      requires Valid() && x in live && x / PGSIZE in arenas && arenas[x / PGSIZE].Small?
      modifies this`arenas, this`freeLists, this`owner, this`live, usedMap.bits, mem
      ensures Valid() && live == old(live) - {x} && SameKinds(arenas, old(arenas))
      ensures Kept(Abs(), base, old(mem[..]), mem[..], x)
    {
      hide Inv, AsSets, BlocksPerArena, BlockSize, Bitmap.View, PagesOk, Blocks, NoneIdle, Kept;
      ghost var s, m := Abs(), mem[..];
      var p := x / PGSIZE;
      SmallDescriptor(s, p);
      var d := arenas[p].d;
      ListOf(freeLists, d);
      PoolRange(s, usedMap.View(), base, owner, x);
      Fill(x - base * PGSIZE, BlockSize(d));
      ghost var m1 := mem[..];
      KeptByFilling(s, usedMap.View(), base, owner, x, m, m1);
      GiveOk(s, x);
      GiveBlock(x);
      ghost var t := Abs();
      GivenSame(s, base, m, m1, x);
      if arenas[p].freeCnt >= BlocksPerArena(d) {
        AllFree(t, p);
        DropArenaOk(t, p);
        ghost var used, o := usedMap.View(), owner;
        GiveUpArena(p);
        KeptByArena(t, used, base, o, p, m1, mem[..], x);
        KeptTwice(t, base, m, m1, mem[..], x);
        DroppedSame(t, base, m, mem[..], x, p);
        DroppedNotIdle(s, x, p);
      } else {
        GivenNotIdle(s, x);
      }
    }

    /** free, for a big block */
    method FreeBig(x: nat)
      requires Valid() && x in live && x / PGSIZE in arenas && arenas[x / PGSIZE].Big?
      modifies this`arenas, this`owner, this`live, usedMap.bits, mem
      ensures Valid() && live == old(live) - {x} && SameKinds(arenas, old(arenas))
      ensures Kept(Abs(), base, old(mem[..]), mem[..], x)
    {
      hide Inv, AsSets, BlocksPerArena, BlockSize, Bitmap.View, PagesOk, Kept;
      ghost var s, m, used, o := Abs(), mem[..], usedMap.View(), owner;
      var p := x / PGSIZE;
      SmallDescriptor(s, p);
      BigAlone(s, p, x);
      DropBigOk(s, p);
      FreeArena(p);
      live := live - {x};
      KeptByArena(s, used, base, o, p, m, mem[..], x);
      BigSame(s, base, m, mem[..], x, p);
    }

    /** free: the block is nobody's any more, and all others keep their bytes. */
    method Free(block: Option<nat>)
      requires Valid() && (block.Some? ==> block.value in live)
      modifies this`arenas, this`freeLists, this`owner, this`live, usedMap.bits, mem
      ensures Valid() && SameKinds(arenas, old(arenas))
      ensures match block
              case None => Abs() == old(Abs()) && mem[..] == old(mem[..])
              case Some(x) => live == old(live) - {x} && Kept(Abs(), base, old(mem[..]), mem[..], x)
    {
      hide Inv, AsSets, Bitmap.View, PagesOk, Kept, NoneIdle;
      if block.Some? {
        var x := block.value;
        LiveArenas(Abs());
        match arenas[x / PGSIZE]
        case Small(_, _) => FreeSmall(x);
        case Big(_) => FreeBig(x);
      }
    }

    /** memcpy between blocks that do not overlap */
    method CopyBytes(to: nat, from: nat, n: nat)
      requires to + n <= mem.Length && from + n <= mem.Length && (to + n <= from || from + n <= to)
      modifies mem
      ensures OnlyChanged(old(mem[..]), mem[..], to, n)
      ensures mem[to..to + n] == old(mem[from..from + n])
    {
      var i := 0;
      while i < n
        invariant 0 <= i <= n
        invariant OnlyChanged(old(mem[..]), mem[..], to, n)
        invariant mem[to..to + i] == old(mem[from..from + i])
      {
        assert mem[from + i] == mem[..][from + i] == old(mem[..])[from + i];
        mem[to + i] := mem[from + i];
        i := i + 1;
      }
    }

    /** The copying of realloc: as many bytes as both blocks have room for. */
    method CarryOver(x: nat, y: nat, newSize: nat)
      requires Valid() && x in live && y in live && x != y && Min(newSize, SizeOf(Abs(), x)) <= live[y]
      modifies mem
      ensures Valid() && Kept(Abs(), base, old(mem[..]), mem[..], y)
      ensures Carried(old(mem[..]), mem[..], x - base * PGSIZE, y - base * PGSIZE, Min(newSize, SizeOf(Abs(), x)))
      ensures Min(newSize, SizeOf(Abs(), x)) <= SizeOf(Abs(), y)
    {
      hide Inv, AsSets, BlocksPerArena, BlockSize, Bitmap.View, PagesOk, Kept, NoneIdle, Carried, OnlyChanged, SizeOf;
      ghost var s, m, used := Abs(), mem[..], usedMap.View();
      CopyRoom(s, used, base, owner, x, y, newSize);
      var a := arenas[x / PGSIZE];
      var oldSize := if a.Small? then BlockSize(a.d) else PGSIZE * a.pages - x % PGSIZE;
      var n := Min(newSize, oldSize);
      CopyBytes(y - base * PGSIZE, x - base * PGSIZE, n);
      assert usedMap.View() == used;
      CarriedIs(m, mem[..], x - base * PGSIZE, y - base * PGSIZE, n);
      Widen(m, mem[..], y - base * PGSIZE, n, SizeOf(s, y));
      KeptByFilling(s, used, base, owner, y, m, mem[..]);
    }

    /** The steps of realloc for a block and a new size: a new block gets the bytes that both have room for,
        and the old one is freed. */
    method Move(x: nat, newSize: nat) returns (r: Option<nat>)
      requires Valid() && x in live && 0 < newSize < SIZE_T
      requires !NoPages(usedMap.View(), newSize) ==> Min(newSize, SizeOf(Abs(), x)) <= Served(newSize)
      modifies this`arenas, this`owner, this`freeLists, this`live, usedMap.bits, mem
      ensures Valid()
      ensures match r
              case None => Abs() == old(Abs()) && mem[..] == old(mem[..]) && NoPages(old(usedMap.View()), newSize)
              case Some(y) => y !in old(live) && live == old(live)[y := Served(newSize)] - {x}
                              && Kept(Abs(), base, old(mem[..]), mem[..], y)
                              && Carried(old(mem[..]), mem[..], x - base * PGSIZE, y - base * PGSIZE,
                                         Min(newSize, SizeOf(old(Abs()), x)))
    {
      hide Inv, AsSets, BlocksPerArena, BlockSize, Bitmap.View, PagesOk, Kept, NoneIdle, NoPages, Carried, SizeOf,
           SameKinds, ArenaOk, Served, PagesFor, Fits;
      ghost var s, m, used := Abs(), mem[..], usedMap.View();
      LiveArenas(s);
      r := Malloc(newSize);
      assert mem[..] == m;
      if r == None {
        return;
      }
      var y := r.value;
      ghost var t := Abs();
      KindSize(s, t, x);
      CopyFits(used, newSize, Min(newSize, SizeOf(s, x)));
      CarryOver(x, y, newSize);
      ghost var m1 := mem[..];
      Free(Some(x));
      FreedKinds(t, Abs(), x);
      KeptAfter(t, Abs(), base, m, m1, mem[..], x, y);
      CarriedOn(Abs(), base, m, m1, mem[..], x, y, Min(newSize, SizeOf(s, x)));
    }

    /** realloc: the bytes that both sizes have room for are carried over, and no other block is touched. */
    method Realloc(block: Option<nat>, newSize: nat) returns (r: Option<nat>)
      requires Valid() && (block.Some? ==> block.value in live) && newSize < SIZE_T
      requires block.Some? && newSize > 0 && !NoPages(usedMap.View(), newSize)
           ==> Min(newSize, SizeOf(Abs(), block.value)) <= Served(newSize)
      modifies this`arenas, this`owner, this`freeLists, this`live, usedMap.bits, mem
      ensures Valid()
      ensures newSize == 0 ==> r == None && live == if block.Some? then old(live) - {block.value} else old(live)
      ensures newSize > 0 && r == None ==> Abs() == old(Abs()) && mem[..] == old(mem[..])
                                           && NoPages(old(usedMap.View()), newSize)
      ensures r.Some? ==> var y := r.value;
                y !in old(live) && live == (if block.Some? then old(live)[y := Served(newSize)] - {block.value}
                                            else old(live)[y := Served(newSize)])
                && Kept(Abs(), base, old(mem[..]), mem[..], y)
                && (block.Some? ==> Carried(old(mem[..]), mem[..], block.value - base * PGSIZE, y - base * PGSIZE,
                                            Min(newSize, SizeOf(old(Abs()), block.value))))
    {
      hide Inv, AsSets, Bitmap.View, PagesOk, NoneIdle, NoPages, Carried, SizeOf, Served, PagesFor;
      if newSize == 0 {
        Free(block);
        return None;
      }
      if block == None {
        r := Malloc(newSize);
        assert mem[..] == old(mem[..]);
        return;
      }
      r := Move(block.value, newSize);
    }

    /** memset to 0xcc */
    method Fill(a: nat, n: nat)
      requires a + n <= mem.Length
      modifies mem
      ensures OnlyChanged(old(mem[..]), mem[..], a, n)
    {
      var i := 0;
      while i < n
        invariant 0 <= i <= n
        invariant OnlyChanged(old(mem[..]), mem[..], a, n)
      {
        mem[a + i] := 0xcc;
        i := i + 1;
      }
    }
  }

  /** Bytes outside the n bytes at a are as before. */
  ghost predicate OnlyChanged(before: seq<Byte>, after: seq<Byte>, a: nat, n: nat) {
    |before| == |after| && forall i | 0 <= i < |before| && !(a <= i < a + n) :: after[i] == before[i]
  }

  lemma RangeInPool(i: nat, cnt: nat, pages: nat)
    requires i + cnt <= pages
    ensures i * PGSIZE + cnt * PGSIZE <= pages * PGSIZE
  {}

  lemma ArenasHavePages(s: State, q: nat)
    requires Inv(s)
    ensures q in s.arenas ==> PageCount(s.arenas[q]) > 0
  {}

  // ---- free lists ----

  lemma OneList(lists: seq<seq<nat>>, d: nat, l: seq<nat>)
    requires d < |lists|
    ensures AsSets(lists[d := l]) == AsSets(lists)[d := Addresses(l)]
  {}

  lemma ListOf(lists: seq<seq<nat>>, d: nat)
    requires d < |lists|
    ensures |AsSets(lists)| == |lists| && AsSets(lists)[d] == Addresses(lists[d])
    ensures Addresses(lists[d]) != {} <==> lists[d] != []
  {
    if lists[d] != [] {
      assert lists[d][0] in Addresses(lists[d]);
    }
  }

  lemma EmptyList(lists: seq<seq<nat>>, d: nat)
    requires d < |lists| && lists[d] == []
    ensures Addresses(lists[d]) == {} && |AsSets(lists)| == |lists| && AsSets(lists)[d] == {}
  {}

  lemma PushedBack(l: seq<nat>, x: nat)
    ensures Addresses(l + [x]) == Addresses(l) + {x} == Addresses([x] + l)
    ensures Distinct(l) && x !in Addresses(l) ==> Distinct(l + [x]) && Distinct([x] + l)
  {}

  lemma PoppedFront(l: seq<nat>)
    requires l != [] && Distinct(l)
    ensures l[0] in Addresses(l) && Addresses(l[1..]) == Addresses(l) - {l[0]} && Distinct(l[1..])
  {
    assert forall x | x in l :: x == l[0] || x in l[1..];
  }

  lemma NewBlock(p: nat, d: nat, i: nat, others: set<nat>)
    requires d < DESC_CNT && i < BlocksPerArena(d) && forall x | x in others :: x / PGSIZE != p
    ensures BlockAddr(p, d, i) !in others + FirstBlocks(p, d, i)
    ensures others + FirstBlocks(p, d, i + 1) == others + FirstBlocks(p, d, i) + {BlockAddr(p, d, i)}
  {
    BlockToArena(p, d, i);
    FirstBlocksAre(p, d, i);
    hide BlocksPerArena, BlockAddr, IsBlock;
    if BlockAddr(p, d, i) in FirstBlocks(p, d, i) {
      var k :| 0 <= k < i && BlockAddr(p, d, i) == BlockAddr(p, d, k);
      AddrsDiffer(p, d, k, i);
    }
  }

  lemma ArenaHasBlocks(p: nat, d: nat)
    requires d < DESC_CNT
    ensures Blocks(p, d) != {}
  {
    BlocksAre(p, d);
    SomeBlock(d);
    hide BlocksPerArena, IsBlock, Blocks;
    assert |Blocks(p, d)| > 0;
  }

  lemma SomeBlock(d: nat)
    requires d < DESC_CNT
    ensures BlocksPerArena(d) > 0
  {}

  // ---- what malloc leaves as it was ----

  /** An arena's header without its count. */
  function Kind(a: Arena): Arena { if a.Small? then a.(freeCnt := 0) else a }

  /** Arenas stay what they are. */
  ghost predicate SameKinds(before: map<nat, Arena>, after: map<nat, Arena>) {
    forall p | p in before :: p in after && Kind(after[p]) == Kind(before[p])
  }

  /** No page is free, or not as many consecutive ones as are asked for a big block of this size. */
  ghost predicate NoPages(used: seq<bool>, size: nat) {
    if Fits(DESC_CNT, size) then PagesFor(size) == 0 || FirstFit(used, 0, PagesFor(size), false, None)
    else FirstFit(used, 0, 1, false, None)
  }

  lemma TooManyPages(used: seq<bool>, size: nat)
    requires Fits(DESC_CNT, size) && (PagesFor(size) == 0 || FirstFit(used, 0, PagesFor(size), false, None))
    ensures NoPages(used, size)
  {
    hide Fits, FirstFit, PagesFor;
  }

  lemma EnoughPages(used: seq<bool>, size: nat)
    requires Fits(DESC_CNT, size) && PagesFor(size) != 0 && !FirstFit(used, 0, PagesFor(size), false, None)
    ensures !NoPages(used, size)
  {
    hide Fits, FirstFit, PagesFor;
  }

  /** When there are pages for the new block, or it is a small one, what is copied fits. */
  lemma CopyFits(used: seq<bool>, newSize: nat, n: nat)
    requires 0 < newSize < SIZE_T && n <= newSize && (!NoPages(used, newSize) ==> n <= Served(newSize))
    requires Fits(DESC_CNT, newSize) ==> !NoPages(used, newSize)
    ensures n <= Served(newSize)
  {
    if !Fits(DESC_CNT, newSize) {
      hide NoPages;
      assert newSize <= 1024;
      ServedIff(newSize);
    } else {
      hide NoPages, Fits, Served;
    }
  }

  /** Sizes that a descriptor is enough for do not wrap around. */
  lemma SmallServed(d: nat, size: nat)
    requires d < DESC_CNT && 0 < size <= BlockSize(d)
    ensures Served(size) == size
  {
    ServedIff(size);
  }

  lemma DescriptorFits(d: nat, size: nat)
    requires Fits(d, size) && d < DESC_CNT
    ensures size <= BlockSize(d) && !Fits(DESC_CNT, size)
  {}

  lemma PagesKept(used: seq<bool>, base: nat, owner: map<nat, nat>, arenas: map<nat, Arena>, p: nat)
    requires PagesOk(used, base, owner, arenas) && p in arenas && arenas[p].Small?
    ensures forall n :: PagesOk(used, base, owner, arenas[p := arenas[p].(freeCnt := n)])
  {
    forall n ensures PagesOk(used, base, owner, arenas[p := arenas[p].(freeCnt := n)]) {
      var arenas' := arenas[p := arenas[p].(freeCnt := n)];
      forall r, q: nat ensures InArena(arenas', r, q) <==> InArena(arenas, r, q) {}
    }
  }

  lemma OnlyNewIdle(s: State, p: nat, d: nat)
    requires Inv(s) && NoneIdle(s) && p !in s.arenas && d < DESC_CNT && s.frees[d] == {}
    ensures Inv(NewArena(s, p, d))
    ensures IdleOnly(NewArena(s, p, d), d)
  {
    NewArenaOk(s, p, d);
    BlocksAre(p, d);
    hide Inv, BlocksPerArena, BlockSize, IsBlock, Blocks;
    forall x | x in Blocks(p, d) ensures x / PGSIZE == p {
      InItsPage(p, d, x);
    }
    assert {} + Blocks(p, d) == Blocks(p, d);
  }

  /** Only an arena that all the free blocks of descriptor d are in may be idle. */
  ghost predicate IdleOnly(s: State, d: nat)
    requires d < |s.frees|
  {
    forall q, x | q in s.arenas && s.arenas[q].Small? && s.arenas[q].d < DESC_CNT
                  && x in s.frees[d] && x / PGSIZE != q ::
      s.arenas[q].freeCnt < BlocksPerArena(s.arenas[q].d)
  }

  lemma TakenNotIdle(s: State, d: nat, x: nat, size: nat)
    requires Inv(s) && d < DESC_CNT && (NoneIdle(s) || IdleOnly(s, d)) && x in s.frees[d] && x / PGSIZE in s.arenas
    requires s.arenas[x / PGSIZE].Small? && 0 < size <= BlockSize(d)
    ensures Inv(Take(s, d, x, size)) && NoneIdle(Take(s, d, x, size))
  {
    TakeOk(s, d, x, size);
    AllFree(s, x / PGSIZE);
    hide BlocksPerArena, BlockSize, IsBlock, Blocks;
  }

  lemma TakenKinds(s: State, t: State, p: nat, d: nat, x: nat, size: nat)
    requires d < DESC_CNT && |s.frees| == DESC_CNT
    requires t == s || (p !in s.arenas && t == NewArena(s, p, d))
    requires x / PGSIZE in t.arenas && t.arenas[x / PGSIZE].Small?
    ensures SameKinds(s.arenas, Take(t, d, x, size).arenas) && t.live == s.live
  {}

  lemma Removed(l: seq<nat>, k: nat)
    requires k < |l| && Distinct(l)
    ensures Distinct(l[..k] + l[k + 1..]) && Addresses(l[..k] + l[k + 1..]) == Addresses(l) - {l[k]}
  {
    var r := l[..k] + l[k + 1..];
    forall i, j | 0 <= i < j < |r| ensures r[i] != r[j] {
      assert r[i] == l[if i < k then i else i + 1] && r[j] == l[if j < k then j else j + 1];
    }
    forall x ensures x in Addresses(r) <==> x in Addresses(l) && x != l[k] {
      if x in Addresses(l) && x != l[k] {
        var i :| 0 <= i < |l| && l[i] == x;
        assert r[if i < k then i else i - 1] == x;
      }
      if x in Addresses(r) {
        var i :| 0 <= i < |r| && r[i] == x;
        assert l[if i < k then i else i + 1] == x;
      }
    }
  }

  lemma NoBlocks(p: nat, d: nat, all: set<nat>)
    requires d < DESC_CNT
    ensures all - FirstBlocks(p, d, 0) == all
  {}

  lemma NextBlock(p: nat, d: nat, i: nat, all: set<nat>)
    requires d < DESC_CNT && i < BlocksPerArena(d) && Blocks(p, d) <= all
    ensures BlockAddr(p, d, i) in all - FirstBlocks(p, d, i)
    ensures all - FirstBlocks(p, d, i) - {BlockAddr(p, d, i)} == all - FirstBlocks(p, d, i + 1)
  {
    NewBlock(p, d, i, {});
    BlocksAre(p, d);
    BlockToArena(p, d, i);
    hide BlocksPerArena, BlockAddr, IsBlock, Blocks;
    assert BlockAddr(p, d, i) in Blocks(p, d);
  }

  ghost predicate SameBytes(before: seq<Byte>, after: seq<Byte>, i: int, n: nat) {
    |before| == |after| && forall k | 0 <= k < |before| && i <= k < i + n :: after[k] == before[k]
  }

  /** The blocks that have been handed out, but for x, hold the same bytes in both. */
  ghost predicate Kept(s: State, base: nat, m: seq<Byte>, m': seq<Byte>, x: nat) {
    forall y | y in s.live && y != x :: SameBytes(m, m', y - base * PGSIZE, SizeOf(s, y))
  }

  ghost function SizeOf(s: State, y: nat): nat {
    if y / PGSIZE in s.arenas && ArenaOk(s.arenas[y / PGSIZE]) then Capacity(s.arenas[y / PGSIZE]) else 0
  }

  lemma PoolRange(s: State, used: seq<bool>, base: nat, owner: map<nat, nat>, x: nat)
    requires Inv(s) && PagesOk(used, base, owner, s.arenas) && x in s.live
    ensures base * PGSIZE <= x && x - base * PGSIZE + SizeOf(s, x) <= |used| * PGSIZE
    ensures x / PGSIZE in s.arenas && ArenaOk(s.arenas[x / PGSIZE])
  {
    LiveInPool(s, used, base, owner, x);
  }

  /** Overwriting one block leaves the others alone. */
  lemma KeptByFilling(s: State, used: seq<bool>, base: nat, owner: map<nat, nat>, x: nat, m: seq<Byte>, m': seq<Byte>)
    requires Inv(s) && PagesOk(used, base, owner, s.arenas) && x in s.live && base * PGSIZE <= x
    requires OnlyChanged(m, m', x - base * PGSIZE, SizeOf(s, x))
    ensures Kept(s, base, m, m', x)
  {
    hide Inv, PagesOk;
    forall y | y in s.live && y != x ensures SameBytes(m, m', y - base * PGSIZE, SizeOf(s, y)) {
      PoolRange(s, used, base, owner, x);
      PoolRange(s, used, base, owner, y);
      if x < y {
        LiveApart(s, used, base, owner, x, y);
      } else {
        LiveApart(s, used, base, owner, y, x);
      }
    }
  }

  /** Overwriting the pages of an arena leaves the blocks of others alone. */
  lemma KeptByArena(s: State, used: seq<bool>, base: nat, owner: map<nat, nat>, p: nat,
                    m: seq<Byte>, m': seq<Byte>, x: nat)
    requires Inv(s) && PagesOk(used, base, owner, s.arenas) && p in s.arenas && base <= p
    requires forall y | y in s.live && y != x :: y / PGSIZE != p
    requires OnlyChanged(m, m', (p - base) * PGSIZE, PageCount(s.arenas[p]) * PGSIZE)
    ensures Kept(s, base, m, m', x)
  {
    hide Inv, PagesOk, PageCount;
    forall y | y in s.live && y != x ensures SameBytes(m, m', y - base * PGSIZE, SizeOf(s, y)) {
      ArenaApart(s, used, base, owner, p, y);
    }
  }

  lemma KeptTwice(s: State, base: nat, m: seq<Byte>, m1: seq<Byte>, m2: seq<Byte>, x: nat)
    requires Kept(s, base, m, m1, x) && Kept(s, base, m1, m2, x)
    ensures Kept(s, base, m, m2, x)
  {
    hide SizeOf, SameBytes;
    forall y | y in s.live && y != x ensures SameBytes(m, m2, y - base * PGSIZE, SizeOf(s, y)) {
      SameTwice(m, m1, m2, y - base * PGSIZE, SizeOf(s, y));
    }
  }

  lemma SameTwice(m: seq<Byte>, m1: seq<Byte>, m2: seq<Byte>, i: int, n: nat)
    requires SameBytes(m, m1, i, n) && SameBytes(m1, m2, i, n)
    ensures SameBytes(m, m2, i, n)
  {}

  lemma GivenSame(s: State, base: nat, m: seq<Byte>, m': seq<Byte>, x: nat)
    requires Kept(s, base, m, m', x) && x / PGSIZE in s.arenas && s.arenas[x / PGSIZE].Small?
    requires s.arenas[x / PGSIZE].d < |s.frees|
    ensures Kept(Give(s, x), base, m, m', x)
  {
    hide SameBytes;
    forall y | y in s.live && y != x ensures SizeOf(Give(s, x), y) == SizeOf(s, y) {}
  }

  lemma DroppedSame(s: State, base: nat, m: seq<Byte>, m': seq<Byte>, x: nat, p: nat)
    requires Kept(s, base, m, m', x) && p in s.arenas && s.arenas[p].Small? && s.arenas[p].d < DESC_CNT
    requires |s.frees| == DESC_CNT && forall y | y in s.live :: y / PGSIZE != p
    ensures Kept(DropArena(s, p), base, m, m', x)
  {
    hide SameBytes;
    forall y | y in s.live ensures SizeOf(DropArena(s, p), y) == SizeOf(s, y) {}
  }

  lemma BigSame(s: State, base: nat, m: seq<Byte>, m': seq<Byte>, x: nat, p: nat)
    requires Kept(s, base, m, m', x) && x == p * PGSIZE + ARENA_SIZE
    requires forall y | y in s.live && y != x :: y / PGSIZE != p
    ensures Kept(DropBig(s, p), base, m, m', x)
  {
    hide SameBytes;
    forall y | y in s.live && y != x ensures SizeOf(DropBig(s, p), y) == SizeOf(s, y) {}
  }

  /** A big block is alone in its arena. */
  lemma BigAlone(s: State, p: nat, x: nat)
    requires Inv(s) && x in s.live && x / PGSIZE == p && p in s.arenas && s.arenas[p].Big?
    ensures x == p * PGSIZE + ARENA_SIZE && forall y | y in s.live && y != x :: y / PGSIZE != p
  {
    hide BlockSize, BlocksPerArena, IsBlock;
    forall y | y in s.live && y / PGSIZE == p ensures y == p * PGSIZE + ARENA_SIZE {
      assert BlockOf(s.arenas[y / PGSIZE], y / PGSIZE, y);
    }
  }

  lemma GivenNotIdle(s: State, x: nat)
    requires Inv(s) && NoneIdle(s) && x in s.live && x / PGSIZE in s.arenas && s.arenas[x / PGSIZE].Small?
    requires s.arenas[x / PGSIZE].freeCnt + 1 < BlocksPerArena(s.arenas[x / PGSIZE].d)
    ensures Inv(Give(s, x)) && NoneIdle(Give(s, x))
  {
    GiveOk(s, x);
    hide BlocksPerArena, BlockSize, IsBlock, Blocks;
  }

  lemma DroppedNotIdle(s: State, x: nat, p: nat)
    requires Inv(s) && NoneIdle(s) && x in s.live && x / PGSIZE == p && p in s.arenas && s.arenas[p].Small?
    requires p in Give(s, x).arenas && Blocks(p, s.arenas[p].d) <= Give(s, x).frees[s.arenas[p].d]
    ensures Inv(DropArena(Give(s, x), p)) && NoneIdle(DropArena(Give(s, x), p))
  {
    GiveOk(s, x);
    DropArenaOk(Give(s, x), p);
    hide BlocksPerArena, BlockSize, IsBlock, Blocks;
  }

  /** Between calls every arena has a block that has been handed out: an arena goes back to the page
      allocator as soon as its last block is freed. */
  lemma ArenasInUse(s: State, p: nat)
    requires Inv(s) && NoneIdle(s) && p in s.arenas
    ensures exists x :: x in s.live && x / PGSIZE == p
  {
    if s.arenas[p].Small? {
      var d := s.arenas[p].d;
      AllFree(s, p);
      BlocksAre(p, d);
      hide BlocksPerArena, BlockSize, Blocks;
      var x :| x in Blocks(p, d) && x !in s.frees[d];
      assert BlockOf(s.arenas[p], p, x) && x / PGSIZE == p;
    } else {
      WithinPage(p, ARENA_SIZE);
      var x := p * PGSIZE + ARENA_SIZE;
      assert BlockOf(s.arenas[p], p, x) && x / PGSIZE == p;
      assert x in s.live;
    }
  }

  lemma LiveArenas(s: State)
    requires Inv(s)
    ensures forall y | y in s.live :: y / PGSIZE in s.arenas && ArenaOk(s.arenas[y / PGSIZE])
  {}

  lemma SmallDescriptor(s: State, p: nat)
    requires Inv(s) && p in s.arenas
    ensures ArenaOk(s.arenas[p])
  {}

  // ---- realloc ----

  function Min(a: nat, b: nat): nat { if a < b then a else b }

  /** The n bytes that stood at i stand at j now. */
  ghost predicate Carried(m: seq<Byte>, m': seq<Byte>, i: int, j: int, n: nat) {
    0 <= i && i + n <= |m| && 0 <= j && j + n <= |m'| && m'[j..j + n] == m[i..i + n]
  }

  lemma KindSize(s: State, t: State, x: nat)
    requires SameKinds(s.arenas, t.arenas) && x / PGSIZE in s.arenas && ArenaOk(s.arenas[x / PGSIZE])
    ensures SizeOf(t, x) == SizeOf(s, x)
  {}

  lemma FreedKinds(t: State, u: State, x: nat)
    requires SameKinds(u.arenas, t.arenas) && Inv(u)
    ensures forall y | y in u.live :: SizeOf(u, y) == SizeOf(t, y)
  {
    LiveArenas(u);
    hide Inv;
    forall y | y in u.live ensures SizeOf(u, y) == SizeOf(t, y) {
      KindSize(u, t, y);
    }
  }

  lemma HoldsSize(s: State, y: nat)
    requires Inv(s) && y in s.live
    ensures s.live[y] <= SizeOf(s, y)
  {}

  /** block_size: a big block has room for what its pages have behind the header. */
  lemma BlockRoom(s: State, x: nat)
    requires Inv(s) && x in s.live && x / PGSIZE in s.arenas && ArenaOk(s.arenas[x / PGSIZE])
    ensures var a := s.arenas[x / PGSIZE];
            SizeOf(s, x) == if a.Small? then BlockSize(a.d) else PGSIZE * a.pages - x % PGSIZE
  {
    if s.arenas[x / PGSIZE].Big? {
      BigAlone(s, x / PGSIZE, x);
      WithinPage(x / PGSIZE, ARENA_SIZE);
    }
  }

  lemma BlocksDisjoint(s: State, used: seq<bool>, base: nat, owner: map<nat, nat>, x: nat, y: nat)
    requires Inv(s) && PagesOk(used, base, owner, s.arenas) && x in s.live && y in s.live && x != y
    ensures x + SizeOf(s, x) <= y || y + SizeOf(s, y) <= x
  {
    hide Inv, PagesOk;
    PoolRange(s, used, base, owner, x);
    PoolRange(s, used, base, owner, y);
    if x < y {
      LiveApart(s, used, base, owner, x, y);
    } else {
      LiveApart(s, used, base, owner, y, x);
    }
  }

  /** Two live blocks lie apart in the pool, with room for what both have room for. */
  lemma CopyRoom(s: State, used: seq<bool>, base: nat, owner: map<nat, nat>, x: nat, y: nat, newSize: nat)
    requires Inv(s) && PagesOk(used, base, owner, s.arenas) && x in s.live && y in s.live && x != y
    requires Min(newSize, SizeOf(s, x)) <= s.live[y]
    ensures x / PGSIZE in s.arenas && ArenaOk(s.arenas[x / PGSIZE])
    ensures var a := s.arenas[x / PGSIZE];
            SizeOf(s, x) == if a.Small? then BlockSize(a.d) else PGSIZE * a.pages - x % PGSIZE
    ensures var n, i, j := Min(newSize, SizeOf(s, x)), x - base * PGSIZE, y - base * PGSIZE;
            && 0 <= i && i + n <= |used| * PGSIZE && 0 <= j && j + n <= |used| * PGSIZE
            && (j + n <= i || i + n <= j) && n <= SizeOf(s, y)
  {
    hide Inv, PagesOk, SizeOf, BlockSize, ArenaOk;
    PoolRange(s, used, base, owner, x);
    PoolRange(s, used, base, owner, y);
    HoldsSize(s, y);
    BlocksDisjoint(s, used, base, owner, x, y);
    BlockRoom(s, x);
  }

  lemma Widen(m: seq<Byte>, m': seq<Byte>, a: nat, n: nat, k: nat)
    requires OnlyChanged(m, m', a, n) && n <= k
    ensures OnlyChanged(m, m', a, k)
  {}

  lemma CarriedIs(m: seq<Byte>, m': seq<Byte>, i: nat, j: nat, n: nat)
    requires i + n <= |m| && j + n <= |m'| && m'[j..j + n] == m[i..i + n]
    ensures Carried(m, m', i, j, n)
  {}

  lemma KeptAfter(t: State, u: State, base: nat, m: seq<Byte>, m1: seq<Byte>, m2: seq<Byte>, x: nat, y: nat)
    requires Kept(t, base, m, m1, y) && Kept(u, base, m1, m2, x) && u.live == t.live - {x}
    requires forall z | z in u.live :: SizeOf(u, z) == SizeOf(t, z)
    ensures Kept(u, base, m, m2, y)
  {
    hide SizeOf, SameBytes;
    forall z | z in u.live && z != y ensures SameBytes(m, m2, z - base * PGSIZE, SizeOf(u, z)) {
      SameTwice(m, m1, m2, z - base * PGSIZE, SizeOf(u, z));
    }
  }

  lemma CarriedOn(u: State, base: nat, m: seq<Byte>, m1: seq<Byte>, m2: seq<Byte>, x: nat, y: nat, n: nat)
    requires Carried(m, m1, x - base * PGSIZE, y - base * PGSIZE, n)
    requires Kept(u, base, m1, m2, x) && y in u.live && y != x && n <= SizeOf(u, y)
    ensures Carried(m, m2, x - base * PGSIZE, y - base * PGSIZE, n)
  {
    hide SizeOf;
    var j := y - base * PGSIZE;
    assert SameBytes(m1, m2, j, SizeOf(u, y));
    assert m2[j..j + n] == m1[j..j + n];
  }
}
