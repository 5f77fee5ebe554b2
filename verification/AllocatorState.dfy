/** The state of the block allocator of malloc.c over the page allocator of palloc.c, with addresses:
    which pages are arenas, which blocks are free, and which have been handed out. */
module AllocatorState {
  import opened Bitmaps
  import BitOps

  const PGSIZE: nat := 4096
  /** sizeof(struct arena): three words */
  const ARENA_SIZE: nat := 12
  const DESC_CNT: nat := 7

  /** The block sizes that malloc_init sets up: the powers of two from 16 below half a page. */
  function BlockSize(d: nat): nat
    requires d < DESC_CNT
  {
    if d == 0 then 16 else if d == 1 then 32 else if d == 2 then 64 else if d == 3 then 128
    else if d == 4 then 256 else if d == 5 then 512 else 1024
  }

  function BlocksPerArena(d: nat): (n: nat)
    requires d < DESC_CNT
    ensures 0 < n && ARENA_SIZE + n * BlockSize(d) <= PGSIZE
  {
    (PGSIZE - ARENA_SIZE) / BlockSize(d)
  }

  /** The header of an arena: of blocks of one size, or of a big block of some pages. */
  datatype Arena = Small(d: nat, freeCnt: nat) | Big(pages: nat)

  function PageCount(a: Arena): nat { if a.Big? then a.pages else 1 }

  // ---- addresses ----

  /** arena_to_block, for the arena in page p */
  function BlockAddr(p: nat, d: nat, k: nat): nat
    requires d < DESC_CNT
  {
    p * PGSIZE + ARENA_SIZE + k * BlockSize(d)
  }

  /** What block_to_arena checks of an address, besides which page it is in. */
  predicate Aligned(x: nat, d: nat)
    requires d < DESC_CNT
  {
    x % PGSIZE >= ARENA_SIZE && (x % PGSIZE - ARENA_SIZE) % BlockSize(d) == 0
  }

  predicate IsBlock(p: nat, d: nat, x: nat)
    requires d < DESC_CNT
  {
    x / PGSIZE == p && Aligned(x, d) && (x % PGSIZE - ARENA_SIZE) / BlockSize(d) < BlocksPerArena(d)
  }

  lemma WithinPage(p: nat, r: nat)
    requires r < PGSIZE
    ensures (p * PGSIZE + r) / PGSIZE == p && (p * PGSIZE + r) % PGSIZE == r
  {}

  lemma Multiple(k: nat, b: nat)
    requires b > 0
    ensures k * b % b == 0 && k * b / b == k
  {
    BitOps.ModUnique(k * b, b, k, 0);
  }

  lemma Increasing(k: nat, n: nat, b: nat)
    requires k < n
    ensures k * b + b <= n * b
  {
    assert (n - k - 1) * b >= 0;
    assert n * b == k * b + b + (n - k - 1) * b;
  }

  /** block_to_arena inverts arena_to_block, and its checks pass. */
  lemma BlockToArena(p: nat, d: nat, k: nat)
    requires d < DESC_CNT && k < BlocksPerArena(d)
    ensures IsBlock(p, d, BlockAddr(p, d, k))
    ensures BlockAddr(p, d, k) / PGSIZE == p && BlockAddr(p, d, k) % PGSIZE + BlockSize(d) <= PGSIZE
  {
    var b, n := BlockSize(d), BlocksPerArena(d);
    hide BlockSize, BlocksPerArena;
    assert b > 0 by {
      SizePositive(d);
    }
    Increasing(k, n, b);
    Multiple(k, b);
    WithinPage(p, ARENA_SIZE + k * b);
  }

  lemma SizePositive(d: nat)
    requires d < DESC_CNT
    ensures BlockSize(d) >= 16
  {}

  /** An address in an arena that passes the checks is that of a block. */
  lemma BlockIndex(p: nat, d: nat, x: nat) returns (k: nat)
    requires d < DESC_CNT && IsBlock(p, d, x)
    ensures k < BlocksPerArena(d) && x == BlockAddr(p, d, k)
  {
    var b, r := BlockSize(d), x % PGSIZE - ARENA_SIZE;
    SizePositive(d);
    hide BlockSize, BlocksPerArena;
    k := r / b;
    DivMod(r, b);
    DivMod(x, PGSIZE);
  }

  lemma DivMod(x: nat, d: nat)
    requires d > 0
    ensures x == x / d * d + x % d
  {}

  /** Different blocks of an arena do not overlap. */
  lemma BlocksApart(p: nat, d: nat, x: nat, y: nat)
    requires d < DESC_CNT && IsBlock(p, d, x) && IsBlock(p, d, y) && x < y
    ensures x + BlockSize(d) <= y
  {
    var j := BlockIndex(p, d, x);
    var k := BlockIndex(p, d, y);
    hide BlocksPerArena;
    if j < k {
      Increasing(j, k, BlockSize(d));
    } else if k < j {
      Increasing(k, j, BlockSize(d));
    }
  }

  /** A block lies in its page behind the header. */
  lemma BlockInPage(p: nat, d: nat, x: nat)
    requires d < DESC_CNT && IsBlock(p, d, x)
    ensures p * PGSIZE + ARENA_SIZE <= x && x + BlockSize(d) <= (p + 1) * PGSIZE
  {
    var k := BlockIndex(p, d, x);
    BlockToArena(p, d, k);
    DivMod(x, PGSIZE);
  }

  /** The first n blocks of an arena. */
  ghost function FirstBlocks(p: nat, d: nat, n: nat): (s: set<nat>)
    requires d < DESC_CNT
  {
    if n == 0 then {} else FirstBlocks(p, d, n - 1) + {BlockAddr(p, d, n - 1)}
  }

  ghost function Blocks(p: nat, d: nat): set<nat>
    requires d < DESC_CNT
  {
    FirstBlocks(p, d, BlocksPerArena(d))
  }

  ghost predicate AmongFirst(p: nat, d: nat, n: nat, x: nat)
    requires d < DESC_CNT
  {
    exists k | 0 <= k < n :: x == BlockAddr(p, d, k)
  }

  lemma {:induction false} FirstBlocksAre(p: nat, d: nat, n: nat)
    requires d < DESC_CNT
    ensures |FirstBlocks(p, d, n)| == n
    ensures forall x: nat :: x in FirstBlocks(p, d, n) <==> AmongFirst(p, d, n, x)
    decreases n
  {
    hide AmongFirst, BlockAddr;
    if n == 0 {
      AmongNone(p, d);
    } else {
      FirstBlocksAre(p, d, n - 1);
      AmongMore(p, d, n);
    }
  }

  lemma AmongNone(p: nat, d: nat)
    requires d < DESC_CNT
    ensures forall x: nat :: !AmongFirst(p, d, 0, x)
  {}

  lemma AmongMore(p: nat, d: nat, n: nat)
    requires d < DESC_CNT && n > 0
    ensures !AmongFirst(p, d, n - 1, BlockAddr(p, d, n - 1))
    ensures forall x: nat :: AmongFirst(p, d, n, x) <==> AmongFirst(p, d, n - 1, x) || x == BlockAddr(p, d, n - 1)
  {
    hide BlockAddr;
    forall k | 0 <= k < n - 1 ensures BlockAddr(p, d, k) != BlockAddr(p, d, n - 1) {
      AddrsDiffer(p, d, k, n - 1);
    }
    forall x: nat ensures AmongFirst(p, d, n, x) <==> AmongFirst(p, d, n - 1, x) || x == BlockAddr(p, d, n - 1) {}
  }

  lemma AddrsDiffer(p: nat, d: nat, j: nat, k: nat)
    requires d < DESC_CNT && j < k
    ensures BlockAddr(p, d, j) < BlockAddr(p, d, k)
  {
    SizePositive(d);
    hide BlockSize;
    Increasing(j, k, BlockSize(d));
  }

  lemma BlocksAre(p: nat, d: nat)
    requires d < DESC_CNT
    ensures |Blocks(p, d)| == BlocksPerArena(d)
    ensures forall x: nat :: x in Blocks(p, d) <==> IsBlock(p, d, x)
  {
    var n := BlocksPerArena(d);
    FirstBlocksAre(p, d, n);
    hide BlocksPerArena, BlockAddr, IsBlock, FirstBlocks;
    forall x: nat ensures x in Blocks(p, d) <==> IsBlock(p, d, x) {
      if x in Blocks(p, d) {
        assert AmongFirst(p, d, n, x);
        var k :| 0 <= k < n && x == BlockAddr(p, d, k);
        BlockToArena(p, d, k);
      }
      if IsBlock(p, d, x) {
        var k := BlockIndex(p, d, x);
      }
    }
  }

  // ---- states ----

  /** Free blocks by descriptor, and for each block that has been handed out the size asked for. */
  datatype State = State(arenas: map<nat, Arena>, frees: seq<set<nat>>, live: map<nat, nat>)

  ghost function InPage(s: set<nat>, p: nat): set<nat> { set x | x in s && x / PGSIZE == p }

  /** How many bytes a block holds. */
  function Capacity(a: Arena): int
    requires a.Small? ==> a.d < DESC_CNT
  {
    if a.Small? then BlockSize(a.d) else a.pages * PGSIZE - ARENA_SIZE
  }

  /** A block of arena a in page p. */
  predicate BlockOf(a: Arena, p: nat, x: nat)
    requires a.Small? ==> a.d < DESC_CNT
  {
    if a.Small? then IsBlock(p, a.d, x) else x == p * PGSIZE + ARENA_SIZE
  }

  ghost predicate ArenaOk(a: Arena) { if a.Small? then a.d < DESC_CNT else a.pages > 0 }

  ghost predicate ArenasOk(s: State) {
    |s.frees| == DESC_CNT && forall p | p in s.arenas :: ArenaOk(s.arenas[p])
  }

  /** Free blocks lie in arenas of their descriptor. */
  ghost predicate FreesOk(s: State)
    requires ArenasOk(s)
  {
    forall d, x | 0 <= d < DESC_CNT && x in s.frees[d] ::
      x / PGSIZE in s.arenas && s.arenas[x / PGSIZE].Small? && s.arenas[x / PGSIZE].d == d && IsBlock(x / PGSIZE, d, x)
  }

  /** Blocks that have been handed out lie in arenas, and hold what was asked for. */
  ghost predicate LiveOk(s: State)
    requires ArenasOk(s)
  {
    forall x | x in s.live ::
      x / PGSIZE in s.arenas && BlockOf(s.arenas[x / PGSIZE], x / PGSIZE, x)
      && 0 < s.live[x] <= Capacity(s.arenas[x / PGSIZE])
  }

  /** Every block of an arena is either free or handed out. */
  ghost predicate Partition(s: State)
    requires ArenasOk(s)
  {
    forall p, x: nat | p in s.arenas && BlockOf(s.arenas[p], p, x) ::
      x in s.live <==> !(s.arenas[p].Small? && x in s.frees[s.arenas[p].d])
  }

  /** The header counts the free blocks of its arena. */
  ghost predicate CountsOk(s: State)
    requires ArenasOk(s)
  {
    forall p | p in s.arenas && s.arenas[p].Small? ::
      s.arenas[p].freeCnt == |InPage(s.frees[s.arenas[p].d], p)|
  }

  ghost predicate Inv(s: State) {
    ArenasOk(s) && FreesOk(s) && LiveOk(s) && Partition(s) && CountsOk(s)
  }

  /** No arena is kept when all its blocks are free. */
  ghost predicate NoneIdle(s: State)
    requires ArenasOk(s)
  {
    forall p | p in s.arenas && s.arenas[p].Small? :: s.arenas[p].freeCnt < BlocksPerArena(s.arenas[p].d)
  }

  // ---- steps ----

  lemma InPageMore(s: set<nat>, x: nat, p: nat)
    ensures InPage(s + {x}, p) == if x / PGSIZE == p then InPage(s, p) + {x} else InPage(s, p)
  {}

  lemma InPageLess(s: set<nat>, x: nat, p: nat)
    ensures InPage(s - {x}, p) == if x / PGSIZE == p then InPage(s, p) - {x} else InPage(s, p)
  {}

  lemma InPageBlocks(s: set<nat>, t: set<nat>, p: nat, q: nat)
    requires forall x | x in t :: x / PGSIZE == q
    ensures p != q ==> InPage(s + t, p) == InPage(s, p) && InPage(s - t, p) == InPage(s, p)
  {}

  /** malloc, when the free list is empty: a page becomes an arena and all its blocks are free. */
  ghost function NewArena(s: State, p: nat, d: nat): State
    requires d < DESC_CNT && |s.frees| == DESC_CNT
  {
    s.(arenas := s.arenas[p := Small(d, BlocksPerArena(d))], frees := s.frees[d := s.frees[d] + Blocks(p, d)])
  }

  lemma NoneThere(s: State, p: nat)
    requires Inv(s) && p !in s.arenas
    ensures forall d, x | 0 <= d < DESC_CNT && x in s.frees[d] :: x / PGSIZE != p
    ensures forall x | x in s.live :: x / PGSIZE != p
  {}

  lemma NewArenaOk(s: State, p: nat, d: nat)
    requires Inv(s) && p !in s.arenas && d < DESC_CNT
    ensures Inv(NewArena(s, p, d))
  {
    BlocksAre(p, d);
    NoneThere(s, p);
    hide BlockSize, BlocksPerArena, IsBlock, Blocks;
    NewArenaCounts(s, p, d);
    NewArenaPartition(s, p, d);
  }

  lemma NewArenaCounts(s: State, p: nat, d: nat)
    requires Inv(s) && p !in s.arenas && d < DESC_CNT
    ensures CountsOk(NewArena(s, p, d))
  {
    BlocksAre(p, d);
    NoneThere(s, p);
    hide BlockSize, BlocksPerArena, IsBlock, Blocks, FreesOk, Partition, LiveOk;
    var t := NewArena(s, p, d);
    forall x: nat | IsBlock(p, d, x) ensures x / PGSIZE == p {
      InItsPage(p, d, x);
    }
    forall q | q in t.arenas && t.arenas[q].Small?
      ensures t.arenas[q].freeCnt == |InPage(t.frees[t.arenas[q].d], q)|
    {
      InPageBlocks(s.frees[d], Blocks(p, d), q, p);
      if q == p {
        assert InPage(t.frees[d], p) == Blocks(p, d);
      }
    }
  }

  lemma NewArenaPartition(s: State, p: nat, d: nat)
    requires Inv(s) && p !in s.arenas && d < DESC_CNT
    ensures Partition(NewArena(s, p, d))
  {
    BlocksAre(p, d);
    NoneThere(s, p);
    hide BlockSize, BlocksPerArena, IsBlock, Blocks, FreesOk, CountsOk, LiveOk;
    var t := NewArena(s, p, d);
    forall q, x: nat | q in t.arenas && BlockOf(t.arenas[q], q, x)
      ensures x in t.live <==> !(t.arenas[q].Small? && x in t.frees[t.arenas[q].d])
    {
      BlockInItsPage(t.arenas[q], q, x);
      if q == p {
        assert x in Blocks(p, d);
      }
    }
  }

  lemma InItsPage(p: nat, d: nat, x: nat)
    requires d < DESC_CNT && IsBlock(p, d, x)
    ensures x / PGSIZE == p
  {}

  lemma BlockInItsPage(a: Arena, p: nat, x: nat)
    requires ArenaOk(a) && BlockOf(a, p, x)
    ensures x / PGSIZE == p
  {
    if a.Big? {
      WithinPage(p, ARENA_SIZE);
    }
  }

  /** malloc's last step: a free block is handed out. */
  ghost function Take(s: State, d: nat, x: nat, size: nat): State
    requires d < |s.frees| && x / PGSIZE in s.arenas && s.arenas[x / PGSIZE].Small?
  {
    var p := x / PGSIZE;
    State(s.arenas[p := s.arenas[p].(freeCnt := if s.arenas[p].freeCnt > 0 then s.arenas[p].freeCnt - 1 else 0)],
          s.frees[d := s.frees[d] - {x}], s.live[x := size])
  }

  lemma TakeOk(s: State, d: nat, x: nat, size: nat)
    requires Inv(s) && d < DESC_CNT && x in s.frees[d] && 0 < size <= BlockSize(d)
    ensures x / PGSIZE in s.arenas && s.arenas[x / PGSIZE].Small? && s.arenas[x / PGSIZE].freeCnt > 0
    ensures x !in s.live && Inv(Take(s, d, x, size))
  {
    hide BlockSize, BlocksPerArena, IsBlock;
    var p := x / PGSIZE;
    assert x in InPage(s.frees[d], p);
    assert BlockOf(s.arenas[p], p, x);
    var t := Take(s, d, x, size);
    forall q | q in t.arenas && t.arenas[q].Small?
      ensures t.arenas[q].freeCnt == |InPage(t.frees[t.arenas[q].d], q)|
    {
      InPageLess(s.frees[d], x, q);
    }
    forall q, y: nat | q in t.arenas && BlockOf(t.arenas[q], q, y)
      ensures y in t.live <==> !(t.arenas[q].Small? && y in t.frees[t.arenas[q].d])
    {
      BlockInItsPage(s.arenas[q], q, y);
    }
  }

  /** free's first step: a block is free again. */
  ghost function Give(s: State, x: nat): State
    requires x / PGSIZE in s.arenas && s.arenas[x / PGSIZE].Small? && s.arenas[x / PGSIZE].d < |s.frees|
  {
    var p := x / PGSIZE;
    var d := s.arenas[p].d;
    State(s.arenas[p := s.arenas[p].(freeCnt := s.arenas[p].freeCnt + 1)], s.frees[d := s.frees[d] + {x}],
          s.live - {x})
  }

  lemma GiveOk(s: State, x: nat)
    requires Inv(s) && x in s.live && x / PGSIZE in s.arenas && s.arenas[x / PGSIZE].Small?
    ensures x !in s.frees[s.arenas[x / PGSIZE].d] && Inv(Give(s, x))
  {
    hide BlockSize, BlocksPerArena, IsBlock;
    var p := x / PGSIZE;
    var d := s.arenas[p].d;
    assert BlockOf(s.arenas[p], p, x);
    var t := Give(s, x);
    forall q | q in t.arenas && t.arenas[q].Small?
      ensures t.arenas[q].freeCnt == |InPage(t.frees[t.arenas[q].d], q)|
    {
      InPageMore(s.frees[d], x, q);
    }
    forall q, y: nat | q in t.arenas && BlockOf(t.arenas[q], q, y)
      ensures y in t.live <==> !(t.arenas[q].Small? && y in t.frees[t.arenas[q].d])
    {
      BlockInItsPage(s.arenas[q], q, y);
    }
  }

  lemma FullSubset(a: set<nat>, b: set<nat>)
    requires a <= b && |a| >= |b|
    ensures a == b
  {
    if x :| x in b && x !in a {
      assert a <= b - {x};
      SubsetSize(a, b - {x});
    }
  }

  lemma {:induction false} SubsetSize(a: set<nat>, b: set<nat>)
    requires a <= b
    ensures |a| <= |b|
    decreases |a|
  {
    if a != {} {
      var x :| x in a;
      SubsetSize(a - {x}, b - {x});
    }
  }

  /** The count in the header reaches the number of blocks exactly when all of them are free. */
  lemma AllFree(s: State, p: nat)
    requires Inv(s) && p in s.arenas && s.arenas[p].Small?
    ensures s.arenas[p].freeCnt <= BlocksPerArena(s.arenas[p].d)
    ensures s.arenas[p].freeCnt == BlocksPerArena(s.arenas[p].d) <==> Blocks(p, s.arenas[p].d) <= s.frees[s.arenas[p].d]
  {
    var d := s.arenas[p].d;
    BlocksAre(p, d);
    hide BlockSize, BlocksPerArena, IsBlock, Blocks;
    var mine := InPage(s.frees[d], p);
    assert mine <= Blocks(p, d);
    SubsetSize(mine, Blocks(p, d));
    if |mine| == |Blocks(p, d)| {
      FullSubset(mine, Blocks(p, d));
    }
    if Blocks(p, d) <= s.frees[d] {
      forall x | x in Blocks(p, d) ensures x in mine {
        InItsPage(p, d, x);
      }
      assert mine == Blocks(p, d);
    }
  }

  /** free's last step: an arena whose blocks are all free is given up. */
  ghost function DropArena(s: State, p: nat): State
    requires p in s.arenas && s.arenas[p].Small? && s.arenas[p].d < DESC_CNT && |s.frees| == DESC_CNT
  {
    var d := s.arenas[p].d;
    s.(arenas := s.arenas - {p}, frees := s.frees[d := s.frees[d] - Blocks(p, d)])
  }

  lemma DropArenaOk(s: State, p: nat)
    requires Inv(s) && p in s.arenas && s.arenas[p].Small? && Blocks(p, s.arenas[p].d) <= s.frees[s.arenas[p].d]
    ensures Inv(DropArena(s, p)) && forall x | x in s.live :: x / PGSIZE != p
  {
    var d := s.arenas[p].d;
    BlocksAre(p, d);
    hide BlockSize, BlocksPerArena, IsBlock, Blocks;
    forall x: nat | IsBlock(p, d, x) ensures x / PGSIZE == p {
      InItsPage(p, d, x);
    }
    var t := DropArena(s, p);
    forall x | x in s.live ensures x / PGSIZE != p {
      assert BlockOf(s.arenas[x / PGSIZE], x / PGSIZE, x);
      assert x in Blocks(p, d) <==> IsBlock(p, d, x);
    }
    forall q | q in t.arenas && t.arenas[q].Small?
      ensures t.arenas[q].freeCnt == |InPage(t.frees[t.arenas[q].d], q)|
    {
      InPageBlocks(s.frees[d], Blocks(p, d), q, p);
    }
    forall q, y: nat | q in t.arenas && BlockOf(t.arenas[q], q, y)
      ensures y in t.live <==> !(t.arenas[q].Small? && y in t.frees[t.arenas[q].d])
    {
      BlockInItsPage(s.arenas[q], q, y);
    }
  }

  /** A big block: pages of its own, with the header in front. */
  ghost function NewBig(s: State, p: nat, pages: nat, size: nat): State {
    s.(arenas := s.arenas[p := Big(pages)], live := s.live[p * PGSIZE + ARENA_SIZE := size])
  }

  lemma NewBigOk(s: State, p: nat, pages: nat, size: nat)
    requires Inv(s) && p !in s.arenas && pages > 0 && 0 < size <= pages * PGSIZE - ARENA_SIZE
    ensures p * PGSIZE + ARENA_SIZE !in s.live && Inv(NewBig(s, p, pages, size))
  {
    NoneThere(s, p);
    WithinPage(p, ARENA_SIZE);
    hide BlockSize, BlocksPerArena, IsBlock;
    var t := NewBig(s, p, pages, size);
    forall q, y: nat | q in t.arenas && BlockOf(t.arenas[q], q, y)
      ensures y in t.live <==> !(t.arenas[q].Small? && y in t.frees[t.arenas[q].d])
    {
      BlockInItsPage(t.arenas[q], q, y);
    }
  }

  ghost function DropBig(s: State, p: nat): State {
    s.(arenas := s.arenas - {p}, live := s.live - {p * PGSIZE + ARENA_SIZE})
  }

  lemma DropBigOk(s: State, p: nat)
    requires Inv(s) && p in s.arenas && s.arenas[p].Big?
    ensures Inv(DropBig(s, p))
  {
    WithinPage(p, ARENA_SIZE);
    hide BlockSize, BlocksPerArena, IsBlock;
    var t := DropBig(s, p);
    forall x | x in t.live ensures x / PGSIZE != p {
      assert BlockOf(s.arenas[x / PGSIZE], x / PGSIZE, x);
    }
    forall q, y: nat | q in t.arenas && BlockOf(t.arenas[q], q, y)
      ensures y in t.live <==> !(t.arenas[q].Small? && y in t.frees[t.arenas[q].d])
    {
      BlockInItsPage(s.arenas[q], q, y);
    }
  }

  // ---- pages ----

  ghost predicate InArena(arenas: map<nat, Arena>, p: nat, q: nat) {
    p in arenas && p <= q < p + PageCount(arenas[p])
  }

  /** The pool's pages that are marked used, from page base on, are those of the arenas, and each belongs to
      one arena: owner says to which. */
  ghost predicate PagesOk(used: seq<bool>, base: nat, owner: map<nat, nat>, arenas: map<nat, Arena>) {
    && (forall i | 0 <= i < |used| :: used[i] <==> base + i in owner)
    && (forall q | q in owner :: base <= q < base + |used|)
    && Owned(owner, arenas)
  }

  ghost predicate Owned(owner: map<nat, nat>, arenas: map<nat, Arena>) {
    && (forall q | q in owner :: InArena(arenas, owner[q], q))
    && (forall p, q: nat | InArena(arenas, p, q) :: q in owner && owner[q] == p)
  }

  ghost function PageRange(p: nat, cnt: nat): (r: set<nat>)
    ensures forall q: nat :: q in r <==> p <= q < p + cnt
  {
    if cnt == 0 then {} else PageRange(p, cnt - 1) + {p + cnt - 1}
  }

  ghost function Given(owner: map<nat, nat>, p: nat, cnt: nat): map<nat, nat> {
    owner + (map q | q in PageRange(p, cnt) :: p)
  }

  /** palloc_get_multiple: free pages become an arena. */
  lemma GotPages(used: seq<bool>, base: nat, owner: map<nat, nat>, arenas: map<nat, Arena>, i: nat, a: Arena)
    requires PagesOk(used, base, owner, arenas) && PageCount(a) > 0
    requires i + PageCount(a) <= |used| && AllBits(used, i, PageCount(a), false)
    ensures base + i !in arenas || PageCount(arenas[base + i]) == 0
    ensures PagesOk(SetRange(used, i, PageCount(a), true), base, Given(owner, base + i, PageCount(a)),
                    arenas[base + i := a])
  {
    var p, cnt := base + i, PageCount(a);
    hide PageRange, PageCount, Given, Owned;
    forall q | p <= q < p + cnt ensures q !in owner {
      assert used[q - base] == false;
    }
    assert p <= p < p + cnt && p !in owner;
    NotAnArena(owner, arenas, p);
    GotMarks(used, base, owner, i, cnt);
    GotOwners(owner, arenas, p, a, Given(owner, p, cnt), arenas[p := a]);
    var used', owner' := SetRange(used, i, cnt, true), Given(owner, p, cnt);
    forall q | q in owner' ensures base <= q < base + |used'| {
      assert q in owner || p <= q < p + cnt;
    }
  }

  lemma NotAnArena(owner: map<nat, nat>, arenas: map<nat, Arena>, p: nat)
    requires Owned(owner, arenas) && p !in owner
    ensures p !in arenas || PageCount(arenas[p]) == 0
  {
    assert InArena(arenas, p, p) ==> p in owner;
  }

  lemma GotMarks(used: seq<bool>, base: nat, owner: map<nat, nat>, i: nat, cnt: nat)
    requires i + cnt <= |used|
    requires forall j | 0 <= j < |used| :: used[j] <==> base + j in owner
    ensures forall j | 0 <= j < |used| :: SetRange(used, i, cnt, true)[j] <==> base + j in Given(owner, base + i, cnt)
    ensures forall q :: q in Given(owner, base + i, cnt) <==> q in owner || base + i <= q < base + i + cnt
  {
    hide PageRange;
  }

  lemma GotOwners(owner: map<nat, nat>, arenas: map<nat, Arena>, p: nat, a: Arena,
                  owner': map<nat, nat>, arenas': map<nat, Arena>)
    requires Owned(owner, arenas) && PageCount(a) > 0 && arenas' == arenas[p := a]
    requires (forall q | p <= q < p + PageCount(a) :: q !in owner) && owner' == Given(owner, p, PageCount(a))
    ensures Owned(owner', arenas')
  {
    hide PageRange, PageCount;
    var cnt := PageCount(a);
    assert p !in owner;
    forall q | q in owner' ensures InArena(arenas', owner'[q], q) {
      if !(p <= q < p + cnt) {
        OwnerElsewhere(owner, arenas, q);
      }
    }
    forall r, q: nat | InArena(arenas', r, q) ensures q in owner' && owner'[q] == r {
      if r != p {
        assert InArena(arenas, r, q);
      }
    }
  }

  lemma OwnerElsewhere(owner: map<nat, nat>, arenas: map<nat, Arena>, q: nat)
    requires Owned(owner, arenas) && q in owner
    ensures InArena(arenas, owner[q], q) && owner[q] in owner
  {
    assert InArena(arenas, owner[q], q);
    assert InArena(arenas, owner[q], owner[q]);
  }

  /** palloc_free_multiple: the pages of an arena are free again. */
  lemma FreedPages(used: seq<bool>, base: nat, owner: map<nat, nat>, arenas: map<nat, Arena>, p: nat)
    requires PagesOk(used, base, owner, arenas) && p in arenas && PageCount(arenas[p]) > 0
    ensures var cnt := PageCount(arenas[p]);
            base <= p && p + cnt <= base + |used| && AllBits(used, p - base, cnt, true)
            && PagesOk(SetRange(used, p - base, cnt, false), base, owner - PageRange(p, cnt), arenas - {p})
  {
    var cnt := PageCount(arenas[p]);
    hide PageRange;
    assert InArena(arenas, p, p) && InArena(arenas, p, p + cnt - 1);
    forall q: nat | p <= q < p + cnt ensures q in owner && owner[q] == p {
      assert InArena(arenas, p, q);
    }
    forall i | p - base <= i < p - base + cnt ensures used[i] {
      assert base + i in owner;
    }
    var used', owner', arenas' := SetRange(used, p - base, cnt, false), owner - PageRange(p, cnt), arenas - {p};
    forall q | q in owner' ensures InArena(arenas', owner'[q], q) {
      assert InArena(arenas, owner[q], q);
    }
    forall r, q: nat | InArena(arenas', r, q) ensures q in owner' && owner'[q] == r {
      assert InArena(arenas, r, q);
    }
  }

  /** A block's bytes lie in the pages of its arena, behind the header. */
  lemma BlockBytes(a: Arena, p: nat, x: nat)
    requires ArenaOk(a) && BlockOf(a, p, x)
    ensures p * PGSIZE + ARENA_SIZE <= x && x + Capacity(a) <= (p + PageCount(a)) * PGSIZE
  {
    if a.Small? {
      BlockInPage(p, a.d, x);
    }
  }

  /** Blocks that have been handed out do not overlap, and each holds what was asked for. */
  lemma LiveApart(s: State, used: seq<bool>, base: nat, owner: map<nat, nat>, x: nat, y: nat)
    requires Inv(s) && PagesOk(used, base, owner, s.arenas) && x in s.live && y in s.live && x < y
    ensures x / PGSIZE in s.arenas && s.live[x] <= Capacity(s.arenas[x / PGSIZE])
    ensures x + Capacity(s.arenas[x / PGSIZE]) <= y
  {
    var p, q := x / PGSIZE, y / PGSIZE;
    var a, b := s.arenas[p], s.arenas[q];
    assert BlockOf(a, p, x) && BlockOf(b, q, y);
    BlockBytes(a, p, x);
    BlockBytes(b, q, y);
    hide BlockSize, BlocksPerArena, IsBlock;
    if p == q {
      SameArena(a, p, x, y);
    } else {
      OwnPage(s, q);
      PagesApart(used, base, owner, s.arenas, p, q);
      PagesBelow(p + PageCount(a), q);
    }
  }

  /** The pages of an arena end where the next one begins, or before. */
  lemma PagesApart(used: seq<bool>, base: nat, owner: map<nat, nat>, arenas: map<nat, Arena>, p: nat, q: nat)
    requires PagesOk(used, base, owner, arenas) && p in arenas && p < q && InArena(arenas, q, q)
    ensures p + PageCount(arenas[p]) <= q
  {
    assert !InArena(arenas, p, q);
  }

  lemma OwnPage(s: State, q: nat)
    requires Inv(s) && q in s.arenas
    ensures InArena(s.arenas, q, q)
  {}

  lemma PagesBelow(m: nat, n: nat)
    requires m <= n
    ensures m * PGSIZE <= n * PGSIZE
  {}

  lemma SameArena(a: Arena, p: nat, x: nat, y: nat)
    requires ArenaOk(a) && BlockOf(a, p, x) && BlockOf(a, p, y) && x < y
    ensures x + Capacity(a) <= y
  {
    if a.Small? {
      BlocksApart(p, a.d, x, y);
    }
  }

  /** A block that has been handed out lies outside the pages of every other arena. */
  lemma ArenaApart(s: State, used: seq<bool>, base: nat, owner: map<nat, nat>, p: nat, y: nat)
    requires Inv(s) && PagesOk(used, base, owner, s.arenas) && p in s.arenas && y in s.live && y / PGSIZE != p
    ensures y / PGSIZE in s.arenas && ArenaOk(s.arenas[y / PGSIZE])
    ensures y + Capacity(s.arenas[y / PGSIZE]) <= p * PGSIZE || (p + PageCount(s.arenas[p])) * PGSIZE <= y
  {
    var q := y / PGSIZE;
    var a, b := s.arenas[p], s.arenas[q];
    assert BlockOf(b, q, y);
    BlockBytes(b, q, y);
    OwnPage(s, p);
    OwnPage(s, q);
    hide BlockSize, BlocksPerArena, IsBlock;
    if q < p {
      PagesApart(used, base, owner, s.arenas, q, p);
      PagesBelow(q + PageCount(b), p);
    } else {
      PagesApart(used, base, owner, s.arenas, p, q);
      PagesBelow(p + PageCount(a), q);
    }
  }

  /** A block that has been handed out lies in the pool. */
  lemma LiveInPool(s: State, used: seq<bool>, base: nat, owner: map<nat, nat>, x: nat)
    requires Inv(s) && PagesOk(used, base, owner, s.arenas) && x in s.live
    ensures x / PGSIZE in s.arenas && ArenaOk(s.arenas[x / PGSIZE])
    ensures base * PGSIZE <= x && x + Capacity(s.arenas[x / PGSIZE]) <= (base + |used|) * PGSIZE
  {
    var p := x / PGSIZE;
    var a := s.arenas[p];
    assert BlockOf(a, p, x);
    BlockBytes(a, p, x);
    OwnPage(s, p);
    hide BlockSize, BlocksPerArena, IsBlock;
    assert InArena(s.arenas, p, p + PageCount(a) - 1);
    PagesBelow(base, p);
    PagesBelow(p + PageCount(a), base + |used|);
  }
}
