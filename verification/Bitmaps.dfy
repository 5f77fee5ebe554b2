/** The bitmaps of bitmap.c: bits packed into 32-bit words, and first-fit search for runs of bits. */
module Bitmaps {
  import opened Wrappers

  const ELEM_BITS: nat := 32

  /** bit_mask */
  function Mask(k: nat): bv32
    requires k < ELEM_BITS
  {
    if k == 0 then 0x1
    else if k == 1 then 0x2
    else if k == 2 then 0x4
    else if k == 3 then 0x8
    else if k == 4 then 0x10
    else if k == 5 then 0x20
    else if k == 6 then 0x40
    else if k == 7 then 0x80
    else if k == 8 then 0x100
    else if k == 9 then 0x200
    else if k == 10 then 0x400
    else if k == 11 then 0x800
    else if k == 12 then 0x1000
    else if k == 13 then 0x2000
    else if k == 14 then 0x4000
    else if k == 15 then 0x8000
    else if k == 16 then 0x10000
    else if k == 17 then 0x20000
    else if k == 18 then 0x40000
    else if k == 19 then 0x80000
    else if k == 20 then 0x100000
    else if k == 21 then 0x200000
    else if k == 22 then 0x400000
    else if k == 23 then 0x800000
    else if k == 24 then 0x1000000
    else if k == 25 then 0x2000000
    else if k == 26 then 0x4000000
    else if k == 27 then 0x8000000
    else if k == 28 then 0x10000000
    else if k == 29 then 0x20000000
    else if k == 30 then 0x40000000
    else 0x80000000
  }

  // Operations on words, by name: each is looked into only by lemmas about arbitrary words.

  predicate OneHot(m: bv32) { m != 0 && m & (m - 1) == 0 }

  predicate Less(m: bv32, n: bv32) { m < n }

  predicate Apart(m: bv32, n: bv32) { m & n == 0 }

  /** Whether the bit of the mask is set in the word. */
  predicate Has(w: bv32, m: bv32) { w & m != 0 }

  /** The OR instruction of bitmap_mark and the AND instruction of bitmap_reset. */
  function Or(w: bv32, m: bv32): bv32 { w | m }

  function AndNot(w: bv32, m: bv32): bv32 { w & !m }

  lemma MaskOneHot(k: nat)
    requires k < ELEM_BITS
    ensures OneHot(Mask(k))
  {}

  lemma MaskNext(k: nat)
    requires k + 1 < ELEM_BITS
    ensures Less(Mask(k), Mask(k + 1))
  {}

  lemma LessTransitive(a: bv32, b: bv32, c: bv32)
    requires Less(a, b) && Less(b, c)
    ensures Less(a, c)
  {}

  lemma {:induction false} MaskOrder(j: nat, k: nat)
    requires j < k < ELEM_BITS
    ensures Less(Mask(j), Mask(k))
    decreases k
  {
    hide *;
    MaskNext(k - 1);
    if j < k - 1 {
      MaskOrder(j, k - 1);
      LessTransitive(Mask(j), Mask(k - 1), Mask(k));
    }
  }

  lemma OneHotApart(m: bv32, n: bv32)
    requires OneHot(m) && OneHot(n) && Less(m, n)
    ensures Apart(m, n) && Apart(n, m)
  {}

  lemma MasksApart(j: nat, k: nat)
    requires j < ELEM_BITS && k < ELEM_BITS && j != k
    ensures Apart(Mask(j), Mask(k))
  {
    hide *;
    MaskOneHot(j);
    MaskOneHot(k);
    if j < k {
      MaskOrder(j, k);
      OneHotApart(Mask(j), Mask(k));
    } else {
      MaskOrder(k, j);
      OneHotApart(Mask(k), Mask(j));
    }
  }

  lemma Distributes(w: bv32, m: bv32, n: bv32)
    ensures (w | m) & n == (w & n) | (m & n)
    ensures (w & !m) & n == (w & n) & !(m & n)
  {}

  lemma WithNothing(x: bv32, y: bv32)
    requires y == 0
    ensures x | y == x && x & !y == x
  {}

  lemma OtherMask(w: bv32, m: bv32, n: bv32)
    requires Apart(m, n)
    ensures Has(Or(w, m), n) <==> Has(w, n)
    ensures Has(AndNot(w, m), n) <==> Has(w, n)
  {
    Distributes(w, m, n);
    WithNothing(w & n, m & n);
  }

  lemma SameMask(w: bv32, m: bv32)
    requires OneHot(m)
    ensures Has(Or(w, m), m) && !Has(AndNot(w, m), m)
  {}

  /** Setting and clearing bit k leave the other bits alone. */
  lemma SetBit(w: bv32, k: nat, j: nat)
    requires k < ELEM_BITS && j < ELEM_BITS
    ensures Has(Or(w, Mask(k)), Mask(j)) <==> j == k || Has(w, Mask(j))
    ensures Has(AndNot(w, Mask(k)), Mask(j)) <==> j != k && Has(w, Mask(j))
  {
    hide *;
    if j != k {
      MasksApart(k, j);
      OtherMask(w, Mask(k), Mask(j));
    } else {
      MaskOneHot(k);
      SameMask(w, Mask(k));
    }
  }

  // ---- runs of bits ----

  /** The cnt bits from start on are all equal to value. */
  predicate AllBits(v: seq<bool>, start: nat, cnt: nat, value: bool)
    requires start + cnt <= |v|
  {
    forall i | start <= i < start + cnt :: v[i] == value
  }

  /** The cnt bits from start on become value. */
  function SetRange(v: seq<bool>, start: nat, cnt: nat, value: bool): (r: seq<bool>)
    requires start + cnt <= |v|
    ensures |r| == |v|
    ensures forall i | 0 <= i < |v| :: r[i] == if start <= i < start + cnt then value else v[i]
  {
    v[..start] + seq(cnt, i => value) + v[start + cnt..]
  }

  /** r is the first run of cnt bits equal to value at or behind start, if there is one. */
  ghost predicate FirstFit(v: seq<bool>, start: nat, cnt: nat, value: bool, r: Option<nat>) {
    match r
    case Some(i) => start <= i && i + cnt <= |v| && AllBits(v, i, cnt, value)
                    && forall j | start <= j < i :: !AllBits(v, j, cnt, value)
    case None => forall j | start <= j && j + cnt <= |v| :: !AllBits(v, j, cnt, value)
  }

  class Bitmap {
    const bitCnt: nat
    const bits: array<bv32>

    ghost predicate Valid() { bitCnt <= ELEM_BITS * bits.Length }

    predicate Bit(i: nat)
      reads bits
      requires Valid() && i < bitCnt
    {
      Has(bits[i / ELEM_BITS], Mask(i % ELEM_BITS))
    }

    /** The bitmap as a sequence of bits. */
    ghost function View(): (v: seq<bool>)
      reads bits
      requires Valid()
      ensures |v| == bitCnt && forall i | 0 <= i < bitCnt :: v[i] == Bit(i)
    {
      seq(bitCnt, i requires 0 <= i < bitCnt reads bits => Bit(i))
    }

    /** bitmap_create */
    constructor (bitCnt: nat)
      ensures Valid() && fresh(bits) && this.bitCnt == bitCnt && View() == seq(bitCnt, i => false)
    {
      this.bitCnt := bitCnt;
      bits := new bv32[(bitCnt + ELEM_BITS - 1) / ELEM_BITS](i => 0);
      new;
      hide Mask, Has;
      forall i | 0 <= i < bitCnt ensures !Bit(i) {
        NoBits(Mask(i % ELEM_BITS));
      }
    }

    /** bitmap_test */
    method Test(i: nat) returns (value: bool)
      requires Valid() && i < bitCnt
      ensures value == View()[i]
    {
      value := Has(bits[i / ELEM_BITS], Mask(i % ELEM_BITS));
    }

    /** bitmap_mark */
    method Mark(i: nat)
      requires Valid() && i < bitCnt
      modifies bits
      ensures View() == old(View())[i := true]
    {
      hide Has, Or, AndNot, Mask;
      var n := i / ELEM_BITS;
      ghost var v, w := View(), bits[n];
      bits[n] := Or(bits[n], Mask(i % ELEM_BITS));
      forall j | 0 <= j < bitCnt ensures Bit(j) == v[i := true][j] {
        SetBit(w, i % ELEM_BITS, j % ELEM_BITS);
        SameIndex(i, j);
        if j / ELEM_BITS != n {
          assert bits[j / ELEM_BITS] == old(bits[j / ELEM_BITS]);
        }
      }
    }

    /** bitmap_reset */
    method Reset(i: nat)
      requires Valid() && i < bitCnt
      modifies bits
      ensures View() == old(View())[i := false]
    {
      hide Has, Or, AndNot, Mask;
      var n := i / ELEM_BITS;
      ghost var v, w := View(), bits[n];
      bits[n] := AndNot(bits[n], Mask(i % ELEM_BITS));
      forall j | 0 <= j < bitCnt ensures Bit(j) == v[i := false][j] {
        SetBit(w, i % ELEM_BITS, j % ELEM_BITS);
        SameIndex(i, j);
        if j / ELEM_BITS != n {
          assert bits[j / ELEM_BITS] == old(bits[j / ELEM_BITS]);
        }
      }
    }

    /** bitmap_set */
    method Set(i: nat, value: bool)
      requires Valid() && i < bitCnt
      modifies bits
      ensures View() == old(View())[i := value]
    {
      if value {
        Mark(i);
      } else {
        Reset(i);
      }
    }

    /** bitmap_set_multiple */
    method SetMultiple(start: nat, cnt: nat, value: bool)
      requires Valid() && start + cnt <= bitCnt
      modifies bits
      ensures View() == SetRange(old(View()), start, cnt, value)
    {
      hide Bit;
      var i := 0;
      assert View() == SetRange(old(View()), start, 0, value);
      while i < cnt
        invariant 0 <= i <= cnt && View() == SetRange(old(View()), start, i, value)
      {
        Set(start + i, value);
        assert View() == SetRange(old(View()), start, i + 1, value);
        i := i + 1;
      }
    }

    /** bitmap_count */
    method Count(start: nat, cnt: nat, value: bool) returns (n: nat)
      requires Valid() && start + cnt <= bitCnt
      ensures n == multiset(View()[start..start + cnt])[value]
    {
      hide Bit;
      n := 0;
      ghost var v := View();
      var i := 0;
      while i < cnt
        invariant 0 <= i <= cnt && n == multiset(v[start..start + i])[value]
      {
        var b := Test(start + i);
        CountOne(v, start, i, value);
        if b == value {
          n := n + 1;
        }
        i := i + 1;
      }
    }

    /** bitmap_contains */
    method Contains(start: nat, cnt: nat, value: bool) returns (found: bool)
      requires Valid() && start + cnt <= bitCnt
      ensures found <==> !AllBits(View(), start, cnt, !value)
    {
      hide Bit;
      var i := 0;
      while i < cnt
        invariant 0 <= i <= cnt && AllBits(View(), start, i, !value)
      {
        var b := Test(start + i);
        if b == value {
          return true;
        }
        i := i + 1;
      }
      return false;
    }

    /** bitmap_scan */
    method Scan(start: nat, cnt: nat, value: bool) returns (r: Option<nat>)
      requires Valid() && start <= bitCnt
      ensures FirstFit(View(), start, cnt, value, r)
    {
      hide Bit, AllBits;
      if cnt <= bitCnt {
        var last := bitCnt - cnt;
        var i := start;
        while i <= last
          invariant start <= i && (i <= last + 1 || i == start)
          invariant forall j | start <= j < i :: j + cnt <= bitCnt && !AllBits(View(), j, cnt, value)
        {
          var blocked := Contains(i, cnt, !value);
          if !blocked {
            return Some(i);
          }
          i := i + 1;
        }
      }
      return None;
    }

    /** bitmap_scan_and_flip */
    method ScanAndFlip(start: nat, cnt: nat, value: bool) returns (r: Option<nat>)
      requires Valid() && start <= bitCnt
      modifies bits
      ensures FirstFit(old(View()), start, cnt, value, r)
      ensures View() == if r.Some? then SetRange(old(View()), r.value, cnt, !value) else old(View())
    {
      hide Bit, AllBits;
      r := Scan(start, cnt, value);
      if r.Some? {
        SetMultiple(r.value, cnt, !value);
      }
    }
  }

  lemma CountOne(v: seq<bool>, start: nat, i: nat, value: bool)
    requires start + i < |v|
    ensures multiset(v[start..start + i + 1])[value]
         == multiset(v[start..start + i])[value] + (if v[start + i] == value then 1 else 0)
  {
    assert v[start..start + i + 1] == v[start..start + i] + [v[start + i]];
  }

  lemma NoBits(m: bv32)
    ensures !Has(0, m)
  {}

  lemma SameIndex(i: nat, j: nat)
    ensures i / ELEM_BITS == j / ELEM_BITS && i % ELEM_BITS == j % ELEM_BITS ==> i == j
  {}
}
