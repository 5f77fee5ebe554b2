/** The bit operations of hash.c on natural numbers: the bitwise AND, and what it does next to powers
    of two. */
module BitOps {
  import opened Arithmetic

  /** The & operator. */
  function And(x: nat, y: nat): (r: nat)
    ensures r <= x && r <= y
    decreases x
  {
    if x == 0 || y == 0 then 0 else 2 * And(x / 2, y / 2) + (x % 2) * (y % 2)
  }

  lemma AndOdd(x: nat, p: nat)
    requires p > 0
    ensures And(x, 2 * p - 1) == 2 * And(x / 2, p - 1) + x % 2
  {
    assert (2 * p - 1) / 2 == p - 1 && (2 * p - 1) % 2 == 1;
  }

  /** Masking with a power of two less one is the remainder. */
  lemma {:induction false} AndMask(x: nat, k: nat)
    ensures And(x, Pow2(k) - 1) == x % Pow2(k)
    decreases k
  {
    hide And;
    if k == 0 {
      AndNothing(x);
    } else {
      AndMask(x / 2, k - 1);
      AndMaskStep(x, Pow2(k - 1), Pow2(k));
    }
  }

  lemma AndNothing(x: nat)
    ensures And(x, 0) == 0 == x % 1
  {}

  lemma AndMaskStep(x: nat, p: nat, q: nat)
    requires p > 0 && q == 2 * p && And(x / 2, p - 1) == x / 2 % p
    ensures And(x, q - 1) == x % q
  {
    hide And;
    AndOdd(x, p);
    HalfMod(x, p);
  }

  lemma HalfMod(x: nat, p: nat)
    requires p > 0
    ensures x % (2 * p) == 2 * (x / 2 % p) + x % 2
  {
    var q := x / 2 / p;
    DivMod(x / 2, p);
    Doubled(q, p, x / 2 % p, x);
    ModUnique(x, 2 * p, q, 2 * (x / 2 % p) + x % 2);
  }

  lemma DivMod(x: nat, d: nat)
    requires d > 0
    ensures x == x / d * d + x % d && x % d < d
  {}

  lemma Doubled(q: nat, p: nat, r: nat, x: nat)
    requires x / 2 == q * p + r
    ensures x == q * (2 * p) + (2 * r + x % 2)
  {
    assert q * (2 * p) == 2 * (q * p);
  }

  lemma ModUnique(x: nat, d: nat, q: nat, r: nat)
    requires d > 0 && x == q * d + r && r < d
    ensures x % d == r && x / d == q
  {
    DivMod(x, d);
    SameQuotient(d, q, x / d, r, x % d);
  }

  lemma SameQuotient(d: nat, q: nat, q': nat, r: nat, r': nat)
    requires q * d + r == q' * d + r' && r < d && r' < d
    ensures r == r' && q == q'
  {
    NextMultiple(q, d);
    NextMultiple(q', d);
    if q < q' {
      MulMono(q + 1, q', d);
    } else if q' < q {
      MulMono(q' + 1, q, d);
    }
  }

  lemma NextMultiple(q: nat, d: nat)
    ensures (q + 1) * d == q * d + d
  {}

  /** turn_off_least_1bit */
  function TurnOffLeast1Bit(x: nat): nat
    requires x > 0
  {
    And(x, x - 1)
  }

  lemma TurnOffEven(y: nat)
    requires y > 0
    ensures TurnOffLeast1Bit(2 * y) == 2 * TurnOffLeast1Bit(y)
  {
    assert (2 * y - 1) / 2 == y - 1;
  }

  lemma {:induction false} AndSelf(x: nat)
    ensures And(x, x) == x
    decreases x
  {
    if x > 0 {
      AndSelf(x / 2);
    }
  }

  lemma TurnOffOdd(y: nat)
    ensures TurnOffLeast1Bit(2 * y + 1) == 2 * y
  {
    AndSelf(y);
    if y > 0 {
      assert (2 * y) / 2 == y && (2 * y + 1) / 2 == y;
    }
  }

  /** is_power_of_2 */
  predicate IsPowerOf2(x: nat) { x != 0 && TurnOffLeast1Bit(x) == 0 }

  /** The exponent of the largest power of two in x. */
  function Log2(x: nat): (k: nat)
    requires x > 0
    ensures Pow2(k) <= x < 2 * Pow2(k)
  {
    if x == 1 then 0 else 1 + Log2(x / 2)
  }

  lemma {:induction false} PowerOf2Iff(x: nat)
    requires x > 0
    ensures IsPowerOf2(x) <==> x == Pow2(Log2(x))
    decreases x
  {
    if x > 1 {
      var y := x / 2;
      PowerOf2Iff(y);
      if x % 2 == 0 {
        TurnOffEven(y);
      } else {
        TurnOffOdd(y);
      }
    }
  }

  lemma {:induction false} PowerOf2(k: nat)
    ensures IsPowerOf2(Pow2(k))
    decreases k
  {
    if k > 0 {
      PowerOf2(k - 1);
      TurnOffEven(Pow2(k - 1));
    }
  }

  /** Turning off the least bit of a number that is no power of two keeps its largest power of two. */
  lemma {:induction false} TurnOffKeeps(x: nat)
    requires x > 0 && !IsPowerOf2(x)
    ensures 0 < TurnOffLeast1Bit(x) < x && Log2(TurnOffLeast1Bit(x)) == Log2(x)
    decreases x
  {
    var y := x / 2;
    if x % 2 == 0 {
      TurnOffEven(y);
      TurnOffKeeps(y);
    } else {
      TurnOffOdd(y);
    }
  }
}
