/** Powers of two, alignment and the two bit operations the page allocator uses, on unbounded naturals. */
module Bits {

  function Pow2(k: nat): (r: nat)
    ensures r >= 1
  {
    if k == 0 then 1 else 2 * Pow2(k - 1)
  }

  /** `p` is a multiple of `Pow2(k)`: its low `k` bits are zero. */
  predicate Aligned(p: nat, k: nat)
  {
    k == 0 || (p % 2 == 0 && Aligned(p / 2, k - 1))
  }

  /** Bit `k` of `p`. */
  predicate BitSet(p: nat, k: nat)
  {
    if k == 0 then p % 2 == 1 else BitSet(p / 2, k - 1)
  }

  /** Bitwise exclusive or. */
  function Xor(a: nat, b: nat): nat
    decreases a + b
  {
    if a == 0 && b == 0 then 0 else 2 * Xor(a / 2, b / 2) + (a % 2 + b % 2) % 2
  }

  /** Bitwise `a & ~b`. */
  function AndNot(a: nat, b: nat): nat
  {
    if a == 0 then 0 else 2 * AndNot(a / 2, b / 2) + (if a % 2 == 1 && b % 2 == 0 then 1 else 0)
  }

  lemma {:induction false} XorZero(a: nat)
    ensures Xor(a, 0) == a
  {
    if a != 0 { XorZero(a / 2); }
  }

  lemma {:induction false} AndNotZero(a: nat)
    ensures AndNot(a, 0) == a
  {
    if a != 0 { AndNotZero(a / 2); }
  }

  /** Exclusive or with a power of two flips that bit. */
  lemma {:induction false} XorPow2(p: nat, k: nat)
    ensures BitSet(p, k) ==> p >= Pow2(k)
    ensures Xor(p, Pow2(k)) == if BitSet(p, k) then p - Pow2(k) else p + Pow2(k)
  {
    if k == 0 {
      XorZero(p / 2);
    } else {
      XorPow2(p / 2, k - 1);
      assert Pow2(k) / 2 == Pow2(k - 1);
    }
  }

  /** `&= ~(1 << k)` clears that bit. */
  lemma {:induction false} AndNotPow2(p: nat, k: nat)
    ensures BitSet(p, k) ==> p >= Pow2(k)
    ensures AndNot(p, Pow2(k)) == if BitSet(p, k) then p - Pow2(k) else p
  {
    if k == 0 {
      AndNotZero(p / 2);
    } else {
      AndNotPow2(p / 2, k - 1);
      assert Pow2(k) / 2 == Pow2(k - 1);
    }
  }

  /** Adding or dropping bit `k` of a `k`-aligned number keeps it `k`-aligned and flips the bit. */
  lemma {:induction false} FlipBit(p: nat, k: nat)
    requires Aligned(p, k)
    ensures BitSet(p, k) ==> p >= Pow2(k) && Aligned(p - Pow2(k), k) && !BitSet(p - Pow2(k), k)
    ensures !BitSet(p, k) ==> Aligned(p + Pow2(k), k) && BitSet(p + Pow2(k), k)
    ensures Aligned(p, k + 1) <==> !BitSet(p, k)
  {
    if k > 0 {
      FlipBit(p / 2, k - 1);
      assert (p + Pow2(k)) / 2 == p / 2 + Pow2(k - 1);
      if BitSet(p, k) { assert (p - Pow2(k)) / 2 == p / 2 - Pow2(k - 1); }
    }
  }

  lemma {:induction false} AlignedDown(p: nat, j: nat, k: nat)
    requires j <= k && Aligned(p, k)
    ensures Aligned(p, j)
  {
    if j > 0 { AlignedDown(p / 2, j - 1, k - 1); }
  }

  lemma {:induction false} Pow2Monotone(j: nat, k: nat)
    requires j <= k
    ensures Pow2(j) <= Pow2(k)
    ensures j < k ==> 2 * Pow2(j) <= Pow2(k)
  {
    if j < k { Pow2Monotone(j, k - 1); }
  }

  /** Two aligned blocks are either disjoint or the smaller lies inside the larger. */
  lemma {:induction false} AlignedNesting(p: nat, j: nat, q: nat, k: nat)
    requires j <= k && Aligned(p, j) && Aligned(q, k)
    ensures p + Pow2(j) <= q || q + Pow2(k) <= p || (q <= p && p + Pow2(j) <= q + Pow2(k))
  {
    if j > 0 {
      AlignedNesting(p / 2, j - 1, q / 2, k - 1);
    }
  }

  /** Masking with `~(Pow2(k) - 1)` rounds down to a multiple of `Pow2(k)`. */
  lemma {:induction false} AndNotMask(w: nat, k: nat)
    ensures var m := AndNot(w, Pow2(k) - 1); Aligned(m, k) && m <= w < m + Pow2(k)
  {
    if k == 0 {
      AndNotZero(w);
    } else if w == 0 {
      AlignedZero(k);
    } else {
      AndNotMask(w / 2, k - 1);
      assert (Pow2(k) - 1) / 2 == Pow2(k - 1) - 1 && (Pow2(k) - 1) % 2 == 1;
    }
  }

  lemma {:induction false} AlignedZero(k: nat)
    ensures Aligned(0, k)
  {
    if k > 0 { AlignedZero(k - 1); }
  }

  lemma {:induction false} AlignedPow2(k: nat)
    ensures Aligned(Pow2(k), k)
  {
    if k > 0 {
      AlignedPow2(k - 1);
      assert Pow2(k) / 2 == Pow2(k - 1);
    }
  }

  lemma {:induction false} AlignedNext(p: nat, k: nat)
    requires Aligned(p, k)
    ensures Aligned(p + Pow2(k), k)
  {
    if k > 0 {
      AlignedNext(p / 2, k - 1);
      assert (p + Pow2(k)) / 2 == p / 2 + Pow2(k - 1);
    }
  }

  /** Bitwise `a & b`. */
  function And(a: nat, b: nat): nat
  {
    if a == 0 then 0 else 2 * And(a / 2, b / 2) + (if a % 2 == 1 && b % 2 == 1 then 1 else 0)
  }

  /** The three operators work bit by bit. */
  lemma {:induction false} BitByBit(a: nat, b: nat, k: nat)
    ensures BitSet(And(a, b), k) <==> BitSet(a, k) && BitSet(b, k)
    ensures BitSet(AndNot(a, b), k) <==> BitSet(a, k) && !BitSet(b, k)
    ensures BitSet(Xor(a, b), k) <==> BitSet(a, k) != BitSet(b, k)
  {
    if k > 0 {
      BitByBit(a / 2, b / 2, k - 1);
    }
  }

  /** `p & (Pow2(k) - 1)` is zero exactly when `p` is a multiple of `Pow2(k)`. */
  lemma {:induction false} AndMask(p: nat, k: nat)
    ensures And(p, Pow2(k) - 1) == 0 <==> Aligned(p, k)
  {
    if k == 0 {
      AndZero(p);
    } else if p == 0 {
      AlignedZero(k);
    } else {
      AndMask(p / 2, k - 1);
      assert (Pow2(k) - 1) / 2 == Pow2(k - 1) - 1 && (Pow2(k) - 1) % 2 == 1;
    }
  }

  lemma {:induction false} AndZero(a: nat)
    ensures And(a, 0) == 0
  {
    if a != 0 { AndZero(a / 2); }
  }
}
