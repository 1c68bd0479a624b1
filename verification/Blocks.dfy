/**
  The block map of a buddy allocator: which aligned power-of-two runs of page frames are free and
  which are handed out, and the facts about such maps that do not mention page records or lists.
 */
module Blocks {
  import opened Bits

  const MAX_ORDER := 11

  datatype Blk = Blk(order: nat, free: bool)

  type Blocks = map<nat, Blk>

  /** Frame `x` lies in the run of `Pow2(k)` frames that starts at `p`. */
  predicate InRun(p: nat, k: nat, x: int)
  {
    p <= x < p + Pow2(k)
  }

  ghost function Run(p: nat, k: nat): (r: set<nat>)
    ensures forall x :: x in r <==> InRun(p, k, x)
  {
    set x: nat | x < p + Pow2(k) && InRun(p, k, x)
  }

  lemma RunHalves(q: nat, k: nat)
    ensures Run(q, k + 1) == Run(q, k) + Run(q + Pow2(k), k)
    ensures Run(q, k) !! Run(q + Pow2(k), k)
  {
  }

  lemma {:induction false} RunSize(p: nat, k: nat)
    ensures |Run(p, k)| == Pow2(k)
    decreases k
  {
    if k == 0 {
      assert Run(p, k) == {p};
    } else {
      RunSize(p, k - 1);
      RunSize(p + Pow2(k - 1), k - 1);
      RunHalves(p, k - 1);
    }
  }

  /** The other half of the parent block: the frame number with bit `k` flipped (see `BuddyIsXor`). */
  function BuddyOf(p: nat, k: nat): nat
  {
    if Aligned(p, k + 1) || p < Pow2(k) then p + Pow2(k) else p - Pow2(k)
  }

  /** The start of the enclosing block of the next order (see `BuddyIsXor`). */
  function ParentOf(p: nat, k: nat): nat
  {
    if Aligned(p, k + 1) || p < Pow2(k) then p else p - Pow2(k)
  }

  /** On a `k`-aligned frame number the two are the C expressions `p ^ (1 << k)` and `p & ~(1 << k)`. */
  lemma BuddyIsXor(p: nat, k: nat)
    requires Aligned(p, k)
    ensures Xor(p, Pow2(k)) == BuddyOf(p, k)
    ensures AndNot(p, Pow2(k)) == ParentOf(p, k)
  {
    XorPow2(p, k); AndNotPow2(p, k); FlipBit(p, k);
  }

  /** The two halves of an aligned block are each other's buddies and share one parent. */
  lemma BuddyFacts(p: nat, k: nat)
    requires Aligned(p, k)
    ensures var b := BuddyOf(p, k); var q := ParentOf(p, k);
            && Aligned(b, k) && BuddyOf(b, k) == p && ParentOf(b, k) == q
            && Aligned(q, k + 1) && Aligned(q, k)
            && ((p == q && b == q + Pow2(k)) || (b == q && p == q + Pow2(k)))
  {
    FlipBit(p, k);
    FlipBit(BuddyOf(p, k), k);
    AlignedDown(ParentOf(p, k), k, k + 1);
  }

  lemma LowerHalf(q: nat, k: nat)
    requires Aligned(q, k + 1)
    ensures Aligned(q, k) && Aligned(q + Pow2(k), k)
    ensures BuddyOf(q, k) == q + Pow2(k) && BuddyOf(q + Pow2(k), k) == q
    ensures ParentOf(q, k) == q && ParentOf(q + Pow2(k), k) == q
  {
    AlignedDown(q, k, k + 1);
    FlipBit(q, k);
    FlipBit(q + Pow2(k), k);
  }

  // ----- Well-formed maps

  // The quantifiers below instantiate only where a proof names the instance it needs.

  ghost predicate WellPlaced(bs: Blocks, n: nat)
  {
    forall p {:trigger Placed(bs, n, p)} :: p in bs ==> Placed(bs, n, p)
  }

  ghost predicate Placed(bs: Blocks, n: nat, p: nat)
    requires p in bs
  {
    bs[p].order < MAX_ORDER && Aligned(p, bs[p].order) && p + Pow2(bs[p].order) <= n
  }

  ghost predicate Disjoint(bs: Blocks)
  {
    forall p, q {:trigger Apart(bs, p, q)} :: p in bs && q in bs && p < q ==> Apart(bs, p, q)
  }

  ghost predicate Apart(bs: Blocks, p: nat, q: nat)
    requires p in bs
  {
    p + Pow2(bs[p].order) <= q
  }

  /** No two free buddies: everything that can be merged has been. */
  ghost predicate Coalesced(bs: Blocks)
  {
    forall p {:trigger Single(bs, p)} :: p in bs ==> Single(bs, p)
  }

  ghost predicate Single(bs: Blocks, p: nat)
    requires p in bs
  {
    bs[p].free && bs[p].order + 1 < MAX_ORDER ==> !FreeBlock(bs, BuddyOf(p, bs[p].order), bs[p].order)
  }

  ghost predicate WellFormed(bs: Blocks, n: nat)
  {
    WellPlaced(bs, n) && Disjoint(bs) && Coalesced(bs)
  }

  predicate FreeBlock(bs: Blocks, p: nat, k: nat)
  {
    p in bs && bs[p] == Blk(k, true)
  }

  ghost predicate HeldBy(bs: Blocks, p: nat, x: int)
  {
    p in bs && InRun(p, bs[p].order, x)
  }

  ghost predicate Covered(bs: Blocks, x: int)
  {
    exists p :: HeldBy(bs, p, x)
  }

  ghost predicate FreeAt(bs: Blocks, x: int)
  {
    exists p {:trigger HeldBy(bs, p, x)} :: HeldBy(bs, p, x) && bs[p].free
  }

  ghost function FreeSet(bs: Blocks, n: nat): (s: set<nat>)
    ensures forall x :: x in s <==> x < n && FreeAt(bs, x)
  {
    set x: nat | x < n && FreeAt(bs, x)
  }

  lemma HolderUnique(bs: Blocks, p: nat, q: nat, x: int)
    requires Disjoint(bs) && HeldBy(bs, p, x) && HeldBy(bs, q, x)
    ensures p == q
  {
    assert p < q ==> Apart(bs, p, q);
    assert q < p ==> Apart(bs, q, p);
  }

  lemma FreeInside(bs: Blocks, n: nat, p: nat)
    requires WellPlaced(bs, n) && p in bs && bs[p].free
    ensures Run(p, bs[p].order) <= FreeSet(bs, n)
  {
    assert Placed(bs, n, p);
    forall x | x in Run(p, bs[p].order) ensures x in FreeSet(bs, n) {
      assert HeldBy(bs, p, x);
    }
  }

  // ----- The canonical decomposition

  /** An aligned run of free frames lies inside a single free block. */
  lemma {:induction false} AlignedRunInOneBlock(bs: Blocks, n: nat, q: nat, k: nat) returns (p: nat)
    requires WellFormed(bs, n) && k < MAX_ORDER && Aligned(q, k)
    requires Run(q, k) <= FreeSet(bs, n)
    ensures p in bs && bs[p].free && k <= bs[p].order
    ensures p <= q && q + Pow2(k) <= p + Pow2(bs[p].order)
    decreases k
  {
    assert q in Run(q, k);
    if k == 0 {
      p :| HeldBy(bs, p, q) && bs[p].free;
    } else {
      LowerHalf(q, k - 1);
      var r := q + Pow2(k - 1);
      assert Run(q, k - 1) <= Run(q, k) && Run(r, k - 1) <= Run(q, k);
      p := AlignedRunInOneBlock(bs, n, q, k - 1);
      var p' := AlignedRunInOneBlock(bs, n, r, k - 1);
      assert Placed(bs, n, p) && Placed(bs, n, p');
      if bs[p].order >= k {
        AlignedNesting(q, k, p, bs[p].order);
      } else if bs[p'].order >= k {
        AlignedNesting(q, k, p', bs[p'].order);
        p := p';
      } else {
        assert Single(bs, q);
      }
    }
  }

  /** A maximal aligned run, of an order the allocator has, inside a set of frames. */
  ghost predicate Maximal(s: set<nat>, p: nat, k: nat)
  {
    && k < MAX_ORDER && Aligned(p, k) && Run(p, k) <= s
    && (k + 1 == MAX_ORDER || !(Run(ParentOf(p, k), k + 1) <= s))
  }

  /** The free blocks are exactly the maximal aligned runs of free frames. */
  lemma Canonical(bs: Blocks, n: nat, p: nat, k: nat)
    requires WellFormed(bs, n)
    ensures FreeBlock(bs, p, k) <==> Maximal(FreeSet(bs, n), p, k)
  {
    var s := FreeSet(bs, n);
    if FreeBlock(bs, p, k) {
      assert Placed(bs, n, p);
      FreeInside(bs, n, p);
      BuddyFacts(p, k);
      if k + 1 < MAX_ORDER && Run(ParentOf(p, k), k + 1) <= s {
        var q := AlignedRunInOneBlock(bs, n, ParentOf(p, k), k + 1);
        HolderUnique(bs, p, q, p);
      }
    }
    if Maximal(s, p, k) {
      var q := AlignedRunInOneBlock(bs, n, p, k);
      if bs[q].order == k {
      } else {
        BuddyFacts(p, k);
        FreeInside(bs, n, q);
        assert Placed(bs, n, q);
        AlignedNesting(ParentOf(p, k), k + 1, q, bs[q].order);
      }
    }
  }

  /** Hence the free frames alone determine the free blocks, whatever history led there. */
  lemma HistoryIndependent(bs: Blocks, bs': Blocks, n: nat)
    requires WellFormed(bs, n) && WellFormed(bs', n)
    requires FreeSet(bs, n) == FreeSet(bs', n)
    ensures forall p, k :: FreeBlock(bs, p, k) <==> FreeBlock(bs', p, k)
  {
    forall p: nat, k: nat ensures FreeBlock(bs, p, k) <==> FreeBlock(bs', p, k) {
      Canonical(bs, n, p, k);
      Canonical(bs', n, p, k);
    }
  }

  // ----- The allocator's transitions on block maps

  ghost function SetFree(bs: Blocks, p: nat, free: bool): Blocks
    requires p in bs
  {
    bs[p := Blk(bs[p].order, free)]
  }

  /** Halve the held block of order `k + 1` at `p`; the upper half becomes free. */
  ghost function Split(bs: Blocks, p: nat, k: nat): Blocks
  {
    bs[p := Blk(k, false)][p + Pow2(k) := Blk(k, true)]
  }

  /** Join the block at `q` with the one just above it into one held block. */
  ghost function Join(bs: Blocks, q: nat): Blocks
    requires q in bs
  {
    (bs - {q + Pow2(bs[q].order)})[q := Blk(bs[q].order + 1, false)]
  }

  lemma SameOrders(bs: Blocks, bs': Blocks, n: nat)
    requires bs.Keys == bs'.Keys
    requires forall p :: p in bs ==> bs[p].order == bs'[p].order
    requires WellPlaced(bs, n) && Disjoint(bs)
    ensures WellPlaced(bs', n) && Disjoint(bs')
    ensures forall x, p :: HeldBy(bs, p, x) <==> HeldBy(bs', p, x)
    ensures forall x :: Covered(bs, x) <==> Covered(bs', x)
  {
    forall p | p in bs' ensures Placed(bs', n, p) { assert Placed(bs, n, p); }
    forall p, q | p in bs' && q in bs' && p < q ensures Apart(bs', p, q) { assert Apart(bs, p, q); }
    assert forall x, p :: HeldBy(bs, p, x) <==> HeldBy(bs', p, x);
  }

  lemma TakeCoalesced(bs: Blocks, p: nat)
    requires Coalesced(bs) && p in bs
    ensures Coalesced(SetFree(bs, p, false))
  {
    var bs' := SetFree(bs, p, false);
    forall q | q in bs' ensures Single(bs', q) {
      assert Single(bs, q);
    }
  }

  lemma GiveCoalesced(bs: Blocks, n: nat, p: nat)
    requires WellPlaced(bs, n) && Coalesced(bs) && p in bs && !bs[p].free
    requires bs[p].order + 1 == MAX_ORDER || !FreeBlock(bs, BuddyOf(p, bs[p].order), bs[p].order)
    ensures Coalesced(SetFree(bs, p, true))
  {
    var bs' := SetFree(bs, p, true);
    forall q | q in bs' ensures Single(bs', q) {
      assert Single(bs, q) && Placed(bs, n, q);
      BuddyFacts(q, bs'[q].order);
    }
  }

  lemma FreeAtHolder(bs: Blocks, p: nat, x: int)
    requires Disjoint(bs) && HeldBy(bs, p, x)
    ensures Covered(bs, x) && (FreeAt(bs, x) <==> bs[p].free)
  {
    if q :| HeldBy(bs, q, x) && bs[q].free {
      HolderUnique(bs, p, q, x);
    }
  }

  /** Changing only the state of the block at `p` changes only whether its own run is free. */
  lemma SetFreeFacts(bs: Blocks, n: nat, p: nat, free: bool)
    requires WellPlaced(bs, n) && Disjoint(bs) && p in bs
    ensures var bs' := SetFree(bs, p, free);
            && WellPlaced(bs', n) && Disjoint(bs')
            && (forall x :: Covered(bs', x) <==> Covered(bs, x))
            && FreeSet(bs', n) == if free then FreeSet(bs, n) + Run(p, bs[p].order)
                                  else FreeSet(bs, n) - Run(p, bs[p].order)
  {
    var bs' := SetFree(bs, p, free);
    SameOrders(bs, bs', n);
    assert Placed(bs, n, p);
    forall x
      ensures FreeAt(bs', x) <==> if InRun(p, bs[p].order, x) then free else FreeAt(bs, x)
    {
      if HeldBy(bs, p, x) {
        FreeAtHolder(bs', p, x);
      } else if q :| HeldBy(bs, q, x) {
        FreeAtHolder(bs, q, x);
        FreeAtHolder(bs', q, x);
      }
    }
  }

  lemma SplitPlaced(bs: Blocks, n: nat, p: nat, k: nat)
    requires WellPlaced(bs, n) && p in bs && bs[p] == Blk(k + 1, false)
    ensures WellPlaced(Split(bs, p, k), n)
  {
    var bs' := Split(bs, p, k);
    assert Placed(bs, n, p);
    LowerHalf(p, k);
    forall q | q in bs' ensures Placed(bs', n, q) {
      if q in bs { assert Placed(bs, n, q); }
    }
  }

  lemma SplitDisjoint(bs: Blocks, p: nat, k: nat)
    requires Disjoint(bs) && p in bs && bs[p] == Blk(k + 1, false)
    ensures p + Pow2(k) !in bs && Disjoint(Split(bs, p, k))
  {
    var u, bs' := p + Pow2(k), Split(bs, p, k);
    assert u in bs ==> Apart(bs, p, u);
    forall q, r | q in bs' && r in bs' && q < r ensures Apart(bs', q, r) {
      var q', r' := if q == u then p else q, if r == u then p else r;
      assert q' < r' ==> Apart(bs, q', r');
      assert r' < q' ==> Apart(bs, r', q');
    }
  }

  lemma SplitCoalesced(bs: Blocks, n: nat, p: nat, k: nat)
    requires WellPlaced(bs, n) && Coalesced(bs) && p in bs && bs[p] == Blk(k + 1, false)
    ensures Coalesced(Split(bs, p, k))
  {
    var bs' := Split(bs, p, k);
    assert Placed(bs, n, p);
    LowerHalf(p, k);
    forall q | q in bs' ensures Single(bs', q) {
      if q != p && q != p + Pow2(k) {
        assert Placed(bs, n, q) && Single(bs, q);
        BuddyFacts(q, bs[q].order);
      }
    }
  }

  /** If no block holding `x` changes, nothing changes at `x`. */
  lemma SameHolders(bs: Blocks, bs': Blocks, x: int)
    requires forall q :: HeldBy(bs', q, x) <==> HeldBy(bs, q, x)
    requires forall q :: HeldBy(bs, q, x) ==> q in bs' && bs'[q].free == bs[q].free
    ensures Covered(bs', x) <==> Covered(bs, x)
    ensures FreeAt(bs', x) <==> FreeAt(bs, x)
  {
  }

  lemma SplitElsewhere(bs: Blocks, p: nat, k: nat, x: int)
    requires p in bs && bs[p] == Blk(k + 1, false) && !HeldBy(bs, p, x) && p + Pow2(k) !in bs
    ensures Covered(Split(bs, p, k), x) <==> Covered(bs, x)
    ensures FreeAt(Split(bs, p, k), x) <==> FreeAt(bs, x)
    ensures !InRun(p + Pow2(k), k, x)
  {
    assert !InRun(p + Pow2(k), k, x);
    SameHolders(bs, Split(bs, p, k), x);
  }

  lemma SplitAt(bs: Blocks, p: nat, k: nat, x: int)
    requires Disjoint(bs) && p in bs && bs[p] == Blk(k + 1, false)
    ensures Covered(Split(bs, p, k), x) <==> Covered(bs, x)
    ensures FreeAt(Split(bs, p, k), x) <==> FreeAt(bs, x) || InRun(p + Pow2(k), k, x)
  {
    SplitDisjoint(bs, p, k);
    if HeldBy(bs, p, x) {
      FreeAtHolder(bs, p, x);
      FreeAtHolder(Split(bs, p, k), if x < p + Pow2(k) then p else p + Pow2(k), x);
    } else {
      SplitElsewhere(bs, p, k, x);
    }
  }

  lemma SplitFacts(bs: Blocks, n: nat, p: nat, k: nat)
    requires WellFormed(bs, n) && p in bs && bs[p] == Blk(k + 1, false)
    ensures var bs' := Split(bs, p, k);
            && WellFormed(bs', n)
            && (forall x :: Covered(bs', x) <==> Covered(bs, x))
            && FreeSet(bs', n) == FreeSet(bs, n) + Run(p + Pow2(k), k)
  {
    SplitPlaced(bs, n, p, k);
    SplitDisjoint(bs, p, k);
    SplitCoalesced(bs, n, p, k);
    assert Placed(bs, n, p);
    forall x { SplitAt(bs, p, k, x); }
  }

  /** The blocks at `q` and just above it have the same order `k`, and `q` is aligned for their union. */
  ghost predicate Joinable(bs: Blocks, q: nat, k: nat)
  {
    && k + 1 < MAX_ORDER && Aligned(q, k + 1)
    && q in bs && bs[q].order == k && q + Pow2(k) in bs && bs[q + Pow2(k)].order == k
  }

  lemma JoinShape(bs: Blocks, n: nat, q: nat, k: nat)
    requires WellFormed(bs, n) && Joinable(bs, q, k)
    ensures WellFormed(Join(bs, q), n)
  {
    var u, bs' := q + Pow2(k), Join(bs, q);
    assert Placed(bs, n, u);
    forall r | r in bs' ensures Placed(bs', n, r) && Single(bs', r) {
      assert r in bs && Placed(bs, n, r) && Single(bs, r);
    }
    forall r, s | r in bs' && s in bs' && r < s ensures Apart(bs', r, s) {
      assert Apart(bs, r, s);
      if r == q { assert u < s ==> Apart(bs, u, s); }
    }
  }

  lemma JoinElsewhere(bs: Blocks, q: nat, k: nat, x: int)
    requires Joinable(bs, q, k) && !InRun(q, k + 1, x)
    ensures Covered(Join(bs, q), x) <==> Covered(bs, x)
    ensures FreeAt(Join(bs, q), x) <==> FreeAt(bs, x)
    ensures !InRun(q, k, x) && !InRun(q + Pow2(k), k, x)
  {
    SameHolders(bs, Join(bs, q), x);
  }

  lemma JoinAt(bs: Blocks, q: nat, k: nat, b: nat, x: int)
    requires Joinable(bs, q, k) && Disjoint(bs) && Disjoint(Join(bs, q))
    requires b == q || b == q + Pow2(k)
    requires bs[q].free == (b == q) && bs[q + Pow2(k)].free == (b != q)
    ensures Covered(Join(bs, q), x) <==> Covered(bs, x)
    ensures FreeAt(Join(bs, q), x) <==> FreeAt(bs, x) && !InRun(b, k, x)
  {
    if InRun(q, k + 1, x) {
      FreeAtHolder(bs, if InRun(q, k, x) then q else q + Pow2(k), x);
      FreeAtHolder(Join(bs, q), q, x);
    } else {
      JoinElsewhere(bs, q, k, x);
    }
  }

  lemma JoinFacts(bs: Blocks, n: nat, q: nat, k: nat, b: nat)
    requires WellFormed(bs, n) && Joinable(bs, q, k)
    requires b == q || b == q + Pow2(k)
    requires bs[q].free == (b == q) && bs[q + Pow2(k)].free == (b != q)
    ensures var bs' := Join(bs, q);
            && WellFormed(bs', n)
            && (forall x :: Covered(bs', x) <==> Covered(bs, x))
            && FreeSet(bs', n) == FreeSet(bs, n) - Run(b, k)
  {
    JoinShape(bs, n, q, k);
    forall x { JoinAt(bs, q, k, b, x); }
  }
}
