/**
  The page allocator: page records, one free list per order, split on allocation and merge on free.
  The block map of module Blocks is carried as ghost state; records and lists are tied to it.
 */
module Buddy {
  import opened Common
  import opened Bits
  import opened Blocks

  datatype Status = Success | EInval

  datatype PageFlag =
    | Buddy | Reserved | Bad | Kernel | Slab | Table | Highmem | Compound
    | Dirty | Locked | Referenced | Writeback

  /** `struct page` without its list links; `private` is an address, 0 when null. */
  datatype Page = Page(order: nat, flags: set<PageFlag>, refcount: int, private: nat)

  /** `struct free_area`, with the intrusive list as the sequence of its members' frame numbers. */
  datatype FreeArea = FreeArea(list: seq<nat>, nr: nat)

  // ----- What ties records and lists to the block map

  ghost predicate RecordOk(r: Page, b: Blk)
  {
    && r.order == b.order
    && if b.free then r.flags == {Buddy} && r.refcount == 0 else Buddy !in r.flags && Reserved !in r.flags
  }

  /** Every block head but `hole` has an accurate record. Records of interior pages are arbitrary. */
  ghost predicate Records(pages: seq<Page>, bs: Blocks, hole: int)
  {
    forall p {:trigger HeadOk(pages, bs, p)} :: p in bs && p != hole ==> HeadOk(pages, bs, p)
  }

  ghost predicate HeadOk(pages: seq<Page>, bs: Blocks, p: nat)
    requires p in bs
  {
    p < |pages| && RecordOk(pages[p], bs[p])
  }

  /** Pages outside every block never look like a free block. */
  ghost predicate Quiet(pages: seq<Page>, bs: Blocks)
  {
    forall x {:trigger Covered(bs, x)} :: 0 <= x < |pages| && Buddy in pages[x].flags ==> Covered(bs, x)
  }

  ghost predicate NoDup(s: seq<nat>)
  {
    forall i, j :: 0 <= i < j < |s| ==> s[i] != s[j]
  }

  ghost predicate ListOk(a: FreeArea, bs: Blocks, k: nat)
  {
    && NoDup(a.list) && a.nr == |a.list|
    && forall p {:trigger FreeBlock(bs, p, k)} :: p in a.list <==> FreeBlock(bs, p, k)
  }

  ghost predicate AreaOk(area: seq<FreeArea>, bs: Blocks)
  {
    |area| == MAX_ORDER && forall k {:trigger ListOk(area[k], bs, k)} :: 0 <= k < MAX_ORDER ==> ListOk(area[k], bs, k)
  }

  /** Sum of nr_free[k] * 2^k over the orders below `k`. */
  ghost function Total(area: seq<FreeArea>, k: nat): int
    requires k <= |area|
  {
    if k == 0 then 0 else Total(area, k - 1) + area[k - 1].nr * Pow2(k - 1)
  }

  ghost predicate Consistent(pages: seq<Page>, area: seq<FreeArea>, bs: Blocks, hole: int)
  {
    && WellFormed(bs, |pages|)
    && Records(pages, bs, hole)
    && Quiet(pages, bs)
    && AreaOk(area, bs)
    && Total(area, MAX_ORDER) == |FreeSet(bs, |pages|)|
  }

  ghost function Allocated(bs: Blocks): map<nat, nat>
  {
    map p | p in bs && !bs[p].free :: bs[p].order
  }

  // ----- Lists

  function Without(s: seq<nat>, p: nat): seq<nat>
  {
    if s == [] then [] else if s[0] == p then s[1..] else [s[0]] + Without(s[1..], p)
  }

  lemma {:induction false} WithoutFacts(s: seq<nat>, p: nat)
    requires NoDup(s) && p in s
    ensures NoDup(Without(s, p)) && |Without(s, p)| == |s| - 1
    ensures forall q :: q in Without(s, p) <==> q in s && q != p
  {
    if s[0] != p {
      WithoutFacts(s[1..], p);
      assert s == [s[0]] + s[1..];
      assert s[0] !in Without(s[1..], p);
    }
  }

  /** One more block of order `i` adds its size to the sum. */
  lemma {:induction false} TotalUpdate(area: seq<FreeArea>, i: nat, a: FreeArea, k: nat)
    requires i < |area| && k <= |area| && a.nr == area[i].nr + 1
    ensures Total(area[i := a], k) == Total(area, k) + (if i < k then Pow2(i) else 0)
  {
    if k > 0 {
      TotalUpdate(area, i, a, k - 1);
      if i == k - 1 { assert a.nr * Pow2(i) == area[i].nr * Pow2(i) + Pow2(i); }
    }
  }

  function Push(area: seq<FreeArea>, k: nat, p: nat): seq<FreeArea>
    requires k < |area|
  {
    area[k := FreeArea([p] + area[k].list, area[k].nr + 1)]
  }

  function Drop(area: seq<FreeArea>, k: nat, p: nat): seq<FreeArea>
    requires k < |area| && area[k].nr > 0
  {
    area[k := FreeArea(Without(area[k].list, p), area[k].nr - 1)]
  }

  lemma AreaInsert(area: seq<FreeArea>, bs: Blocks, bs': Blocks, k: nat, p: nat)
    requires AreaOk(area, bs) && k < MAX_ORDER && !FreeBlock(bs, p, k)
    requires forall q, j :: FreeBlock(bs', q, j) <==> FreeBlock(bs, q, j) || (q == p && j == k)
    ensures var area' := Push(area, k, p);
            && AreaOk(area', bs')
            && Total(area', MAX_ORDER) == Total(area, MAX_ORDER) + Pow2(k)
  {
    var area' := Push(area, k, p);
    TotalUpdate(area, k, area'[k], MAX_ORDER);
    assert ListOk(area[k], bs, k);
    forall j | 0 <= j < MAX_ORDER ensures ListOk(area'[j], bs', j) {
      if j != k { ListSame(area[j], bs, bs', j); }
    }
  }

  lemma ListSame(a: FreeArea, bs: Blocks, bs': Blocks, k: nat)
    requires ListOk(a, bs, k) && forall p :: FreeBlock(bs', p, k) <==> FreeBlock(bs, p, k)
    ensures ListOk(a, bs', k)
  {
  }

  lemma ListDrop(a: FreeArea, bs: Blocks, bs': Blocks, k: nat, p: nat)
    requires ListOk(a, bs, k) && FreeBlock(bs, p, k)
    requires forall q :: FreeBlock(bs', q, k) <==> FreeBlock(bs, q, k) && q != p
    ensures a.nr > 0 && ListOk(FreeArea(Without(a.list, p), a.nr - 1), bs', k)
  {
    WithoutFacts(a.list, p);
  }

  lemma AreaRemove(area: seq<FreeArea>, bs: Blocks, bs': Blocks, k: nat, p: nat)
    requires AreaOk(area, bs) && k < MAX_ORDER && FreeBlock(bs, p, k)
    requires forall q, j :: FreeBlock(bs', q, j) <==> FreeBlock(bs, q, j) && !(q == p && j == k)
    ensures area[k].nr > 0
    ensures var area' := Drop(area, k, p);
            && AreaOk(area', bs')
            && Total(area', MAX_ORDER) == Total(area, MAX_ORDER) - Pow2(k)
  {
    ListDrop(area[k], bs, bs', k, p);
    var area' := Drop(area, k, p);
    TotalUpdate(area', k, area[k], MAX_ORDER);
    assert area'[k := area[k]] == area;
    forall j | 0 <= j < MAX_ORDER ensures ListOk(area'[j], bs', j) {
      if j != k { ListSame(area[j], bs, bs', j); }
    }
  }

  // ----- The four steps, on values

  function Head(k: nat, p: Page): Page
  {
    p.(order := k, flags := {Buddy}, refcount := 0)
  }

  function Unlinked(p: Page): Page
  {
    p.(flags := p.flags - {Buddy}, order := 0)
  }

  /** Unlinking the first block of a list. */
  lemma TakeStep(pages: seq<Page>, area: seq<FreeArea>, bs: Blocks, k: nat, p: nat)
    requires Consistent(pages, area, bs, -1) && FreeBlock(bs, p, k)
    ensures k < MAX_ORDER && area[k].nr > 0
    ensures var area' := Drop(area, k, p);
            var bs' := SetFree(bs, p, false);
            && Consistent(pages, area', bs', p)
            && FreeSet(bs', |pages|) == FreeSet(bs, |pages|) - Run(p, k)
            && Run(p, k) <= FreeSet(bs, |pages|)
  {
    assert Placed(bs, |pages|, p);
    TakeCoalesced(bs, p);
    SetFreeFacts(bs, |pages|, p, false);
    FreeInside(bs, |pages|, p);
    RunSize(p, k);
    TakeRecords(pages, area, bs, k, p);
  }

  lemma Removed(s: set<nat>, t: set<nat>)
    requires t <= s
    ensures |s - t| == |s| - |t|
  {
    assert s == (s - t) + t;
  }

  lemma TakeRecords(pages: seq<Page>, area: seq<FreeArea>, bs: Blocks, k: nat, p: nat)
    requires Records(pages, bs, -1) && Quiet(pages, bs) && AreaOk(area, bs) && FreeBlock(bs, p, k) && k < MAX_ORDER
    requires forall x :: Covered(SetFree(bs, p, false), x) <==> Covered(bs, x)
    ensures area[k].nr > 0
    ensures var area' := Drop(area, k, p);
            var bs' := SetFree(bs, p, false);
            && Records(pages, bs', p) && Quiet(pages, bs') && AreaOk(area', bs')
            && Total(area', MAX_ORDER) == Total(area, MAX_ORDER) - Pow2(k)
  {
    var bs' := SetFree(bs, p, false);
    AreaRemove(area, bs, bs', k, p);
    forall q | q in bs' && q != p ensures HeadOk(pages, bs', q) {
      assert HeadOk(pages, bs, q);
    }
  }

  /** A head record for `u`, the only block of `bs'` whose record may differ, keeps the records accurate. */
  lemma RecordStep(pages: seq<Page>, bs: Blocks, bs': Blocks, hole: int, hole': int, u: nat, h: nat, r: Page)
    requires Records(pages, bs, hole) && Quiet(pages, bs) && u < |pages|
    requires forall x :: Covered(bs', x) <==> Covered(bs, x)
    requires forall q :: q in bs' && q != u && q != hole' ==> q in bs && q != hole && bs'[q] == bs[q]
    requires u in bs' && u != hole' ==> RecordOk(r, bs'[u])
    requires HeldBy(bs, h, u)
    ensures Records(pages[u := r], bs', hole') && Quiet(pages[u := r], bs')
  {
    forall p | p in bs' && p != hole' ensures HeadOk(pages[u := r], bs', p) {
      if p != u { assert HeadOk(pages, bs, p); }
    }
    assert Covered(bs, u);
  }

  lemma SplitAgrees(bs: Blocks, p: nat, k: nat)
    requires p in bs && bs[p] == Blk(k + 1, false) && p + Pow2(k) !in bs
    ensures var u := p + Pow2(k); var bs' := Split(bs, p, k);
            && (forall q :: q in bs' && q != u && q != p ==> q in bs && bs'[q] == bs[q])
            && u in bs' && bs'[u] == Blk(k, true) && u != p && !FreeBlock(bs, u, k)
            && (forall q, j :: FreeBlock(bs', q, j) <==> FreeBlock(bs, q, j) || (q == u && j == k))
  {
  }

  lemma SplitRecords(pages: seq<Page>, area: seq<FreeArea>, bs: Blocks, p: nat, k: nat)
    requires Records(pages, bs, p) && Quiet(pages, bs) && AreaOk(area, bs)
    requires p in bs && bs[p] == Blk(k + 1, false) && k < MAX_ORDER
    requires forall x :: Covered(Split(bs, p, k), x) <==> Covered(bs, x)
    requires p + Pow2(k) !in bs && p + Pow2(k) < |pages| && HeldBy(bs, p, p + Pow2(k))
    ensures var u := p + Pow2(k);
            var pages' := pages[u := Head(k, pages[u])];
            var area' := Push(area, k, u);
            && Records(pages', Split(bs, p, k), p) && Quiet(pages', Split(bs, p, k)) && AreaOk(area', Split(bs, p, k))
            && Total(area', MAX_ORDER) == Total(area, MAX_ORDER) + Pow2(k)
  {
    var u := p + Pow2(k);
    SplitAgrees(bs, p, k);
    AreaInsert(area, bs, Split(bs, p, k), k, u);
    RecordStep(pages, bs, Split(bs, p, k), p, p, u, p, Head(k, pages[u]));
  }

  /** Carving off the upper half of the block in hand. */
  lemma SplitStep(pages: seq<Page>, area: seq<FreeArea>, bs: Blocks, p: nat, k: nat)
    requires Consistent(pages, area, bs, p) && p in bs && bs[p] == Blk(k + 1, false)
    ensures var u := p + Pow2(k);
            && k < |area| && u < |pages| && u !in bs
            && Consistent(pages[u := Head(k, pages[u])], Push(area, k, u), Split(bs, p, k), p)
            && FreeSet(Split(bs, p, k), |pages|) == FreeSet(bs, |pages|) + Run(u, k)
  {
    assert Placed(bs, |pages|, p);
    SplitFacts(bs, |pages|, p, k);
    SplitDisjoint(bs, p, k);
    UpperHalfHeld(bs, |pages|, p, k);
    RunSize(p + Pow2(k), k);
    SplitRecords(pages, area, bs, p, k);
  }

  lemma UpperHalfHeld(bs: Blocks, n: nat, p: nat, k: nat)
    requires WellPlaced(bs, n) && Disjoint(bs) && p in bs && bs[p] == Blk(k + 1, false)
    ensures p + Pow2(k) < n && HeldBy(bs, p, p + Pow2(k))
    ensures FreeSet(bs, n) !! Run(p + Pow2(k), k)
  {
    assert Placed(bs, n, p) && HeldBy(bs, p, p + Pow2(k));
    forall x | InRun(p + Pow2(k), k, x) ensures !FreeAt(bs, x) {
      FreeAtHolder(bs, p, x);
    }
  }

  /** Handing out the block in hand. */
  lemma AllocStep(pages: seq<Page>, area: seq<FreeArea>, bs: Blocks, p: nat, r: Page)
    requires Consistent(pages, area, bs, p) && p in bs && !bs[p].free && RecordOk(r, bs[p])
    ensures p < |pages| && Consistent(pages[p := r], area, bs, -1)
  {
    assert Placed(bs, |pages|, p) && HeldBy(bs, p, p);
    RecordStep(pages, bs, bs, p, -1, p, p, r);
  }

  /**
    The test page_free makes on one page record is exact: the record at the buddy's frame number
    says "free block of this order" if and only if such a block is there, although interior pages
    may carry stale records. `p` is the head of the block being freed, whose own record is not used.
   */
  lemma BuddyTestExact(pages: seq<Page>, bs: Blocks, p: nat)
    requires WellFormed(bs, |pages|) && Records(pages, bs, p) && Quiet(pages, bs)
    requires p in bs && BuddyOf(p, bs[p].order) < |pages|
    ensures var k := bs[p].order; var r := pages[BuddyOf(p, k)];
            (Buddy in r.flags && r.order == k) <==> FreeBlock(bs, BuddyOf(p, k), k)
    ensures FreeBlock(bs, BuddyOf(p, bs[p].order), bs[p].order) <==>
              Run(BuddyOf(p, bs[p].order), bs[p].order) <= FreeSet(bs, |pages|)
  {
    var k, b := bs[p].order, BuddyOf(p, bs[p].order);
    assert Placed(bs, |pages|, p);
    BuddyFacts(p, k);
    if q :| HeldBy(bs, q, b) {
      BuddyNotInterior(bs, |pages|, p, q);
      assert HeadOk(pages, bs, b);
    } else {
      assert !Covered(bs, b) && !HeldBy(bs, b, b);
    }
    BuddyRunFree(bs, |pages|, p);
  }

  /** The buddy's whole range is free exactly when it is one free block of that order. */
  lemma BuddyRunFree(bs: Blocks, n: nat, p: nat)
    requires WellFormed(bs, n) && p in bs
    ensures FreeBlock(bs, BuddyOf(p, bs[p].order), bs[p].order) <==>
              Run(BuddyOf(p, bs[p].order), bs[p].order) <= FreeSet(bs, n)
  {
    var k, b := bs[p].order, BuddyOf(p, bs[p].order);
    assert Placed(bs, n, p);
    BuddyFacts(p, k);
    if FreeBlock(bs, b, k) {
      FreeInside(bs, n, b);
    } else if Run(b, k) <= FreeSet(bs, n) {
      var q := AlignedRunInOneBlock(bs, n, b, k);
      assert HeldBy(bs, q, b);
      BuddyNotInterior(bs, n, p, q);
      if k < bs[q].order {
        assert Placed(bs, n, q);
        AlignedNesting(ParentOf(p, k), k + 1, q, bs[q].order);
        HolderUnique(bs, p, q, p);
      }
    }
  }

  /** The buddy of a block is never strictly inside another block. */
  lemma BuddyNotInterior(bs: Blocks, n: nat, p: nat, q: nat)
    requires WellPlaced(bs, n) && Disjoint(bs) && p in bs && HeldBy(bs, q, BuddyOf(p, bs[p].order))
    ensures q == BuddyOf(p, bs[p].order) && q != p
  {
    var k, b := bs[p].order, BuddyOf(p, bs[p].order);
    assert Placed(bs, n, p) && Placed(bs, n, q);
    BuddyFacts(p, k);
    if bs[q].order <= k {
      AlignedNesting(q, bs[q].order, b, k);
    } else {
      AlignedNesting(ParentOf(p, k), k + 1, q, bs[q].order);
      HolderUnique(bs, p, q, p);
    }
  }

  /** `p` and `b` are the two halves of the block at `q`, in either order. */
  ghost predicate Halves(p: nat, b: nat, q: nat, k: nat)
  {
    (p == q && b == q + Pow2(k)) || (b == q && p == q + Pow2(k))
  }

  /** Joining the block in hand with its free buddy. */
  lemma JoinStep(pages: seq<Page>, area: seq<FreeArea>, bs: Blocks, p: nat, q: nat, b: nat)
    requires Consistent(pages, area, bs, p) && p in bs && !bs[p].free && FreeBlock(bs, b, bs[p].order)
    requires Halves(p, b, q, bs[p].order) && Joinable(bs, q, bs[p].order)
    ensures var k := bs[p].order;
            && b < |pages| && k < |area| && area[k].nr > 0
            && var pages' := pages[b := Unlinked(pages[b])];
               var area' := Drop(area, k, b);
               && Consistent(pages', area', Join(bs, q), q)
               && FreeSet(Join(bs, q), |pages|) == FreeSet(bs, |pages|) - Run(b, k)
               && Run(b, k) <= FreeSet(bs, |pages|)
  {
    JoinFacts(bs, |pages|, q, bs[p].order, b);
    FreeInside(bs, |pages|, b);
    RunSize(b, bs[p].order);
    JoinRecords(pages, area, bs, p, q, b);
  }

  lemma JoinRecords(pages: seq<Page>, area: seq<FreeArea>, bs: Blocks, p: nat, q: nat, b: nat)
    requires Records(pages, bs, p) && Quiet(pages, bs) && AreaOk(area, bs)
    requires p in bs && !bs[p].free && bs[p].order + 1 < MAX_ORDER && FreeBlock(bs, b, bs[p].order)
    requires Halves(p, b, q, bs[p].order)
    requires forall x :: Covered(Join(bs, q), x) <==> Covered(bs, x)
    ensures var k := bs[p].order;
            && b < |pages| && area[k].nr > 0
            && var pages' := pages[b := Unlinked(pages[b])];
               var area' := Drop(area, k, b);
               && Records(pages', Join(bs, q), q) && Quiet(pages', Join(bs, q)) && AreaOk(area', Join(bs, q))
               && Total(area', MAX_ORDER) == Total(area, MAX_ORDER) - Pow2(k)
  {
    var k := bs[p].order;
    assert HeldBy(bs, b, b) && HeadOk(pages, bs, b);
    AreaRemove(area, bs, Join(bs, q), k, b);
    RecordStep(pages, bs, Join(bs, q), p, q, b, b, Unlinked(pages[b]));
  }

  /** Putting the block in hand on its list. */
  lemma GiveStep(pages: seq<Page>, area: seq<FreeArea>, bs: Blocks, p: nat)
    requires Consistent(pages, area, bs, p) && p in bs && !bs[p].free
    requires bs[p].order + 1 == MAX_ORDER || !FreeBlock(bs, BuddyOf(p, bs[p].order), bs[p].order)
    ensures var k := bs[p].order;
            && p < |pages| && k < |area|
            && var pages' := pages[p := Head(k, pages[p])];
               var area' := Push(area, k, p);
               && Consistent(pages', area', SetFree(bs, p, true), -1)
               && FreeSet(SetFree(bs, p, true), |pages|) == FreeSet(bs, |pages|) + Run(p, k)
               && FreeSet(bs, |pages|) !! Run(p, k)
  {
    var k := bs[p].order;
    assert Placed(bs, |pages|, p);
    GiveCoalesced(bs, |pages|, p);
    SetFreeFacts(bs, |pages|, p, true);
    RunSize(p, k);
    HeldNotFree(bs, |pages|, p);
    GiveRecords(pages, area, bs, p);
  }

  lemma GiveRecords(pages: seq<Page>, area: seq<FreeArea>, bs: Blocks, p: nat)
    requires Records(pages, bs, p) && Quiet(pages, bs) && AreaOk(area, bs)
    requires p in bs && !bs[p].free && bs[p].order < MAX_ORDER && p < |pages|
    requires forall x :: Covered(SetFree(bs, p, true), x) <==> Covered(bs, x)
    ensures var k := bs[p].order;
            var pages' := pages[p := Head(k, pages[p])];
            var area' := Push(area, k, p);
            var bs' := SetFree(bs, p, true);
            && Records(pages', bs', -1) && Quiet(pages', bs') && AreaOk(area', bs')
            && Total(area', MAX_ORDER) == Total(area, MAX_ORDER) + Pow2(k)
  {
    AreaInsert(area, bs, SetFree(bs, p, true), bs[p].order, p);
    RecordStep(pages, bs, SetFree(bs, p, true), p, -1, p, p, Head(bs[p].order, pages[p]));
  }

  lemma HeldNotFree(bs: Blocks, n: nat, p: nat)
    requires WellPlaced(bs, n) && Disjoint(bs) && p in bs && !bs[p].free
    ensures p < n && HeldBy(bs, p, p) && FreeSet(bs, n) !! Run(p, bs[p].order)
  {
    assert Placed(bs, n, p) && HeldBy(bs, p, p);
    forall x | InRun(p, bs[p].order, x) ensures !FreeAt(bs, x) {
      FreeAtHolder(bs, p, x);
    }
  }

  // ----- What the operations promise

  ghost predicate HasRun(s: set<nat>, k: nat)
  {
    exists q :: Aligned(q, k) && Run(q, k) <= s
  }

  /** No record of a block in `held` differs. */
  ghost predicate SameRecords(pages: seq<Page>, pages': seq<Page>, held: set<nat>)
  {
    |pages| == |pages'| && forall q :: q in held && q < |pages| ==> pages'[q] == pages[q]
  }

  /** `p` heads a smallest free block of order at least `k`. */
  ghost predicate BestFit(bs: Blocks, p: nat, k: nat)
  {
    && p in bs && bs[p].free && k <= bs[p].order
    && forall q :: q in bs && bs[q].free && k <= bs[q].order ==> bs[p].order <= bs[q].order
  }

  /**
    What a successful page_alloc promises: the run at `p` was free, came from a smallest sufficient
    block and is the only thing taken; its head has a fresh record and no other held record moved.
   */
  ghost predicate AllocSpec(pages: seq<Page>, bs: Blocks, pages': seq<Page>, bs': Blocks, order: nat,
          flags: set<PageFlag>, p: nat)
  {
    && BestFit(bs, p, order) && Aligned(p, order)
    && Run(p, order) <= FreeSet(bs, |pages|)
    && FreeSet(bs', |pages'|) == FreeSet(bs, |pages|) - Run(p, order)
    && Allocated(bs') == Allocated(bs)[p := order]
    && p < |pages| && SameRecords(pages, pages', Allocated(bs).Keys)
    && pages'[p] == Page(order, flags, 1, pages[p].private)
  }

  /** The record of a page that has been freed, wherever in a free block it lies. */
  predicate Marked(r: Page)
  {
    r.flags == {Buddy} && r.refcount == 0
  }

  /** What a successful page_free promises: the run of the block at `p` and nothing else becomes free. */
  ghost predicate FreeSpec(pages: seq<Page>, bs: Blocks, pages': seq<Page>, bs': Blocks, p: nat)
  {
    && p in Allocated(bs)
    && FreeSet(bs', |pages'|) == FreeSet(bs, |pages|) + Run(p, Allocated(bs)[p])
    && Allocated(bs') == Allocated(bs) - {p}
    && SameRecords(pages, pages', Allocated(bs').Keys)
  }

  /** An aligned run of free frames of order `k` exists exactly when some list of order `k` or more is not empty. */
  lemma RunNeedsBlock(area: seq<FreeArea>, bs: Blocks, n: nat, k: nat)
    requires WellFormed(bs, n) && AreaOk(area, bs) && k < MAX_ORDER
    requires forall j :: k <= j < MAX_ORDER ==> area[j].list == []
    ensures !HasRun(FreeSet(bs, n), k)
  {
    if q :| Aligned(q, k) && Run(q, k) <= FreeSet(bs, n) {
      var p := AlignedRunInOneBlock(bs, n, q, k);
      assert Placed(bs, n, p) && FreeBlock(bs, p, bs[p].order);
      assert !ListOk(area[bs[p].order], bs, bs[p].order);
    }
  }

  lemma SplitAllocated(bs: Blocks, p: nat, k: nat)
    requires p in bs && bs[p] == Blk(k + 1, false) && p + Pow2(k) !in bs
    ensures Allocated(Split(bs, p, k)) == Allocated(bs)[p := k]
  {
  }

  lemma SetFreeAllocated(bs: Blocks, p: nat, free: bool)
    requires p in bs
    ensures Allocated(SetFree(bs, p, free)) == if free then Allocated(bs) - {p} else Allocated(bs)[p := bs[p].order]
  {
  }

  lemma FirstIsBestFit(area: seq<FreeArea>, bs: Blocks, n: nat, k: nat, cur: nat)
    requires WellPlaced(bs, n) && AreaOk(area, bs) && k <= cur < MAX_ORDER && area[cur].list != []
    requires forall j :: k <= j < cur ==> area[j].list == []
    ensures FreeBlock(bs, area[cur].list[0], cur) && BestFit(bs, area[cur].list[0], k)
  {
    assert ListOk(area[cur], bs, cur);
    assert area[cur].list[0] in area[cur].list;
    assert FreeBlock(bs, area[cur].list[0], cur);
    forall q | q in bs && bs[q].free && k <= bs[q].order ensures cur <= bs[q].order {
      assert Placed(bs, n, q);
      assert ListOk(area[bs[q].order], bs, bs[q].order);
      assert FreeBlock(bs, q, bs[q].order);
    }
  }

  /** The block in hand has order `k` and was taken from the free blocks of `bs0`; nothing else has changed. */
  ghost predicate Carving(pages: seq<Page>, bs: Blocks, p: nat, k: nat, pages0: seq<Page>, bs0: Blocks)
  {
    && p in bs && bs[p] == Blk(k, false) && |pages| == |pages0|
    && Run(p, k) <= FreeSet(bs0, |pages0|)
    && FreeSet(bs, |pages|) == FreeSet(bs0, |pages0|) - Run(p, k)
    && Allocated(bs) == Allocated(bs0)[p := k]
    && SameRecords(pages0, pages, Allocated(bs0).Keys + {p})
  }

  lemma CarveStart(pages: seq<Page>, bs: Blocks, p: nat, k: nat)
    requires WellFormed(bs, |pages|) && FreeBlock(bs, p, k)
    ensures Carving(pages, SetFree(bs, p, false), p, k, pages, bs)
  {
    SetFreeFacts(bs, |pages|, p, false);
    FreeInside(bs, |pages|, p);
    SetFreeAllocated(bs, p, false);
  }

  lemma CarveFrame(pages: seq<Page>, bs: Blocks, p: nat, k: nat, pages0: seq<Page>, bs0: Blocks)
    requires WellFormed(bs, |pages|) && Carving(pages, bs, p, k + 1, pages0, bs0)
    ensures var u := p + Pow2(k);
            u < |pages| && Carving(pages[u := Head(k, pages[u])], Split(bs, p, k), p, k, pages0, bs0)
  {
    SplitFacts(bs, |pages|, p, k);
    SplitDisjoint(bs, p, k);
    UpperHalfHeld(bs, |pages|, p, k);
    SplitAllocated(bs, p, k);
    RunHalves(p, k);
    assert p + Pow2(k) !in Allocated(bs);
  }

  lemma CarveEnd(pages: seq<Page>, area: seq<FreeArea>, bs: Blocks, p: nat, k: nat, flags: set<PageFlag>,
          pages0: seq<Page>, bs0: Blocks)
    requires Consistent(pages, area, bs, p) && Carving(pages, bs, p, k, pages0, bs0) && BestFit(bs0, p, k)
    ensures Total(area, MAX_ORDER) == |FreeSet(bs0, |pages0|)| - Pow2(k)
    ensures p < |pages| && AllocSpec(pages0, bs0, pages[p := Page(k, flags, 1, pages[p].private)], bs, k, flags, p)
  {
    assert Placed(bs, |pages|, p);
    RunSize(p, k);
    Removed(FreeSet(bs0, |pages0|), Run(p, k));
  }

  /** The block in hand holds what was freed at `p0` and the free blocks merged with it so far. */
  ghost predicate Merging(pages: seq<Page>, bs: Blocks, p: nat, k: nat, pages0: seq<Page>, bs0: Blocks, p0: nat)
  {
    && p0 in bs0 && p in bs && bs[p] == Blk(k, false) && |pages| == |pages0|
    && FreeSet(bs, |pages|) + Run(p, k) == FreeSet(bs0, |pages0|) + Run(p0, bs0[p0].order)
    && Allocated(bs) - {p} == Allocated(bs0) - {p0}
    && SameRecords(pages0, pages, (Allocated(bs0) - {p0}).Keys)
    && p <= p0 < p + Pow2(k) && p0 < |pages| && Marked(pages[p0])
  }

  lemma HoldStep(pages: seq<Page>, area: seq<FreeArea>, bs: Blocks, p: nat, r: Page)
    requires Consistent(pages, area, bs, -1) && p in bs && !bs[p].free && Marked(r)
    ensures p < |pages| && Consistent(pages[p := r], area, bs, p)
    ensures Merging(pages[p := r], bs, p, bs[p].order, pages, bs, p)
  {
    assert Placed(bs, |pages|, p) && HeldBy(bs, p, p);
    RecordStep(pages, bs, bs, -1, p, p, p, r);
  }

  lemma JoinAllocated(bs: Blocks, p: nat, q: nat, b: nat, k: nat)
    requires p in bs && bs[p] == Blk(k, false) && FreeBlock(bs, b, k) && Halves(p, b, q, k)
    ensures q in Join(bs, q) && Join(bs, q)[q] == Blk(k + 1, false)
    ensures Allocated(Join(bs, q)) - {q} == Allocated(bs) - {p}
  {
  }

  lemma MergeFrame(pages: seq<Page>, bs: Blocks, p: nat, k: nat, q: nat, b: nat, r: Page, pages0: seq<Page>,
          bs0: Blocks, p0: nat)
    requires WellFormed(bs, |pages|) && Merging(pages, bs, p, k, pages0, bs0, p0)
    requires Halves(p, b, q, k) && Joinable(bs, q, k) && FreeBlock(bs, b, k)
    ensures b < |pages| && Merging(pages[b := r], Join(bs, q), q, k + 1, pages0, bs0, p0)
  {
    JoinFacts(bs, |pages|, q, k, b);
    FreeInside(bs, |pages|, b);
    assert Placed(bs, |pages|, b);
    JoinAllocated(bs, p, q, b, k);
    RunHalves(q, k);
    assert b !in Allocated(bs0) - {p0};
  }

  lemma MergeEnd(pages: seq<Page>, area: seq<FreeArea>, bs: Blocks, p: nat, k: nat, r: Page, pages0: seq<Page>,
          bs0: Blocks, p0: nat)
    requires Consistent(pages, area, bs, p) && Merging(pages, bs, p, k, pages0, bs0, p0)
    requires WellFormed(bs0, |pages0|) && !bs0[p0].free && Marked(r)
    ensures p < |pages| && Marked(pages[p := r][p0])
    ensures var bs' := SetFree(bs, p, true);
            && p < |pages| && FreeSpec(pages0, bs0, pages[p := r], bs', p0)
            && |FreeSet(bs', |pages|)| == |FreeSet(bs0, |pages0|)| + Pow2(bs0[p0].order)
  {
    assert Placed(bs, |pages|, p);
    SetFreeFacts(bs, |pages|, p, true);
    SetFreeAllocated(bs, p, true);
    HeldNotFree(bs0, |pages0|, p0);
    RunSize(p0, bs0[p0].order);
    assert p !in Allocated(bs0) - {p0};
  }

  /** The guards of page_free. */
  predicate Refused(r: Page)
  {
    Reserved in r.flags || r.refcount > 1 || Buddy in r.flags
  }

  lemma PrivateKept(pages: seq<Page>, area: seq<FreeArea>, bs: Blocks, p: nat, v: nat)
    requires Consistent(pages, area, bs, -1) && p < |pages|
    ensures Consistent(pages[p := pages[p].(private := v)], area, bs, -1)
  {
    var pages' := pages[p := pages[p].(private := v)];
    forall q | q in bs ensures HeadOk(pages', bs, q) { assert HeadOk(pages, bs, q); }
  }

  lemma {:induction false} EmptyTotal(area: seq<FreeArea>, k: nat)
    requires k <= |area| && forall j :: 0 <= j < k ==> area[j].nr == 0
    ensures Total(area, k) == 0
  {
    if k > 0 { EmptyTotal(area, k - 1); }
  }

  lemma NothingManaged(pages: seq<Page>, area: seq<FreeArea>)
    requires forall x :: 0 <= x < |pages| ==> pages[x].flags == {}
    requires |area| == MAX_ORDER && forall k :: 0 <= k < MAX_ORDER ==> area[k] == FreeArea([], 0)
    ensures Consistent(pages, area, map[], -1) && Total(area, MAX_ORDER) == 0
  {
    EmptyTotal(area, MAX_ORDER);
    assert FreeSet(map[], |pages|) == {};
  }

  class Zone {
    const pages: array<Page>
    const area: array<FreeArea>
    var freePages: int
    ghost var blocks: Blocks

    ghost predicate Valid()
      reads this, pages, area
    {
      Consistent(pages[..], area[..], blocks, -1) && freePages == Total(area[..], MAX_ORDER)
    }

    /** Cleared records and empty lists: no page is managed yet. */
    constructor (n: nat)
      ensures Valid() && pages.Length == n && area.Length == MAX_ORDER == 11 && blocks == map[] && fresh(pages)
              && fresh(area)
      ensures forall x :: 0 <= x < n ==> pages[x] == Page(0, {}, 0, 0)
    {
      pages := new Page[n](_ => Page(0, {}, 0, 0));
      area := new FreeArea[MAX_ORDER](_ => FreeArea([], 0));
      freePages, blocks := 0, map[];
      new;
      NothingManaged(pages[..], area[..]);
    }

    ghost function FreeFrames(): set<nat>
      reads this
    {
      FreeSet(blocks, pages.Length)
    }

    method PageAlloc(order: nat, flags: set<PageFlag>) returns (r: Option<nat>)
      requires Valid() && Buddy !in flags && Reserved !in flags
      modifies this, pages, area
      ensures Valid()
      ensures r.None? <==> order >= MAX_ORDER || !HasRun(old(FreeFrames()), order)
      ensures r.None? ==>
                blocks == old(blocks) && freePages == old(freePages) && pages[..] == old(pages[..])
                    && area[..] == old(area[..])
      ensures r.Some? ==> AllocSpec(old(pages[..]), old(blocks), pages[..], blocks, order, flags, r.value)
    {
      var cur := order;
      while cur < MAX_ORDER && area[cur].list == []
        invariant order <= cur
        invariant forall j :: order <= j < cur && j < MAX_ORDER ==> area[j].list == []
      {
        cur := cur + 1;
      }
      if cur >= MAX_ORDER {
        if order < MAX_ORDER { RunNeedsBlock(area[..], blocks, pages.Length, order); }
        return None;
      }
      FirstIsBestFit(area[..], blocks, pages.Length, order, cur);
      var page := area[cur].list[0];
      TakeBlock(page, cur, order, flags);
      r := Some(page);
    }

    /** list_add, with the count of the area. */
    method ListAdd(p: nat, k: nat)
      requires k < area.Length
      modifies area
      ensures area[..] == Push(old(area[..]), k, p)
    {
      area[k] := FreeArea([p] + area[k].list, area[k].nr + 1);
    }

    /** list_remove, with the count of the area. */
    method ListRemove(p: nat, k: nat)
      requires k < area.Length && area[k].nr > 0
      modifies area
      ensures area[..] == Drop(old(area[..]), k, p)
    {
      area[k] := FreeArea(Without(area[k].list, p), area[k].nr - 1);
    }

    /** Unlink the first block of a list. */
    method Unlink(page: nat, k: nat)
      requires Consistent(pages[..], area[..], blocks, -1) && FreeBlock(blocks, page, k)
      modifies this`blocks, area
      ensures blocks == SetFree(old(blocks), page, false)
      ensures Consistent(pages[..], area[..], blocks, page)
    {
      TakeStep(pages[..], area[..], blocks, k, page);
      ListRemove(page, k);
      blocks := SetFree(blocks, page, false);
    }

    /** Give the upper half of the block in hand back. */
    method SplitOnce(page: nat, k: nat)
      requires Consistent(pages[..], area[..], blocks, page)
      requires page in blocks && blocks[page] == Blk(k + 1, false)
      modifies this`blocks, pages, area
      ensures page + Pow2(k) < pages.Length && page + Pow2(k) !in old(blocks)
      ensures blocks == Split(old(blocks), page, k)
      ensures pages[..] == old(pages[..])[page + Pow2(k) := Head(k, old(pages[..])[page + Pow2(k)])]
      ensures Consistent(pages[..], area[..], blocks, page)
    {
      SplitStep(pages[..], area[..], blocks, page, k);
      ghost var pages1, area1 := pages[..], area[..];
      var buddy := page + Pow2(k);
      pages[buddy] := pages[buddy].(order := k, flags := {Buddy}, refcount := 0);
      assert area[..] == area1;
      ListAdd(buddy, k);
      assert pages[..] == pages1[buddy := Head(k, pages1[buddy])];
      blocks := Split(blocks, page, k);
    }

    /** The splitting loop of page_alloc. */
    method SplitDown(page: nat, k: nat, order: nat, ghost pages0: seq<Page>, ghost bs0: Blocks)
      requires Consistent(pages[..], area[..], blocks, page) && Carving(pages[..], blocks, page, k, pages0, bs0)
      requires order <= k
      modifies this`blocks, pages, area
      ensures Consistent(pages[..], area[..], blocks, page) && Carving(pages[..], blocks, page, order, pages0, bs0)
    {
      var cur := k;
      while cur > order
        invariant order <= cur
        invariant Consistent(pages[..], area[..], blocks, page)
        invariant Carving(pages[..], blocks, page, cur, pages0, bs0)
      {
        cur := cur - 1;
        CarveFrame(pages[..], blocks, page, cur, pages0, bs0);
        SplitOnce(page, cur);
      }
    }

    /** Takes a free block off its list and splits it down to the order asked for. */
    method Carve(page: nat, k: nat, order: nat)
      requires Consistent(pages[..], area[..], blocks, -1) && FreeBlock(blocks, page, k) && order <= k
      modifies this`blocks, pages, area
      ensures Consistent(pages[..], area[..], blocks, page)
      ensures Carving(pages[..], blocks, page, order, old(pages[..]), old(blocks))
    {
      ghost var pages0, bs0 := pages[..], blocks;
      CarveStart(pages0, bs0, page, k);
      Unlink(page, k);
      SplitDown(page, k, order, pages0, bs0);
    }

    /** The body of the loop over orders, entered with the first block of the first list that has one. */
    method TakeBlock(page: nat, k: nat, order: nat, flags: set<PageFlag>)
      requires Valid() && Buddy !in flags && Reserved !in flags
      requires FreeBlock(blocks, page, k) && BestFit(blocks, page, order)
      modifies this, pages, area
      ensures Valid() && AllocSpec(old(pages[..]), old(blocks), pages[..], blocks, order, flags, page)
    {
      ghost var pages0, bs0 := pages[..], blocks;
      Carve(page, k, order);
      CarveEnd(pages[..], area[..], blocks, page, order, flags, pages0, bs0);
      ghost var area1 := area[..];
      HandOut(page, order, flags);
      assert area[..] == area1;
    }

    method HandOut(page: nat, order: nat, flags: set<PageFlag>)
      requires Consistent(pages[..], area[..], blocks, page)
      requires page in blocks && blocks[page] == Blk(order, false) && Buddy !in flags && Reserved !in flags
      modifies this`freePages, pages
      ensures page < pages.Length
      ensures pages[..] == old(pages[..])[page := Page(order, flags, 1, old(pages[..])[page].private)]
      ensures freePages == old(freePages) - Pow2(order)
      ensures Consistent(pages[..], area[..], blocks, -1)
    {
      assert Placed(blocks, pages.Length, page);
      AllocStep(pages[..], area[..], blocks, page, pages[page].(flags := flags, order := order, refcount := 1));
      ghost var area1 := area[..];
      pages[page] := pages[page].(flags := flags, order := order, refcount := 1);
      assert area[..] == area1;
      freePages := freePages - Pow2(order);
    }

    /** One round of the merge loop, entered when the buddy test has succeeded. */
    method MergeOnce(p: nat, k: nat, b: nat, q: nat)
      requires Consistent(pages[..], area[..], blocks, p)
      requires p in blocks && blocks[p] == Blk(k, false) && FreeBlock(blocks, b, k)
      requires Halves(p, b, q, k) && Joinable(blocks, q, k)
      modifies this`blocks, pages, area
      ensures b < pages.Length && blocks == Join(old(blocks), q)
      ensures pages[..] == old(pages[..])[b := Unlinked(old(pages[..])[b])]
      ensures Consistent(pages[..], area[..], blocks, q)
    {
      JoinStep(pages[..], area[..], blocks, p, q, b);
      ghost var pages1 := pages[..];
      ListRemove(b, k);
      ghost var area1 := area[..];
      assert pages[..] == pages1;
      pages[b] := pages[b].(flags := pages[b].flags - {Buddy}, order := 0);
      assert area[..] == area1;
      blocks := Join(blocks, q);
    }

    method PutFree(p: nat, k: nat)
      requires Consistent(pages[..], area[..], blocks, p)
      requires p in blocks && blocks[p] == Blk(k, false)
      requires k + 1 == MAX_ORDER || !FreeBlock(blocks, BuddyOf(p, k), k)
      modifies this`blocks, pages, area
      ensures p < pages.Length && blocks == SetFree(old(blocks), p, true)
      ensures pages[..] == old(pages[..])[p := Head(k, old(pages[..])[p])]
      ensures Consistent(pages[..], area[..], blocks, -1)
    {
      GiveStep(pages[..], area[..], blocks, p);
      ghost var pages1, area1 := pages[..], area[..];
      pages[p] := pages[p].(order := k, flags := {Buddy}, refcount := 0);
      assert area[..] == area1;
      ListAdd(p, k);
      assert pages[..] == pages1[p := Head(k, pages1[p])];
      blocks := SetFree(blocks, p, true);
    }

    /** The buddy test, on records only, and what it means for the blocks. */
    method CanMerge(p: nat, k: nat) returns (yes: bool)
      requires Consistent(pages[..], area[..], blocks, p) && p in blocks && blocks[p] == Blk(k, false)
      ensures yes <==> k + 1 < MAX_ORDER && FreeBlock(blocks, BuddyOf(p, k), k)
      ensures yes ==> Halves(p, Xor(p, Pow2(k)), AndNot(p, Pow2(k)), k) && Joinable(blocks, AndNot(p, Pow2(k)), k)
      ensures yes ==> FreeBlock(blocks, Xor(p, Pow2(k)), k)
    {
      assert Placed(blocks, pages.Length, p);
      BuddyIsXor(p, k);
      BuddyFacts(p, k);
      if k + 1 >= MAX_ORDER {
        return false;
      }
      var b := Xor(p, Pow2(k));
      if b >= pages.Length {
        assert b in blocks ==> Placed(blocks, pages.Length, b);
        return false;
      }
      BuddyTestExact(pages[..], blocks, p);
      yes := Buddy in pages[b].flags && pages[b].order == k;
    }

    method PageFree(page: Option<nat>) returns (res: Status)
      requires Valid()
      requires page.Some? ==>
                 page.value < pages.Length && (Refused(pages[page.value]) || page.value in Allocated(blocks))
      modifies this, pages, area
      ensures Valid()
      ensures res == Success <==> page.Some? && !Refused(old(pages[..])[page.value])
      ensures page.Some? && old(pages[..])[page.value].refcount > 1 ==> res == EInval
      ensures res != Success ==>
                blocks == old(blocks) && freePages == old(freePages) && pages[..] == old(pages[..])
                    && area[..] == old(area[..])
      ensures res == Success ==> FreeSpec(old(pages[..]), old(blocks), pages[..], blocks, page.value)
      ensures res == Success ==> Marked(pages[page.value])
    {
      if page.None? {
        return EInval;
      }
      var record := pages[page.value];
      if Reserved in record.flags {
        return EInval;
      }
      if record.refcount > 1 {
        return EInval;
      }
      if Buddy in record.flags {
        return EInval;
      }
      Release(page.value);
      return Success;
    }

    /** `page->private = v`, on a block that is handed out. */
    method SetPrivate(p: nat, v: nat)
      requires Valid() && p in Allocated(blocks)
      modifies pages
      ensures p < pages.Length && Valid()
      ensures pages[..] == old(pages[..])[p := old(pages[..])[p].(private := v)]
    {
      assert HeadOk(pages[..], blocks, p);
      ghost var pages1, area1 := pages[..], area[..];
      PrivateKept(pages1, area1, blocks, p, v);
      pages[p] := pages[p].(private := v);
      assert pages[..] == pages1[p := pages1[p].(private := v)] && area[..] == area1;
    }

    /** One round of the merge loop: test the buddy and join with it if it is free. */
    method MergeRound(p: nat, k: nat, ghost pages0: seq<Page>, ghost bs0: Blocks, ghost p0: nat)
        returns (merged: bool, q: nat)
      requires Consistent(pages[..], area[..], blocks, p) && Merging(pages[..], blocks, p, k, pages0, bs0, p0)
      modifies this`blocks, pages, area
      ensures merged <==> k + 1 < MAX_ORDER && FreeBlock(old(blocks), BuddyOf(p, k), k)
      ensures !merged ==> q == p && blocks == old(blocks)
      ensures Consistent(pages[..], area[..], blocks, q)
      ensures Merging(pages[..], blocks, q, if merged then k + 1 else k, pages0, bs0, p0)
    {
      merged := CanMerge(p, k);
      q := p;
      if merged {
        var buddy := Xor(p, Pow2(k));
        q := AndNot(p, Pow2(k));
        assert Placed(blocks, pages.Length, buddy);
        MergeFrame(pages[..], blocks, p, k, q, buddy, Unlinked(pages[buddy]), pages0, bs0, p0);
        MergeOnce(p, k, buddy, q);
      }
    }

    /** The merge loop of page_free. */
    method MergeUp(page: nat, k: nat, ghost pages0: seq<Page>, ghost bs0: Blocks) returns (pfn: nat, order: nat)
      requires Consistent(pages[..], area[..], blocks, page) && Merging(pages[..], blocks, page, k, pages0, bs0, page)
      requires k < MAX_ORDER
      modifies this`blocks, pages, area
      ensures Consistent(pages[..], area[..], blocks, pfn) && Merging(pages[..], blocks, pfn, order, pages0, bs0, page)
      ensures order + 1 == MAX_ORDER || !FreeBlock(blocks, BuddyOf(pfn, order), order)
    {
      pfn, order := page, k;
      var merged := true;
      while merged
        invariant Consistent(pages[..], area[..], blocks, pfn)
        invariant Merging(pages[..], blocks, pfn, order, pages0, bs0, page)
        invariant order < MAX_ORDER
        invariant !merged ==> order + 1 == MAX_ORDER || !FreeBlock(blocks, BuddyOf(pfn, order), order)
        decreases MAX_ORDER - order, merged
      {
        merged, pfn := MergeRound(pfn, order, pages0, bs0, page);
        if merged {
          order := order + 1;
        }
      }
    }

    /** The part of page_free after its guards. */
    method Release(page: nat)
      requires Valid() && page in Allocated(blocks)
      modifies this, pages, area
      ensures Valid() && FreeSpec(old(pages[..]), old(blocks), pages[..], blocks, page)
      ensures page < pages.Length && Marked(pages[page])
    {
      ghost var pages0, area0, bs0 := pages[..], area[..], blocks;
      assert HeadOk(pages0, bs0, page);
      var pfn, order := page, pages[page].order;
      var orig := order;
      HoldStep(pages[..], area[..], blocks, page, pages[page].(flags := {Buddy}, refcount := 0));
      pages[page] := pages[page].(flags := {Buddy}, refcount := 0);
      assert area[..] == area0;
      assert Placed(bs0, |pages0|, page);
      pfn, order := MergeUp(page, order, pages0, bs0);
      assert Placed(blocks, pages.Length, pfn);
      MergeEnd(pages[..], area[..], blocks, pfn, order, Head(order, pages[pfn]), pages0, bs0, page);
      PutFree(pfn, order);
      freePages := freePages + Pow2(orig);
    }
  }

  /** A page that is freed twice in a row is refused the second time, whatever it was merged with. */
  method FreeTwice(z: Zone, page: nat) returns (first: Status, second: Status)
    requires z.Valid() && page < z.pages.Length && (Refused(z.pages[page]) || page in Allocated(z.blocks))
    modifies z, z.pages, z.area
    ensures z.Valid() && second == EInval
    ensures first == Success ==> FreeSpec(old(z.pages[..]), old(z.blocks), z.pages[..], z.blocks, page)
    ensures first != Success ==> z.blocks == old(z.blocks) && z.pages[..] == old(z.pages[..])
  {
    first := z.PageFree(Some(page));
    second := z.PageFree(Some(page));
  }

  /** In every reachable state each free list holds exactly the maximal aligned runs of its order. */
  lemma ListsCanonical(z: Zone, p: nat, k: nat)
    requires z.Valid() && k < MAX_ORDER
    ensures p in z.area[k].list <==> Maximal(z.FreeFrames(), p, k)
    ensures z.area[k].nr == |z.area[k].list| && z.freePages == |z.FreeFrames()|
  {
    Canonical(z.blocks, z.pages.Length, p, k);
    assert ListOk(z.area[..][k], z.blocks, k);
    assert FreeBlock(z.blocks, p, k) <==> p in z.area[k].list;
  }

  /** Two zones with the same free frames hold the same blocks on every list, whatever was called before. */
  lemma ListsHistoryIndependent(z: Zone, z': Zone, k: nat)
    requires z.Valid() && z'.Valid() && z.pages.Length == z'.pages.Length && k < MAX_ORDER
    requires z.FreeFrames() == z'.FreeFrames()
    ensures forall p :: p in z.area[k].list <==> p in z'.area[k].list
    ensures z.area[k].nr == z'.area[k].nr
  {
    forall p: nat ensures p in z.area[k].list <==> p in z'.area[k].list {
      ListsCanonical(z, p, k);
      ListsCanonical(z', p, k);
    }
    ListsCanonical(z, 0, k);
    ListsCanonical(z', 0, k);
    assert ListOk(z.area[..][k], z.blocks, k) && ListOk(z'.area[..][k], z'.blocks, k);
    SameMembersSameLength(z.area[k].list, z'.area[k].list);
  }

  lemma {:induction false} SameMembersSameLength(s: seq<nat>, t: seq<nat>)
    requires NoDup(s) && NoDup(t) && forall p :: p in s <==> p in t
    ensures |s| == |t|
  {
    assert t != [] ==> t[0] in t;
    if s != [] {
      WithoutFacts(t, s[0]);
      assert s == [s[0]] + s[1..];
      SameMembersSameLength(s[1..], Without(t, s[0]));
    }
  }
}
