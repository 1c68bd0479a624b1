/** page_init: the greedy left-to-right scan that fills the free lists from the region tables. */
module PageInit {
  import opened Common
  import opened Bits
  import opened Blocks
  import opened Buddy
  import M = Memblock

  // ----- Maximal runs of a set of frames

  ghost predicate Within(t: set<nat>, n: nat)
  {
    forall x :: x in t ==> x < n
  }

  /** Two maximal runs that share a frame are the same run. */
  lemma MaximalUnique(t: set<nat>, p: nat, j: nat, q: nat, k: nat, x: nat)
    requires Maximal(t, p, j) && Maximal(t, q, k) && InRun(p, j, x) && InRun(q, k, x)
    ensures p == q && j == k
  {
    if j < k {
      SmallerNotMaximal(t, p, j, q, k, x);
    } else if k < j {
      SmallerNotMaximal(t, q, k, p, j, x);
    } else {
      AlignedNesting(p, j, q, k);
    }
  }

  lemma SmallerNotMaximal(t: set<nat>, p: nat, j: nat, q: nat, k: nat, x: nat)
    requires Aligned(p, j) && Maximal(t, q, k) && InRun(p, j, x) && InRun(q, k, x) && j < k
    ensures !Maximal(t, p, j)
  {
    BuddyFacts(p, j);
    AlignedNesting(ParentOf(p, j), j + 1, q, k);
    assert InRun(ParentOf(p, j), j + 1, x);
    assert Run(ParentOf(p, j), j + 1) <= Run(q, k);
  }

  /** An aligned run of frames of `t` lies inside a maximal one. */
  lemma {:induction false} MaximalAbove(t: set<nat>, p: nat, k: nat) returns (q: nat, j: nat)
    requires k < MAX_ORDER && Aligned(p, k) && Run(p, k) <= t
    ensures Maximal(t, q, j) && q <= p && p + Pow2(k) <= q + Pow2(j)
    decreases MAX_ORDER - k
  {
    BuddyFacts(p, k);
    if k + 1 < MAX_ORDER && Run(ParentOf(p, k), k + 1) <= t {
      q, j := MaximalAbove(t, ParentOf(p, k), k + 1);
    } else {
      q, j := p, k;
    }
  }

  // ----- Block maps made of maximal runs

  /** The free blocks of `bs` are the maximal runs of `t` that start below `pos`, and there is nothing else. */
  ghost predicate Prefix(bs: Blocks, t: set<nat>, pos: nat)
  {
    && (forall p :: p in bs ==> bs[p].free)
    && forall p: nat, k: nat {:trigger FreeBlock(bs, p, k)} :: FreeBlock(bs, p, k) <==> Maximal(t, p, k) && p < pos
  }

  /** No maximal run crosses `pos`. */
  ghost predicate NoStraddle(t: set<nat>, pos: nat)
  {
    forall p: nat, k: nat {:trigger Maximal(t, p, k)} :: Maximal(t, p, k) && p < pos ==> p + Pow2(k) <= pos
  }

  lemma PrefixWellFormed(bs: Blocks, t: set<nat>, pos: nat, n: nat)
    requires Prefix(bs, t, pos) && Within(t, n)
    ensures WellFormed(bs, n)
  {
    forall p | p in bs ensures Placed(bs, n, p) && Single(bs, p) {
      var k := bs[p].order;
      assert FreeBlock(bs, p, k);
      assert p + Pow2(k) - 1 in Run(p, k);
      BuddyFacts(p, k);
      if k + 1 < MAX_ORDER && FreeBlock(bs, BuddyOf(p, k), k) {
        RunHalves(ParentOf(p, k), k);
      }
    }
    forall p, q | p in bs && q in bs && p < q ensures Apart(bs, p, q) {
      assert FreeBlock(bs, p, bs[p].order) && FreeBlock(bs, q, bs[q].order);
      if !Apart(bs, p, q) {
        MaximalUnique(t, p, bs[p].order, q, bs[q].order, q);
      }
    }
  }

  /** When the scan is over the free frames are exactly those of `t`. */
  lemma PrefixComplete(bs: Blocks, t: set<nat>, pos: nat, n: nat)
    requires Prefix(bs, t, pos) && Within(t, n) && n <= pos
    ensures FreeSet(bs, n) == t
  {
    forall x: nat ensures x in FreeSet(bs, n) <==> x in t {
      if x in t {
        assert Run(x, 0) == {x};
        var q, j := MaximalAbove(t, x, 0);
        assert FreeBlock(bs, q, j);
        assert HeldBy(bs, q, x);
      }
      if p :| HeldBy(bs, p, x) && bs[p].free {
        assert FreeBlock(bs, p, bs[p].order);
      }
    }
  }

  /** Passing over frames that are not in `t`. */
  lemma PassOver(bs: Blocks, t: set<nat>, pos: nat, pos': nat)
    requires Prefix(bs, t, pos) && NoStraddle(t, pos) && pos <= pos'
    requires forall x :: pos <= x < pos' ==> x !in t
    ensures Prefix(bs, t, pos') && NoStraddle(t, pos')
  {
    forall p: nat, k: nat | Maximal(t, p, k) && p < pos' ensures p < pos {
      assert p in Run(p, k);
    }
  }

  /** Recording the maximal run that starts at `pos`. */
  lemma PassBlock(bs: Blocks, t: set<nat>, pos: nat, k: nat)
    requires Prefix(bs, t, pos) && NoStraddle(t, pos) && Maximal(t, pos, k)
    ensures pos !in bs
    ensures Prefix(bs[pos := Blk(k, true)], t, pos + Pow2(k)) && NoStraddle(t, pos + Pow2(k))
  {
    assert pos in bs ==> FreeBlock(bs, pos, bs[pos].order);
    forall p: nat, j: nat | Maximal(t, p, j) && pos <= p < pos + Pow2(k) ensures p == pos && j == k {
      MaximalUnique(t, p, j, pos, k, p);
    }
    var bs' := bs[pos := Blk(k, true)];
    forall p: nat, j: nat ensures FreeBlock(bs', p, j) <==> Maximal(t, p, j) && p < pos + Pow2(k) {
      assert p != pos ==> (FreeBlock(bs', p, j) <==> FreeBlock(bs, p, j));
    }
  }

  /** The order at which the code stops growing the block at `pos` makes it maximal. */
  lemma StopIsMaximal(t: set<nat>, pos: nat, k: nat)
    requires k < MAX_ORDER && Aligned(pos, k) && Run(pos, k) <= t && NoStraddle(t, pos)
    requires k + 1 == MAX_ORDER || !Aligned(pos, k + 1) || !(Run(pos, k + 1) <= t)
    ensures Maximal(t, pos, k)
  {
    BuddyFacts(pos, k);
    if k + 1 < MAX_ORDER && Run(ParentOf(pos, k), k + 1) <= t {
      var q, j := MaximalAbove(t, ParentOf(pos, k), k + 1);
      FlipBit(pos, k);
    }
  }

  // ----- Which frames are usable

  /** All bytes of page `x` lie in the region. */
  predicate PageIn(r: M.Region, x: int)
  {
    r.base <= x * PAGE_SIZE && (x + 1) * PAGE_SIZE <= r.base + r.size
  }

  lemma PageBytes(r: M.Region, x: int)
    ensures PageIn(r, x) <==> forall b :: x * PAGE_SIZE <= b < (x + 1) * PAGE_SIZE ==> M.In(r, b)
  {
    if forall b :: x * PAGE_SIZE <= b < (x + 1) * PAGE_SIZE ==> M.In(r, b) {
      assert M.In(r, x * PAGE_SIZE) && M.In(r, (x + 1) * PAGE_SIZE - 1);
    }
  }

  /** First page wholly above the region's base. */
  function StartPfn(r: M.Region): nat
  {
    (r.base + PAGE_SIZE - 1) / PAGE_SIZE
  }

  /** First page not wholly below the region's end. */
  function EndPfn(r: M.Region): nat
  {
    (r.base + r.size) / PAGE_SIZE
  }

  /** From the first to the last page number of a region are exactly the pages wholly inside it. */
  lemma PfnRange(r: M.Region, x: int)
    ensures StartPfn(r) <= x < EndPfn(r) <==> PageIn(r, x)
  {
  }

  predicate InPages(mem: seq<M.Region>, i: int, x: int)
  {
    0 <= i < |mem| && PageIn(mem[i], x)
  }

  lemma InPagesRange(mem: seq<M.Region>, i: nat, x: int)
    requires i < |mem|
    ensures InPages(mem, i, x) <==> StartPfn(mem[i]) <= x < EndPfn(mem[i])
  {
    PfnRange(mem[i], x);
  }

  ghost predicate InMemory(mem: seq<M.Region>, m: nat, x: int)
  {
    exists i {:trigger InPages(mem, i, x)} :: i < m && InPages(mem, i, x)
  }

  /** The page record rules the page out. */
  predicate Flagged(r: Page)
  {
    Reserved in r.flags || r.flags == {Bad} || Buddy in r.flags
  }

  /** pfn_is_reserved. */
  ghost predicate Taken(pages: seq<Page>, res: seq<M.Region>, n: nat, x: nat)
    requires x < |pages|
  {
    Flagged(pages[x]) || M.Busy(res, n, x * PAGE_SIZE, PAGE_SIZE)
  }

  /** The pages wholly inside a memory region, mapped, unflagged and clear of every reserved range. */
  ghost function Usable(pages: seq<Page>, mem: seq<M.Region>, m: nat, res: seq<M.Region>, n: nat): (t: set<nat>)
    ensures forall x :: x in t <==> x < |pages| && InMemory(mem, m, x) && !Taken(pages, res, n, x)
  {
    set x: nat | x < |pages| && InMemory(mem, m, x) && !Taken(pages, res, n, x)
  }

  /** All bytes of page `x` lie in region `i`. */
  ghost predicate HasPage(mem: seq<M.Region>, i: int, x: nat)
  {
    0 <= i < |mem| && forall b :: x * PAGE_SIZE <= b < (x + 1) * PAGE_SIZE ==> M.In(mem[i], b)
  }

  /**
    In bytes: a page is usable if and only if its record has none of the three flags, all its bytes lie in one memory
    region, none lies in a reserved one, and it is not the last page of the address space.
   */
  lemma UsableBytes(pages: seq<Page>, mem: seq<M.Region>, m: nat, res: seq<M.Region>, n: nat, x: nat)
    requires m <= |mem| && n <= |res| && M.AllFit(res, n)
    ensures x in Usable(pages, mem, m, res, n) <==>
              && x < |pages| && Reserved !in pages[x].flags && pages[x].flags != {Bad} && Buddy !in pages[x].flags
              && (exists i {:trigger HasPage(mem, i, x)} :: 0 <= i < m && HasPage(mem, i, x))
              && x < 0xF_FFFF && forall b :: x * PAGE_SIZE <= b < (x + 1) * PAGE_SIZE ==> !M.Covers(res, n, b)
  {
    if i :| i < m && InPages(mem, i, x) {
      PageBytes(mem[i], x);
      assert HasPage(mem, i, x);
    }
    if i :| 0 <= i < m && HasPage(mem, i, x) {
      PageBytes(mem[i], x);
      assert InPages(mem, i, x);
    }
    if x < 0xF_FFFF { M.BusyBytes(res, n, x * PAGE_SIZE, PAGE_SIZE); }
  }

  // ----- The scan, on values

  /** The pages in no memory region; their records are never touched. */
  ghost function Outside(n: nat, mem: seq<M.Region>, m: nat): (out: set<nat>)
    ensures forall x: nat :: x in out <==> x < n && !InMemory(mem, m, x)
  {
    set x: nat | x < n && !InMemory(mem, m, x)
  }

  /** The scan has come to `pos`; `out` are the pages it passes over without a look. */
  ghost predicate Scanned(pages: seq<Page>, area: seq<FreeArea>, bs: Blocks, pages0: seq<Page>, t: set<nat>,
          out: set<nat>, pos: nat)
  {
    && |pages| == |pages0| && Within(t, |pages|) && pos <= |pages|
    && Prefix(bs, t, pos) && NoStraddle(t, pos)
    && AreaOk(area, bs) && Total(area, MAX_ORDER) == |FreeSet(bs, |pages|)|
    && Records(pages, bs, -1)
    && (forall x :: 0 <= x < |pages| && (pos <= x || x in out) ==> pages[x] == pages0[x])
    && (forall x :: x in t ==> x !in out)
    && forall x :: 0 <= x < pos && Buddy in pages[x].flags ==> x in bs || x in out
  }

  lemma ScanStart(pages: seq<Page>, area: seq<FreeArea>, t: set<nat>, out: set<nat>)
    requires Within(t, |pages|) && |area| == MAX_ORDER && forall x :: x in t ==> x !in out
    requires forall k :: 0 <= k < MAX_ORDER ==> area[k] == FreeArea([], 0)
    ensures Scanned(pages, area, map[], pages, t, out, 0)
  {
    EmptyTotal(area, MAX_ORDER);
    assert FreeSet(map[], |pages|) == {};
  }

  lemma ScanSkip(pages: seq<Page>, area: seq<FreeArea>, bs: Blocks, pages0: seq<Page>, t: set<nat>, out: set<nat>,
          pos: nat, pos': nat)
    requires Scanned(pages, area, bs, pages0, t, out, pos) && pos <= pos' <= |pages|
    requires forall x :: pos <= x < pos' ==> x in out
    ensures Scanned(pages, area, bs, pages0, t, out, pos')
  {
    PassOver(bs, t, pos, pos');
  }

  lemma ScanReserved(pages: seq<Page>, area: seq<FreeArea>, bs: Blocks, pages0: seq<Page>, t: set<nat>, out: set<nat>,
          pos: nat)
    requires Scanned(pages, area, bs, pages0, t, out, pos) && pos < |pages| && pos !in t && pos !in out
    ensures Scanned(pages[pos := pages[pos].(flags := {Reserved})], area, bs, pages0, t, out, pos + 1)
  {
    var pages' := pages[pos := pages[pos].(flags := {Reserved})];
    PassOver(bs, t, pos, pos + 1);
    forall p | p in bs ensures HeadOk(pages', bs, p) {
      assert HeadOk(pages, bs, p) && FreeBlock(bs, p, bs[p].order);
    }
  }

  lemma AddedFree(bs: Blocks, n: nat, p: nat, k: nat)
    requires p !in bs && Disjoint(bs[p := Blk(k, true)]) && p + Pow2(k) <= n
    ensures FreeSet(bs[p := Blk(k, true)], n) == FreeSet(bs, n) + Run(p, k)
    ensures FreeSet(bs, n) !! Run(p, k)
  {
    var bs' := bs[p := Blk(k, true)];
    forall x: nat ensures FreeAt(bs', x) <==> FreeAt(bs, x) || InRun(p, k, x)
                  ensures !(FreeAt(bs, x) && InRun(p, k, x)) {
      if InRun(p, k, x) { assert HeldBy(bs', p, x); }
      if q :| HeldBy(bs, q, x) && bs[q].free {
        assert HeldBy(bs', q, x);
        if InRun(p, k, x) { HolderUnique(bs', p, q, x); }
      }
      if q :| HeldBy(bs', q, x) && bs'[q].free { assert q == p || HeldBy(bs, q, x); }
    }
  }

  lemma ScanBlockMap(bs: Blocks, t: set<nat>, n: nat, pos: nat, k: nat)
    requires Prefix(bs, t, pos) && NoStraddle(t, pos) && Within(t, n) && Maximal(t, pos, k)
    ensures pos + Pow2(k) <= n && pos !in bs
    ensures var bs' := bs[pos := Blk(k, true)];
            && Prefix(bs', t, pos + Pow2(k)) && NoStraddle(t, pos + Pow2(k))
            && |FreeSet(bs', n)| == |FreeSet(bs, n)| + Pow2(k)
  {
    assert pos + Pow2(k) - 1 in Run(pos, k);
    PassBlock(bs, t, pos, k);
    PrefixWellFormed(bs[pos := Blk(k, true)], t, pos + Pow2(k), n);
    AddedFree(bs, n, pos, k);
    RunSize(pos, k);
  }

  lemma ScanBlock(pages: seq<Page>, area: seq<FreeArea>, bs: Blocks, pages0: seq<Page>, t: set<nat>, out: set<nat>,
          pos: nat, k: nat)
    requires Scanned(pages, area, bs, pages0, t, out, pos) && Maximal(t, pos, k)
    requires forall x :: x in t && x < |pages| ==> Buddy !in pages0[x].flags
    ensures pos < |pages| && k < |area|
    ensures Scanned(pages[pos := Head(k, pages[pos])], Push(area, k, pos), bs[pos := Blk(k, true)], pages0, t, out,
              pos + Pow2(k))
  {
    ScanBlockMap(bs, t, |pages|, pos, k);
    forall x | pos <= x < pos + Pow2(k) ensures x in t { assert x in Run(pos, k); }
    AreaInsert(area, bs, bs[pos := Blk(k, true)], k, pos);
    ScanBlockRecords(pages, bs, pos, k);
  }

  lemma ScanBlockRecords(pages: seq<Page>, bs: Blocks, pos: nat, k: nat)
    requires Records(pages, bs, -1) && pos < |pages|
    ensures Records(pages[pos := Head(k, pages[pos])], bs[pos := Blk(k, true)], -1)
  {
    var pages', bs' := pages[pos := Head(k, pages[pos])], bs[pos := Blk(k, true)];
    forall p | p in bs' ensures HeadOk(pages', bs', p) {
      if p != pos { assert HeadOk(pages, bs, p); }
    }
  }

  /** All of `Consistent` but that pages outside every block do not look like free blocks. */
  ghost predicate Built(pages: seq<Page>, area: seq<FreeArea>, bs: Blocks)
  {
    WellFormed(bs, |pages|) && Records(pages, bs, -1) && AreaOk(area, bs)
        && Total(area, MAX_ORDER) == |FreeSet(bs, |pages|)|
  }

  /** No record of a page in `out` carries the flag of a free block. */
  predicate Clear(pages: seq<Page>, out: set<nat>)
  {
    forall x :: 0 <= x < |pages| && x in out ==> Buddy !in pages[x].flags
  }

  /** The scan leaves a consistent allocator if and only if no record that it passes over looks like a free block. */
  lemma ScanEnd(pages: seq<Page>, area: seq<FreeArea>, bs: Blocks, pages0: seq<Page>, t: set<nat>, out: set<nat>)
    requires Scanned(pages, area, bs, pages0, t, out, |pages|)
    ensures Built(pages, area, bs) && FreeSet(bs, |pages|) == t && Allocated(bs) == map[]
    ensures Consistent(pages, area, bs, -1) <==> Clear(pages0, out)
  {
    PrefixWellFormed(bs, t, |pages|, |pages|);
    PrefixComplete(bs, t, |pages|, |pages|);
    forall x | 0 <= x < |pages| && Buddy in pages[x].flags ensures Covered(bs, x) <==> x !in out {
      if x !in out { assert HeldBy(bs, x, x); }
      if p :| HeldBy(bs, p, x) { assert FreeAt(bs, x) && x in FreeSet(bs, |pages|); }
    }
    if Clear(pages0, out) { assert Quiet(pages, bs); }
  }

  // ----- The regions are scanned in order

  lemma PagesGap(mem: seq<M.Region>, m: nat, i: nat, j: nat)
    requires i < j < m <= |mem| && M.AllFit(mem, m) && M.Gapped(mem, m)
    ensures EndPfn(mem[i]) < StartPfn(mem[j])
  {
    assert M.End(mem[i]) < mem[j].base;
    assert mem[i].base + mem[i].size < mem[j].base;
  }

  /** Every memory frame from `pos` on belongs to region `i` or a later one. */
  ghost predicate Ahead(mem: seq<M.Region>, m: nat, i: nat, pos: nat, n: nat)
  {
    && (i < m <= |mem| ==> pos <= StartPfn(mem[i]))
    && forall x {:trigger InMemory(mem, m, x)} :: pos <= x < n && InMemory(mem, m, x) ==>
         i < m <= |mem| && StartPfn(mem[i]) <= x
  }

  lemma AheadStart(mem: seq<M.Region>, m: nat, n: nat)
    requires m <= |mem| && M.AllFit(mem, m) && M.Gapped(mem, m)
    ensures Ahead(mem, m, 0, 0, n)
  {
    forall x | 0 <= x < n && InMemory(mem, m, x) ensures 0 < m && StartPfn(mem[0]) <= x {
      var j :| j < m && InPages(mem, j, x);
      InPagesRange(mem, j, x);
      if j > 0 { PagesGap(mem, m, 0, j); AtOrBefore(mem, m, 0); }
    }
  }

  /** Once the frames of region `i` below `n` are behind `pos`, the rest belongs to later regions. */
  lemma AheadNext(mem: seq<M.Region>, m: nat, i: nat, pos: nat, pos': nat, n: nat)
    requires i < m <= |mem| && M.AllFit(mem, m) && M.Gapped(mem, m) && Ahead(mem, m, i, pos, n) && pos <= pos'
    requires forall x :: pos' <= x < n ==> !InPages(mem, i, x)
    requires pos' == pos || pos' <= EndPfn(mem[i])
    ensures Ahead(mem, m, i + 1, pos', n)
  {
    AtOrBefore(mem, m, i);
    if i + 1 < m { PagesGap(mem, m, i, i + 1); }
    forall x | pos' <= x < n && InMemory(mem, m, x) ensures i + 1 < m && StartPfn(mem[i + 1]) <= x {
      var j :| j < m && InPages(mem, j, x);
      InPagesRange(mem, j, x);
      if j < i { PagesGap(mem, m, j, i); }
      if j > i + 1 { PagesGap(mem, m, i + 1, j); AtOrBefore(mem, m, i + 1); }
    }
  }

  lemma AtOrBefore(mem: seq<M.Region>, m: nat, i: nat)
    requires i < m <= |mem|
    ensures StartPfn(mem[i]) <= EndPfn(mem[i]) + 1
  {
  }

  /** Inside region `i` and from the scan position on, a frame is usable exactly when pfn_is_reserved says no. */
  lemma UsableInRegion(pages: seq<Page>, pages0: seq<Page>, mem: seq<M.Region>, m: nat, i: nat, res: seq<M.Region>,
          n: nat, x: nat)
    requires i < m <= |mem| && x < |pages| == |pages0| && pages[x] == pages0[x] && InPages(mem, i, x)
    ensures x in Usable(pages0, mem, m, res, n) <==> !Taken(pages, res, n, x)
  {
  }

  /** The frame at which region `i` ends is in no region. */
  lemma RegionEnd(mem: seq<M.Region>, m: nat, i: nat)
    requires i < m <= |mem| && M.AllFit(mem, m) && M.Gapped(mem, m)
    ensures !InMemory(mem, m, EndPfn(mem[i]))
  {
    if j :| j < m && InPages(mem, j, EndPfn(mem[i])) {
      InPagesRange(mem, j, EndPfn(mem[i]));
      if j < i { PagesGap(mem, m, j, i); AtOrBefore(mem, m, i); }
      if i < j { PagesGap(mem, m, i, j); }
    }
  }

  class Boot {
    const zone: Zone
    const tables: M.Memblock

    constructor (z: Zone, mb: M.Memblock)
      ensures zone == z && tables == mb
    {
      zone, tables := z, mb;
    }

    method PfnIsReserved(pfn: nat) returns (r: bool)
      requires tables.Valid() && pfn < zone.pages.Length <= 0x10_0000
      ensures r <==> Taken(zone.pages[..], tables.reserved.regions[..], tables.reserved.count, pfn)
    {
      var flags := zone.pages[pfn].flags;
      if Reserved in flags || flags == {Bad} {
        return true;
      }
      if Buddy in flags {
        return true;
      }
      r := tables.IsReserved(pfn * PAGE_SIZE, PAGE_SIZE);
    }

    method PfnRangeReserved(start: nat, n: nat) returns (r: bool)
      requires tables.Valid() && start + n <= zone.pages.Length <= 0x10_0000
      ensures r <==> exists x ::
                start <= x < start + n && Taken(zone.pages[..], tables.reserved.regions[..], tables.reserved.count, x)
    {
      for pfn := start to start + n
        invariant forall x :: start <= x < pfn ==>
                    !Taken(zone.pages[..], tables.reserved.regions[..], tables.reserved.count, x)
      {
        var taken := PfnIsReserved(pfn);
        if taken {
          return true;
        }
      }
      return false;
    }

    ghost function Memory(): seq<M.Region>
      reads tables, tables.memory, tables.memory.regions
    {
      tables.memory.regions[..]
    }

    ghost function Target(pages0: seq<Page>): set<nat>
      reads tables, tables.memory, tables.memory.regions, tables.reserved, tables.reserved.regions
    {
      Usable(pages0, Memory(), tables.memory.count, tables.reserved.regions[..], tables.reserved.count)
    }

    ghost function Beyond(): set<nat>
      reads tables, tables.memory, tables.memory.regions, zone
    {
      Outside(zone.pages.Length, Memory(), tables.memory.count)
    }

    ghost predicate At(pages0: seq<Page>, t: set<nat>, pos: nat)
      reads this, zone, zone.pages, zone.area, tables, tables.memory, tables.memory.regions
    {
      Scanned(zone.pages[..], zone.area[..], zone.blocks, pages0, t, Beyond(), pos)
          && zone.freePages == Total(zone.area[..], MAX_ORDER)
    }

    /** The inner loop that grows the block at `pfn`. */
    method FindOrder(pfn: nat, end: nat, i: nat, ghost pages0: seq<Page>) returns (order: nat)
      requires tables.Valid() && zone.pages.Length <= 0x10_0000 && i < tables.memory.count
      requires At(pages0, Target(pages0), pfn) && pfn in Target(pages0)
      requires StartPfn(Memory()[i]) <= pfn < end <= zone.pages.Length
      requires end == zone.pages.Length || end == EndPfn(Memory()[i])
      requires end <= EndPfn(Memory()[i])
      ensures Maximal(Target(pages0), pfn, order) && pfn + Pow2(order) <= end
    {
      ghost var t := Target(pages0);
      order := 0;
      assert Run(pfn, 0) == {pfn};
      while order < MAX_ORDER - 1
        invariant order < MAX_ORDER && Aligned(pfn, order) && Run(pfn, order) <= t && pfn + Pow2(order) <= end
      {
        var wider := Widens(pfn, end, i, order + 1, pages0);
        if !wider {
          break;
        }
        order := order + 1;
      }
      StopIsMaximal(t, pfn, order);
    }

    /** The three tests of the inner loop: the block ends in the region, is aligned, and no frame of it is reserved. */
    method Widens(pfn: nat, end: nat, i: nat, k: nat, ghost pages0: seq<Page>) returns (ok: bool)
      requires tables.Valid() && i < tables.memory.count && |pages0| == zone.pages.Length <= 0x10_0000
      requires forall x :: pfn <= x < zone.pages.Length ==> zone.pages[x] == pages0[x]
      requires StartPfn(Memory()[i]) <= pfn < end <= zone.pages.Length && 0 < k < MAX_ORDER
      requires end == zone.pages.Length || end == EndPfn(Memory()[i])
      requires end <= EndPfn(Memory()[i])
      ensures ok <==> Aligned(pfn, k) && Run(pfn, k) <= Target(pages0)
      ensures ok ==> pfn + Pow2(k) <= end
    {
      var pages := Pow2(k);
      if pfn + pages > end {
        PastTheEnd(pages0, pfn, end, i, k);
        return false;
      }
      AndMask(pfn, k);
      if And(pfn, pages - 1) != 0 {
        return false;
      }
      var taken := PfnRangeReserved(pfn, pages);
      RangeUsable(pages0, pfn, i, k);
      ok := !taken;
    }

    lemma PastTheEnd(pages0: seq<Page>, pfn: nat, end: nat, i: nat, k: nat)
      requires tables.Valid() && i < tables.memory.count && |pages0| == zone.pages.Length
      requires pfn < end < pfn + Pow2(k) && end <= zone.pages.Length
      requires end == zone.pages.Length || end == EndPfn(Memory()[i])
      ensures !(Run(pfn, k) <= Target(pages0))
    {
      RegionEnd(Memory(), tables.memory.count, i);
      assert end in Run(pfn, k);
    }

    lemma RangeUsable(pages0: seq<Page>, pfn: nat, i: nat, k: nat)
      requires tables.Valid() && i < tables.memory.count && |pages0| == zone.pages.Length
      requires StartPfn(Memory()[i]) <= pfn && pfn + Pow2(k) <= EndPfn(Memory()[i])
               && pfn + Pow2(k) <= zone.pages.Length
      requires forall x :: pfn <= x < zone.pages.Length ==> zone.pages[x] == pages0[x]
      ensures Run(pfn, k) <= Target(pages0) <==>
              !(exists x ::
                  pfn <= x < pfn + Pow2(k)
                      && Taken(zone.pages[..], tables.reserved.regions[..], tables.reserved.count, x))
    {
      forall x | InRun(pfn, k, x)
        ensures x in Target(pages0) <==> !Taken(zone.pages[..], tables.reserved.regions[..], tables.reserved.count, x)
      {
        InPagesRange(Memory(), i, x);
        UsableInRegion(zone.pages[..], pages0, Memory(), tables.memory.count, i, tables.reserved.regions[..],
            tables.reserved.count, x);
      }
      if x :| pfn <= x < pfn + Pow2(k) && Taken(zone.pages[..], tables.reserved.regions[..], tables.reserved.count, x) {
        assert x in Run(pfn, k);
      }
    }

    method MarkReserved(pfn: nat, ghost pages0: seq<Page>, ghost t: set<nat>)
      requires At(pages0, t, pfn) && pfn < zone.pages.Length && pfn !in t && pfn !in Beyond()
      modifies zone.pages
      ensures At(pages0, t, pfn + 1)
    {
      ScanReserved(zone.pages[..], zone.area[..], zone.blocks, pages0, t, Beyond(), pfn);
      ghost var pages1, area1 := zone.pages[..], zone.area[..];
      zone.pages[pfn] := zone.pages[pfn].(flags := {Reserved});
      assert zone.pages[..] == pages1[pfn := pages1[pfn].(flags := {Reserved})];
      assert zone.area[..] == area1;
    }

    method AddBlock(pfn: nat, order: nat, ghost pages0: seq<Page>, ghost t: set<nat>)
      requires At(pages0, t, pfn) && Maximal(t, pfn, order)
      requires forall x :: x in t && x < |pages0| ==> Buddy !in pages0[x].flags
      modifies zone, zone.pages, zone.area
      ensures At(pages0, t, pfn + Pow2(order))
    {
      ScanBlock(zone.pages[..], zone.area[..], zone.blocks, pages0, t, Beyond(), pfn, order);
      AreaInsertTotal(zone.area[..], order, pfn);
      ghost var pages1, area1, bs1 := zone.pages[..], zone.area[..], zone.blocks;
      zone.pages[pfn] := zone.pages[pfn].(order := order, flags := {Buddy}, refcount := 0);
      assert zone.area[..] == area1;
      zone.ListAdd(pfn, order);
      assert zone.pages[..] == pages1[pfn := Head(order, pages1[pfn])];
      zone.blocks := zone.blocks[pfn := Blk(order, true)];
      zone.freePages := zone.freePages + Pow2(order);
    }

    lemma AreaInsertTotal(area: seq<FreeArea>, k: nat, p: nat)
      requires k < MAX_ORDER == |area|
      ensures Total(Push(area, k, p), MAX_ORDER) == Total(area, MAX_ORDER) + Pow2(k)
    {
      TotalUpdate(area, k, Push(area, k, p)[k], MAX_ORDER);
    }

    /** The scan of region `i`, from `start` to `end`. */
    method ScanRegion(i: nat, start: nat, end: nat, ghost pages0: seq<Page>)
      requires tables.Valid() && zone.pages.Length <= 0x10_0000 && i < tables.memory.count
      requires At(pages0, Target(pages0), start)
      requires StartPfn(Memory()[i]) <= start <= end <= zone.pages.Length && end <= EndPfn(Memory()[i])
      requires end == zone.pages.Length || end == EndPfn(Memory()[i])
      modifies zone, zone.pages, zone.area
      ensures At(pages0, Target(pages0), end)
    {
      ghost var t := Target(pages0);
      var pfn := start;
      while pfn < end
        invariant start <= pfn <= end
        invariant At(pages0, t, pfn)
      {
        pfn := ScanPage(i, pfn, end, pages0);
      }
    }

    /** The body of the scan: page `pfn` is set aside, or the largest block that starts there is listed. */
    method ScanPage(i: nat, pfn: nat, end: nat, ghost pages0: seq<Page>) returns (next: nat)
      requires tables.Valid() && zone.pages.Length <= 0x10_0000 && i < tables.memory.count
      requires At(pages0, Target(pages0), pfn)
      requires StartPfn(Memory()[i]) <= pfn < end <= zone.pages.Length && end <= EndPfn(Memory()[i])
      requires end == zone.pages.Length || end == EndPfn(Memory()[i])
      modifies zone, zone.pages, zone.area
      ensures At(pages0, Target(pages0), next) && pfn < next <= end
    {
      ghost var t := Target(pages0);
      var taken := PfnIsReserved(pfn);
      UsableInRegion(zone.pages[..], pages0, Memory(), tables.memory.count, i, tables.reserved.regions[..],
          tables.reserved.count, pfn);
      if taken {
        assert InPages(Memory(), i, pfn);
        MarkReserved(pfn, pages0, t);
        next := pfn + 1;
      } else {
        var order := FindOrder(pfn, end, i, pages0);
        AddBlock(pfn, order, pages0, t);
        next := pfn + Pow2(order);
      }
    }

    /** The body of the loop over regions; everything below `pos` has been settled. */
    method ScanNext(i: nat, ghost pos: nat, ghost pages0: seq<Page>) returns (ghost next: nat)
      requires tables.Valid() && zone.pages.Length <= 0x10_0000 && i < tables.memory.count && pos <= zone.pages.Length
      requires At(pages0, Target(pages0), pos) && Ahead(Memory(), tables.memory.count, i, pos, zone.pages.Length)
      modifies zone, zone.pages, zone.area
      ensures next <= zone.pages.Length && At(pages0, Target(pages0), next)
      ensures Ahead(Memory(), tables.memory.count, i + 1, next, zone.pages.Length)
    {
      ghost var mem, m, n := Memory(), tables.memory.count, zone.pages.Length;
      var region := tables.memory.regions[i];
      var start, end := StartPfn(region), EndPfn(region);
      if end > zone.pages.Length {
        end := zone.pages.Length;
      }
      if start < end {
        ScanSkip(zone.pages[..], zone.area[..], zone.blocks, pages0, Target(pages0), Beyond(), pos, start);
        ScanRegion(i, start, end, pages0);
        AheadNext(mem, m, i, pos, end, n);
        next := end;
      } else {
        AheadNext(mem, m, i, pos, pos, n);
        next := pos;
      }
    }

    /** page_init, after the lists have been emptied. */
    method ScanAll(ghost pages0: seq<Page>)
      requires tables.Valid() && zone.pages.Length <= 0x10_0000
      requires At(pages0, Target(pages0), 0)
      modifies zone, zone.pages, zone.area
      ensures At(pages0, Target(pages0), zone.pages.Length)
    {
      ghost var t, mem, m, n := Target(pages0), Memory(), tables.memory.count, zone.pages.Length;
      ghost var pos: nat := 0;
      AheadStart(mem, m, n);
      var i := 0;
      while i < tables.memory.count
        invariant i <= m && pos <= n && At(pages0, t, pos) && Ahead(mem, m, i, pos, n)
      {
        pos := ScanNext(i, pos, pages0);
        i := i + 1;
      }
      ScanSkip(zone.pages[..], zone.area[..], zone.blocks, pages0, t, Beyond(), pos, n);
    }

    /**
      page_init. The free pages are exactly the usable ones, in maximal blocks. The allocator is valid if and
      only if no record of a page outside memory carries the flag of a free block.
     */
    method Init()
      requires tables.Valid() && zone.pages.Length <= 0x10_0000 && zone.area.Length == MAX_ORDER
      modifies zone, zone.pages, zone.area
      ensures zone.FreeFrames() == Target(old(zone.pages[..])) && Allocated(zone.blocks) == map[]
      ensures Built(zone.pages[..], zone.area[..], zone.blocks) && zone.freePages == Total(zone.area[..], MAX_ORDER)
      ensures zone.Valid() <==> Clear(old(zone.pages[..]), Beyond())
    {
      ghost var pages0 := zone.pages[..];
      for k := 0 to MAX_ORDER
        invariant forall j :: 0 <= j < k ==> zone.area[j] == FreeArea([], 0)
        invariant zone.pages[..] == pages0
      {
        zone.area[k] := FreeArea([], 0);
      }
      zone.freePages, zone.blocks := 0, map[];
      ScanStart(zone.pages[..], zone.area[..], Target(pages0), Beyond());
      EmptyTotal(zone.area[..], MAX_ORDER);
      ScanAll(pages0);
      ScanEnd(zone.pages[..], zone.area[..], zone.blocks, pages0, Target(pages0), Beyond());
    }
  }

  /** From cleared records the scan always ends in a valid allocator. */
  method Start(n: nat, mb: M.Memblock) returns (boot: Boot)
    requires mb.Valid() && n <= 0x10_0000
    ensures boot.tables == mb && fresh(boot) && fresh(boot.zone) && boot.zone.Valid()
    ensures boot.zone.pages.Length == n && Allocated(boot.zone.blocks) == map[]
    ensures boot.zone.FreeFrames() == Usable(seq(n, _ => Page(0, {}, 0, 0)), mb.memory.regions[..], mb.memory.count,
            mb.reserved.regions[..], mb.reserved.count)
  {
    var zone := new Zone(n);
    boot := new Boot(zone, mb);
    ghost var pages := seq(n, _ => Page(0, {}, 0, 0));
    assert zone.pages[..] == pages;
    boot.Init();
  }
}
