/**
  kmalloc and kfree: small requests from slabs whose free lists run through the free objects
  themselves, large ones straight from the page allocator.
 */
module Kheap {
  import opened Common
  import opened Bits
  import opened Blocks
  import opened Buddy

  const DIRECTMAP := 0xC000_0000
  /** Bytes of struct slab, and where in it the fields behind the two list links stand. */
  const SLAB_HEADER := 28
  const START := 8
  const FREE_LIST := 12
  const FREE_COUNT := 16
  const TOTAL := 20
  const PAGE := 24
  const SLAB_MAX_SIZE := 2048
  const NUM_CACHES := 9
  /** Bytes of a link. */
  const WORD := 4

  function Virt(pfn: nat): nat
  {
    DIRECTMAP + pfn * PAGE_SIZE
  }

  /** The header is seven words: two list links, and the five fields one after the other. */
  lemma HeaderLayout()
    ensures [START, FREE_LIST, FREE_COUNT, TOTAL, PAGE] == seq(5, i => (2 + i) * WORD) && SLAB_HEADER == 7 * WORD
  {
  }

  /** Page frames are seen on page boundaries from three gigabytes on, and the first gigabyte of them below four. */
  lemma DirectMapped(pfn: nat)
    ensures Virt(pfn) % PAGE_SIZE == 0 && Virt(pfn) >= 0xC000_0000
    ensures Virt(pfn) < 0x1_0000_0000 <==> pfn < 0x4_0000
  {
  }

  function PfnOf(addr: nat): nat
    requires addr >= DIRECTMAP
  {
    (addr - DIRECTMAP) / PAGE_SIZE
  }

  /** slab_sizes: 8, 16, ..., 2048. */
  function ObjSize(c: nat): (r: nat)
    ensures r >= 1
  {
    Pow2(c + 3)
  }

  function Quotient(a: nat, b: nat): nat
    requires b > 0
  {
    a / b
  }

  /** Objects that fit behind the header of a slab page. */
  function Objects(c: nat): nat
  {
    Quotient(PAGE_SIZE - SLAB_HEADER, ObjSize(c))
  }

  /** Address of object `i` of the slab on page `s`. */
  function Obj(s: nat, c: nat, i: nat): nat
  {
    Virt(s) + SLAB_HEADER + i * ObjSize(c)
  }

  lemma SizeFacts(c: nat)
    requires c < NUM_CACHES
    ensures 8 <= ObjSize(c) <= SLAB_MAX_SIZE && Objects(c) >= 1
    ensures Objects(c) * ObjSize(c) <= PAGE_SIZE - SLAB_HEADER
  {
    Pow2Monotone(3, c + 3);
    Pow2Monotone(c + 3, 11);
    assert Pow2(3) == 8;
    assert Pow2(11) == 8 * Pow2(8) == 2048;
    DivFacts(PAGE_SIZE - SLAB_HEADER, ObjSize(c));
  }

  lemma DivFacts(a: nat, b: nat)
    requires 0 < b <= a
    ensures (a / b) * b <= a && a / b >= 1
  {
  }

  lemma MulMonotone(a: nat, b: nat, m: nat)
    requires a <= b
    ensures a * m <= b * m
  {
  }

  /** An object lies inside its page, behind the header. */
  lemma ObjInPage(s: nat, c: nat, i: nat)
    requires c < NUM_CACHES && i < Objects(c)
    ensures Virt(s) < Obj(s, c, i) && Obj(s, c, i) + ObjSize(c) <= Virt(s + 1)
    ensures PfnOf(Obj(s, c, i)) == s
  {
    OffsetBound(c, i);
    InPage(s, SLAB_HEADER + i * ObjSize(c), ObjSize(c));
  }

  /** So does its link. */
  lemma WordInPage(s: nat, c: nat, i: nat)
    requires c < NUM_CACHES && i < Objects(c)
    ensures Virt(s) + SLAB_HEADER <= Obj(s, c, i) && Obj(s, c, i) + WORD <= Virt(s) + PAGE_SIZE == Virt(s + 1)
  {
    OffsetBound(c, i);
    SizeFacts(c);
    ObjInPage(s, c, i);
  }

  lemma OffsetBound(c: nat, i: nat)
    requires c < NUM_CACHES && i < Objects(c)
    ensures 0 <= i * ObjSize(c) && i * ObjSize(c) + ObjSize(c) <= PAGE_SIZE - SLAB_HEADER
  {
    SizeFacts(c);
    MulMonotone(i + 1, Objects(c), ObjSize(c));
    assert (i + 1) * ObjSize(c) == i * ObjSize(c) + ObjSize(c);
  }

  lemma InPage(s: nat, off: nat, n: nat)
    requires off + n <= PAGE_SIZE && n > 0
    ensures Virt(s) + off + n <= Virt(s + 1) && PfnOf(Virt(s) + off) == s
  {
  }

  /** Different objects of one slab do not overlap. */
  lemma ObjApart(s: nat, c: nat, i: nat, j: nat)
    requires i < j
    ensures Obj(s, c, i) + ObjSize(c) <= Obj(s, c, j)
  {
    MulMonotone(i + 1, j, ObjSize(c));
    assert (i + 1) * ObjSize(c) == i * ObjSize(c) + ObjSize(c);
  }

  // ----- Sizes and orders

  /** get_cache_index: the first cache whose objects are large enough, or -1. */
  method CacheIndex(size: nat) returns (c: int)
    ensures size <= SLAB_MAX_SIZE <==> c >= 0
    ensures c >= 0 ==> c < NUM_CACHES && size <= ObjSize(c) && (c > 0 ==> ObjSize(c - 1) < size)
  {
    assert Pow2(11) == 8 * Pow2(8) == 2048;
    var i := 0;
    while i < NUM_CACHES
      invariant 0 <= i <= NUM_CACHES && (i > 0 ==> ObjSize(i - 1) < size)
    {
      if size <= ObjSize(i) {
        Pow2Monotone(i + 3, 11);
        return i;
      }
      i := i + 1;
    }
    return -1;
  }

  /** Number of significant bits: 64 minus the leading zeros of a 64-bit value. */
  function BitLength(n: nat): nat
  {
    if n == 0 then 0 else 1 + BitLength(n / 2)
  }

  function OrderForPages(pages: nat): nat
  {
    if pages <= 1 then 0 else BitLength(pages - 1)
  }

  lemma {:induction false} BitLengthFacts(n: nat)
    ensures n < Pow2(BitLength(n))
    ensures n > 0 ==> Pow2(BitLength(n) - 1) <= n
  {
    if n > 0 { BitLengthFacts(n / 2); }
  }

  /** order_for_pages picks the smallest order that holds the request. */
  lemma OrderIsLeast(pages: nat)
    ensures pages <= Pow2(OrderForPages(pages))
    ensures pages > 1 ==> Pow2(OrderForPages(pages) - 1) < pages
  {
    if pages > 1 { BitLengthFacts(pages - 1); }
  }

  const SPACE := 0x1_0000_0000

  /** ALIGN(size, PAGE_SIZE) / PAGE_SIZE in 32-bit arithmetic. */
  function PagesFor(size: nat): nat
  {
    ((size + PAGE_SIZE - 1) % SPACE) / PAGE_SIZE
  }

  /** A large request gets enough pages exactly when rounding it up does not wrap around. */
  lemma RoundingExact(size: nat)
    requires SLAB_MAX_SIZE < size < 0x1_0000_0000
    ensures size <= Pow2(OrderForPages(PagesFor(size))) * PAGE_SIZE <==> size <= 0xFFFF_F000
  {
    OrderIsLeast(PagesFor(size));
    if size > SPACE - PAGE_SIZE {
      assert PagesFor(size) == 0;
    }
  }

  // ----- Heap state

  /** struct slab, without its list links; `freeList` is an object address, 0 when null. */
  datatype Header = Header(cache: nat, freeList: nat, freeCount: nat, total: nat)

  /** Where a live allocation sits: object `i` of slab `s`, or the block of order `k` at frame `h`. */
  datatype Place = Small(s: nat, i: nat) | Big(h: nat, k: nat)

  datatype Live = Live(size: nat, place: Place)

  /**
    Slab headers by page, memory words by address, and, for the proofs, each slab's free chain as object
    numbers and the live allocations by address.
   */
  datatype State = State(slabs: map<nat, Header>, word: map<nat, nat>, chain: map<nat, seq<nat>>, live: map<nat, Live>)

  /** Address of the `j`-th free object of a chain, 0 past its end. */
  function Link(s: nat, c: nat, ch: seq<nat>, j: nat): nat
  {
    if j < |ch| then Obj(s, c, ch[j]) else 0
  }

  predicate LinkOk(s: nat, c: nat, ch: seq<nat>, word: map<nat, nat>, j: nat)
    requires j < |ch|
  {
    ch[j] < Objects(c) && Obj(s, c, ch[j]) in word && word[Obj(s, c, ch[j])] == Link(s, c, ch, j + 1)
  }

  /** The list threaded through the free objects of slab `s` is `ch`. */
  ghost predicate Threaded(s: nat, sl: Header, ch: seq<nat>, word: map<nat, nat>)
  {
    && sl.cache < NUM_CACHES && sl.total == Objects(sl.cache)
    && sl.freeCount == |ch| && sl.freeList == Link(s, sl.cache, ch, 0)
    && NoDup(ch)
    && forall j {:trigger LinkOk(s, sl.cache, ch, word, j)} :: 0 <= j < |ch| ==> LinkOk(s, sl.cache, ch, word, j)
  }

  predicate Holds(word: map<nat, nat>, a: nat, v: nat)
  {
    a in word && word[a] == v
  }

  /** What the header in front of the objects says, word by word; the page is named by its number. */
  predicate Titled(s: nat, sl: Header, word: map<nat, nat>)
  {
    && Holds(word, Virt(s) + START, Obj(s, sl.cache, 0))
    && Holds(word, Virt(s) + FREE_LIST, sl.freeList) && Holds(word, Virt(s) + FREE_COUNT, sl.freeCount)
    && Holds(word, Virt(s) + TOTAL, sl.total) && Holds(word, Virt(s) + PAGE, s)
  }

  ghost predicate SlabAt(st: State, s: nat)
  {
    && s in st.slabs && s in st.chain
    && Threaded(s, st.slabs[s], st.chain[s], st.word) && Titled(s, st.slabs[s], st.word)
  }

  /** Every slab is intact; all but `open` have an object in use. */
  ghost predicate SlabsOk(st: State, open: int)
  {
    && st.chain.Keys == st.slabs.Keys
    && (forall s {:trigger SlabAt(st, s)} :: s in st.slabs ==> SlabAt(st, s))
    && (forall s :: s in st.slabs && s != open ==> st.slabs[s].freeCount < st.slabs[s].total)
  }

  /** The page under slab `s` belongs to it. */
  predicate SlabPage(pages: seq<Page>, alloc: map<nat, nat>, s: nat)
  {
    && s in alloc && alloc[s] == 0 && s < |pages|
    && pages[s].flags == {Kernel, Slab} && pages[s].refcount == 1 && pages[s].private == Virt(s)
  }

  predicate BigBlock(pages: seq<Page>, alloc: map<nat, nat>, h: nat, k: nat)
  {
    && h in alloc && alloc[h] == k && h < |pages|
    && pages[h].flags == {Kernel} && pages[h].refcount == 1
  }

  ghost predicate LiveAt(st: State, p: nat)
  {
    && p in st.live
    && match st.live[p].place
       case Small(s, i) =>
         && s in st.slabs && s in st.chain && i < Objects(st.slabs[s].cache) && i !in st.chain[s]
         && p == Obj(s, st.slabs[s].cache, i) && st.live[p].size <= ObjSize(st.slabs[s].cache)
       case Big(h, k) =>
         h !in st.slabs && p == Virt(h) && st.live[p].size <= Pow2(k) * PAGE_SIZE
  }

  /** Object `i` of slab `s` is on the free chain or in use. */
  ghost predicate Accounted(st: State, s: nat, i: nat)
  {
    && s in st.slabs && s in st.chain
    && (i in st.chain[s]
         || (Obj(s, st.slabs[s].cache, i) in st.live && st.live[Obj(s, st.slabs[s].cache, i)].place == Small(s, i)))
  }

  ghost predicate LiveOk(st: State)
  {
    && (forall p {:trigger LiveAt(st, p)} :: p in st.live ==> LiveAt(st, p))
    && (forall s, i {:trigger Accounted(st, s, i)} :: s in st.slabs && 0 <= i < Objects(st.slabs[s].cache) ==>
         Accounted(st, s, i))
  }

  /** A block the heap took from the page allocator. */
  predicate Owned(st: State, h: nat)
  {
    h in st.slabs || (Virt(h) in st.live && st.live[Virt(h)].place.Big?)
  }

  /** An allocated block is either foreign or the heap's own. */
  predicate Classified(st: State, alloc: map<nat, nat>, foreign: map<nat, nat>, h: nat)
  {
    && (h in alloc <==> Owned(st, h) || h in foreign)
    && !(Owned(st, h) && h in foreign)
    && (h in foreign ==> foreign[h] == alloc[h])
  }

  predicate BigPage(st: State, pages: seq<Page>, alloc: map<nat, nat>, p: nat)
  {
    p in st.live && st.live[p].place.Big? ==> BigBlock(pages, alloc, st.live[p].place.h, st.live[p].place.k)
  }

  /** The allocated blocks are the foreign ones and the heap's own, and the heap's pages are as it left them. */
  ghost predicate PagesOk(st: State, pages: seq<Page>, alloc: map<nat, nat>, foreign: map<nat, nat>)
  {
    && (forall h: nat {:trigger Classified(st, alloc, foreign, h)} :: Classified(st, alloc, foreign, h))
    && (forall s {:trigger SlabPage(pages, alloc, s)} :: s in st.slabs ==> SlabPage(pages, alloc, s))
    && (forall p: nat {:trigger BigPage(st, pages, alloc, p)} :: BigPage(st, pages, alloc, p))
  }

  /** The cache lists hold each slab once, in the cache of its object size. */
  ghost predicate ListsOk(st: State, caches: seq<seq<nat>>)
  {
    && |caches| == NUM_CACHES
    && (forall c :: 0 <= c < NUM_CACHES ==> NoDup(caches[c]))
    && forall c, s {:trigger s in caches[c]} :: 0 <= c < NUM_CACHES ==>
         (s in caches[c] <==> s in st.slabs && st.slabs[s].cache == c)
  }

  // ----- Live allocations never overlap

  ghost predicate Overlap(p: nat, n: nat, q: nat, m: nat)
  {
    p < q + m && q < p + n
  }

  function Home(a: Live): nat
  {
    match a.place
    case Small(s, _) => s
    case Big(h, _) => h
  }

  /** A live allocation lies inside an allocated block. */
  lemma InItsBlock(st: State, pages: seq<Page>, alloc: map<nat, nat>, foreign: map<nat, nat>, p: nat)
    requires LiveOk(st) && SlabsOk(st, -1) && PagesOk(st, pages, alloc, foreign) && p in st.live
    ensures var h := Home(st.live[p]);
            h in alloc && Virt(h) <= p && p + st.live[p].size <= Virt(h) + Pow2(alloc[h]) * PAGE_SIZE
  {
    assert LiveAt(st, p);
    match st.live[p].place
    case Small(s, i) =>
      assert SlabAt(st, s) && SlabPage(pages, alloc, s);
      ObjInPage(s, st.slabs[s].cache, i);
    case Big(h, k) =>
      assert BigPage(st, pages, alloc, p);
  }

  /** Any two live allocations are disjoint. */
  lemma LiveDisjoint(st: State, bs: Blocks, pages: seq<Page>, foreign: map<nat, nat>, p: nat, q: nat)
    requires LiveOk(st) && SlabsOk(st, -1) && PagesOk(st, pages, Allocated(bs), foreign) && Disjoint(bs)
    requires p in st.live && q in st.live && p != q
    ensures !Overlap(p, st.live[p].size, q, st.live[q].size)
  {
    var g, h := Home(st.live[p]), Home(st.live[q]);
    InItsBlock(st, pages, Allocated(bs), foreign, p);
    InItsBlock(st, pages, Allocated(bs), foreign, q);
    assert LiveAt(st, p) && LiveAt(st, q);
    if g == h {
      SameSlabDisjoint(st, p, q);
    } else {
      assert g < h ==> Apart(bs, g, h);
      assert h < g ==> Apart(bs, h, g);
    }
  }

  lemma SameSlabDisjoint(st: State, p: nat, q: nat)
    requires LiveAt(st, p) && LiveAt(st, q) && Home(st.live[p]) == Home(st.live[q]) && p != q
    ensures !Overlap(p, st.live[p].size, q, st.live[q].size)
  {
    match (st.live[p].place, st.live[q].place)
    case (Small(s, i), Small(_, j)) =>
      if i < j { ObjApart(s, st.slabs[s].cache, i, j); } else { ObjApart(s, st.slabs[s].cache, j, i); }
    case _ =>
  }

  // ----- Addresses identify objects

  lemma ObjInjective(s: nat, c: nat, i: nat, t: nat, d: nat, j: nat)
    requires c < NUM_CACHES && d < NUM_CACHES && i < Objects(c) && j < Objects(d)
    requires Obj(s, c, i) == Obj(t, d, j) && (s == t ==> c == d)
    ensures s == t && i == j
  {
    ObjInPage(s, c, i);
    ObjInPage(t, d, j);
    if i < j { ObjApart(s, c, i, j); } else if j < i { ObjApart(s, c, j, i); }
  }

  lemma ObjNotPage(s: nat, c: nat, i: nat, h: nat)
    requires c < NUM_CACHES && i < Objects(c)
    ensures Obj(s, c, i) != Virt(h)
  {
    ObjInPage(s, c, i);
    assert Virt(s + 1) == Virt(s) + PAGE_SIZE;
  }

  /** Whatever is live at the address of object `i` of slab `s` is that object. */
  lemma LiveAtObj(st: State, s: nat, i: nat)
    requires SlabAt(st, s) && i < Objects(st.slabs[s].cache) && Obj(s, st.slabs[s].cache, i) in st.live
    requires LiveAt(st, Obj(s, st.slabs[s].cache, i))
    requires forall t {:trigger SlabAt(st, t)} :: t in st.slabs ==> SlabAt(st, t)
    ensures st.live[Obj(s, st.slabs[s].cache, i)].place == Small(s, i)
  {
    var c := st.slabs[s].cache;
    match st.live[Obj(s, c, i)].place
    case Small(t, j) =>
      assert SlabAt(st, t);
      ObjInjective(s, c, i, t, st.slabs[t].cache, j);
    case Big(h, _) =>
      ObjNotPage(s, c, i, h);
  }

  // ----- Counting free objects

  ghost predicate Misses(ch: seq<nat>, n: nat)
  {
    exists i: nat {:trigger i in ch} :: i < n && i !in ch
  }

  /** A duplicate-free chain of object numbers below `n` leaves one out exactly when it is shorter than `n`. */
  lemma {:induction false} ChainLeavesOneOut(ch: seq<nat>, n: nat)
    requires NoDup(ch) && forall i :: i in ch ==> i < n
    ensures |ch| <= n && (|ch| < n <==> Misses(ch, n))
    decreases n
  {
    assert ch != [] ==> ch[0] in ch;
    if n == 0 {
    } else if n - 1 in ch {
      var rest := Without(ch, n - 1);
      WithoutFacts(ch, n - 1);
      ChainLeavesOneOut(rest, n - 1);
      if i: nat :| i < n && i !in ch { assert i !in rest; }
      if i: nat :| i < n - 1 && i !in rest { assert i !in ch; }
    } else {
      ChainLeavesOneOut(ch, n - 1);
    }
  }

  // ----- The heap's steps, on values

  /** No word of `word` that lies apart from the `n` bytes at `a` is different in `word'`. */
  ghost predicate Untouched(word: map<nat, nat>, word': map<nat, nat>, a: nat, n: nat)
  {
    forall b {:trigger b in word} :: b in word && (b + WORD <= a || a + n <= b) ==> b in word' && word'[b] == word[b]
  }

  /** Memory after a store of a word: the words it overlaps in part are lost. */
  function Stored(word: map<nat, nat>, a: nat, v: nat): (word': map<nat, nat>)
    ensures Untouched(word, word', a, WORD) && a in word' && word'[a] == v
  {
    (map b | b in word && (b + WORD <= a || a + WORD <= b) :: word[b])[a := v]
  }

  lemma StoredOver(word: map<nat, nat>, a: nat, v: nat, b: nat)
    ensures b in Stored(word, a, v) && b != a <==> b in word && !Overlap(b, WORD, a, WORD)
  {
  }

  /** Free chains survive a store that stays clear of their links. */
  lemma ThreadedClear(s: nat, sl: Header, ch: seq<nat>, word: map<nat, nat>, word': map<nat, nat>, a: nat, n: nat)
    requires Threaded(s, sl, ch, word) && Untouched(word, word', a, n)
    requires forall j :: 0 <= j < |ch| ==> !Overlap(Obj(s, sl.cache, ch[j]), WORD, a, n)
    ensures Threaded(s, sl, ch, word')
  {
    forall j | 0 <= j < |ch| ensures LinkOk(s, sl.cache, ch, word', j) {
      assert LinkOk(s, sl.cache, ch, word, j);
    }
  }

  /** So does a header that a store stays clear of. */
  lemma TitledClear(s: nat, sl: Header, word: map<nat, nat>, word': map<nat, nat>, a: nat, n: nat)
    requires Titled(s, sl, word) && Untouched(word, word', a, n) && !Overlap(Virt(s), SLAB_HEADER, a, n)
    ensures Titled(s, sl, word')
  {
  }

  /** The header's two changing words. */
  function Retitled(word: map<nat, nat>, s: nat, freeList: nat, freeCount: nat): map<nat, nat>
  {
    Stored(Stored(word, Virt(s) + FREE_LIST, freeList), Virt(s) + FREE_COUNT, freeCount)
  }

  lemma RetitledFacts(s: nat, sl: Header, word: map<nat, nat>, freeList: nat, freeCount: nat)
    ensures Untouched(word, Retitled(word, s, freeList, freeCount), Virt(s), SLAB_HEADER)
    ensures Titled(s, sl, word) ==>
              Titled(s, sl.(freeList := freeList, freeCount := freeCount), Retitled(word, s, freeList, freeCount))
  {
  }

  lemma UntouchedBy(word: map<nat, nat>, mid: map<nat, nat>, word': map<nat, nat>, a: nat, n: nat, b: nat, m: nat,
          c: nat, k: nat)
    requires Untouched(word, mid, a, n) && Untouched(mid, word', b, m)
    requires c <= a && a + n <= c + k && c <= b && b + m <= c + k
    ensures Untouched(word, word', c, k)
  {
  }

  /** A chain survives the header of its own slab being written. */
  lemma ThreadedRetitled(s: nat, sl: Header, ch: seq<nat>, word: map<nat, nat>, freeList: nat, freeCount: nat)
    requires Threaded(s, sl, ch, word)
    ensures Threaded(s, sl, ch, Retitled(word, s, freeList, freeCount))
  {
    RetitledFacts(s, sl, word, freeList, freeCount);
    forall j | 0 <= j < |ch| ensures !Overlap(Obj(s, sl.cache, ch[j]), WORD, Virt(s), SLAB_HEADER) {
      assert LinkOk(s, sl.cache, ch, word, j);
      WordInPage(s, sl.cache, ch[j]);
    }
    ThreadedClear(s, sl, ch, word, Retitled(word, s, freeList, freeCount), Virt(s), SLAB_HEADER);
  }

  lemma ThreadedPop(s: nat, sl: Header, ch: seq<nat>, word: map<nat, nat>)
    requires Threaded(s, sl, ch, word) && |ch| > 0
    ensures sl.freeList in word && sl.freeList == Obj(s, sl.cache, ch[0]) && ch[0] < Objects(sl.cache)
    ensures Threaded(s, sl.(freeList := word[sl.freeList], freeCount := sl.freeCount - 1), ch[1..], word)
  {
    assert LinkOk(s, sl.cache, ch, word, 0);
    forall j | 0 <= j < |ch| - 1 ensures LinkOk(s, sl.cache, ch[1..], word, j) {
      assert LinkOk(s, sl.cache, ch, word, j + 1);
    }
  }

  lemma ThreadedPush(s: nat, sl: Header, ch: seq<nat>, word: map<nat, nat>, i: nat)
    requires Threaded(s, sl, ch, word) && i !in ch && i < Objects(sl.cache)
    ensures var a := Obj(s, sl.cache, i);
            Threaded(s, sl.(freeList := a, freeCount := sl.freeCount + 1), [i] + ch, Stored(word, a, sl.freeList))
  {
    var a, ch' := Obj(s, sl.cache, i), [i] + ch;
    var word' := Stored(word, a, sl.freeList);
    SizeFacts(sl.cache);
    forall j | 0 <= j < |ch'| ensures LinkOk(s, sl.cache, ch', word', j) {
      if j > 0 {
        assert LinkOk(s, sl.cache, ch, word, j - 1);
        if ch[j - 1] < i { ObjApart(s, sl.cache, ch[j - 1], i); } else { ObjApart(s, sl.cache, i, ch[j - 1]); }
      }
    }
  }

  ghost function PopState(st: State, s: nat, size: nat): State
    requires s in st.slabs && s in st.chain && st.chain[s] != [] && st.slabs[s].freeList in st.word
             && st.slabs[s].freeCount > 0
  {
    var sl := st.slabs[s];
    State(st.slabs[s := sl.(freeList := st.word[sl.freeList], freeCount := sl.freeCount - 1)],
          Retitled(st.word, s, st.word[sl.freeList], sl.freeCount - 1),
          st.chain[s := st.chain[s][1..]], st.live[sl.freeList := Live(size, Small(s, st.chain[s][0]))])
  }

  lemma PopOwn(s: nat, sl: Header, ch: seq<nat>, word: map<nat, nat>)
    requires Threaded(s, sl, ch, word) && Titled(s, sl, word) && |ch| > 0
    ensures sl.freeList in word
            && Untouched(word, Retitled(word, s, word[sl.freeList], sl.freeCount - 1), Virt(s), SLAB_HEADER)
    ensures var sl' := sl.(freeList := word[sl.freeList], freeCount := sl.freeCount - 1);
            var word' := Retitled(word, s, sl'.freeList, sl'.freeCount);
            Threaded(s, sl', ch[1..], word') && Titled(s, sl', word')
  {
    ThreadedPop(s, sl, ch, word);
    var next, sl' := word[sl.freeList], sl.(freeList := word[sl.freeList], freeCount := sl.freeCount - 1);
    ThreadedRetitled(s, sl', ch[1..], word, next, sl.freeCount - 1);
    RetitledFacts(s, sl, word, next, sl.freeCount - 1);
  }

  lemma PopSlabs(st: State, s: nat, size: nat)
    requires SlabsOk(st, s) && s in st.slabs && st.slabs[s].freeCount > 0
    ensures st.chain[s] != [] && st.slabs[s].freeList in st.word
    ensures SlabsOk(PopState(st, s, size), -1)
  {
    assert SlabAt(st, s);
    PopOwn(s, st.slabs[s], st.chain[s], st.word);
    ChainBound(st, s);
    var st' := PopState(st, s, size);
    forall t | t in st'.slabs ensures SlabAt(st', t) {
      assert SlabAt(st, t);
      if t != s { OtherSlabKept(st, t, s, st'.word); }
    }
  }

  lemma ChainBound(st: State, s: nat)
    requires SlabAt(st, s)
    ensures forall i :: i in st.chain[s] ==> i < Objects(st.slabs[s].cache)
    ensures st.slabs[s].freeCount <= st.slabs[s].total
    ensures st.slabs[s].freeCount < st.slabs[s].total <==> Misses(st.chain[s], st.slabs[s].total)
  {
    forall j | 0 <= j < |st.chain[s]| ensures st.chain[s][j] < Objects(st.slabs[s].cache) {
      assert LinkOk(s, st.slabs[s].cache, st.chain[s], st.word, j);
    }
    ChainLeavesOneOut(st.chain[s], st.slabs[s].total);
  }

  lemma PopLive(st: State, s: nat, size: nat)
    requires SlabsOk(st, s) && LiveOk(st) && s in st.slabs && st.slabs[s].freeCount > 0
             && size <= ObjSize(st.slabs[s].cache)
    ensures st.chain[s] != [] && st.slabs[s].freeList in st.word
    ensures st.slabs[s].freeList !in st.live && LiveOk(PopState(st, s, size))
  {
    PopSlabs(st, s, size);
    assert SlabAt(st, s);
    ThreadedPop(s, st.slabs[s], st.chain[s], st.word);
    var i, p, st' := st.chain[s][0], st.slabs[s].freeList, PopState(st, s, size);
    if p in st.live {
      assert LiveAt(st, p);
      LiveAtObj(st, s, i);
    }
    forall q | q in st'.live ensures LiveAt(st', q) {
      if q != p { assert LiveAt(st, q); }
    }
    forall t, j | t in st'.slabs && 0 <= j < Objects(st'.slabs[t].cache) ensures Accounted(st', t, j) {
      assert Accounted(st, t, j) && SlabAt(st, t);
      if Obj(t, st.slabs[t].cache, j) == p { ObjInjective(t, st.slabs[t].cache, j, s, st.slabs[s].cache, i); }
    }
  }

  ghost function PushState(st: State, p: nat): State
    requires LiveAt(st, p) && st.live[p].place.Small?
  {
    var Small(s, i) := st.live[p].place;
    var sl := st.slabs[s];
    State(st.slabs[s := sl.(freeList := p, freeCount := sl.freeCount + 1)],
          Retitled(Stored(st.word, p, sl.freeList), s, p, sl.freeCount + 1),
          st.chain[s := [i] + st.chain[s]], st.live - {p})
  }

  lemma PushSlabs(st: State, p: nat)
    requires SlabsOk(st, -1) && LiveAt(st, p) && st.live[p].place.Small?
    ensures SlabsOk(PushState(st, p), st.live[p].place.s)
  {
    var st', s, i := PushState(st, p), st.live[p].place.s, st.live[p].place.i;
    assert SlabAt(st, s);
    var sl := st.slabs[s];
    var mid := Stored(st.word, p, sl.freeList);
    ThreadedPush(s, sl, st.chain[s], st.word, i);
    ThreadedRetitled(s, st'.slabs[s], st'.chain[s], mid, p, sl.freeCount + 1);
    WordInPage(s, sl.cache, i);
    TitledClear(s, sl, st.word, mid, p, WORD);
    RetitledFacts(s, sl, mid, p, sl.freeCount + 1);
    UntouchedBy(st.word, mid, st'.word, p, WORD, Virt(s), SLAB_HEADER, Virt(s), PAGE_SIZE);
    forall t | t in st'.slabs ensures SlabAt(st', t) {
      assert SlabAt(st, t);
      if t != s { OtherSlabKept(st, t, s, st'.word); }
    }
  }

  /** Stores to the page of slab `s` touch no other slab's chain or header. */
  lemma OtherSlabKept(st: State, t: nat, s: nat, word: map<nat, nat>)
    requires SlabAt(st, t) && t != s
    requires Untouched(st.word, word, Virt(s), PAGE_SIZE) || Untouched(st.word, word, Virt(s), SLAB_HEADER)
    ensures Threaded(t, st.slabs[t], st.chain[t], word) && Titled(t, st.slabs[t], word)
  {
    var d, ch := st.slabs[t].cache, st.chain[t];
    forall j | 0 <= j < |ch| ensures !Overlap(Obj(t, d, ch[j]), WORD, Virt(s), PAGE_SIZE) {
      assert LinkOk(t, d, ch, st.word, j);
      WordInPage(t, d, ch[j]);
    }
    ThreadedClear(t, st.slabs[t], ch, st.word, word, Virt(s), PAGE_SIZE);
    TitledClear(t, st.slabs[t], st.word, word, Virt(s), PAGE_SIZE);
  }

  lemma PushLive(st: State, p: nat)
    requires SlabsOk(st, -1) && LiveOk(st) && p in st.live && st.live[p].place.Small?
    ensures LiveAt(st, p) && LiveOk(PushState(st, p))
  {
    assert LiveAt(st, p);
    var st', s, i := PushState(st, p), st.live[p].place.s, st.live[p].place.i;
    forall q | q in st'.live ensures LiveAt(st', q) {
      assert LiveAt(st, q);
    }
    forall t, j | t in st'.slabs && 0 <= j < Objects(st'.slabs[t].cache) ensures Accounted(st', t, j) {
      assert Accounted(st, t, j) && SlabAt(st, t) && SlabAt(st, s);
      if Obj(t, st.slabs[t].cache, j) == p { ObjInjective(t, st.slabs[t].cache, j, s, st.slabs[s].cache, i); }
    }
  }

  /** The chain slab_create builds: the last object first. */
  function Descending(n: nat): (ch: seq<nat>)
    ensures |ch| == n && forall j :: 0 <= j < n ==> ch[j] == n - 1 - j
  {
    if n == 0 then [] else [n - 1] + Descending(n - 1)
  }

  /** The objects of `ch` are threaded in a new slab; the count in its header is set at the end. */
  ghost predicate Filling(s: nat, c: nat, ch: seq<nat>, total: nat, w: map<nat, nat>)
  {
    && Threaded(s, Header(c, Link(s, c, ch, 0), |ch|, total), ch, w)
    && Titled(s, Header(c, Link(s, c, ch, 0), 0, total), w)
  }

  lemma FillStep(s: nat, c: nat, ch: seq<nat>, i: nat, total: nat, w: map<nat, nat>)
    requires c < NUM_CACHES && i < total == Objects(c) && i !in ch && Filling(s, c, ch, total, w)
    ensures Holds(w, Virt(s) + FREE_LIST, Link(s, c, ch, 0))
    ensures Filling(s, c, [i] + ch, total,
              Stored(Stored(w, Obj(s, c, i), Link(s, c, ch, 0)), Virt(s) + FREE_LIST, Obj(s, c, i)))
  {
    var a, free := Obj(s, c, i), Link(s, c, ch, 0);
    var mid, was := Stored(w, a, free), Header(c, free, 0, total);
    ThreadedPush(s, Header(c, free, |ch|, total), ch, w, i);
    WordInPage(s, c, i);
    TitledClear(s, was, w, mid, a, WORD);
    TitleWord(s, Header(c, a, |ch| + 1, total), [i] + ch, mid, FREE_LIST, a, was);
  }

  lemma DescendingNext(n: nat)
    ensures n !in Descending(n) && Descending(n + 1) == [n] + Descending(n)
  {
  }

  /** Writing a word of the header keeps the chain and the other words. */
  lemma TitleWord(s: nat, sl: Header, ch: seq<nat>, w: map<nat, nat>, field: nat, v: nat, t: Header)
    requires Threaded(s, sl, ch, w) && Titled(s, t, w) && (field == FREE_LIST || field == FREE_COUNT)
    ensures Threaded(s, sl, ch, Stored(w, Virt(s) + field, v))
    ensures Titled(s, if field == FREE_LIST then t.(freeList := v)
                      else t.(freeCount := v), Stored(w, Virt(s) + field, v))
  {
    forall j | 0 <= j < |ch| ensures !Overlap(Obj(s, sl.cache, ch[j]), WORD, Virt(s) + field, WORD) {
      assert LinkOk(s, sl.cache, ch, w, j);
      WordInPage(s, sl.cache, ch[j]);
    }
    ThreadedClear(s, sl, ch, w, Stored(w, Virt(s) + field, v), Virt(s) + field, WORD);
  }

  lemma FillEnd(s: nat, c: nat, total: nat, w: map<nat, nat>)
    requires Filling(s, c, Descending(total), total, w)
    ensures var sl, w' := Header(c, w[Virt(s) + FREE_LIST], total, total), Stored(w, Virt(s) + FREE_COUNT, total);
            Threaded(s, sl, Descending(total), w') && Titled(s, sl, w')
  {
    var free := Link(s, c, Descending(total), 0);
    TitleWord(s, Header(c, free, total, total), Descending(total), w, FREE_COUNT, total, Header(c, free, 0, total));
  }

  lemma FillUntouched(word: map<nat, nat>, w: map<nat, nat>, s: nat, c: nat, i: nat, free: nat)
    requires c < NUM_CACHES && i < Objects(c) && Untouched(word, w, Virt(s), PAGE_SIZE)
    ensures Untouched(word, Stored(Stored(w, Obj(s, c, i), free), Virt(s) + FREE_LIST, Obj(s, c, i)), Virt(s),
              PAGE_SIZE)
  {
    WordInPage(s, c, i);
    var a, v, mid := Obj(s, c, i), Virt(s), Stored(w, Obj(s, c, i), free);
    UntouchedBy(word, w, mid, v, PAGE_SIZE, a, WORD, v, PAGE_SIZE);
    UntouchedBy(word, mid, Stored(mid, v + FREE_LIST, a), v, PAGE_SIZE, v + FREE_LIST, WORD, v, PAGE_SIZE);
  }

  ghost function CreateState(st: State, s: nat, sl: Header, word: map<nat, nat>): State
  {
    State(st.slabs[s := sl], word, st.chain[s := Descending(sl.freeCount)], st.live)
  }

  lemma CreateSlabs(st: State, s: nat, sl: Header, word: map<nat, nat>)
    requires SlabsOk(st, -1) && s !in st.slabs && Threaded(s, sl, Descending(sl.freeCount), word) && Titled(s, sl, word)
    requires Untouched(st.word, word, Virt(s), PAGE_SIZE)
    ensures SlabsOk(CreateState(st, s, sl, word), s)
  {
    var st' := CreateState(st, s, sl, word);
    forall t | t in st'.slabs ensures SlabAt(st', t) {
      if t != s {
        assert SlabAt(st, t);
        OtherSlabKept(st, t, s, word);
      }
    }
  }

  lemma CreateLive(st: State, s: nat, sl: Header, word: map<nat, nat>)
    requires LiveOk(st) && s !in st.slabs && !Owned(st, s) && sl.freeCount == Objects(sl.cache)
    ensures LiveOk(CreateState(st, s, sl, word))
  {
    var st' := CreateState(st, s, sl, word);
    forall p | p in st'.live ensures LiveAt(st', p) {
      assert LiveAt(st, p);
    }
    forall t, j | t in st'.slabs && 0 <= j < Objects(st'.slabs[t].cache) ensures Accounted(st', t, j) {
      if t != s {
        assert Accounted(st, t, j);
      } else {
        assert st'.chain[s][sl.freeCount - 1 - j] == j;
      }
    }
  }

  ghost function DestroyState(st: State, s: nat): State
  {
    State(st.slabs - {s}, st.word, st.chain - {s}, st.live)
  }

  lemma DestroySlabs(st: State, s: nat)
    requires SlabsOk(st, s)
    ensures SlabsOk(DestroyState(st, s), -1)
  {
    var st' := DestroyState(st, s);
    forall t | t in st'.slabs ensures SlabAt(st', t) {
      assert SlabAt(st, t);
    }
  }

  /** A slab whose objects are all free holds nothing live. */
  lemma DestroyLive(st: State, s: nat)
    requires SlabsOk(st, s) && LiveOk(st) && s in st.slabs && st.slabs[s].freeCount == st.slabs[s].total
    ensures LiveOk(DestroyState(st, s))
  {
    var st' := DestroyState(st, s);
    assert SlabAt(st, s);
    ChainBound(st, s);
    forall p | p in st'.live ensures LiveAt(st', p) {
      assert LiveAt(st, p);
    }
    forall t, j | t in st'.slabs && 0 <= j < Objects(st'.slabs[t].cache) ensures Accounted(st', t, j) {
      assert Accounted(st, t, j);
    }
  }

  lemma BigLive(st: State, h: nat, k: nat, size: nat)
    requires SlabsOk(st, -1) && LiveOk(st) && h !in st.slabs && size <= Pow2(k) * PAGE_SIZE
    ensures LiveOk(st.(live := st.live[Virt(h) := Live(size, Big(h, k))]))
    ensures SlabsOk(st.(live := st.live[Virt(h) := Live(size, Big(h, k))]), -1)
  {
    var st' := st.(live := st.live[Virt(h) := Live(size, Big(h, k))]);
    forall p | p in st'.live ensures LiveAt(st', p) {
      if p != Virt(h) { assert LiveAt(st, p); }
    }
    forall t, j | t in st'.slabs && 0 <= j < Objects(st'.slabs[t].cache) ensures Accounted(st', t, j) {
      assert Accounted(st, t, j) && SlabAt(st, t);
      ObjNotPage(t, st.slabs[t].cache, j, h);
    }
    forall t | t in st'.slabs ensures SlabAt(st', t) { assert SlabAt(st, t); }
  }

  lemma BigDead(st: State, p: nat)
    requires SlabsOk(st, -1) && LiveOk(st) && p in st.live && st.live[p].place.Big?
    ensures LiveOk(st.(live := st.live - {p})) && SlabsOk(st.(live := st.live - {p}), -1)
  {
    var st' := st.(live := st.live - {p});
    assert LiveAt(st, p);
    forall q | q in st'.live ensures LiveAt(st', q) { assert LiveAt(st, q); }
    forall t, j | t in st'.slabs && 0 <= j < Objects(st'.slabs[t].cache) ensures Accounted(st', t, j) {
      assert Accounted(st, t, j) && SlabAt(st, t);
      ObjNotPage(t, st.slabs[t].cache, j, st.live[p].place.h);
    }
    forall t | t in st'.slabs ensures SlabAt(st', t) { assert SlabAt(st, t); }
  }

  // ----- Pages and cache lists under the steps

  lemma PagesSame(st: State, st': State, pages: seq<Page>, alloc: map<nat, nat>, foreign: map<nat, nat>)
    requires PagesOk(st, pages, alloc, foreign)
    requires forall h: nat {:trigger Owned(st', h)} :: Owned(st', h) <==> Owned(st, h)
    requires st'.slabs.Keys == st.slabs.Keys
    requires forall p :: p in st'.live && st'.live[p].place.Big? ==> p in st.live && st.live[p] == st'.live[p]
    ensures PagesOk(st', pages, alloc, foreign)
  {
    forall s | s in st'.slabs ensures SlabPage(pages, alloc, s) {}
    forall h: nat ensures Classified(st', alloc, foreign, h) { assert Classified(st, alloc, foreign, h); }
    forall p: nat ensures BigPage(st', pages, alloc, p) { assert BigPage(st, pages, alloc, p); }
  }

  lemma PopPages(st: State, s: nat, size: nat, pages: seq<Page>, alloc: map<nat, nat>, foreign: map<nat, nat>)
    requires SlabsOk(st, s) && LiveOk(st) && s in st.slabs && st.slabs[s].freeCount > 0
             && size <= ObjSize(st.slabs[s].cache)
    requires PagesOk(st, pages, alloc, foreign)
    ensures st.chain[s] != [] && st.slabs[s].freeList in st.word
    ensures PagesOk(PopState(st, s, size), pages, alloc, foreign)
  {
    PopLive(st, s, size);
    PagesSame(st, PopState(st, s, size), pages, alloc, foreign);
  }

  lemma PushPages(st: State, p: nat, pages: seq<Page>, alloc: map<nat, nat>, foreign: map<nat, nat>)
    requires LiveAt(st, p) && st.live[p].place.Small? && PagesOk(st, pages, alloc, foreign)
    ensures PagesOk(PushState(st, p), pages, alloc, foreign)
  {
    PagesSame(st, PushState(st, p), pages, alloc, foreign);
  }

  /** Taking block `h` for a new slab or a large allocation. */
  lemma GrowPages(st: State, st': State, pages: seq<Page>, pages': seq<Page>, alloc: map<nat, nat>,
          foreign: map<nat, nat>, h: nat, k: nat)
    requires PagesOk(st, pages, alloc, foreign) && h !in alloc && SameRecords(pages, pages', alloc.Keys)
    requires forall g: nat {:trigger Owned(st', g)} :: Owned(st', g) <==> Owned(st, g) || g == h
    requires forall s :: s in st'.slabs ==> s in st.slabs || (s == h && SlabPage(pages', alloc[h := k], h))
    requires forall p {:trigger p in st'.live} :: p in st'.live && st'.live[p].place.Big? ==>
               (p in st.live && st.live[p] == st'.live[p])
                   || (st'.live[p].place == Big(h, k) && BigBlock(pages', alloc[h := k], h, k))
    ensures PagesOk(st', pages', alloc[h := k], foreign)
  {
    forall s | s in st'.slabs ensures SlabPage(pages', alloc[h := k], s) {
      if s in st.slabs { assert SlabPage(pages, alloc, s); }
    }
    var alloc' := alloc[h := k];
    forall g: nat ensures Classified(st', alloc', foreign, g) { assert Classified(st, alloc, foreign, g); }
    forall p: nat ensures BigPage(st', pages', alloc', p) { assert BigPage(st, pages, alloc, p); }
  }

  /** Giving block `h` back. */
  lemma ShrinkPages(st: State, st': State, pages: seq<Page>, pages': seq<Page>, alloc: map<nat, nat>,
          foreign: map<nat, nat>, h: nat)
    requires PagesOk(st, pages, alloc, foreign) && Owned(st, h) && SameRecords(pages, pages', (alloc - {h}).Keys)
    requires forall g: nat {:trigger Owned(st', g)} :: Owned(st', g) <==> Owned(st, g) && g != h
    requires forall s :: s in st'.slabs ==> s in st.slabs && s != h
    requires forall p {:trigger p in st'.live} :: p in st'.live && st'.live[p].place.Big? ==>
               p in st.live && st.live[p] == st'.live[p] && st.live[p].place.h != h
    ensures PagesOk(st', pages', alloc - {h}, foreign)
  {
    forall s | s in st'.slabs ensures SlabPage(pages', alloc - {h}, s) {
      assert SlabPage(pages, alloc, s);
    }
    forall g: nat ensures Classified(st', alloc - {h}, foreign, g) { assert Classified(st, alloc, foreign, g); }
    forall p: nat ensures BigPage(st', pages', alloc - {h}, p) { assert BigPage(st, pages, alloc, p); }
  }

  lemma ListsSame(st: State, st': State, caches: seq<seq<nat>>)
    requires ListsOk(st, caches) && st'.slabs.Keys == st.slabs.Keys
    requires forall s :: s in st.slabs ==> st'.slabs[s].cache == st.slabs[s].cache
    ensures ListsOk(st', caches)
  {
  }

  lemma CreateLists(st: State, s: nat, sl: Header, word: map<nat, nat>, caches: seq<seq<nat>>)
    requires ListsOk(st, caches) && s !in st.slabs && sl.cache < NUM_CACHES
    ensures ListsOk(CreateState(st, s, sl, word), caches[sl.cache := [s] + caches[sl.cache]])
  {
    assert s !in caches[sl.cache];
  }

  lemma DestroyLists(st: State, s: nat, caches: seq<seq<nat>>)
    requires ListsOk(st, caches) && s in st.slabs && st.slabs[s].cache < NUM_CACHES
    ensures ListsOk(DestroyState(st, s), caches[st.slabs[s].cache := Without(caches[st.slabs[s].cache], s)])
  {
    assert s in caches[st.slabs[s].cache];
    WithoutFacts(caches[st.slabs[s].cache], s);
  }

  // ----- Conservation

  /** Frames of the allocated blocks. */
  ghost predicate InBlock(alloc: map<nat, nat>, p: nat, x: int)
  {
    p in alloc && InRun(p, alloc[p], x)
  }

  ghost predicate HeldAt(alloc: map<nat, nat>, x: int)
  {
    exists p {:trigger InBlock(alloc, p, x)} :: InBlock(alloc, p, x)
  }

  ghost function Held(alloc: map<nat, nat>, n: nat): (r: set<nat>)
    ensures forall x :: x in r <==> x < n && HeldAt(alloc, x)
  {
    set x: nat | x < n && HeldAt(alloc, x)
  }

  /** What the page allocator takes from the free frames it adds to the held ones. */
  lemma HeldGrows(alloc: map<nat, nat>, n: nat, h: nat, k: nat)
    requires h !in alloc && h + Pow2(k) <= n
    ensures Held(alloc[h := k], n) == Held(alloc, n) + Run(h, k)
  {
    var alloc' := alloc[h := k];
    forall x: nat ensures HeldAt(alloc', x) <==> HeldAt(alloc, x) || InRun(h, k, x) {
      if InRun(h, k, x) { assert InBlock(alloc', h, x); }
      if p :| InBlock(alloc, p, x) { assert InBlock(alloc', p, x); }
      if p :| InBlock(alloc', p, x) { assert p == h || InBlock(alloc, p, x); }
    }
  }

  /** Free and held frames are disjoint. */
  lemma FreeNotHeld(bs: Blocks, n: nat)
    requires Disjoint(bs)
    ensures FreeSet(bs, n) !! Held(Allocated(bs), n)
  {
    forall x: nat | FreeAt(bs, x) && HeldAt(Allocated(bs), x) ensures false {
      var p :| InBlock(Allocated(bs), p, x);
      FreeAtHolder(bs, p, x);
    }
  }

  /** The frames the allocator manages: they only move between free and held. */
  ghost function Managed(bs: Blocks, n: nat): set<nat>
  {
    FreeSet(bs, n) + Held(Allocated(bs), n)
  }

  lemma AllocConserves(pages: seq<Page>, bs: Blocks, pages': seq<Page>, bs': Blocks, order: nat, flags: set<PageFlag>,
          p: nat)
    requires AllocSpec(pages, bs, pages', bs', order, flags, p) && WellPlaced(bs', |pages|)
    ensures p !in Allocated(bs) && Managed(bs', |pages|) == Managed(bs, |pages|)
  {
    assert p in Allocated(bs') && Placed(bs', |pages|, p);
    HeldGrows(Allocated(bs), |pages|, p, order);
  }

  lemma FreeConserves(pages: seq<Page>, bs: Blocks, pages': seq<Page>, bs': Blocks, p: nat)
    requires FreeSpec(pages, bs, pages', bs', p) && WellPlaced(bs, |pages|)
    ensures Managed(bs', |pages|) == Managed(bs, |pages|)
  {
    assert Placed(bs, |pages|, p);
    var k := Allocated(bs)[p];
    HeldGrows(Allocated(bs'), |pages|, p, k);
    assert Allocated(bs')[p := k] == Allocated(bs);
  }

  /** Same held blocks and same managed frames: the same free blocks, by the canonical form. */
  lemma SameAllocatedSameFree(bs: Blocks, bs': Blocks, n: nat)
    requires WellFormed(bs, n) && WellFormed(bs', n)
    requires Allocated(bs) == Allocated(bs') && Managed(bs, n) == Managed(bs', n)
    ensures forall p, k :: FreeBlock(bs, p, k) <==> FreeBlock(bs', p, k)
  {
    FreeNotHeld(bs, n);
    FreeNotHeld(bs', n);
    HistoryIndependent(bs, bs', n);
  }

  /** Everything the heap keeps, on values; `open` is a slab that may have all its objects free. */
  ghost predicate HeapOk(st: State, caches: seq<seq<nat>>, pages: seq<Page>, bs: Blocks, start: Blocks, open: int)
  {
    && SlabsOk(st, open) && LiveOk(st) && ListsOk(st, caches)
    && PagesOk(st, pages, Allocated(bs), Allocated(start))
    && WellFormed(start, |pages|) && WellFormed(bs, |pages|) && Managed(bs, |pages|) == Managed(start, |pages|)
  }

  lemma PopOk(st: State, caches: seq<seq<nat>>, pages: seq<Page>, bs: Blocks, start: Blocks, s: nat, size: nat)
    requires HeapOk(st, caches, pages, bs, start, s) && s in st.slabs && st.slabs[s].freeCount > 0
    requires size <= ObjSize(st.slabs[s].cache)
    ensures st.chain[s] != [] && st.slabs[s].freeList in st.word && st.slabs[s].freeList !in st.live
    ensures st.slabs[s].freeList > 0
    ensures HeapOk(PopState(st, s, size), caches, pages, bs, start, -1)
  {
    PopSlabs(st, s, size);
    PopLive(st, s, size);
    PopPages(st, s, size, pages, Allocated(bs), Allocated(start));
    ListsSame(st, PopState(st, s, size), caches);
    HeadNonNull(st, s);
  }

  lemma HeadNonNull(st: State, s: nat)
    requires SlabsOk(st, s) && s in st.slabs && st.slabs[s].freeCount > 0
    ensures st.slabs[s].freeList > 0
  {
    assert SlabAt(st, s);
    ThreadedPop(s, st.slabs[s], st.chain[s], st.word);
    ObjInPage(s, st.slabs[s].cache, st.chain[s][0]);
  }

  lemma PushOk(st: State, caches: seq<seq<nat>>, pages: seq<Page>, bs: Blocks, start: Blocks, p: nat)
    requires HeapOk(st, caches, pages, bs, start, -1) && p in st.live && st.live[p].place.Small?
    ensures LiveAt(st, p) && HeapOk(PushState(st, p), caches, pages, bs, start, st.live[p].place.s)
  {
    PushLive(st, p);
    PushSlabs(st, p);
    PushPages(st, p, pages, Allocated(bs), Allocated(start));
    ListsSame(st, PushState(st, p), caches);
  }

  lemma CreateOk(st: State, caches: seq<seq<nat>>, pages: seq<Page>, bs: Blocks, start: Blocks,
                 pages': seq<Page>, bs': Blocks, s: nat, sl: Header, word: map<nat, nat>)
    requires HeapOk(st, caches, pages, bs, start, -1)
    requires AllocSpec(pages, bs, pages', bs', 0, {Kernel, Slab}, s) && WellFormed(bs', |pages|)
    requires Threaded(s, sl, Descending(sl.freeCount), word) && Titled(s, sl, word) && sl.freeCount == Objects(sl.cache)
             && Untouched(st.word, word, Virt(s), PAGE_SIZE)
    ensures s !in st.slabs && s < |pages'|
    ensures HeapOk(CreateState(st, s, sl, word), caches[sl.cache := [s] + caches[sl.cache]],
                   pages'[s := pages'[s].(private := Virt(s))], bs', start, s)
  {
    AllocConserves(pages, bs, pages', bs', 0, {Kernel, Slab}, s);
    assert Classified(st, Allocated(bs), Allocated(start), s);
    CreateSlabs(st, s, sl, word);
    CreateLive(st, s, sl, word);
    CreateLists(st, s, sl, word, caches);
    var pages'' := pages'[s := pages'[s].(private := Virt(s))];
    GrowPages(st, CreateState(st, s, sl, word), pages, pages'', Allocated(bs), Allocated(start), s, 0);
  }

  lemma DestroyOk(st: State, caches: seq<seq<nat>>, pages: seq<Page>, bs: Blocks, start: Blocks, pages': seq<Page>,
          bs': Blocks, s: nat)
    requires HeapOk(st, caches, pages, bs, start, s) && s in st.slabs && st.slabs[s].freeCount == st.slabs[s].total
    requires FreeSpec(pages, bs, pages', bs', s) && WellFormed(bs', |pages|) && |pages'| == |pages|
    ensures st.slabs[s].cache < NUM_CACHES
    ensures HeapOk(DestroyState(st, s), caches[st.slabs[s].cache := Without(caches[st.slabs[s].cache], s)], pages', bs',
              start, -1)
  {
    FreeConserves(pages, bs, pages', bs', s);
    assert SlabAt(st, s);
    DestroySlabs(st, s);
    DestroyLive(st, s);
    DestroyLists(st, s, caches);
    DestroyOwned(st, s);
    ShrinkPages(st, DestroyState(st, s), pages, pages', Allocated(bs), Allocated(start), s);
  }

  lemma DestroyOwned(st: State, s: nat)
    requires LiveOk(st) && s in st.slabs
    ensures forall g: nat {:trigger Owned(DestroyState(st, s), g)} :: Owned(DestroyState(st, s), g) <==>
              Owned(st, g) && g != s
    ensures forall p {:trigger p in st.live} :: p in st.live && st.live[p].place.Big? ==> st.live[p].place.h != s
  {
    forall p | p in st.live && st.live[p].place.Big? ensures st.live[p].place.h != s && p == Virt(st.live[p].place.h) {
      assert LiveAt(st, p);
    }
  }

  lemma BigOk(st: State, caches: seq<seq<nat>>, pages: seq<Page>, bs: Blocks, start: Blocks, pages': seq<Page>,
          bs': Blocks, h: nat, k: nat, size: nat)
    requires HeapOk(st, caches, pages, bs, start, -1) && size <= Pow2(k) * PAGE_SIZE
    requires AllocSpec(pages, bs, pages', bs', k, {Kernel}, h) && WellFormed(bs', |pages|)
    ensures Virt(h) !in st.live
    ensures HeapOk(st.(live := st.live[Virt(h) := Live(size, Big(h, k))]), caches, pages', bs', start, -1)
  {
    var st' := st.(live := st.live[Virt(h) := Live(size, Big(h, k))]);
    AllocConserves(pages, bs, pages', bs', k, {Kernel}, h);
    assert Classified(st, Allocated(bs), Allocated(start), h);
    if Virt(h) in st.live { LiveAtPage(st, h); }
    BigLive(st, h, k, size);
    ListsSame(st, st', caches);
    GrowPages(st, st', pages, pages', Allocated(bs), Allocated(start), h, k);
  }

  /** What is live at a page address is a large allocation. */
  lemma LiveAtPage(st: State, h: nat)
    requires SlabsOk(st, -1) && LiveOk(st) && Virt(h) in st.live
    ensures Owned(st, h)
  {
    assert LiveAt(st, Virt(h));
    match st.live[Virt(h)].place
    case Small(s, i) =>
      assert SlabAt(st, s);
      ObjNotPage(s, st.slabs[s].cache, i, h);
    case Big(_, _) =>
  }

  lemma BigFreeOk(st: State, caches: seq<seq<nat>>, pages: seq<Page>, bs: Blocks, start: Blocks, pages': seq<Page>,
          bs': Blocks, p: nat)
    requires HeapOk(st, caches, pages, bs, start, -1) && p in st.live && st.live[p].place.Big?
    requires FreeSpec(pages, bs, pages', bs', st.live[p].place.h) && WellFormed(bs', |pages|) && |pages'| == |pages|
    ensures HeapOk(st.(live := st.live - {p}), caches, pages', bs', start, -1)
  {
    var st', h := st.(live := st.live - {p}), st.live[p].place.h;
    FreeConserves(pages, bs, pages', bs', h);
    BigDead(st, p);
    ListsSame(st, st', caches);
    assert LiveAt(st, p);
    forall q | q in st'.live && st'.live[q].place.Big? ensures st.live[q].place.h != h { assert LiveAt(st, q); }
    forall g: nat ensures Owned(st', g) <==> Owned(st, g) && g != h {}
    ShrinkPages(st, st', pages, pages', Allocated(bs), Allocated(start), h);
  }

  /** `p` is the one new live allocation. */
  ghost predicate Gained(live: map<nat, Live>, live': map<nat, Live>, p: nat, size: nat)
  {
    p !in live && p in live' && live'[p].size == size && live == live' - {p}
  }

  lemma GainedOne(live: map<nat, Live>, p: nat, a: Live)
    requires p !in live
    ensures Gained(live, live[p := a], p, a.size)
  {
  }

  /** A new slab of cache `c` with every one of its objects on the free chain. */
  ghost predicate NewSlab(slabs: map<nat, Header>, slabs': map<nat, Header>, chain: map<nat, seq<nat>>, s: nat, c: nat)
  {
    && s !in slabs && s in slabs' && slabs' == slabs[s := slabs'[s]] && slabs'[s].cache == c
    && slabs'[s].freeCount == slabs'[s].total == Objects(c) > 0
    && s in chain && |chain[s]| == Objects(c) && forall i :: 0 <= i < Objects(c) ==> i in chain[s]
  }

  lemma DescendingAll(n: nat)
    ensures forall i :: 0 <= i < n ==> i in Descending(n)
  {
    forall i | 0 <= i < n ensures i in Descending(n) { assert Descending(n)[n - 1 - i] == i; }
  }

  /** The cache that serves requests of `size` bytes. */
  predicate CacheFor(size: nat, c: nat)
  {
    c < NUM_CACHES && size <= ObjSize(c) && (c > 0 ==> ObjSize(c - 1) < size)
  }

  lemma CacheUnique(size: nat, c: nat, d: nat)
    requires CacheFor(size, c) && CacheFor(size, d)
    ensures c == d
  {
    if c < d { Pow2Monotone(c + 3, d + 2); }
    if d < c { Pow2Monotone(d + 3, c + 2); }
  }

  /** A small request can be met: a slab of its cache has a free object, or there is a page for a new one. */
  ghost predicate CanServe(slabs: map<nat, Header>, free: set<nat>, size: nat)
  {
    HasRun(free, 0) || exists s :: s in slabs && CacheFor(size, slabs[s].cache) && slabs[s].freeCount > 0
  }

  /** Freeing an object returns its slab's page exactly when it was the slab's last object in use. */
  ghost predicate SlabFreed(slabs: map<nat, Header>, free: set<nat>, slabs': map<nat, Header>, free': set<nat>, s: nat)
  {
    && s in slabs
    && if slabs[s].freeCount + 1 == slabs[s].total
       then slabs' == slabs - {s} && free' == free + Run(s, 0)
       else slabs'.Keys == slabs.Keys && free' == free
  }

  class Heap {
    const zone: Zone
    const caches: array<seq<nat>>
    var slabs: map<nat, Header>
    var word: map<nat, nat>
    ghost var chain: map<nat, seq<nat>>
    ghost var live: map<nat, Live>
    /** The page allocator's blocks when the heap was set up. */
    ghost const start: Blocks

    ghost function St(): State
      reads this
    {
      State(slabs, word, chain, live)
    }

    ghost predicate Valid()
      reads this, zone, zone.pages, zone.area, caches
    {
      zone.Valid() && HeapOk(St(), caches[..], zone.pages[..], zone.blocks, start, -1)
    }

    /** slab_init. */
    constructor (z: Zone)
      requires z.Valid()
      ensures Valid() && zone == z && live == map[] && start == z.blocks && fresh(caches)
    {
      zone := z;
      caches := new seq<nat>[NUM_CACHES](_ => []);
      slabs, word, chain, live := map[], map[], map[], map[];
      start := z.blocks;
      new;
      forall h: nat ensures Classified(St(), Allocated(zone.blocks), Allocated(start), h) {}
    }

    /** Pop the first free object of slab `s`. */
    method Pop(s: nat, size: nat) returns (p: nat)
      requires zone.Valid() && HeapOk(St(), caches[..], zone.pages[..], zone.blocks, start, s)
      requires s in slabs && slabs[s].freeCount > 0 && size <= ObjSize(slabs[s].cache)
      modifies this
      ensures Valid() && p != 0 && Gained(old(live), live, p, size)
    {
      PopOk(St(), caches[..], zone.pages[..], zone.blocks, start, s, size);
      ghost var st' := PopState(St(), s, size);
      assert SlabAt(St(), s);
      p := word[Virt(s) + FREE_LIST];
      ghost var i := chain[s][0];
      var next, count := word[p], word[Virt(s) + FREE_COUNT] - 1;
      word := Stored(Stored(word, Virt(s) + FREE_LIST, next), Virt(s) + FREE_COUNT, count);
      slabs := slabs[s := slabs[s].(freeList := next, freeCount := count)];
      chain := chain[s := chain[s][1..]];
      live := live[p := Live(size, Small(s, i))];
      assert St() == st';
      GainedOne(old(live), p, Live(size, Small(s, i)));
    }

    /** The search of slab_alloc: the first slab of the cache with a free object. */
    method FindSlab(c: nat) returns (found: bool, s: nat)
      requires Valid() && c < NUM_CACHES
      ensures found ==> s in slabs && slabs[s].cache == c && slabs[s].freeCount > 0
      ensures !found ==> forall t :: t in slabs && slabs[t].cache == c ==> slabs[t].freeCount == 0
    {
      var k := 0;
      while k < |caches[c]|
        invariant 0 <= k <= |caches[c]|
        invariant forall j :: 0 <= j < k ==> caches[c][j] in slabs && slabs[caches[c][j]].freeCount == 0
      {
        s := caches[c][k];
        assert s in caches[..][c];
        assert SlabAt(St(), s);
        if word[Virt(s) + FREE_COUNT] > 0 {
          return true, s;
        }
        k := k + 1;
      }
      found, s := false, 0;
      forall t | t in slabs && slabs[t].cache == c ensures slabs[t].freeCount == 0 {
        assert t in caches[..][c];
      }
    }

    /** The stores of slab_create: the header, and the free list threaded through the fresh page. */
    method FillSlab(s: nat, c: nat) returns (sl: Header, w: map<nat, nat>)
      requires c < NUM_CACHES
      ensures sl.cache == c && sl.freeCount == Objects(c)
      ensures Threaded(s, sl, Descending(sl.freeCount), w) && Titled(s, sl, w) && Untouched(word, w, Virt(s), PAGE_SIZE)
    {
      var total := Objects(c);
      w := TitleSlab(s, c, total);
      var i := 0;
      while i < total
        invariant 0 <= i <= total && Filling(s, c, Descending(i), total, w) && Untouched(word, w, Virt(s), PAGE_SIZE)
      {
        var obj, free := Obj(s, c, i), w[Virt(s) + FREE_LIST];
        DescendingNext(i);
        FillStep(s, c, Descending(i), i, total, w);
        FillUntouched(word, w, s, c, i, free);
        w := Stored(w, obj, free);
        w := Stored(w, Virt(s) + FREE_LIST, obj);
        i := i + 1;
      }
      sl := Header(c, w[Virt(s) + FREE_LIST], total, total);
      FillEnd(s, c, total, w);
      UntouchedBy(word, w, Stored(w, Virt(s) + FREE_COUNT, total), Virt(s), PAGE_SIZE, Virt(s) + FREE_COUNT, WORD,
          Virt(s),
          PAGE_SIZE);
      w := Stored(w, Virt(s) + FREE_COUNT, total);
    }

    /** The header of a slab with no objects yet. */
    method TitleSlab(s: nat, c: nat, total: nat) returns (w: map<nat, nat>)
      requires c < NUM_CACHES && total == Objects(c)
      ensures Filling(s, c, Descending(0), total, w) && Untouched(word, w, Virt(s), PAGE_SIZE)
    {
      w := Retitled(word, s, 0, 0);
      w := Stored(w, Virt(s) + PAGE, s);
      w := Stored(w, Virt(s) + START, Obj(s, c, 0));
      w := Stored(w, Virt(s) + TOTAL, total);
    }

    /** Set up the header and free list of a slab on the fresh page `s`, and list it. */
    method Install(s: nat, c: nat, ghost pages0: seq<Page>, ghost bs0: Blocks)
      requires zone.Valid() && c < NUM_CACHES && HeapOk(St(), caches[..], pages0, bs0, start, -1)
      requires AllocSpec(pages0, bs0, zone.pages[..], zone.blocks, 0, {Kernel, Slab}, s)
      modifies this, caches, zone.pages
      ensures zone.Valid() && live == old(live)
      ensures NewSlab(old(slabs), slabs, chain, s, c)
      ensures HeapOk(St(), caches[..], zone.pages[..], zone.blocks, start, s)
    {
      SizeFacts(c);
      var sl, w := FillSlab(s, c);
      DescendingAll(sl.freeCount);
      CreateOk(St(), caches[..], pages0, bs0, start, zone.pages[..], zone.blocks, s, sl, w);
      Enlist(s, c);
      Adopt(s, sl, w);
    }

    /** The page's record points to the slab, and the list of its cache starts with it. */
    method Enlist(s: nat, c: nat)
      requires zone.Valid() && c < NUM_CACHES == caches.Length && s in Allocated(zone.blocks)
      modifies caches, zone.pages
      ensures zone.Valid() && s < zone.pages.Length
      ensures zone.pages[..] == old(zone.pages[..])[s := old(zone.pages[..])[s].(private := Virt(s))]
      ensures caches[..] == old(caches[..])[c := [s] + old(caches[..])[c]]
    {
      zone.SetPrivate(s, Virt(s));
      caches[c] := [s] + caches[c];
    }

    /** Enter a slab that is filled and listed. */
    method Adopt(s: nat, sl: Header, w: map<nat, nat>)
      requires HeapOk(CreateState(St(), s, sl, w), caches[..], zone.pages[..], zone.blocks, start, s)
      modifies this`slabs, this`word, this`chain
      ensures HeapOk(St(), caches[..], zone.pages[..], zone.blocks, start, s)
      ensures slabs == old(slabs)[s := sl] && s in chain && chain[s] == Descending(sl.freeCount)
    {
      ghost var st' := CreateState(St(), s, sl, w);
      slabs, word, chain := slabs[s := sl], w, chain[s := Descending(sl.freeCount)];
      assert St() == st';
    }

    /** slab_create, and the list_add that follows it in slab_alloc. */
    method SlabCreate(c: nat) returns (ok: bool, s: nat)
      requires Valid() && c < NUM_CACHES
      modifies this, caches, zone, zone.pages, zone.area
      ensures zone.Valid() && live == old(live)
      ensures ok <==> HasRun(old(zone.FreeFrames()), 0)
      ensures !ok ==> Valid() && slabs == old(slabs)
      ensures ok ==> NewSlab(old(slabs), slabs, chain, s, c) && Titled(s, slabs[s], word)
      ensures ok ==> HeapOk(St(), caches[..], zone.pages[..], zone.blocks, start, s)
    {
      ghost var caches0, pages0, bs0 := caches[..], zone.pages[..], zone.blocks;
      var page := zone.PageAlloc(0, {Kernel, Slab});
      assert caches[..] == caches0;
      if page.None? {
        return false, 0;
      }
      ok, s := true, page.value;
      Install(s, c, pages0, bs0);
      assert SlabAt(St(), s);
    }

    method SlabAlloc(size: nat) returns (p: nat)
      requires Valid()
      modifies this, caches, zone, zone.pages, zone.area
      ensures Valid()
      ensures p == 0 ==> live == old(live) && slabs == old(slabs)
      ensures p != 0 ==> 0 < size <= SLAB_MAX_SIZE && Gained(old(live), live, p, size)
      ensures 0 < size <= SLAB_MAX_SIZE ==> (p != 0 <==> CanServe(old(slabs), old(zone.FreeFrames()), size))
    {
      if size == 0 {
        return 0;
      }
      var c := CacheIndex(size);
      if c < 0 {
        return 0;
      }
      var found, s := FindSlab(c);
      if !found {
        forall t | t in slabs && CacheFor(size, slabs[t].cache) ensures slabs[t].freeCount == 0 {
          CacheUnique(size, c, slabs[t].cache);
        }
        found, s := SlabCreate(c);
        if !found {
          return 0;
        }
      }
      p := Pop(s, size);
    }

    /**
      Null exactly when the request cannot be met. A request of more than 2^32 - 4096 bytes wraps around when
      it is rounded up, and is given one page.
     */
    method Kmalloc(size: nat) returns (p: nat)
      requires Valid() && size < SPACE
      modifies this, caches, zone, zone.pages, zone.area
      ensures Valid()
      ensures p == 0 ==> live == old(live) && slabs == old(slabs)
      ensures p != 0 ==> Gained(old(live), live, p, if size <= SPACE - PAGE_SIZE then size else PAGE_SIZE)
      ensures p != 0 <==>
                if size > SLAB_MAX_SIZE then
                  var k := OrderForPages(PagesFor(size)); k < MAX_ORDER && HasRun(old(zone.FreeFrames()), k)
                else size > 0 && CanServe(old(slabs), old(zone.FreeFrames()), size)
      ensures size > SPACE - PAGE_SIZE ==> PagesFor(size) == OrderForPages(PagesFor(size)) == 0
    {
      if size == 0 {
        return 0;
      }
      if size > SLAB_MAX_SIZE {
        RoundingExact(size);
        p := BigAlloc(OrderForPages(PagesFor(size)), if size <= SPACE - PAGE_SIZE then size else PAGE_SIZE);
      } else {
        p := SlabAlloc(size);
      }
    }

    method BigAlloc(k: nat, ghost size: nat) returns (p: nat)
      requires Valid() && size <= Pow2(k) * PAGE_SIZE
      modifies this`live, zone, zone.pages, zone.area
      ensures Valid() && slabs == old(slabs)
      ensures p == 0 ==> live == old(live)
      ensures p != 0 ==> Gained(old(live), live, p, size)
      ensures p == 0 <==> k >= MAX_ORDER || !HasRun(old(zone.FreeFrames()), k)
    {
      ghost var caches0, pages0, bs0 := caches[..], zone.pages[..], zone.blocks;
      var page := zone.PageAlloc(k, {Kernel});
      assert caches[..] == caches0;
      if page.None? {
        return 0;
      }
      p := Virt(page.value);
      EnterBig(page.value, k, size, pages0, bs0);
    }

    /** Account for the large allocation at frame `h`. */
    ghost method EnterBig(h: nat, k: nat, size: nat, pages0: seq<Page>, bs0: Blocks)
      requires zone.Valid() && HeapOk(St(), caches[..], pages0, bs0, start, -1) && size <= Pow2(k) * PAGE_SIZE
      requires AllocSpec(pages0, bs0, zone.pages[..], zone.blocks, k, {Kernel}, h)
      modifies this`live
      ensures Valid() && Gained(old(live), live, Virt(h), size)
    {
      BigOk(St(), caches[..], pages0, bs0, start, zone.pages[..], zone.blocks, h, k, size);
      ghost var st' := St().(live := live[Virt(h) := Live(size, Big(h, k))]);
      live := live[Virt(h) := Live(size, Big(h, k))];
      assert St() == st';
      GainedOne(old(live), Virt(h), Live(size, Big(h, k)));
    }

    method BigFree(p: nat, page: nat)
      requires Valid() && p in live && live[p].place.Big? && page == live[p].place.h
      modifies this`live, zone, zone.pages, zone.area
      ensures Valid() && live == old(live) - {p} && slabs == old(slabs)
      ensures zone.FreeFrames() == old(zone.FreeFrames()) + Run(page, old(live)[p].place.k)
    {
      assert BigPage(St(), zone.pages[..], Allocated(zone.blocks), p);
      ghost var caches0, pages0, bs0 := caches[..], zone.pages[..], zone.blocks;
      var res := zone.PageFree(Some(page));
      assert caches[..] == caches0;
      LeaveBig(p, pages0, bs0);
    }

    /** Close the account of the large allocation at `p`, whose block is free. */
    ghost method LeaveBig(p: nat, pages0: seq<Page>, bs0: Blocks)
      requires zone.Valid() && HeapOk(St(), caches[..], pages0, bs0, start, -1) && p in live && live[p].place.Big?
      requires FreeSpec(pages0, bs0, zone.pages[..], zone.blocks, live[p].place.h)
      modifies this`live
      ensures Valid() && live == old(live) - {p}
    {
      BigFreeOk(St(), caches[..], pages0, bs0, start, zone.pages[..], zone.blocks, p);
      ghost var st' := St().(live := live - {p});
      live := live - {p};
      assert St() == st';
    }

    /** Put object `p` back on the free list of its slab `s`. */
    method PushBack(p: nat, s: nat)
      requires Valid() && p in live && live[p].place.Small? && s == live[p].place.s && s in slabs
      modifies this
      ensures HeapOk(St(), caches[..], zone.pages[..], zone.blocks, start, s)
      ensures live == old(live) - {p}
      ensures slabs == old(slabs)[s := old(slabs)[s].(freeList := p, freeCount := old(slabs)[s].freeCount + 1)]
    {
      ghost var lists, pages := caches[..], zone.pages[..];
      PushOk(St(), lists, pages, zone.blocks, start, p);
      assert SlabAt(St(), s);
      LinkIn(p, s);
      assert caches[..] == lists && zone.pages[..] == pages;
    }

    /** The stores of slab_free: the object's first word, and the header. */
    method LinkIn(p: nat, s: nat)
      requires LiveAt(St(), p) && live[p].place.Small? && s == live[p].place.s && s in slabs && SlabAt(St(), s)
      modifies this`word, this`slabs, this`chain, this`live
      ensures St() == PushState(old(St()), p)
    {
      ghost var i := live[p].place.i;
      var free, count := word[Virt(s) + FREE_LIST], word[Virt(s) + FREE_COUNT] + 1;
      word := Stored(word, p, free);
      word := Stored(Stored(word, Virt(s) + FREE_LIST, p), Virt(s) + FREE_COUNT, count);
      slabs := slabs[s := slabs[s].(freeList := p, freeCount := count)];
      chain, live := chain[s := [i] + chain[s]], live - {p};
    }

    method SlabFree(p: nat, s: nat)
      requires Valid() && p in live && live[p].place.Small? && s == live[p].place.s && s in slabs
      modifies this, caches, zone, zone.pages, zone.area
      ensures Valid() && live == old(live) - {p}
      ensures SlabFreed(old(slabs), old(zone.FreeFrames()), slabs, zone.FreeFrames(), old(live)[p].place.s)
    {
      PushBack(p, s);
      assert slabs - {s} == old(slabs) - {s} && slabs.Keys == old(slabs).Keys;
      Settle(s);
    }

    /** Return the page of a slab whose objects are all free. */
    method Settle(s: nat)
      requires zone.Valid() && HeapOk(St(), caches[..], zone.pages[..], zone.blocks, start, s) && s in slabs
      modifies this, caches, zone, zone.pages, zone.area
      ensures Valid() && live == old(live)
      ensures if old(slabs)[s].freeCount == old(slabs)[s].total
              then slabs == old(slabs) - {s} && zone.FreeFrames() == old(zone.FreeFrames()) + Run(s, 0)
              else slabs == old(slabs) && zone.FreeFrames() == old(zone.FreeFrames())
    {
      assert SlabAt(St(), s);
      if word[Virt(s) + FREE_COUNT] == word[Virt(s) + TOTAL] {
        SlabDestroy(s);
      } else {
        Closed(St(), s);
      }
    }

    method FreeSlabPage(s: nat)
      requires zone.Valid() && SlabPage(zone.pages[..], Allocated(zone.blocks), s)
      modifies zone, zone.pages, zone.area
      ensures zone.Valid() && FreeSpec(old(zone.pages[..]), old(zone.blocks), zone.pages[..], zone.blocks, s)
      ensures zone.FreeFrames() == old(zone.FreeFrames()) + Run(s, 0)
    {
      var res := zone.PageFree(Some(s));
    }

    method SlabDestroy(s: nat)
      requires zone.Valid() && HeapOk(St(), caches[..], zone.pages[..], zone.blocks, start, s)
      requires s in slabs && slabs[s].freeCount == slabs[s].total
      modifies this, caches, zone, zone.pages, zone.area
      ensures Valid() && live == old(live) && slabs == old(slabs) - {s}
      ensures zone.FreeFrames() == old(zone.FreeFrames()) + Run(s, 0)
    {
      ghost var caches0, pages0, bs0 := caches[..], zone.pages[..], zone.blocks;
      assert SlabAt(St(), s) && SlabPage(pages0, Allocated(bs0), s);
      var c := slabs[s].cache;
      caches[c] := Without(caches[c], s);
      ghost var caches1 := caches[..];
      assert caches1 == caches0[c := Without(caches0[c], s)] && zone.pages[..] == pages0;
      FreeSlabPage(s);
      assert caches[..] == caches1;
      Forget(s, caches0, pages0, bs0);
    }

    /** Drop the header of a slab that is unlisted and whose page is free. */
    method Forget(s: nat, ghost caches0: seq<seq<nat>>, ghost pages0: seq<Page>, ghost bs0: Blocks)
      requires zone.Valid() && HeapOk(St(), caches0, pages0, bs0, start, s)
               && FreeSpec(pages0, bs0, zone.pages[..], zone.blocks, s)
      requires s in slabs && slabs[s].freeCount == slabs[s].total && slabs[s].cache < NUM_CACHES
      requires caches[..] == caches0[slabs[s].cache := Without(caches0[slabs[s].cache], s)]
      modifies this`slabs, this`chain
      ensures Valid() && slabs == old(slabs) - {s}
    {
      DestroyOk(St(), caches0, pages0, bs0, start, zone.pages[..], zone.blocks, s);
      ghost var st' := DestroyState(St(), s);
      slabs, chain := slabs - {s}, chain - {s};
      assert St() == st';
    }

    /** A caller's store of a word into memory it was given. */
    method Store(p: nat, a: nat, v: nat)
      requires Valid() && p in live && p <= a && a + WORD <= p + live[p].size
      modifies this`word
      ensures Valid() && word == Stored(old(word), a, v)
    {
      StoreOk(St(), caches[..], zone.pages[..], zone.blocks, start, p, a, WORD, Stored(word, a, v));
      ghost var st' := St().(word := Stored(word, a, v));
      word := Stored(word, a, v);
      assert St() == st';
    }

    method Kfree(p: nat)
      requires Valid() && (p == 0 || p in live)
      modifies this, caches, zone, zone.pages, zone.area
      ensures Valid() && live == old(live) - {p}
      ensures p != 0 && old(live)[p].place.Big? ==>
                slabs == old(slabs) && zone.FreeFrames() == old(zone.FreeFrames()) + Run(old(live)[p].place.h,
                    old(live)[p].place.k)
      ensures p != 0 && old(live)[p].place.Small? ==>
                SlabFreed(old(slabs), old(zone.FreeFrames()), slabs, zone.FreeFrames(), old(live)[p].place.s)
    {
      if p == 0 {
        NullNotLive(St());
        return;
      }
      Routed(St(), zone.pages[..], Allocated(zone.blocks), Allocated(start), p);
      assert LiveAt(St(), p);
      var page := PfnOf(p);
      if Slab in zone.pages[page].flags && zone.pages[page].private != 0 {
        SlabFree(p, page);
      } else {
        BigFree(p, page);
      }
    }
  }

  lemma Closed(st: State, s: nat)
    requires SlabsOk(st, s) && s in st.slabs && st.slabs[s].freeCount != st.slabs[s].total
    ensures SlabsOk(st, -1)
  {
    assert SlabAt(st, s);
    ChainBound(st, s);
  }

  lemma NullNotLive(st: State)
    requires LiveOk(st) && SlabsOk(st, -1)
    ensures 0 !in st.live
  {
    if 0 in st.live {
      assert LiveAt(st, 0);
      match st.live[0].place
      case Small(s, i) =>
        assert SlabAt(st, s);
        ObjInPage(s, st.slabs[s].cache, i);
      case Big(_, _) =>
    }
  }

  /** The test kfree makes on the page record tells slab objects from large allocations, for every live pointer. */
  lemma Routed(st: State, pages: seq<Page>, alloc: map<nat, nat>, foreign: map<nat, nat>, p: nat)
    requires LiveOk(st) && SlabsOk(st, -1) && PagesOk(st, pages, alloc, foreign) && p in st.live
    ensures p >= DIRECTMAP && PfnOf(p) == Home(st.live[p]) && PfnOf(p) < |pages|
    ensures Slab in pages[PfnOf(p)].flags && pages[PfnOf(p)].private != 0 <==> st.live[p].place.Small?
  {
    assert LiveAt(st, p);
    match st.live[p].place
    case Small(s, i) =>
      assert SlabAt(st, s) && SlabPage(pages, alloc, s);
      ObjInPage(s, st.slabs[s].cache, i);
    case Big(h, k) =>
      assert BigPage(st, pages, alloc, p);
  }

  lemma SlabHasLive(st: State, s: nat)
    requires SlabsOk(st, -1) && LiveOk(st) && s in st.slabs
    ensures st.live != map[]
  {
    assert SlabAt(st, s);
    ChainBound(st, s);
    var i: nat :| i < st.slabs[s].total && i !in st.chain[s];
    assert Accounted(st, s, i);
  }

  /** In every valid heap live allocations are apart. */
  lemma HeapDisjoint(h: Heap, p: nat, q: nat)
    requires h.Valid() && p in h.live && q in h.live && p != q
    ensures !Overlap(p, h.live[p].size, q, h.live[q].size)
  {
    LiveDisjoint(h.St(), h.zone.blocks, h.zone.pages[..], Allocated(h.start), p, q);
  }

  /**
    In every valid heap a listed slab's free chain has `freeCount` objects, all different, and misses one that is live.
   */
  lemma ListedSlab(h: Heap, c: nat, s: nat)
    requires h.Valid() && c < NUM_CACHES && s in h.caches[c]
    ensures s in h.slabs && h.slabs[s].cache == c && s in h.chain && NoDup(h.chain[s])
    ensures |h.chain[s]| == h.slabs[s].freeCount < h.slabs[s].total
    ensures exists i: nat :: i < h.slabs[s].total && i !in h.chain[s] && Obj(s, c, i) in h.live
  {
    var st := h.St();
    assert s in h.caches[..][c];
    assert SlabAt(st, s);
    ChainBound(st, s);
    var i: nat :| i < st.slabs[s].total && i !in st.chain[s];
    assert Accounted(st, s, i);
  }

  /** Once nothing is live, every slab is gone and the free blocks are the ones the heap started with. */
  lemma AllFreed(h: Heap)
    requires h.Valid() && h.live == map[]
    ensures h.slabs == map[] && Allocated(h.zone.blocks) == Allocated(h.start)
    ensures forall p, k :: FreeBlock(h.zone.blocks, p, k) <==> FreeBlock(h.start, p, k)
  {
    var st := h.St();
    if s :| s in st.slabs {
      SlabHasLive(st, s);
    }
    assert st.slabs == map[];
    forall g: nat ensures g in Allocated(h.zone.blocks) <==> g in Allocated(h.start)
                  ensures g in Allocated(h.start) ==> Allocated(h.start)[g] == Allocated(h.zone.blocks)[g]
    {
      assert Classified(st, Allocated(h.zone.blocks), Allocated(h.start), g);
    }
    assert Allocated(h.zone.blocks) == Allocated(h.start);
    SameAllocatedSameFree(h.zone.blocks, h.start, h.zone.pages.Length);
  }

  /** Whatever a caller writes to the bytes of a live allocation disturbs nothing the heap relies on. */
  lemma StoreOk(st: State, caches: seq<seq<nat>>, pages: seq<Page>, bs: Blocks, start: Blocks, p: nat, a: nat, n: nat,
          word: map<nat, nat>)
    requires HeapOk(st, caches, pages, bs, start, -1) && p in st.live && p <= a && a + n <= p + st.live[p].size
    requires Untouched(st.word, word, a, n)
    ensures HeapOk(st.(word := word), caches, pages, bs, start, -1)
  {
    var st' := st.(word := word);
    assert LiveAt(st, p);
    forall t | t in st'.slabs ensures SlabAt(st', t) {
      assert SlabAt(st, t);
      forall j | 0 <= j < |st.chain[t]| ensures !Overlap(Obj(t, st.slabs[t].cache, st.chain[t][j]), WORD, a, n) {
        ChainAvoidsLive(st, pages, bs, Allocated(start), p, t, j);
      }
      HeaderAvoidsLive(st, pages, bs, Allocated(start), p, t);
      TitledClear(t, st.slabs[t], st.word, word, a, n);
      ThreadedClear(t, st.slabs[t], st.chain[t], st.word, word, a, n);
    }
    StoreLive(st, st');
    PagesSame(st, st', pages, Allocated(bs), Allocated(start));
    ListsSame(st, st', caches);
  }

  lemma StoreLive(st: State, st': State)
    requires LiveOk(st) && st' == st.(word := st'.word)
    ensures LiveOk(st')
  {
    forall q | q in st'.live ensures LiveAt(st', q) { assert LiveAt(st, q); }
    forall t, j | t in st'.slabs && 0 <= j < Objects(st'.slabs[t].cache) ensures Accounted(st', t, j) {
      assert Accounted(st, t, j);
    }
  }

  /** No byte of a free object's link belongs to a live allocation. */
  lemma ChainAvoidsLive(st: State, pages: seq<Page>, bs: Blocks, foreign: map<nat, nat>, p: nat, t: nat, j: nat)
    requires LiveOk(st) && SlabsOk(st, -1) && PagesOk(st, pages, Allocated(bs), foreign) && Disjoint(bs)
    requires p in st.live && t in st.slabs && t in st.chain && j < |st.chain[t]|
    ensures !Overlap(Obj(t, st.slabs[t].cache, st.chain[t][j]), WORD, p, st.live[p].size)
  {
    var c, i := st.slabs[t].cache, st.chain[t][j];
    assert SlabAt(st, t) && LinkOk(t, c, st.chain[t], st.word, j) && SlabPage(pages, Allocated(bs), t);
    ObjInPage(t, c, i);
    SizeFacts(c);
    assert LiveAt(st, p);
    InItsBlock(st, pages, Allocated(bs), foreign, p);
    var h := Home(st.live[p]);
    if h == t {
      if st.live[p].place.Small? {
        var i' := st.live[p].place.i;
        if i < i' { ObjApart(t, c, i, i'); } else { ObjApart(t, c, i', i); }
      }
    } else {
      assert h < t ==> Apart(bs, h, t);
      assert t < h ==> Apart(bs, t, h);
    }
  }

  /** No byte of a slab's header belongs to a live allocation. */
  lemma HeaderAvoidsLive(st: State, pages: seq<Page>, bs: Blocks, foreign: map<nat, nat>, p: nat, t: nat)
    requires LiveOk(st) && SlabsOk(st, -1) && PagesOk(st, pages, Allocated(bs), foreign) && Disjoint(bs)
    requires p in st.live && t in st.slabs
    ensures !Overlap(Virt(t), SLAB_HEADER, p, st.live[p].size)
  {
    assert SlabAt(st, t) && SlabPage(pages, Allocated(bs), t) && LiveAt(st, p);
    InItsBlock(st, pages, Allocated(bs), foreign, p);
    var h := Home(st.live[p]);
    if h == t {
      assert st.live[p].place.Small?;
      WordInPage(t, st.slabs[t].cache, st.live[p].place.i);
    } else {
      assert h < t ==> Apart(bs, h, t);
      assert t < h ==> Apart(bs, t, h);
    }
  }

  /**
    The objects of a slab stand back to back behind the seven words of its header, up to the end of the page: there is
    no room for one more.
   */
  lemma ObjectsFillPage(s: nat, c: nat, i: nat)
    requires c < NUM_CACHES && i < Objects(c)
    ensures Obj(s, c, 0) == Virt(s) + 7 * WORD && Obj(s, c, i + 1) == Obj(s, c, i) + ObjSize(c)
    ensures Obj(s, c, i) + ObjSize(c) <= Virt(s) + PAGE_SIZE
    ensures Obj(s, c, Objects(c)) + ObjSize(c) > Virt(s) + PAGE_SIZE
  {
    ObjInPage(s, c, i);
    assert (i + 1) * ObjSize(c) == i * ObjSize(c) + ObjSize(c);
    var n, z := Objects(c), ObjSize(c);
    assert PAGE_SIZE - SLAB_HEADER == n * z + (PAGE_SIZE - SLAB_HEADER) % z;
  }
}
