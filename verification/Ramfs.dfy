/**
  File contents of the RAM file system: a sparse array of pages that doubles as the file grows, read and
  written page by page through any number of open files. It is proved to behave as one flat byte string,
  zero-extended where it was never written.
 */
module Ramfs {
  import opened Common

  /** The largest size whose page count does not wrap around. */
  const MAX_SIZE := 0xFFFF_F000

  /** Half the pages of the address space. */
  const HALF_PAGES := 0x8_0000

  /** The page array; `None` is a null pointer. */
  type Pages = seq<Option<seq<Byte>>>

  // ----- The flat picture

  function Zeros(n: nat): seq<Byte>
  {
    seq(n, _ => 0)
  }

  function Nones(n: nat): Pages
  {
    seq(n, _ => None)
  }

  /** Writing past the end fills the gap with zeros. */
  function FlatWrite(c: seq<Byte>, pos: nat, buf: seq<Byte>): seq<Byte>
  {
    (if pos <= |c| then c[..pos] else c + Zeros(pos - |c|)) + buf
        + (if pos + |buf| <= |c| then c[pos + |buf|..] else [])
  }

  function FlatTruncate(c: seq<Byte>, n: nat): seq<Byte>
  {
    if n <= |c| then c[..n] else c + Zeros(n - |c|)
  }

  // ----- Bytes of the page array

  /** The byte at file offset `x`; holes and whatever lies beyond the array are zero. */
  function At(pages: Pages, x: nat): Byte
  {
    var q, o := x / PAGE_SIZE, x % PAGE_SIZE;
    if q < |pages| && pages[q].Some? && o < |pages[q].value| then pages[q].value[o] else 0
  }

  predicate PagesOk(pages: Pages)
  {
    forall q :: 0 <= q < |pages| && pages[q].Some? ==> |pages[q].value| == PAGE_SIZE
  }

  /** No byte beyond the size is set. */
  ghost predicate Clean(pages: Pages, size: nat)
  {
    forall x: nat {:trigger At(pages, x)} :: x >= size ==> At(pages, x) == 0
  }

  function Content(pages: Pages, size: nat): (c: seq<Byte>)
    ensures |c| == size
    ensures forall x :: 0 <= x < size ==> c[x] == At(pages, x)
  {
    seq(size, x requires 0 <= x < size => At(pages, x))
  }

  /** `pages` is `was` with `data` written at offset `start`. */
  ghost predicate Written(was: Pages, pages: Pages, start: nat, data: seq<Byte>)
  {
    forall x: nat {:trigger At(pages, x)} ::
        At(pages, x) == if start <= x < start + |data| then data[x - start] else At(was, x)
  }

  function Put(page: seq<Byte>, o: nat, data: seq<Byte>): (r: seq<Byte>)
    requires o + |data| <= |page|
    ensures |r| == |page|
  {
    page[..o] + data + page[o + |data|..]
  }

  lemma Split(x: nat, p: nat, o: nat)
    requires x == p * PAGE_SIZE + o && o < PAGE_SIZE
    ensures x / PAGE_SIZE == p && x % PAGE_SIZE == o
  {
  }

  lemma PutAt(pages: Pages, p: nat, o: nat, data: seq<Byte>, x: nat)
    requires p < |pages| && pages[p].Some? && |pages[p].value| == PAGE_SIZE && o + |data| <= PAGE_SIZE
    ensures var start := p * PAGE_SIZE + o;
            At(pages[p := Some(Put(pages[p].value, o, data))], x) == if start <= x < start + |data| then data[x - start]
                                                                     else At(pages, x)
  {
    var q, r := x / PAGE_SIZE, x % PAGE_SIZE;
    assert x == q * PAGE_SIZE + r;
  }

  lemma PutWritten(pages: Pages, p: nat, o: nat, data: seq<Byte>)
    requires p < |pages| && pages[p].Some? && |pages[p].value| == PAGE_SIZE && o + |data| <= PAGE_SIZE
    ensures Written(pages, pages[p := Some(Put(pages[p].value, o, data))], p * PAGE_SIZE + o, data)
  {
    var pages', start := pages[p := Some(Put(pages[p].value, o, data))], p * PAGE_SIZE + o;
    forall x: nat ensures At(pages', x) == if start <= x < start + |data| then data[x - start] else At(pages, x) {
      PutAt(pages, p, o, data, x);
    }
  }

  /** Two writes in a row. */
  lemma WrittenOn(was: Pages, mid: Pages, pages: Pages, start: nat, buf: seq<Byte>, t: nat, w: nat)
    requires t + w <= |buf| && Written(was, mid, start, buf[..t]) && Written(mid, pages, start + t, buf[t..t + w])
    ensures Written(was, pages, start, buf[..t + w])
  {
    forall x: nat ensures At(pages, x) == if start <= x < start + t + w then buf[..t + w][x - start] else At(was, x) {
      assert At(mid, x) == if start <= x < start + t then buf[..t][x - start] else At(was, x);
    }
  }

  /** Neither a longer array nor a fresh zero page changes any byte. */
  lemma GrowAt(pages: Pages, n: nat, x: nat)
    ensures At(pages + Nones(n), x) == At(pages, x)
  {
  }

  lemma FreshAt(pages: Pages, p: nat, x: nat)
    requires p < |pages| && pages[p].None?
    ensures At(pages[p := Some(Zeros(PAGE_SIZE))], x) == At(pages, x)
  {
  }

  /** The bytes written, seen flat. */
  lemma WriteIsFlat(was: Pages, pages: Pages, size: nat, pos: nat, buf: seq<Byte>)
    requires Clean(was, size) && Written(was, pages, pos, buf)
    ensures var size' := if pos + |buf| > size then pos + |buf| else size;
            Clean(pages, size')
                && (|buf| > 0 || pos <= size ==> Content(pages, size') == FlatWrite(Content(was, size), pos, buf))
  {
    var size' := if pos + |buf| > size then pos + |buf| else size;
    var c := Content(was, size);
    if |buf| > 0 || pos <= size {
      var f := FlatWrite(c, pos, buf);
      forall x | 0 <= x < size' ensures f[x] == At(pages, x) {
        assert At(was, x) == if x < size then c[x] else 0;
      }
    }
  }

  // ----- Writes that ran out of memory

  /** What was written past the end is all zeros. */
  predicate ZerosBeyond(size: nat, start: nat, data: seq<Byte>)
  {
    forall k :: 0 <= k < |data| && start + k >= size ==> data[k] == 0
  }

  /** A write cut short leaves the file tidy exactly when it left only zeros beyond the size. */
  lemma PartialWriteTidy(was: Pages, pages: Pages, size: nat, start: nat, data: seq<Byte>)
    requires Clean(was, size) && Written(was, pages, start, data)
    ensures Clean(pages, size) <==> ZerosBeyond(size, start, data)
  {
    if Clean(pages, size) {
      forall k | 0 <= k < |data| && start + k >= size ensures data[k] == 0 {
        assert At(pages, start + k) == data[k];
      }
    }
  }

  /** Within the old size it reads as the part that was written. */
  lemma PartialWriteFlat(was: Pages, pages: Pages, size: nat, start: nat, data: seq<Byte>)
    requires Written(was, pages, start, data) && start <= size
    ensures Content(pages, size) == FlatWrite(Content(was, size), start, data)[..size]
  {
    var c, f := Content(was, size), FlatWrite(Content(was, size), start, data);
    forall x | 0 <= x < size ensures f[x] == At(pages, x) {
      assert At(was, x) == c[x];
    }
  }

  // ----- Truncation

  /** The number of pages for a size, in 32-bit arithmetic. */
  function PageCount(size: nat): (n: nat)
    ensures size <= MAX_SIZE ==> (n - 1) * PAGE_SIZE < size <= n * PAGE_SIZE
    ensures MAX_SIZE < size < LIMIT ==> n == 0
  {
    (size + PAGE_SIZE - 1) % LIMIT / PAGE_SIZE
  }

  /** What shrinking leaves of the array: whole pages go, the tail of the last one is cleared. */
  function Shrunk(pages: Pages, size: nat, n: nat): (r: Pages)
    ensures |r| == |pages|
  {
    var freed := seq(|pages|, q requires 0 <= q < |pages| => if PageCount(n) <= q < PageCount(size) then None
                                                             else pages[q]);
    var last := PageCount(n) - 1;
    if n % PAGE_SIZE != 0 && 0 <= last < |pages| && freed[last].Some? && |freed[last].value| == PAGE_SIZE then
      freed[last := Some(freed[last].value[..n % PAGE_SIZE] + Zeros(PAGE_SIZE - n % PAGE_SIZE))]
    else
      freed
  }

  /** Shrinking from `size` to `n` clears these bytes: up to the end of the pages counted for either size. */
  predicate Cleared(size: nat, n: nat, x: nat)
  {
    n < size && n <= x < Max(PageCount(size), PageCount(n)) * PAGE_SIZE
  }

  lemma ShrunkAt(pages: Pages, size: nat, n: nat, x: nat)
    requires PagesOk(pages) && n < size < LIMIT && size <= |pages| * PAGE_SIZE
    ensures At(Shrunk(pages, size, n), x) == if Cleared(size, n, x) then 0 else At(pages, x)
  {
    if size <= MAX_SIZE { ShrinkArith(n, size, x); } else { WrappedAt(pages, size, n, x); }
  }

  lemma WrappedAt(pages: Pages, size: nat, n: nat, x: nat)
    requires PagesOk(pages) && n < size && MAX_SIZE < size < LIMIT && size <= |pages| * PAGE_SIZE
    ensures At(Shrunk(pages, size, n), x) == if Cleared(size, n, x) then 0 else At(pages, x)
  {
    assert PageCount(size) == 0;
    var last := PageCount(n) - 1;
    if n <= MAX_SIZE {
      TailArith(n, x);
      assert last < |pages|;
    } else {
      assert PageCount(n) == 0;
    }
  }

  /** Where offset `x` lies relative to the cut. */
  lemma ShrinkArith(n: nat, size: nat, x: nat)
    requires n < size <= MAX_SIZE
    ensures var q, o, a := x / PAGE_SIZE, x % PAGE_SIZE, PageCount(n);
            && a <= PageCount(size) && (x < PageCount(size) * PAGE_SIZE <==> q < PageCount(size))
            && (x < n <==> q < a - 1 || (q == a - 1 && (n % PAGE_SIZE == 0 || o < n % PAGE_SIZE)))
  {
  }

  lemma TailArith(n: nat, x: nat)
    requires n <= MAX_SIZE
    ensures n <= x < PageCount(n) * PAGE_SIZE <==>
            n % PAGE_SIZE != 0 && x / PAGE_SIZE == PageCount(n) - 1 && x % PAGE_SIZE >= n % PAGE_SIZE
  {
  }

  /** No byte of `c` from `from` on is set. */
  predicate Blank(c: seq<Byte>, from: nat)
  {
    forall x :: from <= x < |c| ==> c[x] == 0
  }

  /** Bytes below the new size stay; nothing stale is left behind if the old page count did not wrap. */
  lemma ShrinkIsFlat(pages: Pages, pages': Pages, size: nat, n: nat)
    requires n < size < LIMIT && Clean(pages, size)
    requires forall x: nat {:trigger At(pages', x)} :: At(pages', x) == if Cleared(size, n, x) then 0 else At(pages, x)
    ensures Content(pages', n) == FlatTruncate(Content(pages, size), n)
    ensures Clean(pages', n) <==> size <= MAX_SIZE || Blank(Content(pages, size), Max(n, PageCount(n) * PAGE_SIZE))
  {
    var c, from := Content(pages, size), Max(n, PageCount(n) * PAGE_SIZE);
    if size > MAX_SIZE {
      if Clean(pages', n) {
        forall x | from <= x < |c| ensures c[x] == 0 { assert At(pages', x) == 0; }
      } else {
        var x: nat :| x >= n && At(pages', x) != 0;
        assert c[x] != 0;
      }
    }
  }

  /** Beyond the largest size whose page count does not wrap, a shrink clears the tail of one page at most. */
  lemma WrappedShrinkKeepsBytes(pages: Pages, size: nat, n: nat, x: nat)
    requires PagesOk(pages) && MAX_SIZE < size < LIMIT && n < size && size <= |pages| * PAGE_SIZE
    ensures At(Shrunk(pages, size, n), x) ==
            if n <= MAX_SIZE && n <= x && x / PAGE_SIZE == n / PAGE_SIZE && n % PAGE_SIZE != 0 then 0 else At(pages, x)
  {
    ShrunkAt(pages, size, n, x);
    if n <= MAX_SIZE { TailArith(n, x); }
  }

  lemma ExpandIsFlat(pages: Pages, pages': Pages, size: nat, n: nat)
    requires Clean(pages, size) && size <= n
    requires forall x: nat {:trigger At(pages', x)} :: At(pages', x) == At(pages, x)
    ensures Clean(pages', n) && Content(pages', n) == FlatTruncate(Content(pages, size), n)
  {
  }

  // ----- What a write asks for

  function Min(a: nat, b: nat): nat
  {
    if a < b then a else b
  }

  /** The number of requests it takes to have page `q`. */
  function Need(pages: Pages, q: nat): nat
  {
    if q >= |pages| then 2 else if pages[q].None? then 1 else 0
  }

  function Capacity(pages: Pages, q: nat): (c: nat)
    ensures c >= |pages|
  {
    if q < |pages| then |pages| else if |pages| > 0 then |pages| * 2 else 4
  }

  /** Page `q` is in the array, after one doubling if need be. */
  predicate InReach(pages: Pages, q: nat)
  {
    q < Capacity(pages, q)
  }

  /** The pages with page `q` made present, in an array doubled if need be. */
  function Ensured(pages: Pages, q: nat): Pages
  {
    var grown := pages + Nones(Capacity(pages, q) - |pages|);
    if q < |grown| && grown[q].None? then grown[q := Some(Zeros(PAGE_SIZE))] else grown
  }

  /** How many of `left` bytes, the first at offset `o` of page `q`, get written before a request is refused. */
  ghost function Reached(pages: Pages, grants: seq<bool>, asked: nat, q: nat, o: nat, left: nat): (t: nat)
    requires o < PAGE_SIZE
    ensures t <= left
    decreases left
  {
    var k, w := Need(pages, q), Min(left, PAGE_SIZE - o);
    if left == 0 || !AllGranted(grants, asked, asked + k) then 0
    else w + Reached(Ensured(pages, q), grants, asked + k, q + 1, 0, left - w)
  }

  /** A write of `n` bytes at `start` can stop after `t`: page `p`, where it would go on, is missing. */
  predicate Cut(pages: Pages, start: nat, n: nat, t: nat, p: nat)
  {
    && t < n && Need(pages, p) > 0
    && if t == 0 then p * PAGE_SIZE <= start < (p + 1) * PAGE_SIZE else start + t == p * PAGE_SIZE
  }

  /** Having page `q` helps no later page. */
  lemma StillMissing(pages: Pages, q: nat, p: nat)
    requires p > q
    ensures Need(Ensured(pages, q), p) > 0 <==> Need(pages, p) > 0
  {
  }

  lemma {:induction false} ReachedIsCut(pages: Pages, grants: seq<bool>, asked: nat, q: nat, o: nat, left: nat)
      returns (p: nat)
    requires o < PAGE_SIZE
    ensures var t := Reached(pages, grants, asked, q, o, left);
            t < left ==> Cut(pages, q * PAGE_SIZE + o, left, t, p)
    decreases left
  {
    var k, w := Need(pages, q), Min(left, PAGE_SIZE - o);
    p := q;
    if left > 0 && AllGranted(grants, asked, asked + k) {
      p := ReachedIsCut(Ensured(pages, q), grants, asked + k, q + 1, 0, left - w);
      if p > q { StillMissing(pages, q, p); }
    }
  }

  /** It can stop at any cut: there are answers of the allocator that make it. */
  lemma {:induction false} CutReached(pages: Pages, asked: nat, q: nat, o: nat, left: nat, t: nat, p: nat)
      returns (grants: seq<bool>)
    requires o < PAGE_SIZE && Cut(pages, q * PAGE_SIZE + o, left, t, p)
    ensures Reached(pages, grants, asked, q, o, left) == t && AllGranted(grants, 0, asked)
    decreases left
  {
    if t == 0 {
      grants := seq(asked + 1, n => n < asked);
      assert !Granted(grants, asked);
    } else {
      var k, w := Need(pages, q), PAGE_SIZE - o;
      StillMissing(pages, q, p);
      grants := CutReached(Ensured(pages, q), asked + k, q + 1, 0, left - w, t - w, p);
    }
  }

  /** How far a write of `n` bytes at `start` gets. */
  ghost function WriteStop(pages: Pages, grants: seq<bool>, asked: nat, start: nat, n: nat): (t: nat)
    ensures t <= n
  {
    Reached(pages, grants, asked, start / PAGE_SIZE, start % PAGE_SIZE, n)
  }

  /** Byte `k` of the request is set and beyond the size, and page `p`, written after it, is missing. */
  predicate AtRisk(pages: Pages, size: nat, start: nat, buf: seq<Byte>, k: nat, p: nat)
  {
    k < |buf| && start + k >= size && buf[k] != 0 && start + k < p * PAGE_SIZE < start + |buf| && Need(pages, p) > 0
  }

  ghost predicate Safe(pages: Pages, size: nat, start: nat, buf: seq<Byte>)
  {
    forall k: nat, p: nat :: !AtRisk(pages, size, start, buf, k, p)
  }

  /**
    However memory runs out, a cut write leaves only zeros beyond the size: this holds if and only if each
    non-zero byte of the request that goes beyond the size is behind every missing page of the write.
   */
  lemma CutWritesTidy(was: Pages, size: nat, start: nat, buf: seq<Byte>)
    ensures Safe(was, size, start, buf) <==>
            forall grants, asked: nat :: var t := WriteStop(was, grants, asked, start, |buf|);
              t < |buf| ==> ZerosBeyond(size, start, buf[..t])
  {
    var q, o := start / PAGE_SIZE, start % PAGE_SIZE;
    if Safe(was, size, start, buf) {
      forall grants, asked: nat | WriteStop(was, grants, asked, start, |buf|) < |buf|
        ensures ZerosBeyond(size, start, buf[..WriteStop(was, grants, asked, start, |buf|)])
      {
        var t := WriteStop(was, grants, asked, start, |buf|);
        var p := ReachedIsCut(was, grants, asked, q, o, |buf|);
        forall k | 0 <= k < t && start + k >= size ensures buf[k] == 0 { assert !AtRisk(was, size, start, buf, k, p); }
      }
    } else {
      var k: nat, p: nat :| AtRisk(was, size, start, buf, k, p);
      var t := p * PAGE_SIZE - start;
      var grants := CutReached(was, 0, q, o, |buf|, t, p);
      assert WriteStop(was, grants, 0, start, |buf|) == t && buf[..t][k] == buf[k];
    }
  }

  /** Only which pages are present matters. */
  predicate SameShape(a: Pages, b: Pages)
  {
    |a| == |b| && forall q :: 0 <= q < |a| ==> a[q].None? == b[q].None?
  }

  lemma EnsuredShape(a: Pages, b: Pages, q: nat)
    requires SameShape(a, b)
    ensures Need(a, q) == Need(b, q) && SameShape(Ensured(a, q), Ensured(b, q))
  {
  }

  lemma {:induction false} ReachedShape(a: Pages, b: Pages, grants: seq<bool>, asked: nat, q: nat, o: nat, left: nat)
    requires SameShape(a, b) && o < PAGE_SIZE
    ensures Reached(a, grants, asked, q, o, left) == Reached(b, grants, asked, q, o, left)
    decreases left
  {
    var k := Need(a, q);
    if left > 0 && AllGranted(grants, asked, asked + k) {
      EnsuredShape(a, b, q);
      ReachedShape(Ensured(a, q), Ensured(b, q), grants, asked + k, q + 1, 0, left - Min(left, PAGE_SIZE - o));
    }
  }

  /** One round of the writing loop: page `q` at hand, or no memory for it. */
  lemma ReachedStep(pages: Pages, pages': Pages, grants: seq<bool>, asked: nat, q: nat, o: nat, left: nat)
    requires left > 0 && o < PAGE_SIZE && SameShape(Ensured(pages, q), pages')
    requires AllGranted(grants, asked, asked + Need(pages, q))
    ensures var w := Min(left, PAGE_SIZE - o);
            Reached(pages, grants, asked, q, o, left) == w + Reached(pages', grants, asked + Need(pages, q), q + 1, 0,
                left - w)
  {
    ReachedShape(Ensured(pages, q), pages', grants, asked + Need(pages, q), q + 1, 0, left - Min(left, PAGE_SIZE - o));
  }

  /** The writing loop after `t` bytes: they are in place, and the next goes to offset `o` of page `q`. */
  ghost predicate Wrote(was: Pages, pages: Pages, cursor: nat, buf: seq<Byte>, t: nat, q: nat, o: nat)
  {
    && t <= |buf| && Written(was, pages, cursor, buf[..t]) && (t > 0 ==> cursor + t <= |pages| * PAGE_SIZE)
    && |was| <= |pages|
    && o < PAGE_SIZE && (t < |buf| ==> q * PAGE_SIZE + o == cursor + t && InReach(pages, q))
  }

  lemma WroteNothing(was: Pages, cursor: nat, buf: seq<Byte>)
    requires |buf| > 0 ==> InReach(was, cursor / PAGE_SIZE)
    ensures Wrote(was, was, cursor, buf, 0, cursor / PAGE_SIZE, cursor % PAGE_SIZE)
  {
  }

  lemma WroteMore(was: Pages, mid: Pages, pages: Pages, cursor: nat, buf: seq<Byte>, t: nat, q: nat, o: nat, w: nat)
    requires Wrote(was, mid, cursor, buf, t, q, o) && t < |buf| && |mid| == |pages| && q < |pages|
    requires w == Min(|buf| - t, PAGE_SIZE - o) && Written(mid, pages, q * PAGE_SIZE + o, buf[t..t + w])
    ensures Wrote(was, pages, cursor, buf, t + w, q + 1, 0)
  {
    WrittenOn(was, mid, pages, cursor, buf, t, w);
  }

  lemma SameWrote(was: Pages, mid: Pages, pages: Pages, cursor: nat, buf: seq<Byte>, t: nat, q: nat, o: nat)
    requires Wrote(was, mid, cursor, buf, t, q, o) && |mid| <= |pages| && InReach(pages, q)
    requires forall x: nat {:trigger At(pages, x)} :: At(pages, x) == At(mid, x)
    ensures Wrote(was, pages, cursor, buf, t, q, o)
  {
  }

  lemma GrantedOn(grants: seq<bool>, from: nat, mid: nat, to: nat)
    requires from <= mid <= to && AllGranted(grants, from, mid)
    ensures AllGranted(grants, mid, to) ==> AllGranted(grants, from, to)
    ensures Stopped(grants, mid, to) ==> Stopped(grants, from, to)
  {
  }

  class Inode {
    const memory: Memory
    var pages: Pages
    var size: nat

    ghost predicate Valid()
      reads this
    {
      PagesOk(pages) && size <= |pages| * PAGE_SIZE && size < LIMIT
    }

    ghost function Bytes(): seq<Byte>
      reads this
    {
      Content(pages, size)
    }

    ghost predicate Tidy()
      reads this
    {
      Clean(pages, size)
    }

    constructor (memory: Memory)
      ensures Valid() && Tidy() && Bytes() == [] && pages == [] && this.memory == memory
    {
      this.memory := memory;
      pages, size := [], 0;
    }

    /** A longer array with the old entries copied to its front, if there is memory for it. */
    method Grow(capacity: nat) returns (ok: bool)
      requires capacity >= |pages|
      modifies this`pages, memory
      ensures ok == Granted(memory.grants, old(memory.asked)) && memory.asked == old(memory.asked) + 1
      ensures pages == if ok then old(pages) + Nones(capacity - |old(pages)|) else old(pages)
    {
      ok := memory.Request();
      if !ok {
        return;
      }
      var copy := Nones(capacity);
      for i := 0 to |pages|
        invariant |copy| == capacity
        invariant forall q :: 0 <= q < capacity ==> copy[q] == if q < i then pages[q] else None
      {
        copy := copy[i := pages[i]];
      }
      assert copy == pages + Nones(capacity - |pages|);
      pages := copy;
    }

    /**
      Sets the size. A longer file asks for memory at most once; a shorter one loses exactly the cleared
      bytes, which are all the bytes cut off unless the old page count wrapped.
     */
    method Truncate(n: nat) returns (ok: bool)
      requires Valid() && n < LIMIT
      modifies this, memory
      ensures PagesOk(pages) && |pages| >= |old(pages)|
      ensures n > old(size) && PageCount(n) <= |old(pages)| ==> pages == old(pages)
      ensures n <= old(size) ==> |pages| == |old(pages)|
      ensures ok && n > old(size) && PageCount(n) > |old(pages)| ==> Enlarged(|old(pages)|, PageCount(n), |pages|)
      ensures memory.asked == old(memory.asked) + if n > old(size) && PageCount(n) > |old(pages)| then 1 else 0
      ensures ok == AllGranted(memory.grants, old(memory.asked), memory.asked)
      ensures !ok ==> pages == old(pages) && size == old(size)
      ensures ok ==> size == n && (Valid() <==> n <= old(size) || n <= MAX_SIZE || n <= |old(pages)| * PAGE_SIZE)
      ensures ok ==> forall x: nat {:trigger At(pages, x)} ::
                At(pages, x) == if Cleared(old(size), n, x) then 0 else At(old(pages), x)
      ensures ok && old(Tidy()) ==> Bytes() == FlatTruncate(old(Bytes()), n)
      ensures ok && old(Tidy()) ==>
                (Tidy() <==>
                    n >= old(size) || old(size) <= MAX_SIZE || Blank(old(Bytes()), Max(n, PageCount(n) * PAGE_SIZE)))
    {
      if n == size {
        return true;
      }
      var oldCount, newCount := PageCount(size), PageCount(n);
      if n < size {
        Shrink(n, oldCount, newCount);
        if old(Tidy()) { ShrinkIsFlat(old(pages), pages, size, n); }
      } else {
        ok := Expand(n, newCount);
        if !ok {
          return;
        }
        if old(Tidy()) { ExpandIsFlat(old(pages), pages, size, n); }
      }
      size := n;
      ok := true;
    }

    /** Makes room for more pages; no page is allocated yet. */
    method Expand(n: nat, newCount: nat) returns (ok: bool)
      requires Valid() && size < n
      modifies this`pages, memory
      ensures PagesOk(pages) && |pages| >= |old(pages)|
      ensures memory.asked == old(memory.asked) + if newCount > |old(pages)| then 1 else 0
      ensures ok == AllGranted(memory.grants, old(memory.asked), memory.asked)
      ensures if ok then |pages| >= newCount && (newCount <= |old(pages)| ==> pages == old(pages))
              else pages == old(pages)
      ensures ok && newCount > |old(pages)| ==> Enlarged(|old(pages)|, newCount, |pages|)
      ensures forall x: nat {:trigger At(pages, x)} :: At(pages, x) == At(old(pages), x)
    {
      ok := true;
      if newCount > |pages| {
        var capacity := Doubled(if |pages| > 0 then |pages| * 2 else 4, newCount);
        ok := Grow(capacity);
        forall x: nat ensures At(pages, x) == At(old(pages), x) { GrowAt(old(pages), capacity - |old(pages)|, x); }
      }
    }

    /** Makes sure there is a page at index `q`, growing the array once if need be. */
    method EnsurePage(q: nat) returns (ok: bool)
      requires PagesOk(pages) && InReach(pages, q)
      modifies this`pages, memory
      ensures PagesOk(pages) && |pages| >= |old(pages)| && InReach(pages, q)
      ensures ok == AllGranted(memory.grants, old(memory.asked), old(memory.asked) + Need(old(pages), q))
      ensures if ok then memory.asked == old(memory.asked) + Need(old(pages), q) && pages == Ensured(old(pages), q)
              else Stopped(memory.grants, old(memory.asked), memory.asked)
      ensures ok ==> q < |pages| && pages[q].Some?
      ensures forall x: nat {:trigger At(pages, x)} :: At(pages, x) == At(old(pages), x)
    {
      ghost var grown := pages + Nones(Capacity(pages, q) - |pages|);
      forall x: nat ensures At(grown, x) == At(pages, x) { GrowAt(pages, |grown| - |pages|, x); }
      if q >= |pages| {
        ok := Grow(if |pages| > 0 then |pages| * 2 else 4);
        if !ok {
          return;
        }
      }
      assert pages == grown;
      ok := FillPage(q);
    }

    /** A fresh page at index `q`, if there is none. */
    method FillPage(q: nat) returns (ok: bool)
      requires PagesOk(pages) && q < |pages|
      modifies this`pages, memory
      ensures PagesOk(pages)
      ensures memory.asked == old(memory.asked) + if old(pages)[q].None? then 1 else 0
      ensures ok == AllGranted(memory.grants, old(memory.asked), memory.asked)
      ensures pages == if ok && old(pages)[q].None? then old(pages)[q := Some(Zeros(PAGE_SIZE))] else old(pages)
      ensures forall x: nat {:trigger At(pages, x)} :: At(pages, x) == At(old(pages), x)
    {
      ok := true;
      if pages[q].None? {
        ok := memory.Request();
        if !ok {
          return;
        }
        pages := pages[q := Some(Zeros(PAGE_SIZE))];
        forall x: nat ensures At(pages, x) == At(old(pages), x) { FreshAt(old(pages), q, x); }
      }
    }

    /** Copies what page `q` takes of `buf` from index `t` on; it goes to offset `o` of the page. */
    method WritePage(q: nat, o: nat, buf: seq<Byte>, t: nat, ghost was: Pages, ghost cursor: nat) returns (w: nat)
      requires PagesOk(pages) && t < |buf| && Wrote(was, pages, cursor, buf, t, q, o)
      modifies this`pages, memory
      ensures PagesOk(pages) && |pages| >= |old(pages)|
      ensures if w == 0 then Wrote(was, pages, cursor, buf, t, q, o)
              else Wrote(was, pages, cursor, buf, t + w, q + 1, 0)
      ensures memory.asked >= old(memory.asked)
      ensures if w == 0 then Stopped(memory.grants, old(memory.asked), memory.asked)
              else AllGranted(memory.grants, old(memory.asked), memory.asked)
      ensures Reached(old(pages), memory.grants, old(memory.asked), q, o, |buf| - t)
           == if w == 0 then 0 else w + Reached(pages, memory.grants, memory.asked, q + 1, 0, |buf| - t - w)
    {
      ghost var mid := pages;
      var ok := EnsurePage(q);
      SameWrote(was, mid, pages, cursor, buf, t, q, o);
      if !ok {
        return 0;
      }
      w := CopyIn(q, o, buf, t, was, cursor);
      ReachedStep(mid, pages, memory.grants, old(memory.asked), q, o, |buf| - t);
    }

    /** The copy itself, to a page that is there. */
    method CopyIn(q: nat, o: nat, buf: seq<Byte>, t: nat, ghost was: Pages, ghost cursor: nat) returns (w: nat)
      requires PagesOk(pages) && t < |buf| && Wrote(was, pages, cursor, buf, t, q, o) && q < |pages| && pages[q].Some?
      modifies this`pages
      ensures PagesOk(pages) && SameShape(old(pages), pages) && w == Min(|buf| - t, PAGE_SIZE - o)
      ensures Wrote(was, pages, cursor, buf, t + w, q + 1, 0)
    {
      ghost var ready := pages;
      w := Min(|buf| - t, PAGE_SIZE - o);
      PutWritten(pages, q, o, buf[t..t + w]);
      pages := pages[q := Some(Put(pages[q].value, o, buf[t..t + w]))];
      WroteMore(was, ready, pages, cursor, buf, t, q, o, w);
    }

    /** Copies `buf` into the pages from offset `cursor` on, up to the first page there is no memory for. */
    method WriteAt(cursor: nat, buf: seq<Byte>) returns (t: nat)
      requires PagesOk(pages) && (|buf| > 0 ==> InReach(pages, cursor / PAGE_SIZE))
      modifies this`pages, memory
      ensures PagesOk(pages) && |pages| >= |old(pages)| && t <= |buf| && (t > 0 ==> cursor + t <= |pages| * PAGE_SIZE)
      ensures Written(old(pages), pages, cursor, buf[..t])
      ensures t == WriteStop(old(pages), memory.grants, old(memory.asked), cursor, |buf|)
      ensures if t == |buf| then AllGranted(memory.grants, old(memory.asked), memory.asked)
              else Stopped(memory.grants, old(memory.asked), memory.asked)
      ensures memory.asked >= old(memory.asked)
    {
      WroteNothing(pages, cursor, buf);
      t := WriteFrom(cursor, cursor / PAGE_SIZE, cursor % PAGE_SIZE, buf);
    }

    /** The writing loop, from offset `start` of page `first` on. */
    method WriteFrom(ghost cursor: nat, first: nat, start: nat, buf: seq<Byte>) returns (t: nat)
      requires PagesOk(pages) && Wrote(pages, pages, cursor, buf, 0, first, start)
      modifies this`pages, memory
      ensures PagesOk(pages) && |pages| >= |old(pages)| && t <= |buf| && (t > 0 ==> cursor + t <= |pages| * PAGE_SIZE)
      ensures Written(old(pages), pages, cursor, buf[..t]) && memory.asked >= old(memory.asked)
      ensures t == Reached(old(pages), memory.grants, old(memory.asked), first, start, |buf|)
      ensures if t == |buf| then AllGranted(memory.grants, old(memory.asked), memory.asked)
              else Stopped(memory.grants, old(memory.asked), memory.asked)
    {
      t := 0;
      var q, o := first, start;
      ghost var was, from, grants, all := pages, memory.asked, memory.grants,
        Reached(pages, memory.grants, memory.asked, first, start, |buf|);
      while t < |buf|
        invariant PagesOk(pages) && Wrote(was, pages, cursor, buf, t, q, o)
        invariant from <= memory.asked && AllGranted(grants, from, memory.asked)
        invariant all == t + Reached(pages, grants, memory.asked, q, o, |buf| - t)
      {
        ghost var before := memory.asked;
        var w := WritePage(q, o, buf, t, was, cursor);
        if w == 0 {
          assert Stopped(grants, from, memory.asked) by { GrantedOn(grants, from, before, memory.asked); }
          return;
        }
        assert AllGranted(grants, from, memory.asked) by { GrantedOn(grants, from, before, memory.asked); }
        t := t + w;
        q, o := q + 1, 0;
      }
    }

    method Shrink(n: nat, oldCount: nat, newCount: nat)
      requires Valid() && n < size && oldCount == PageCount(size) && newCount == PageCount(n)
      modifies this`pages
      ensures pages == Shrunk(old(pages), size, n) && PagesOk(pages)
      ensures forall x: nat {:trigger At(pages, x)} ::
                At(pages, x) == if Cleared(size, n, x) then 0 else At(old(pages), x)
    {
      assert oldCount <= |pages| && (newCount <= oldCount || oldCount == 0) && newCount <= |pages|;
      if newCount < oldCount {
        var i := newCount;
        while i < oldCount
          invariant newCount <= i <= oldCount && |pages| == |old(pages)|
          invariant forall q :: 0 <= q < |pages| ==> pages[q] == if newCount <= q < i then None else old(pages)[q]
        {
          pages := pages[i := None];
          i := i + 1;
        }
      }
      if n % PAGE_SIZE != 0 && newCount > 0 {
        var p := pages[newCount - 1];
        if p.Some? {
          pages := pages[newCount - 1 := Some(p.value[..n % PAGE_SIZE] + Zeros(PAGE_SIZE - n % PAGE_SIZE))];
        }
      }
      assert pages == Shrunk(old(pages), size, n);
      forall x: nat ensures At(pages, x) == if Cleared(size, n, x) then 0 else At(old(pages), x) {
        ShrunkAt(old(pages), size, n, x);
      }
    }
  }

  /** `c` is `from` doubled some number of times. */
  predicate IsDoubled(from: nat, c: nat)
  {
    c == from || (c > from && c % 2 == 0 && IsDoubled(from, c / 2))
  }

  /** The array has been doubled, from four if it was empty, until it had room for `need` pages and no further. */
  predicate Enlarged(was: nat, need: nat, now: nat)
  {
    var from := if was > 0 then was * 2 else 4;
    now >= need && IsDoubled(from, now) && (now == from || now < 2 * need)
  }

  /** Doubles a capacity until it is enough. */
  method Doubled(from: nat, need: nat) returns (capacity: nat)
    requires from > 0
    ensures capacity >= need && capacity >= from
    ensures IsDoubled(from, capacity) && (capacity == from || capacity < 2 * need)
  {
    capacity := from;
    while capacity < need
      invariant capacity >= from && IsDoubled(from, capacity) && (capacity == from || capacity < 2 * need)
      decreases need - capacity
    {
      capacity := capacity * 2;
    }
  }

  // ----- Open files

  /** The bytes of one page from offset `o`, zeros if there is no page. */
  function Piece(pages: Pages, p: nat, o: nat, w: nat): (r: seq<Byte>)
    requires p < |pages| && PagesOk(pages) && o + w <= PAGE_SIZE
    ensures |r| == w
  {
    if pages[p].Some? then pages[p].value[o..o + w] else Zeros(w)
  }

  lemma Join(c: seq<Byte>, i: nat, j: nat, k: nat)
    requires i <= j <= k <= |c|
    ensures c[i..j] + c[j..k] == c[i..k]
  {
  }

  /** A piece of one page is a slice of the file. */
  lemma ReadPiece(pages: Pages, size: nat, x: nat, w: nat, p: nat, o: nat)
    requires PagesOk(pages) && size <= |pages| * PAGE_SIZE && x + w <= size && w > 0 && p * PAGE_SIZE + o == x
             && o + w <= PAGE_SIZE
    ensures p < |pages| && Piece(pages, p, o, w) == Content(pages, size)[x..x + w]
  {
    var piece, slice := Piece(pages, p, o, w), Content(pages, size)[x..x + w];
    forall k | 0 <= k < w ensures piece[k] == slice[k] {
      PieceAt(pages, p, o, w, k);
    }
  }

  lemma PieceAt(pages: Pages, p: nat, o: nat, w: nat, k: nat)
    requires p < |pages| && PagesOk(pages) && o + w <= PAGE_SIZE && k < w
    ensures Piece(pages, p, o, w)[k] == At(pages, p * PAGE_SIZE + o + k)
  {
    Split(p * PAGE_SIZE + o + k, p, o + k);
  }

  lemma SizeAfter(size: nat, start: nat, n: nat)
    requires size < LIMIT
    ensures var pos := start + n;
            var size' := if pos > size then pos % LIMIT else size;
            size' < LIMIT && size' <= Max(size, start % LIMIT + n) && (size' == Max(size, pos) <==> pos < LIMIT)
  {
    assert (start + n) % LIMIT == (start % LIMIT + n) % LIMIT;
  }

  /** Size and bytes after a complete write. */
  lemma WriteDone(was: Pages, pages: Pages, size: nat, start: nat, buf: seq<Byte>)
    requires size < LIMIT && |buf| > 0 && start + |buf| < LIMIT && Clean(was, size)
             && Written(was, pages, start % LIMIT, buf)
    ensures var pos := start + |buf|;
            var size' := if pos > size then pos % LIMIT else size;
            Clean(pages, size') && Content(pages, size') == FlatWrite(Content(was, size), start, buf)
  {
    assert start % LIMIT == start && (start + |buf|) % LIMIT == start + |buf|;
    WriteIsFlat(was, pages, size, start, buf);
  }

  /** After a seek: the array has room for the position, or the page count wrapped and the array is as it was. */
  lemma SeekReaches(was: Pages, pages: Pages, size: nat, pos: nat)
    requires size <= |was| * PAGE_SIZE && |was| <= |pages| && pos < LIMIT
    requires pos <= size || pos <= MAX_SIZE ==> pos <= |pages| * PAGE_SIZE
    requires pos > size && pos > MAX_SIZE ==> pages == was
    ensures InReach(pages, pos / PAGE_SIZE) <==> pos <= MAX_SIZE || |was| >= HALF_PAGES
  {
  }

  /** An offset of 32 bits with sign cannot jump from a position in a shorter array to the last page. */
  lemma IntSeekReaches(offset: int, whence: Whence, pos: nat, size: nat, n: nat)
    requires pos <= n * PAGE_SIZE && size <= n * PAGE_SIZE
    ensures var target := Target(offset, whence, pos, size);
            offset < 0x8000_0000 && target >= 0 && target % LIMIT > MAX_SIZE ==> n >= HALF_PAGES
  {
    var target := Target(offset, whence, pos, size);
    if offset < 0x8000_0000 && target >= 0 && target % LIMIT > MAX_SIZE {
      assert target > MAX_SIZE;
    }
  }

  lemma ValidReaches(pages: Pages, pos: nat)
    requires pos <= |pages| * PAGE_SIZE
    ensures InReach(pages, pos % LIMIT / PAGE_SIZE)
  {
    assert pos % LIMIT <= pos;
  }

  /** A file that grows to size `n` needs a longer array. */
  predicate LacksRoom(pages: Pages, size: nat, n: nat)
  {
    n > size && PageCount(n) > |pages|
  }

  class File {
    const inode: Inode
    var pos: nat

    /** The position is never more than one page beyond the array. */
    ghost predicate Valid()
      reads this, inode
    {
      inode.Valid() && pos <= |inode.pages| * PAGE_SIZE
    }

    constructor (inode: Inode)
      requires inode.Valid()
      ensures Valid() && this.inode == inode && pos == 0
    {
      this.inode := inode;
      pos := 0;
    }

    /** A write at the position stays in the array. */
    predicate Reaches()
      reads this, inode
    {
      InReach(inode.pages, pos % LIMIT / PAGE_SIZE)
    }

    method Read(count: nat) returns (buf: seq<Byte>)
      requires Valid()
      modifies this
      ensures Valid() && buf == FlatRead(inode.Bytes(), old(pos), count) && pos == old(pos) + |buf|
    {
      if pos >= inode.size {
        return [];
      }
      var available := inode.size - pos;
      buf := ReadPages(pos / PAGE_SIZE, pos % PAGE_SIZE, if count > available then available else count);
      pos := pos + |buf|;
    }

    /** Copies out `count` bytes from page `p`, offset `o` on. */
    method ReadPages(p: nat, o: nat, count: nat) returns (buf: seq<Byte>)
      requires Valid() && p * PAGE_SIZE + o == pos && o < PAGE_SIZE && pos + count <= inode.size
      ensures buf == inode.Bytes()[pos..pos + count]
    {
      buf := [];
      ghost var c := inode.Bytes();
      var remaining: nat, q: nat, off: nat := count, p, o;
      while remaining > 0
        invariant |buf| + remaining == count && buf == c[pos..pos + |buf|]
        invariant off < PAGE_SIZE && (remaining > 0 ==> q * PAGE_SIZE + off == pos + |buf|)
      {
        ghost var x := pos + |buf|;
        var piece := ReadPage(q, off, remaining, x);
        Join(c, pos, x, x + |piece|);
        buf := buf + piece;
        remaining := remaining - |piece|;
        q, off := q + 1, 0;
      }
    }

    /** Copies out what one page holds of the file from offset `x` on. */
    method ReadPage(q: nat, off: nat, remaining: nat, ghost x: nat) returns (piece: seq<Byte>)
      requires Valid() && q * PAGE_SIZE + off == x && off < PAGE_SIZE && 0 < remaining && x + remaining <= inode.size
      ensures 0 < |piece| <= remaining && piece == inode.Bytes()[x..x + |piece|]
      ensures |piece| < remaining ==> (q + 1) * PAGE_SIZE == x + |piece|
    {
      var w: nat := if remaining < PAGE_SIZE - off then remaining else PAGE_SIZE - off;
      ReadPiece(inode.pages, inode.size, x, w, q, off);
      piece := Piece(inode.pages, q, off, w);
    }

    /**
      Writes `buf` at the position. `t` is how far it got: the first refused request stops it there and
      leaves position and size alone.
     */
    method Write(buf: seq<Byte>) returns (r: int, ghost t: nat)
      requires PagesOk(inode.pages) && inode.size < LIMIT && |buf| < LIMIT && (|buf| > 0 ==> Reaches())
      modifies this, inode, inode.memory
      ensures PagesOk(inode.pages) && inode.size < LIMIT && |inode.pages| >= |old(inode.pages)| && t <= |buf|
      ensures old(inode.Valid()) ==> inode.Valid()
      ensures old(Valid()) && old(pos) < LIMIT ==> Valid()
      ensures t == WriteStop(old(inode.pages), inode.memory.grants, old(inode.memory.asked), old(pos) % LIMIT, |buf|)
      ensures Written(old(inode.pages), inode.pages, old(pos) % LIMIT, buf[..t])
      ensures inode.memory.asked >= old(inode.memory.asked)
      ensures if t == |buf| then AllGranted(inode.memory.grants, old(inode.memory.asked), inode.memory.asked)
              else Stopped(inode.memory.grants, old(inode.memory.asked), inode.memory.asked)
      ensures t < |buf| ==> r == (if t > 0 then t else -ENOMEM) && pos == old(pos) && inode.size == old(inode.size)
      ensures t < |buf| && old(inode.Tidy()) ==> (inode.Tidy() <==> ZerosBeyond(inode.size, old(pos) % LIMIT, buf[..t]))
      ensures t == |buf| ==>
                && r == |buf| && pos == old(pos) + |buf|
                && (|buf| == 0 ==> inode.pages == old(inode.pages) && inode.size == old(inode.size))
                && (|buf| > 0 ==> (inode.size == Max(old(inode.size), pos) <==> pos < LIMIT))
      ensures t == |buf| > 0 && pos < LIMIT && old(inode.Tidy()) ==>
                inode.Tidy() && inode.Bytes() == FlatWrite(old(inode.Bytes()), old(pos), buf)
    {
      if |buf| == 0 {
        return 0, 0;
      }
      var cursor := pos % LIMIT;
      var done := inode.WriteAt(cursor, buf);
      t := done;
      if done < |buf| {
        if old(inode.Tidy()) { PartialWriteTidy(old(inode.pages), inode.pages, inode.size, cursor, buf[..t]); }
        return if done > 0 then done else -ENOMEM, done;
      }
      assert buf[..t] == buf;
      Advance(buf, old(inode.pages));
      r := |buf|;
    }

    /** After a complete write: the position moves on, the size follows in 32 bits. */
    method Advance(buf: seq<Byte>, ghost was: Pages)
      requires PagesOk(inode.pages) && inode.size < LIMIT && pos % LIMIT + |buf| <= |inode.pages| * PAGE_SIZE
               && |buf| > 0
      requires Written(was, inode.pages, pos % LIMIT, buf)
      modifies this`pos, inode`size
      ensures inode.size < LIMIT && pos == old(pos) + |buf|
      ensures old(inode.Valid()) ==> inode.Valid() && (old(pos) < LIMIT ==> Valid())
      ensures inode.size == Max(old(inode.size), pos) <==> pos < LIMIT
      ensures pos < LIMIT && Clean(was, old(inode.size)) ==>
                inode.Tidy() && inode.Bytes() == FlatWrite(Content(was, old(inode.size)), old(pos), buf)
    {
      SizeAfter(inode.size, pos, |buf|);
      if pos + |buf| < LIMIT && Clean(was, inode.size) { WriteDone(was, inode.pages, inode.size, pos, buf); }
      pos := pos + |buf|;
      if pos > inode.size {
        inode.size := pos % LIMIT;
      }
    }

    /** Beyond the size it extends the file first; the target is cut to 32 bits on the way. */
    method Lseek(offset: int, whence: Whence) returns (r: int)
      requires Valid()
      modifies this, inode, inode.memory
      ensures PagesOk(inode.pages) && |inode.pages| >= |old(inode.pages)|
      ensures var target := Target(offset, whence, old(pos), old(inode.size));
              r == if whence.OtherWhence? || target < 0 then -EINVAL
                   else if Refused(old(inode.memory.asked)) then -ENOMEM else target
      ensures var t := Target(offset, whence, old(pos), old(inode.size));
              inode.memory.asked == old(inode.memory.asked) +
                if t > old(inode.size) && LacksRoom(old(inode.pages), old(inode.size), t % LIMIT) then 1 else 0
      ensures Refused(old(inode.memory.asked)) ==> Target(offset, whence, old(pos), old(inode.size)) > old(inode.size)
      ensures Refused(old(inode.memory.asked))
              || AllGranted(inode.memory.grants, old(inode.memory.asked), inode.memory.asked)
      ensures r < 0 || r <= old(inode.size) ==> inode.pages == old(inode.pages) && inode.size == old(inode.size)
      ensures pos == if r < 0 then old(pos) else r % LIMIT
      ensures r > old(inode.size) ==> inode.size == pos && (pos <= MAX_SIZE ==> Valid())
      ensures r > old(inode.size) ==> (Reaches() <==> pos <= MAX_SIZE || |old(inode.pages)| >= HALF_PAGES)
      ensures r > old(inode.size) && offset < 0x8000_0000 ==> Reaches()
      ensures r > old(inode.size) && old(inode.Tidy()) ==>
                inode.Bytes() == FlatTruncate(old(inode.Bytes()), pos) && (pos >= old(inode.size) ==> inode.Tidy())
    {
      if whence.OtherWhence? {
        return -EINVAL;
      }
      var target := Target(offset, whence, pos, inode.size);
      if target < 0 {
        return -EINVAL;
      }
      IntSeekReaches(offset, whence, pos, inode.size, |inode.pages|);
      if target > inode.size {
        var ok := SeekBeyond(target);
        return if ok then target else -ENOMEM;
      }
      pos := target;
      r := target;
    }

    /** Extends the file to the target of a seek beyond its end, and moves there. */
    method SeekBeyond(target: nat) returns (ok: bool)
      requires Valid() && target > inode.size
      modifies this, inode, inode.memory
      ensures PagesOk(inode.pages) && |inode.pages| >= |old(inode.pages)|
      ensures inode.memory.asked == old(inode.memory.asked)
                + if LacksRoom(old(inode.pages), old(inode.size), target % LIMIT) then 1 else 0
      ensures if ok then AllGranted(inode.memory.grants, old(inode.memory.asked), inode.memory.asked)
              else Refused(old(inode.memory.asked)) && inode.pages == old(inode.pages) && inode.size == old(inode.size)
      ensures pos == if ok then target % LIMIT else old(pos)
      ensures ok ==> inode.size == pos && (pos <= MAX_SIZE ==> Valid())
      ensures ok ==> (Reaches() <==> pos <= MAX_SIZE || |old(inode.pages)| >= HALF_PAGES)
      ensures ok && old(inode.Tidy()) ==>
                inode.Bytes() == FlatTruncate(old(inode.Bytes()), pos) && (pos >= old(inode.size) ==> inode.Tidy())
    {
      ok := inode.Truncate(target % LIMIT);
      if ok {
        SeekReaches(old(inode.pages), inode.pages, old(inode.size), inode.size);
        pos := target % LIMIT;
      }
    }

    /** The requests since number `asked` ended with a refusal. */
    predicate Refused(asked: nat)
      reads inode.memory
    {
      Stopped(inode.memory.grants, asked, inode.memory.asked)
    }
  }

  function Max(a: nat, b: nat): nat
  {
    if a < b then b else a
  }

  // ----- Whole runs

  /** The flat machine: one byte string, one position for each open file. */
  datatype Flat = Flat(c: seq<Byte>, pos: seq<nat>)

  datatype Op =
    | ReadOp(h: nat, count: nat)
    | WriteOp(h: nat, buf: seq<Byte>)
    | SeekOp(h: nat, offset: int, whence: Whence)
    | TruncateOp(n: nat)

  datatype Answer = Data(b: seq<Byte>) | Number(n: int)

  /** The operation names an open file and keeps the size representable. */
  predicate InRange(s: Flat, op: Op)
  {
    match op
    case ReadOp(h, _) => h < |s.pos|
    case WriteOp(h, buf) => h < |s.pos| && s.pos[h] + |buf| <= MAX_SIZE
    case SeekOp(h, offset, whence) => h < |s.pos| && Target(offset, whence, s.pos[h], |s.c|) <= MAX_SIZE
    case TruncateOp(n) => n <= MAX_SIZE
  }

  /** An operation through one open file at position `p`. */
  function FlatFileStep(c: seq<Byte>, p: nat, op: Op): (seq<Byte>, nat, Answer)
    requires !op.TruncateOp?
  {
    match op
    case ReadOp(_, count) => var b := FlatRead(c, p, count); (c, p + |b|, Data(b))
    case WriteOp(_, buf) => if |buf| == 0 then (c, p, Number(0)) else (FlatWrite(c, p, buf), p + |buf|, Number(|buf|))
    case SeekOp(_, offset, whence) =>
      var target := Target(offset, whence, p, |c|);
      if whence.OtherWhence? || target < 0 then (c, p, Number(-EINVAL))
      else (if target > |c| then FlatTruncate(c, target) else c, target, Number(target))
  }

  // ----- What seeking means, by what can be read afterwards

  /** A seek by zero from the end goes to the size and leaves nothing to read. */
  lemma SeekToEnd(c: seq<Byte>, p: nat, h: nat, count: nat)
    ensures FlatFileStep(c, p, SeekOp(h, 0, SeekEnd)) == (c, |c|, Number(|c|))
    ensures FlatFileStep(c, |c|, ReadOp(h, count)) == (c, |c|, Data([]))
  {
  }

  /** A seek by -n from the end makes the last n bytes readable. */
  lemma SeekBeforeEnd(c: seq<Byte>, p: nat, h: nat, n: nat)
    requires n <= |c|
    ensures FlatFileStep(c, p, SeekOp(h, 0 - n as int, SeekEnd)) == (c, |c| - n, Number(|c| - n))
    ensures FlatFileStep(c, |c| - n, ReadOp(h, n)) == (c, |c|, Data(c[|c| - n..]))
  {
    assert c[|c|..] == [];
    assert n > 0 ==> FlatRead(c, |c| - n, n) == c[|c| - n..];
  }

  /** What was just read can be read again after a seek back by its length from the current position. */
  lemma SeekBack(c: seq<Byte>, p: nat, h: nat, count: nat, b: seq<Byte>, p': nat)
    requires FlatFileStep(c, p, ReadOp(h, count)) == (c, p', Data(b))
    ensures var (c1, p1, a) := FlatFileStep(c, p', SeekOp(h, -|b|, SeekCur));
            && p1 == p && a == Number(p) && (p <= |c| ==> c1 == c)
            && FlatFileStep(c1, p1, ReadOp(h, |b|)) == (c1, p', Data(b))
  {
    assert p < |c| ==> FlatRead(c, p, |b|) == b;
  }

  /**
    Two seeks from the current position move as far as one by the sum; they leave the same bytes exactly if the first
    does not extend the file further than the second would.
   */
  lemma SeeksAddUp(c: seq<Byte>, p: nat, h: nat, d: int, e: int)
    requires p + d >= 0 && p + d + e >= 0
    ensures var (c1, p1, _) := FlatFileStep(c, p, SeekOp(h, d, SeekCur));
            var (c2, p2, a2) := FlatFileStep(c1, p1, SeekOp(h, e, SeekCur));
            var (c3, p3, a3) := FlatFileStep(c, p, SeekOp(h, d + e, SeekCur));
            p2 == p3 == p + d + e && a2 == a3 && (c2 == c3 <==> p + d <= Max(|c|, p + d + e))
  {
    var (c1, p1, _) := FlatFileStep(c, p, SeekOp(h, d, SeekCur));
    var (c2, p2, _) := FlatFileStep(c1, p1, SeekOp(h, e, SeekCur));
    var (c3, p3, _) := FlatFileStep(c, p, SeekOp(h, d + e, SeekCur));
    if p + d > Max(|c|, p + d + e) {
      assert |c2| == p + d && |c3| == Max(|c|, p + d + e);
    }
  }

  /** A seek from the start goes to its offset, wherever the position was. */
  lemma SeekFromStart(c: seq<Byte>, p: nat, h: nat, n: nat)
    requires n <= |c|
    ensures FlatFileStep(c, p, SeekOp(h, n, SeekSet)) == (c, n, Number(n))
    ensures FlatFileStep(c, n, ReadOp(h, |c| - n)) == (c, |c|, Data(c[n..]))
  {
    assert c[|c|..] == [];
    assert n < |c| ==> FlatRead(c, n, |c| - n) == c[n..];
  }

  function FlatStep(s: Flat, op: Op): (Flat, Answer)
    requires InRange(s, op)
  {
    if op.TruncateOp? then (s.(c := FlatTruncate(s.c, op.n)), Number(0))
    else var (c, p, a) := FlatFileStep(s.c, s.pos[op.h], op); (Flat(c, s.pos[op.h := p]), a)
  }

  /** States and answers of a flat run. */
  ghost predicate FlatRun(states: seq<Flat>, ops: seq<Op>, answers: seq<Answer>)
  {
    && |states| == |ops| + 1 && |answers| == |ops|
    && forall k :: 0 <= k < |ops| ==>
         InRange(states[k], ops[k]) && FlatStep(states[k], ops[k]) == (states[k + 1], answers[k])
  }

  ghost predicate Open(inode: Inode, files: seq<File>)
    reads inode, files
  {
    && inode.Valid() && inode.Tidy() && inode.size <= MAX_SIZE
    && (forall h :: 0 <= h < |files| ==> files[h].inode == inode && files[h].Valid() && files[h].pos <= MAX_SIZE)
    && (forall h, h' :: 0 <= h < h' < |files| ==> files[h] != files[h'])
  }

  ghost function View(inode: Inode, files: seq<File>): Flat
    reads inode, files
  {
    Flat(inode.Bytes(), seq(|files|, h requires 0 <= h < |files| reads files => files[h].pos))
  }

  /** The operation may have to ask for memory: it writes something, or makes the file longer. */
  predicate MayAsk(c: seq<Byte>, p: nat, op: Op)
  {
    match op
    case ReadOp(_, _) => false
    case WriteOp(_, buf) => |buf| > 0
    case SeekOp(_, offset, whence) => Target(offset, whence, p, |c|) > |c|
    case TruncateOp(n) => n > |c|
  }

  /** An operation through one open file fails exactly when a request for memory is refused. */
  method FileStep(f: File, op: Op) returns (ok: bool, a: Answer)
    requires f.Valid() && f.inode.Tidy() && f.pos <= MAX_SIZE && f.inode.size <= MAX_SIZE && !op.TruncateOp?
    requires op.WriteOp? ==> f.pos + |op.buf| <= MAX_SIZE
    requires op.SeekOp? ==> Target(op.offset, op.whence, f.pos, f.inode.size) <= MAX_SIZE
    modifies f, f.inode, f.inode.memory
    ensures f.Valid() && |f.inode.pages| >= |old(f.inode.pages)| && f.inode.memory.asked >= old(f.inode.memory.asked)
    ensures ok ==> f.inode.Tidy() && f.pos <= MAX_SIZE && f.inode.size <= MAX_SIZE
    ensures ok ==> FlatFileStep(old(f.inode.Bytes()), old(f.pos), op) == (f.inode.Bytes(), f.pos, a)
    ensures ok <==> AllGranted(f.inode.memory.grants, old(f.inode.memory.asked), f.inode.memory.asked)
    ensures !ok ==> f.Refused(old(f.inode.memory.asked)) && MayAsk(old(f.inode.Bytes()), old(f.pos), op)
  {
    match op
    case ReadOp(_, count) =>
      var b := f.Read(count);
      return true, Data(b);
    case WriteOp(_, buf) =>
      ok := WriteStep(f, buf);
      return ok, Number(|buf|);
    case SeekOp(_, offset, whence) =>
      var r := SeekStep(f, offset, whence);
      return r != -ENOMEM, Number(r);
  }

  method WriteStep(f: File, buf: seq<Byte>) returns (ok: bool)
    requires f.Valid() && f.inode.Tidy() && f.pos + |buf| <= MAX_SIZE && f.inode.size <= MAX_SIZE
    modifies f, f.inode, f.inode.memory
    ensures f.Valid() && |f.inode.pages| >= |old(f.inode.pages)| && f.inode.memory.asked >= old(f.inode.memory.asked)
    ensures ok ==> f.inode.Tidy() && f.inode.size <= MAX_SIZE && f.pos == old(f.pos) + |buf|
    ensures ok ==>
              f.inode.Bytes() == if |buf| == 0 then old(f.inode.Bytes())
                                 else FlatWrite(old(f.inode.Bytes()), old(f.pos), buf)
    ensures ok <==> AllGranted(f.inode.memory.grants, old(f.inode.memory.asked), f.inode.memory.asked)
    ensures !ok ==> f.Refused(old(f.inode.memory.asked)) && |buf| > 0
  {
    ValidReaches(f.inode.pages, f.pos);
    var r, t := f.Write(buf);
    ok := r == |buf|;
  }

  method SeekStep(f: File, offset: int, whence: Whence) returns (r: int)
    requires f.Valid() && f.inode.Tidy() && f.pos <= MAX_SIZE && f.inode.size <= MAX_SIZE
             && Target(offset, whence, f.pos, f.inode.size) <= MAX_SIZE
    modifies f, f.inode, f.inode.memory
    ensures f.Valid() && f.inode.Tidy() && |f.inode.pages| >= |old(f.inode.pages)| && f.inode.size <= MAX_SIZE
            && f.pos <= MAX_SIZE && f.inode.memory.asked >= old(f.inode.memory.asked)
    ensures var target, c := Target(offset, whence, old(f.pos), old(f.inode.size)), old(f.inode.Bytes());
            if r == -ENOMEM then f.Refused(old(f.inode.memory.asked)) && target > |c|
            else if whence.OtherWhence? || target < 0 then r == -EINVAL && f.pos == old(f.pos) && f.inode.Bytes() == c
            else r == f.pos == target && f.inode.Bytes() == if target > |c| then FlatTruncate(c, target) else c
    ensures r != -ENOMEM ==> AllGranted(f.inode.memory.grants, old(f.inode.memory.asked), f.inode.memory.asked)
  {
    r := f.Lseek(offset, whence);
  }

  method Step(inode: Inode, files: seq<File>, op: Op) returns (ok: bool, a: Answer)
    requires Open(inode, files) && InRange(View(inode, files), op)
    modifies inode, files, inode.memory
    ensures inode.memory.asked >= old(inode.memory.asked)
    ensures ok ==> Open(inode, files) && FlatStep(old(View(inode, files)), op) == (View(inode, files), a)
    ensures ok <==> AllGranted(inode.memory.grants, old(inode.memory.asked), inode.memory.asked)
    ensures !ok ==>
              Stopped(inode.memory.grants, old(inode.memory.asked), inode.memory.asked)
                  && AsksIn(old(View(inode, files)), op)
  {
    ghost var s := View(inode, files);
    if op.TruncateOp? {
      ok := inode.Truncate(op.n);
      a := Number(0);
      assert View(inode, files).pos == s.pos;
    } else {
      ok, a := FileStep(files[op.h], op);
      assert View(inode, files).pos == s.pos[op.h := files[op.h].pos];
    }
  }

  predicate AsksIn(s: Flat, op: Op)
    requires InRange(s, op)
  {
    MayAsk(s.c, if op.TruncateOp? then 0 else s.pos[op.h], op)
  }

  /** Why a run ended: all operations done, one out of range, or one that was refused memory. */
  datatype Stop = Finished | OutOfRange | OutOfMemory

  ghost predicate StopsAt(stop: Stop, s: Flat, op: Op, grants: seq<bool>, asked: nat, asked': nat)
  {
    match stop
    case Finished => false
    case OutOfRange => !InRange(s, op) && AllGranted(grants, asked, asked')
    case OutOfMemory => InRange(s, op) && AsksIn(s, op) && Stopped(grants, asked, asked')
  }

  /**
    Any interleaving of reads, writes, seeks and truncations through any number of open files does what the
    flat machine does. It ends early only at an operation out of range or at the first refused request for
    memory, so with enough memory it answers every operation in range.
   */
  method Run(inode: Inode, files: seq<File>, ops: seq<Op>)
      returns (answers: seq<Answer>, stop: Stop, ghost states: seq<Flat>)
    requires Open(inode, files)
    modifies inode, files, inode.memory
    ensures |answers| <= |ops| && FlatRun(states, ops[..|answers|], answers) && states[0] == old(View(inode, files))
    ensures stop.Finished? <==> |answers| == |ops|
    ensures stop.Finished? ==> Open(inode, files) && states[|ops|] == View(inode, files)
    ensures |answers| < |ops| ==>
              StopsAt(stop, states[|answers|], ops[|answers|], inode.memory.grants, old(inode.memory.asked),
                  inode.memory.asked)
    ensures (forall n :: n >= old(inode.memory.asked) ==> Granted(inode.memory.grants, n)) ==> !stop.OutOfMemory?
  {
    answers, stop, states := [], Finished, [View(inode, files)];
    for k := 0 to |ops|
      invariant |answers| == k && FlatRun(states, ops[..k], answers) && states[0] == old(View(inode, files))
      invariant stop.Finished? && Open(inode, files) && states[k] == View(inode, files)
      invariant inode.memory.asked >= old(inode.memory.asked)
      invariant AllGranted(inode.memory.grants, old(inode.memory.asked), inode.memory.asked)
    {
      if !Runnable(inode, files, ops[k]) {
        stop := OutOfRange;
        return;
      }
      var ok, a := Step(inode, files, ops[k]);
      if !ok {
        stop := OutOfMemory;
        return;
      }
      RunStep(states, ops, answers, View(inode, files), a);
      answers, states := answers + [a], states + [View(inode, files)];
    }
  }

  lemma RunStep(states: seq<Flat>, ops: seq<Op>, answers: seq<Answer>, s: Flat, a: Answer)
    requires |answers| < |ops| && FlatRun(states, ops[..|answers|], answers)
    requires InRange(states[|answers|], ops[|answers|]) && FlatStep(states[|answers|], ops[|answers|]) == (s, a)
    ensures FlatRun(states + [s], ops[..|answers| + 1], answers + [a])
  {
    var n := |answers|;
    var states', answers' := states + [s], answers + [a];
    forall k | 0 <= k < n + 1 ensures InRange(states'[k], ops[k])
        && FlatStep(states'[k], ops[k]) == (states'[k + 1], answers'[k]) {
      assert k < n ==> ops[..n][k] == ops[k];
    }
  }

  // ----- A cut write that shows

  lemma CutAfterOnePage()
    ensures Reached([], [true, true, false], 0, 0, 0, 2 * PAGE_SIZE) == PAGE_SIZE
  {
    var grants, one := [true, true, false], Ensured([], 0);
    assert AllGranted(grants, 0, 2) && !Granted(grants, 2);
    assert Need(one, 1) == 1;
    assert Reached(one, grants, 2, 1, 0, PAGE_SIZE) == 0;
  }

  /**
    Two pages of ones into an empty file, with memory for the array and one page: the write reports one page,
    the size stays zero, and extending the file by a byte shows a one where the flat file has a zero.
   */
  method CutWriteShows() returns (r: int, b: seq<Byte>)
    ensures r == PAGE_SIZE && b == [1] && FlatTruncate([], 1) == [0]
  {
    var memory := new Memory([true, true, false]);
    var inode := new Inode(memory);
    var f := new File(inode);
    var buf := seq(2 * PAGE_SIZE, _ => 1 as Byte);
    CutAfterOnePage();
    ghost var t;
    r, t := f.Write(buf);
    assert At(inode.pages, 0) == buf[..t][0];
    assert |inode.pages| >= 1;
    var ok := inode.Truncate(1);
    b := f.Read(1);
  }

  /** From an empty file a seek to the last page leaves the array empty: one doubling gives four entries of 0x100000. */
  method SeekLeavesArrayBehind() returns (f: File)
    ensures f.pos == 0xFFFF_F001 && !f.Reaches()
  {
    var memory := new Memory([]);
    var inode := new Inode(memory);
    f := new File(inode);
    var r := f.Lseek(0xFFFF_F001, SeekSet);
  }

  /** The same test as `InRange`, on the files themselves. */
  predicate Runnable(inode: Inode, files: seq<File>, op: Op)
    requires Open(inode, files)
    reads inode, files
    ensures Runnable(inode, files, op) == InRange(View(inode, files), op)
  {
    match op
    case ReadOp(h, _) => h < |files|
    case WriteOp(h, buf) => h < |files| && files[h].pos + |buf| <= MAX_SIZE
    case SeekOp(h, offset, whence) => h < |files| && Target(offset, whence, files[h].pos, inode.size) <= MAX_SIZE
    case TruncateOp(n) => n <= MAX_SIZE
  }
}
