/**
  Leaf-level pictures of fork, rollback and teardown: what the walk over the tables has done so far.
 */
module Fork {
  import opened CowFlat
  import opened Tables
  import opened MmuSteps

  datatype MemFlags = MemFlags(read: bool, write: bool, user: bool, global: bool, device: bool, huge: bool, exec: bool,
      growsDown: bool)

  function MmuFlagsArch(f: MemFlags): PteFlags
  {
    PteFlags(f.write, f.user, f.device, f.device, false, false, f.huge, f.global)
  }

  /** Flags of a present entry. */
  function ArchMmuFlags(a: PteFlags): MemFlags
  {
    MemFlags(true, a.rw, a.us, a.global, a.pcd || a.pwt, a.psize, false, false)
  }

  /** What fork leaves in both entries: a user-writable leaf loses its write bit, any other is kept. */
  function Protect(p: Pte): (q: Pte)
    ensures q.frame == p.frame && !Writable(q) && (p.present ==> q.present)
    ensures q.flags.us <==> p.flags.us
    ensures !Writable(p) ==> q == p
  {
    var flags := ArchMmuFlags(p.flags);
    if flags.write && flags.user then Pte(true, p.frame, MmuFlagsArch(flags.(write := false))) else p
  }

  // ----- Fork, up to entry (i, j)

  predicate Before(k: Key, i: nat, j: nat)
  {
    k.i < i || (k.i == i && k.j < j)
  }

  function Twin(k: Key, r: nat): Key
  {
    Key(r, k.i, k.j)
  }

  /** Leaf `k` when context `r` has been cloned into `c` up to entry (i, j). */
  predicate CloneAt(was: Leaves, now: Leaves, r: nat, c: nat, i: nat, j: nat, k: Key)
  {
    if k.r == c then
      && (k in now <==> Twin(k, r) in was && Before(k, i, j))
      && (k in now ==> now[k] == Protect(was[Twin(k, r)]))
    else
      && (k in now <==> k in was)
      && (k in now ==> now[k] == if k.r == r && Before(k, i, j) then Protect(was[k]) else was[k])
  }

  ghost predicate Cloned(was: Leaves, now: Leaves, r: nat, c: nat, i: nat, j: nat)
  {
    forall k {:trigger CloneAt(was, now, r, c, i, j, k)} :: CloneAt(was, now, r, c, i, j, k)
  }

  lemma CloneStart(was: Leaves, r: nat, c: nat)
    requires forall k :: k in was ==> k.r != c
    ensures Cloned(was, was, r, c, 0, 0)
  {
  }

  lemma CloneStep(was: Leaves, now: Leaves, now': Leaves, r: nat, c: nat, i: nat, j: nat)
    requires Cloned(was, now, r, c, i, j) && r != c
    requires var src, dst := Key(r, i, j), Key(c, i, j);
             if src in was then now' == now[src := Protect(was[src])][dst := Protect(was[src])] else now' == now
    ensures Cloned(was, now', r, c, i, j + 1)
  {
    var j' := j + 1;
    forall k ensures CloneAt(was, now', r, c, i, j', k) {
      assert CloneAt(was, now, r, c, i, j, k);
    }
  }

  lemma CloneRow(was: Leaves, now: Leaves, r: nat, c: nat, i: nat, j: nat)
    requires Cloned(was, now, r, c, i, j) && r != c
    requires forall k :: k in was && k.r == r && k.i == i ==> k.j < j
    ensures Cloned(was, now, r, c, i + 1, 0)
  {
    var i' := i + 1;
    forall k ensures CloneAt(was, now, r, c, i', 0, k) {
      assert CloneAt(was, now, r, c, i, j, k);
      assert Twin(k, r) in was && k.i == i ==> Twin(k, r).j < j;
    }
  }

  /** Kernel entries hold no leaf. */
  lemma CloneSkip(was: Leaves, now: Leaves, r: nat, c: nat, i: nat)
    requires Cloned(was, now, r, c, i, 0) && r != c
    requires forall k :: k in was && k.r == r ==> k.i != i
    ensures Cloned(was, now, r, c, i + 1, 0)
  {
    CloneRow(was, now, r, c, i, 0);
  }

  // ----- Dropping part of a context

  /** Without the first `n` entries of slot `s`. */
  function Strip<T>(x: map<Key, T>, s: Slot, n: nat): map<Key, T>
  {
    map k | k in x && !(SlotOf(k) == s && k.j < n) :: x[k]
  }

  /** Without the first `n` directory entries of context `r`. */
  function StripRows<T>(x: map<Key, T>, r: nat, n: nat): map<Key, T>
  {
    map k | k in x && !(k.r == r && k.i < n) :: x[k]
  }

  lemma StripStep<T>(x: map<Key, T>, s: Slot, n: nat)
    ensures Strip(x, s, 0) == x
    ensures Strip(x, s, n + 1) == Strip(x, s, n) - {KeyOf(s, n)}
  {
  }

  lemma StripRow<T>(x: map<Key, T>, r: nat, i: nat, n: nat)
    requires forall k :: k in x ==> k.j < n
    ensures StripRows(x, r, 0) == x
    ensures StripRows(x, r, i + 1) == Strip(StripRows(x, r, i), Slot(r, i), n)
  {
  }

  /** Without the slots of the first `n` directory entries of context `r`. */
  function CutSlots(slot: Slots, r: nat, n: nat): Slots
  {
    map s | s in slot && !(s.r == r && s.i < n) :: slot[s]
  }

  lemma CutStep(slot: Slots, r: nat, n: nat)
    ensures CutSlots(slot, r, 0) == slot
    ensures CutSlots(slot, r, n + 1) == CutSlots(slot, r, n) - {Slot(r, n)}
  {
  }

  /** Cutting what was added. */
  lemma CutAdd(slot: Slots, c: nat, i: nat, t: nat)
    requires Slot(c, i) !in slot
    ensures CutSlots(slot[Slot(c, i) := t], c, i + 1) == CutSlots(slot, c, i)
    ensures CutSlots(slot, c, i + 1) == CutSlots(slot, c, i)
  {
  }

  /** What fork makes of directory entry `x`: the same kind of entry, shared in the kernel part. */
  predicate DirAt(src: seq<Pte>, dst: seq<Pte>, x: nat)
  {
    && x < |src| && x < |dst| && dst[x].present == src[x].present
    && (src[x].present ==> if KernelEntry(x) then dst[x] == src[x] else (dst[x].flags.us <==> src[x].flags.us))
  }

  ghost predicate DirCloned(src: seq<Pte>, dst: seq<Pte>, n: nat)
  {
    forall x {:trigger DirAt(src, dst, x)} :: 0 <= x < n ==> DirAt(src, dst, x)
  }

  // ----- The eager picture

  /** Fork by copying every page. */
  ghost function ForkOf(mem: map<Key, Page>, r: nat, c: nat): (mem': map<Key, Page>)
    ensures forall k: Key :: k.r != c ==> (k in mem' <==> k in mem) && (k in mem ==> mem'[k] == mem[k])
    ensures forall k: Key :: k.r == c ==>
              (k in mem' <==> Twin(k, r) in mem) && (k in mem' ==> mem'[k] == mem[Twin(k, r)])
  {
    var copies := set k | k in mem && k.r == r :: Twin(k, c);
    assert forall k: Key :: k.r == c && Twin(k, r) in mem ==> Twin(Twin(k, r), c) == k;
    map k | k in mem.Keys + copies && (k.r == c ==> Twin(k, r) in mem) && (k.r != c ==> k in mem) ::
        if k.r == c then mem[Twin(k, r)] else mem[k]
  }

  ghost function Without(mem: map<Key, Page>, r: nat): map<Key, Page>
  {
    map k | k in mem && k.r != r :: mem[k]
  }

  /** A complete clone reads as the eager copy. */
  lemma CloneMemory(was: Leaves, now: Leaves, r: nat, c: nat, bytes: map<nat, Page>, mem: map<Key, Page>,
          mem': map<Key, Page>)
    requires Cloned(was, now, r, c, ENTRIES, 0) && r != c && Shows(was, bytes, mem) && Shows(now, bytes, mem')
    requires forall k :: k in was ==> k.i < ENTRIES && k.r != c
    ensures mem' == ForkOf(mem, r, c)
  {
    var copy := ForkOf(mem, r, c);
    forall k: Key ensures (k in mem' <==> k in copy) && (k in mem' ==> mem'[k] == copy[k]) {
      assert CloneAt(was, now, r, c, ENTRIES, 0, k);
      var from := if k.r == c then Twin(k, r) else k;
      assert k in mem' ==> ShownAt(now, bytes, mem', k);
      assert from in mem ==> ShownAt(was, bytes, mem, from);
    }
  }

  /** Leaf `k` after a clone that failed at directory entry `n` was taken back. */
  predicate RolledAt(was: Leaves, now: Leaves, r: nat, n: nat, k: Key)
  {
    && (k in now <==> k in was)
    && (k in now ==> now[k] == if k.r == r && k.i < n then Protect(was[k]) else was[k])
  }

  ghost predicate RolledBack(was: Leaves, now: Leaves, r: nat, n: nat)
  {
    forall k {:trigger RolledAt(was, now, r, n, k)} :: RolledAt(was, now, r, n, k)
  }

  lemma RollBack(was: Leaves, now: Leaves, r: nat, c: nat, n: nat)
    requires Cloned(was, now, r, c, n, 0) && r != c
    requires forall k :: k in was ==> k.r != c
    ensures RolledBack(was, StripRows(now, c, n), r, n)
  {
    forall k ensures RolledAt(was, StripRows(now, c, n), r, n, k) {
      assert CloneAt(was, now, r, c, n, 0, k);
    }
  }

  lemma RollBackMemory(was: Leaves, now: Leaves, r: nat, c: nat, n: nat, bytes: map<nat, Page>, mem: map<Key, Page>,
          mem': map<Key, Page>)
    requires Cloned(was, now, r, c, n, 0) && r != c && Shows(was, bytes, mem) && Shows(now, bytes, mem')
    requires forall k :: k in was ==> k.r != c
    ensures StripRows(mem', c, n) == mem
  {
    var back := StripRows(mem', c, n);
    forall k: Key ensures (k in back <==> k in mem) && (k in back ==> back[k] == mem[k]) {
      assert CloneAt(was, now, r, c, n, 0, k);
      assert k in mem' ==> ShownAt(now, bytes, mem', k);
      assert k in mem ==> ShownAt(was, bytes, mem, k);
    }
  }

  // ----- The leaves fix the frames

  lemma SameRefs(a: Leaves, b: Leaves, r: nat, n: nat, f: nat)
    requires RolledBack(a, b, r, n)
    ensures Refs(a, f) == Refs(b, f)
  {
    forall k ensures Names(a, f, k) <==> Names(b, f, k) { assert RolledAt(a, b, r, n, k); }
  }

  lemma DataIsNamed(m: Machine, g: Shadow, f: nat)
    requires SysOk(m, g, {})
    ensures f in m.bytes <==> Refs(g.leaf, f) != {}
  {
    assert f in m.bytes ==> Named(g.leaf, f);
    if Refs(g.leaf, f) != {} {
      var k :| k in Refs(g.leaf, f);
      assert Names(g.leaf, f, k) && Counted(g.leaf, m.count, m.bytes, k);
    }
  }

  lemma SameDataKeys(m: Machine, g: Shadow, m': Machine, g': Shadow, r: nat, n: nat)
    requires SysOk(m, g, {}) && SysOk(m', g', {}) && RolledBack(g.leaf, g'.leaf, r, n)
    ensures m.bytes.Keys == m'.bytes.Keys
    ensures forall f :: f in m.bytes ==> f in m.count && f in m'.count && m.count[f] == m'.count[f]
  {
    forall f ensures f in m.bytes <==> f in m'.bytes {
      SameRefs(g.leaf, g'.leaf, r, n, f);
      DataIsNamed(m, g, f);
      DataIsNamed(m', g', f);
    }
    forall f | f in m.bytes ensures f in m.count && f in m'.count && m.count[f] == m'.count[f] {
      SameRefs(g.leaf, g'.leaf, r, n, f);
      assert Named(g.leaf, f);
      var k :| k in Refs(g.leaf, f);
      assert Names(g.leaf, f, k) && Counted(g.leaf, m.count, m.bytes, k);
      assert Names(g'.leaf, f, k) && Counted(g'.leaf, m'.count, m'.bytes, k);
    }
  }

  /** The same leaves, up to flags, with the same memory behind them, mean the same frames in the same use. */
  lemma SameFrames(m: Machine, g: Shadow, m': Machine, g': Shadow, r: nat, n: nat)
    requires SysOk(m, g, {}) && SysOk(m', g', {}) && RolledBack(g.leaf, g'.leaf, r, n)
    requires g.mem == g'.mem && m.roots == m'.roots
    requires g.slot == g'.slot && g.held == g'.held && g.all == g'.all
    ensures m'.free == m.free && m'.count == m.count && m'.bytes == m.bytes && m'.table.Keys == m.table.Keys
  {
    SameDataKeys(m, g, m', g', r, n);
    assert m.table.Keys == m'.table.Keys;
    forall f | f in m.bytes ensures m.bytes[f] == m'.bytes[f] {
      assert Named(g.leaf, f);
      var k :| k in Refs(g.leaf, f);
      SameRefs(g.leaf, g'.leaf, r, n, f);
      assert Names(g.leaf, f, k) && Names(g'.leaf, f, k);
      assert ShownAt(g.leaf, m.bytes, g.mem, k) && ShownAt(g'.leaf, m'.bytes, g'.mem, k);
    }
    assert m.count.Keys == m'.count.Keys;
    forall f | f in m.count ensures m.count[f] == m'.count[f] {
      if f !in m.bytes { assert One(m.count, f) && One(m'.count, f); }
    }
    assert m.free == m.free + m.count.Keys - m.count.Keys && m'.free == m'.free + m'.count.Keys - m'.count.Keys;
  }
}
