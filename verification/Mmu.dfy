/**
  The memory-management unit code: demand mapping, write faults, fork with copy-on-write, rollback of a
  failed fork, and teardown. Each operation is proved to change the memory that the contexts read exactly
  as an eager implementation, giving every context its own pages, would.
 */
module Mmu {
  import opened Common
  import opened CowFlat
  import opened Tables
  import opened MmuSteps
  import opened Fork

  const ZERO_PAGE: Page := seq(PAGE_SIZE, _ => 0)

  /** Taking a frame and giving it straight back changes nothing. */
  lemma TakeGive(m: Machine, f: nat)
    requires f in m.free && f !in m.count
    ensures Given(Taken(m, f), f) == m
  {
    assert m.free - {f} + {f} == m.free;
    assert m.count[f := 1] - {f} == m.count;
  }

  lemma FreeFrame(m: Machine, g: Shadow, open: set<Slot>, f: nat)
    requires SysOk(m, g, open) && f in m.free
    ensures f !in m.count && f !in g.held && f !in m.bytes && f !in m.table
  {
  }

  lemma LeafPresent(m: Machine, g: Shadow, open: set<Slot>, k: Key)
    requires SysOk(m, g, open) && k in g.leaf
    ensures SlotOf(k) in g.slot && k.i < USER_ENTRIES && k.j < ENTRIES && k.r in m.roots && g.leaf[k].present
  {
    assert Homed(g.slot, k);
    SlotTable(m.table, m.roots, g.slot, SlotOf(k));
    assert Tied(m.table, g.slot, g.leaf, SlotOf(k), k.j);
  }

  lemma LeafRange(m: Machine, g: Shadow, open: set<Slot>)
    requires SysOk(m, g, open)
    ensures forall k :: k in g.leaf ==> k.i < USER_ENTRIES && k.j < ENTRIES && k.r in m.roots
  {
    forall k | k in g.leaf ensures k.i < USER_ENTRIES && k.j < ENTRIES && k.r in m.roots {
      LeafPresent(m, g, open, k);
    }
  }

  lemma Overwrite<T>(x: map<Key, T>, k: Key, a: T, b: T)
    ensures x[k := a][k := b] == x[k := b]
  {
  }

  lemma PutBack(h: set<nat>, f: nat)
    ensures f !in h ==> h + {f} - {f} == h
    ensures f in h ==> h - {f} + {f} == h
  {
  }

  lemma SwapHeld(h: set<nat>, f: nat, x: nat)
    requires f !in h
    ensures h + {f} - {f} + {x} == h + {x}
  {
  }

  lemma NothingToStrip(m: Machine, g: Shadow, s: Slot)
    requires SysOk(m, g, {}) && s !in g.slot
    ensures Strip(g.leaf, s, ENTRIES) == g.leaf && Strip(g.mem, s, ENTRIES) == g.mem && g.slot - {s} == g.slot
  {
    forall k | k in g.leaf ensures SlotOf(k) != s { assert Homed(g.slot, k); }
    assert g.mem.Keys == g.leaf.Keys;
  }

  lemma EmptyRow(m: Machine, g: Shadow, r: nat, c: nat, i: nat, was: Leaves)
    requires SysOk(m, g, {}) && r in m.roots && i < ENTRIES && Full(m.table, r) && !m.table[r][i].present && r != c
    requires Cloned(was, g.leaf, r, c, i, 0) && forall k :: k in was ==> k.i < USER_ENTRIES && k.r != c
    ensures Cloned(was, g.leaf, r, c, i + 1, 0)
  {
    forall k | k in was && k.r == r ensures k.i != i {
      assert CloneAt(was, g.leaf, r, c, i, 0, k);
      assert Homed(g.slot, k);
      if i < USER_ENTRIES { assert Linked(m.table, g.slot, r, i); }
    }
    CloneSkip(was, g.leaf, r, c, i);
  }

  lemma DirStep(src: seq<Pte>, dst: seq<Pte>, dst': seq<Pte>, i: nat)
    requires DirCloned(src, dst, i) && |dst| == |dst'| == ENTRIES && i < ENTRIES && dst' == dst[i := dst'[i]]
             && DirAt(src, dst', i)
    ensures DirCloned(src, dst', i + 1)
  {
    forall x | 0 <= x < i + 1 ensures DirAt(src, dst', x) {
      if x < i { assert DirAt(src, dst, x); }
    }
  }

  /**
    What the reference counts count: a data frame has one reference for each leaf that names it, and is not free while
    it has any. A writable leaf is the only one.
   */
  lemma CountLaw(m: Machine, g: Shadow, f: nat)
    requires SysOk(m, g, {}) && f in m.bytes
    ensures f in m.count && m.count[f] == |Refs(g.leaf, f)| && m.count[f] > 0 && f !in m.free
    ensures forall k :: Names(g.leaf, f, k) && Writable(g.leaf[k]) ==> m.count[f] == 1
  {
    DataIsNamed(m, g, f);
    var k :| k in Refs(g.leaf, f);
    assert Names(g.leaf, f, k) && Counted(g.leaf, m.count, m.bytes, k);
    NotEmpty(g.leaf, f);
    forall k | Names(g.leaf, f, k) && Writable(g.leaf[k]) ensures m.count[f] == 1 {
      assert Exclusive(g.leaf, k);
    }
  }

  lemma SlotsLive(m: Machine, g: Shadow)
    requires SysOk(m, g, {})
    ensures forall s :: s in g.slot ==> s.r in m.roots
  {
    forall s | s in g.slot ensures s.r in m.roots { assert SlotOk(m.roots, g.slot, s); }
  }

  /** When only the kernel's directory is left, every frame is free again but for it and the leaked ones. */
  lemma AllGone(m: Machine, g: Shadow, kernel: nat)
    requires SysOk(m, g, {}) && m.roots == {kernel} && forall s :: s in g.slot ==> s.r != kernel
    ensures m.free == g.all - {kernel} - g.held && g.mem == map[]
  {
    SlotsLive(m, g);
    assert g.slot == map[];
    forall k | k in g.leaf ensures SlotOf(k) in g.slot { LeafPresent(m, g, {}, k); }
    assert g.leaf == map[];
    forall f | f in m.bytes ensures Refs(g.leaf, f) != {} { DataIsNamed(m, g, f); }
    assert m.bytes == map[];
    assert m.table.Keys == {kernel} + g.slot.Values == {kernel};
    assert g.mem.Keys == {};
  }

  /** The directories of `roots` are the same in both. */
  predicate SameDirs(a: Tabs, b: Tabs, roots: set<nat>)
  {
    forall q :: q in roots ==> q in a && q in b && a[q] == b[q]
  }

  /** Context `r` of (m0, g0) has been cloned into the new context `c` up to directory entry `i`. */
  ghost predicate Cloning(m0: Machine, g0: Shadow, m: Machine, g: Shadow, r: nat, c: nat, i: nat)
  {
    && SysOk(m, g, {}) && m.roots == m0.roots + {c} && c !in m0.roots && r in m0.roots && m.bytes == m0.bytes
    && SameDirs(m0.table, m.table, m0.roots) && Full(m.table, c) && Full(m.table, r)
    && Cloned(g0.leaf, g.leaf, r, c, i, 0) && CutSlots(g.slot, c, i) == g0.slot
    && g == g0.(slot := g.slot, leaf := g.leaf, mem := g.mem)
    && DirCloned(m.table[r], m.table[c], i) && Blank(m.table[c], i)
  }

  predicate Blank(dir: seq<Pte>, i: nat)
  {
    forall y :: i <= y < |dir| ==> dir[y] == ABSENT
  }

  /**
    A complete fork: the new context reads what an eager copy would, every leaf of both has lost its write
    permission, the kernel part is shared, and no frame is held, leaked or written.
   */
  ghost predicate ForkDone(m0: Machine, g0: Shadow, m: Machine, g: Shadow, r: nat, c: nat)
  {
    && c in m0.free && m.roots == m0.roots + {c} && m.bytes == m0.bytes && SameDirs(m0.table, m.table, m0.roots)
    && g == g0.(slot := g.slot, leaf := g.leaf, mem := ForkOf(g0.mem, r, c))
    && Cloned(g0.leaf, g.leaf, r, c, ENTRIES, 0)
    && r in m.table && c in m.table && DirCloned(m.table[r], m.table[c], ENTRIES)
  }

  /**
    A failed fork: frames, counts, pages, directories and memory are as before; all that is left is write
    permissions lost in the first `n` directory entries of `r`.
   */
  ghost predicate ForkFailed(m0: Machine, g0: Shadow, m: Machine, g: Shadow, r: nat, n: nat)
  {
    && m == m0.(table := m.table) && m.table.Keys == m0.table.Keys && SameDirs(m0.table, m.table, m0.roots)
    && g == g0.(leaf := g.leaf) && RolledBack(g0.leaf, g.leaf, r, n)
  }

  lemma CloneFinished(m0: Machine, g0: Shadow, m: Machine, g: Shadow, r: nat, c: nat)
    requires SysOk(m0, g0, {}) && Cloning(m0, g0, m, g, r, c, ENTRIES) && c in m0.free
    ensures ForkDone(m0, g0, m, g, r, c) && SysOk(m, g, {})
  {
    LeafRange(m0, g0, {});
    CloneMemory(g0.leaf, g.leaf, r, c, m.bytes, g0.mem, g.mem);
  }

  /** The slots of context `r` in its first `n` directory entries. */
  function Rows(slot: Slots, r: nat, n: nat): set<Slot>
  {
    set s | s in slot && s.r == r && s.i < n
  }

  lemma RowsGrow(slot: Slots, r: nat, n: nat)
    requires Slot(r, n) in slot && n < ENTRIES
    ensures |Rows(slot, r, n)| + 1 <= |Rows(slot, r, ENTRIES)|
  {
    SizeUpTo(Rows(slot, r, n) + {Slot(r, n)}, Rows(slot, r, ENTRIES));
  }

  lemma {:induction false} SizeUpTo<T>(a: set<T>, b: set<T>)
    requires a <= b
    ensures |a| <= |b|
  {
    if x :| x in a { SizeUpTo(a - {x}, b - {x}); }
  }

  lemma {:induction false} ImageSize(ss: set<Slot>, image: map<Slot, nat>)
    requires ss <= image.Keys
    ensures |set s | s in ss :: image[s]| <= |ss|
  {
    var all := set s | s in ss :: image[s];
    if y :| y in all {
      var s :| s in ss && image[s] == y;
      var rest := ss - {s};
      ImageSize(rest, image);
      assert all == (set x | x in rest :: image[x]) + {image[s]};
    }
  }

  /** The table of the clone that goes with each slot of the source. */
  function TwinTables(slot: Slots, c: nat, rows: set<Slot>): map<Slot, nat>
  {
    map s | s in rows :: if Slot(c, s.i) in slot then slot[Slot(c, s.i)] else 0
  }

  /** A clone has used one frame for the directory and one for each table cloned so far. */
  lemma CloneFrames(m0: Machine, g0: Shadow, m: Machine, g: Shadow, r: nat, c: nat, i: nat) returns (spent: set<nat>)
    requires SysOk(m0, g0, {}) && Cloning(m0, g0, m, g, r, c, i) && i <= ENTRIES
    ensures m0.free <= m.free + spent && |spent| <= 1 + |Rows(g0.slot, r, i)|
  {
    var rows := Rows(g0.slot, r, i);
    var twins := TwinTables(g.slot, c, rows);
    var tables := set s | s in rows :: twins[s];
    spent := {c} + tables;
    forall f | f in m0.free ensures f in m.free + spent { CloneFrame(m0, g0, m, g, r, c, i, f); }
    ImageSize(rows, twins);
  }

  lemma CloneFrame(m0: Machine, g0: Shadow, m: Machine, g: Shadow, r: nat, c: nat, i: nat, f: nat)
    requires SysOk(m0, g0, {}) && Cloning(m0, g0, m, g, r, c, i) && f in m0.free
    ensures f in m.free || f == c || exists s ::
              s in Rows(g0.slot, r, i) && Slot(c, s.i) in g.slot && g.slot[Slot(c, s.i)] == f
  {
    FreeFrame(m0, g0, {}, f);
    if f !in m.free && f != c {
      assert f in m.table.Keys && f !in m0.roots;
      var s :| s in g.slot && g.slot[s] == f;
      SlotTable(m.table, m.roots, g.slot, s);
      if s !in CutSlots(g.slot, c, i) {
        TwinSlot(m0, g0, m, g, r, c, i, s.i);
        assert Slot(r, s.i) in Rows(g0.slot, r, i);
      } else {
        SlotTable(m0.table, m0.roots, g0.slot, s);
      }
    }
  }

  /** The clone has a table exactly where the source has one. */
  lemma TwinSlot(m0: Machine, g0: Shadow, m: Machine, g: Shadow, r: nat, c: nat, i: nat, x: nat)
    requires SysOk(m0, g0, {}) && Cloning(m0, g0, m, g, r, c, i) && x < i && x < USER_ENTRIES
    ensures Slot(c, x) in g.slot <==> Slot(r, x) in g0.slot
  {
    assert DirAt(m.table[r], m.table[c], x);
    assert Linked(m.table, g.slot, c, x) && Linked(m.table, g.slot, r, x);
    assert Slot(r, x) in g.slot <==> Slot(r, x) in CutSlots(g.slot, c, i);
  }

  lemma NothingCloned(m: Machine, g: Shadow, r: nat)
    requires SysOk(m, g, {})
    ensures ForkFailed(m, g, m, g, r, 0)
  {
  }

  /** Dropping the rows cloned so far leaves the memory of before. */
  lemma RollBackPlan(m0: Machine, g0: Shadow, m: Machine, g: Shadow, r: nat, c: nat, n: nat)
    requires SysOk(m0, g0, {}) && Cloning(m0, g0, m, g, r, c, n)
    ensures RolledBack(g0.leaf, StripRows(g.leaf, c, n), r, n) && StripRows(g.mem, c, n) == g0.mem
  {
    LeafRange(m0, g0, {});
    RollBack(g0.leaf, g.leaf, r, c, n);
    RollBackMemory(g0.leaf, g.leaf, r, c, n, m.bytes, g0.mem, g.mem);
  }

  /** From directory entry `i` to the next. */
  lemma CloningStep(m0: Machine, g0: Shadow, m: Machine, g: Shadow, m': Machine, g': Shadow, r: nat, c: nat, i: nat)
    requires Cloning(m0, g0, m, g, r, c, i) && i < ENTRIES
    requires SysOk(m', g', {}) && m'.roots == m.roots && m'.bytes == m.bytes
             && SameDirs(m.table, m'.table, m.roots - {c})
    requires Cloned(g0.leaf, g'.leaf, r, c, i + 1, 0) && CutSlots(g'.slot, c, i + 1) == CutSlots(g.slot, c, i)
    requires g' == g.(slot := g'.slot, leaf := g'.leaf, mem := g'.mem)
    requires Full(m'.table, c) && Full(m'.table, r) && m'.table[c] == m.table[c][i := m'.table[c][i]]
             && DirAt(m'.table[r], m'.table[c], i)
    ensures Cloning(m0, g0, m', g', r, c, i + 1)
  {
    assert m'.table[r] == m.table[r];
    DirStep(m.table[r], m.table[c], m'.table[c], i);
  }

  lemma NextSlotFree(m0: Machine, g0: Shadow, m: Machine, g: Shadow, r: nat, c: nat, i: nat)
    requires SysOk(m0, g0, {}) && Cloning(m0, g0, m, g, r, c, i)
    ensures Slot(c, i) !in g.slot
  {
    assert Slot(c, i) in g.slot ==> Slot(c, i) in CutSlots(g.slot, c, i) && SlotOk(m0.roots, g0.slot, Slot(c, i));
  }

  /** Directory entry `i` of `r` lets user mode through. */
  predicate UserDir(table: Tabs, r: nat, i: nat)
  {
    r in table && i < |table[r]| && table[r][i].present && table[r][i].flags.us
  }

  /** All directories of `roots` agree, but for entry `i` of `r`. */
  predicate DirsBut(a: Tabs, b: Tabs, roots: set<nat>, r: nat, i: nat)
  {
    SameDirs(a, b, roots - {r}) && r in a && r in b && i < |a[r]| == |b[r]| && b[r] == a[r][i := b[r][i]]
  }

  /**
    Nothing happened to directories and slots, or directory entry `i` of `r` got a table, with the user bit asked for.
   */
  predicate Prepared(m0: Machine, g0: Shadow, m: Machine, g: Shadow, r: nat, i: nat, user: bool)
  {
    var s := Slot(r, i);
    && m.roots == m0.roots && DirsBut(m0.table, m.table, m0.roots, r, i)
    && if s in g0.slot || s !in g.slot then g.slot == g0.slot && m.table[r] == m0.table[r]
       else g.slot == g0.slot[s := g.slot[s]] && (UserDir(m.table, r, i) <==> user)
  }

  lemma PreparedSame(m: Machine, g: Shadow, r: nat, i: nat, user: bool)
    requires SysOk(m, g, {}) && r in m.roots && i < USER_ENTRIES
    ensures Prepared(m, g, m, g, r, i, user)
  {
    assert m.roots <= m.table.Keys && Full(m.table, r);
  }

  lemma Linking(m0: Machine, g0: Shadow, m: Machine, g: Shadow, r: nat, i: nat, x: nat, user: bool)
    requires SysOk(m0, g0, {}) && r in m0.roots && i < USER_ENTRIES && Slot(r, i) !in g0.slot && x in m0.free
    requires r in m0.table && i < |m0.table[r]| && m.table == Put(m0.table[x := ZERO_TABLE], r, i, MkTable(x, user))
    requires m.roots == m0.roots && g.slot == g0.slot[Slot(r, i) := x]
    ensures Prepared(m0, g0, m, g, r, i, user)
  {
    FreeFrame(m0, g0, {}, x);
    assert m0.roots <= m0.table.Keys;
  }

  lemma PreparedThen(m0: Machine, g0: Shadow, m: Machine, g: Shadow, m': Machine, g': Shadow, r: nat, i: nat,
          user: bool)
    requires Prepared(m0, g0, m, g, r, i, user) && m'.roots == m.roots && SameDirs(m.table, m'.table, m.roots)
             && r in m.roots
    requires g'.slot == g.slot
    ensures Prepared(m0, g0, m', g', r, i, user)
  {
  }

  /** The table that directory entry `i` of `r` got, if any. */
  function NewTables(g0: Shadow, g: Shadow, r: nat, i: nat): set<nat>
  {
    if Slot(r, i) in g0.slot || Slot(r, i) !in g.slot then {} else {g.slot[Slot(r, i)]}
  }

  lemma AfterTake(m0: Machine, g0: Shadow, f: nat, m1: Machine, g1: Shadow, m: Machine, g: Shadow, r: nat, i: nat,
          user: bool)
    requires m1 == Taken(m0, f) && g1 == g0.(held := g0.held + {f}) && Prepared(m1, g1, m, g, r, i, user)
    ensures Prepared(m0, g0, m, g, r, i, user) && NewTables(g1, g, r, i) == NewTables(g0, g, r, i)
  {
  }

  /** One page was taken, and nothing else has happened. */
  ghost predicate TookOne(m0: Machine, g0: Shadow, m: Machine, g: Shadow, f: nat)
  {
    SysOk(m0, g0, {}) && f in m0.free && f !in g0.held && m == Taken(m0, f) && g == g0.(held := g0.held + {f})
  }

  lemma Denials(grants: seq<bool>, from: nat, mid: nat, to: nat)
    requires from <= mid <= to
    ensures !AllGranted(grants, from, mid) || !AllGranted(grants, mid, to) ==> !AllGranted(grants, from, to)
  {
  }

  lemma Retake(free0: set<nat>, f: nat, free: set<nat>, extra: set<nat>)
    requires free0 - {f} <= free + extra
    ensures free0 <= free + extra + {f} && (f in free ==> free0 <= free + extra)
  {
  }

  datatype Region = Region(start: nat, end: nat, flags: MemFlags, hasFile: bool)

  datatype Outcome = Handled | Segfault | Killed

  /** The region allows the access that faulted. */
  predicate Allows(region: Region, write: bool, exec: bool)
  {
    (if write then region.flags.write else region.flags.read) && (exec ==> region.flags.exec)
  }

  /** At most two frames are free. */
  ghost predicate FewFrames(free: set<nat>)
  {
    exists x, y :: free <= {x, y}
  }

  function Address(i: nat, j: nat): nat
  {
    (i * ENTRIES + j) * PAGE_SIZE
  }

  /**
    A fault that the handler means to serve, memory permitting: a write to a page that is there, or a page it can fill.
   */
  predicate Serves(region: Option<Region>, file: Option<Page>, present: bool, write: bool, exec: bool, addr: nat)
  {
    && region.Some? && Allows(region.value, write, exec)
    && if present then write && region.value.start <= addr < region.value.end
       else CanFill(region.value, file)
  }

  /** There is something to fill an absent page of the region with. */
  predicate CanFill(region: Region, file: Option<Page>)
  {
    region.flags.growsDown || (region.hasFile && file.Some?)
  }

  /** The requests made for a fault that is not served: one if the file turns out to be unreadable. */
  function InVain(region: Option<Region>, present: bool, write: bool, exec: bool): nat
  {
    if region.Some? && Allows(region.value, write, exec) && !present && !region.value.flags.growsDown
       && region.value.hasFile then 1 else 0
  }

  /** The tests of the handler, up to the point where it has to do something. */
  method Decide(present: bool, write: bool, exec: bool, region: Option<Region>, addr: nat)
          returns (early: Option<Outcome>)
    ensures early == Some(Segfault) <==> region.None? || !Allows(region.value, write, exec) || (present && !write)
    ensures early == Some(Killed) ==> present && !(region.value.start <= addr < region.value.end)
    ensures early != Some(Handled)
    ensures early.None? && present ==> region.value.start <= addr < region.value.end
  {
    if region.None? {
      return Some(Segfault);
    }
    var flags := region.value.flags;
    if (write && !flags.write) || (!write && !flags.read) || (exec && !flags.exec) {
      return Some(Segfault);
    }
    if present {
      if !write {
        return Some(Segfault);
      }
      if addr < region.value.start || addr >= region.value.end {
        return Some(Killed);
      }
    }
    early := None;
  }

  class Mmu {
    const memory: Memory
    var m: Machine
    ghost var g: Shadow

    ghost predicate Valid()
      reads this
    {
      SysOk(m, g, {})
    }

    /** At boot there is the kernel's directory, whose user part is empty. */
    constructor (kernel: nat, dir: seq<Pte>, free: set<nat>, memory: Memory)
      requires kernel !in free && |dir| == ENTRIES && forall i :: 0 <= i < USER_ENTRIES ==> !dir[i].present
      ensures Valid() && m == Machine(free, map[kernel := 1], map[], map[kernel := dir], {kernel})
      ensures g == Shadow(map[], map[], {}, free + {kernel}, map[]) && this.memory == memory
    {
      this.memory := memory;
      m := Machine(free, map[kernel := 1], map[], map[kernel := dir], {kernel});
      g := Shadow(map[], map[], {}, free + {kernel}, map[]);
    }

    // ----- Page allocator

    /** Fails when the request is refused, as it may be for fragmentation, or no frame is left. */
    method PageAlloc(ghost open: set<Slot>) returns (f: Option<nat>)
      requires SysOk(m, g, open)
      modifies this, memory
      ensures SysOk(m, g, open) && memory.asked == old(memory.asked) + 1
      ensures f.None? ==> m == old(m) && g == old(g)
      ensures f.None? <==> memory.Denied(old(memory.asked)) || old(m.free) == {}
      ensures f.Some? ==>
                && f.value in old(m.free) && m == Taken(old(m), f.value)
                && g == old(g).(held := old(g.held) + {f.value})
                && f.value !in old(g.held)
    {
      var granted := memory.Request();
      if !granted || m.free == {} {
        return None;
      }
      var x :| x in m.free;
      Take(m, g, open, x);
      m := Taken(m, x);
      g := g.(held := g.held + {x});
      return Some(x);
    }

    method PageFree(f: nat, ghost open: set<Slot>)
      requires SysOk(m, g, open) && f in g.held
      modifies this
      ensures SysOk(m, g, open) && m == Given(old(m), f) && g == old(g).(held := old(g.held) - {f})
    {
      Give(m, g, open, f);
      m := Given(m, f);
      g := g.(held := g.held - {f});
    }

    // ----- Walking

    /** The table of directory entry `i`, created if there is none. */
    method EnsureTable(r: nat, i: nat, user: bool) returns (t: Option<nat>)
      requires Valid() && r in m.roots && i < USER_ENTRIES
      modifies this, memory
      ensures Valid() && m.bytes == old(m.bytes) && m.free <= old(m.free) && memory.asked >= old(memory.asked)
      ensures g == old(g).(slot := g.slot) && Prepared(old(m), old(g), m, g, r, i, user)
      ensures old(m.free) <= m.free + NewTables(old(g), g, r, i)
      ensures t.None? ==> m == old(m) && g == old(g) && (memory.Denied(old(memory.asked)) || m.free == {})
      ensures t.Some? ==> Slot(r, i) in g.slot && g.slot[Slot(r, i)] == t.value
      ensures Slot(r, i) in old(g.slot) ==> m == old(m) && g == old(g) && t.Some?
    {
      WalkFindsLeaf(m.table, m.roots, g.slot, g.leaf, r, i, 0);
      assert Linked(m.table, g.slot, r, i);
      PreparedSame(m, g, r, i, user);
      if m.table[r][i].present {
        return Some(m.table[r][i].frame);
      }
      var f := PageAlloc({});
      if f.None? {
        return None;
      }
      MakeTable(f.value, r, i);
      LinkTable(f.value, r, i, user);
      PutBack(old(g.held), f.value);
      Linking(old(m), old(g), m, g, r, i, f.value, user);
      return f;
    }

    /** Zeroes a frame and makes it the table of a directory entry that does not point to it yet. */
    method MakeTable(x: nat, r: nat, i: nat)
      requires Valid() && r in m.roots && i < USER_ENTRIES && Slot(r, i) !in g.slot && x in g.held
      modifies this
      ensures SysOk(m, g, {Slot(r, i)}) && m == old(m).(table := old(m.table)[x := ZERO_TABLE])
      ensures g == old(g).(slot := old(g.slot)[Slot(r, i) := x], held := old(g.held) - {x})
      ensures SameDirs(old(m.table), m.table, m.roots)
    {
      HeldFrame(m, g, {}, x);
      assert m.roots <= m.table.Keys;
      NewTable(m, g, {}, Slot(r, i), x);
      assert {} + {Slot(r, i)} == {Slot(r, i)};
      m := m.(table := m.table[x := ZERO_TABLE]);
      g := g.(slot := g.slot[Slot(r, i) := x], held := g.held - {x});
    }

    method LinkTable(x: nat, r: nat, i: nat, user: bool)
      requires SysOk(m, g, {Slot(r, i)}) && r in m.roots && i < USER_ENTRIES && Slot(r, i) in g.slot
               && g.slot[Slot(r, i)] == x
      requires r in m.table && i < |m.table[r]|
      modifies this
      ensures Valid() && m == old(m).(table := Put(old(m.table), r, i, MkTable(x, user))) && g == old(g)
      ensures SameDirs(old(m.table), m.table, m.roots - {r})
    {
      WriteRoot(m, g, {Slot(r, i)}, r, i, MkTable(x, user), {});
      assert m.roots <= m.table.Keys;
      m := m.(table := Put(m.table, r, i, MkTable(x, user)));
    }

    /** A zeroed page at an absent entry. */
    method MapScratch(r: nat, i: nat, j: nat, user: bool) returns (ok: bool)
      requires Valid() && Slot(r, i) in g.slot && j < ENTRIES && Key(r, i, j) !in g.leaf
      modifies this, memory
      ensures Valid() && m.roots == old(m.roots) && SameDirs(old(m.table), m.table, m.roots)
              && memory.asked >= old(memory.asked)
      ensures !ok ==> m == old(m) && g == old(g) && (memory.Denied(old(memory.asked)) || m.free == {})
      ensures ok ==>
                && Key(r, i, j) in g.leaf
                && g == old(g).(leaf := old(g.leaf)[Key(r, i, j) := g.leaf[Key(r, i, j)]],
                     mem := old(g.mem)[Key(r, i, j) := ZERO_PAGE])
                && One(m.count, g.leaf[Key(r, i, j)].frame)
                && g.leaf[Key(r, i, j)].frame in old(m.free) && old(m.free) <= m.free + {g.leaf[Key(r, i, j)].frame}
    {
      var f := PageAlloc({});
      if f.None? {
        return false;
      }
      var p := MkTable(f.value, user);
      ghost var s := Slot(r, i);
      SlotTable(m.table, m.roots, g.slot, s);
      assert Linked(m.table, g.slot, r, i);
      MapLeaf(m, g, {}, s, j, p, ZERO_PAGE);
      HeldFrame(m, g, {}, f.value);
      m := m.(table := Put(m.table, m.table[r][i].frame, j, p), bytes := m.bytes[f.value := ZERO_PAGE]);
      g := g.(leaf := g.leaf[Key(r, i, j) := p], held := g.held - {f.value}, mem := g.mem[Key(r, i, j) := ZERO_PAGE]);
      assert g.held == old(g.held);
      return true;
    }

    /**
      The walker with `create`. A missing leaf entry is filled with a zeroed scratch page, as the walker
      treats the last level like a table.
     */
    method WalkCreate(r: nat, i: nat, j: nat, user: bool) returns (t: Option<nat>)
      requires Valid() && r in m.roots && i < USER_ENTRIES && j < ENTRIES
      modifies this, memory
      ensures Valid() && g == old(g).(slot := g.slot, leaf := g.leaf, mem := g.mem) && memory.asked >= old(memory.asked)
      ensures Prepared(old(m), old(g), m, g, r, i, user)
      ensures t.Some? ==> Slot(r, i) in g.slot && g.slot[Slot(r, i)] == t.value && Key(r, i, j) in g.leaf
      ensures Key(r, i, j) in old(g.leaf) ==> m == old(m) && g == old(g)
      ensures t.None? ==>
                g.leaf == old(g.leaf) && g.mem == old(g.mem) && (memory.Denied(old(memory.asked)) || m.free == {})
      ensures t.None? ==> old(m.free) <= m.free + NewTables(old(g), g, r, i)
      ensures t.Some? && Key(r, i, j) !in old(g.leaf) ==>
                && old(m.free) <= m.free + NewTables(old(g), g, r, i) + {g.leaf[Key(r, i, j)].frame}
                && g.leaf == old(g.leaf)[Key(r, i, j) := g.leaf[Key(r, i, j)]]
                && One(m.count, g.leaf[Key(r, i, j)].frame)
                && g.leaf[Key(r, i, j)].frame in old(m.free)
                && g.mem == old(g.mem)[Key(r, i, j) := ZERO_PAGE]
    {
      assert Key(r, i, j) in g.leaf ==> Homed(g.slot, Key(r, i, j));
      t := EnsureTable(r, i, user);
      if t.None? {
        return;
      }
      ghost var s := Slot(r, i);
      assert Tied(m.table, g.slot, g.leaf, s, j);
      if m.table[t.value][j].present {
        return;
      }
      ghost var m1, g1 := m, g;
      var ok := MapScratch(r, i, j, user);
      PreparedThen(old(m), old(g), m1, g1, m, g, r, i, user);
      if !ok {
        return None;
      }
    }

    // ----- Page faults

    /**
      Maps a filled page at an absent entry, as the stack and file fault handlers do. `leaked` is the
      walker's scratch page: overwritten in the entry, never given back.
     */
    method DemandMap(r: nat, i: nat, j: nat, flags: MemFlags, page: Page) returns (ok: bool, ghost leaked: nat)
      requires Valid() && r in m.roots && i < USER_ENTRIES && j < ENTRIES && |page| == PAGE_SIZE
      requires Key(r, i, j) !in g.leaf
      modifies this, memory
      ensures Valid() && Prepared(old(m), old(g), m, g, r, i, flags.user) && memory.asked >= old(memory.asked)
      ensures !ok ==> g == old(g).(slot := g.slot) && (memory.Denied(old(memory.asked)) || m.free <= {leaked})
                      && old(m.free) <= m.free + NewTables(old(g), g, r, i)
      ensures ok ==>
                && Slot(r, i) in g.slot
                && g.mem == old(g.mem)[Key(r, i, j) := page]
                && Key(r, i, j) in g.leaf && g.leaf[Key(r, i, j)].flags == MmuFlagsArch(flags)
                && g.leaf == old(g.leaf)[Key(r, i, j) := g.leaf[Key(r, i, j)]]
                && leaked in old(m.free) && g.held == old(g.held) + {leaked} && g.all == old(g.all)
                && old(m.free) <= m.free + NewTables(old(g), g, r, i) + {leaked, g.leaf[Key(r, i, j)].frame}
    {
      PreparedSame(m, g, r, i, flags.user);
      ghost var m0, g0, from := m, g, memory.asked;
      var f := PageAlloc({});
      if f.None? {
        return false, 0;
      }
      ghost var mid := memory.asked;
      ok, leaked := MapTaken(f.value, r, i, j, flags, page, m0, g0);
      Denials(memory.grants, from, mid, memory.asked);
    }

    /** Maps page `f`, just taken and filled, and gives it back if there is no memory for the walk. */
    method MapTaken(f: nat, r: nat, i: nat, j: nat, flags: MemFlags, page: Page, ghost m0: Machine, ghost g0: Shadow)
        returns (ok: bool, ghost leaked: nat)
      requires Valid() && r in m.roots && i < USER_ENTRIES && j < ENTRIES && |page| == PAGE_SIZE
      requires Key(r, i, j) !in g.leaf && TookOne(m0, g0, m, g, f)
      modifies this, memory
      ensures Valid() && Prepared(m0, g0, m, g, r, i, flags.user) && memory.asked >= old(memory.asked)
      ensures !ok ==> g == g0.(slot := g.slot) && (memory.Denied(old(memory.asked)) || m.free <= {leaked})
                      && m0.free <= m.free + NewTables(g0, g, r, i)
      ensures ok ==>
                && Slot(r, i) in g.slot
                && g.mem == g0.mem[Key(r, i, j) := page]
                && Key(r, i, j) in g.leaf && g.leaf[Key(r, i, j)].flags == MmuFlagsArch(flags)
                && g.leaf == g0.leaf[Key(r, i, j) := g.leaf[Key(r, i, j)]]
                && leaked in m0.free && g.held == g0.held + {leaked} && g.all == g0.all
                && m0.free <= m.free + NewTables(g0, g, r, i) + {leaked, g.leaf[Key(r, i, j)].frame}
    {
      ghost var m1, g1 := m, g;
      var t := WalkFor(f, r, i, j, flags.user);
      PutBack(g0.held, f);
      AfterTake(m0, g0, f, m1, g1, m, g, r, i, flags.user);
      Retake(m0.free, f, m.free, NewTables(g0, g, r, i) + if t.None? then {} else {g.leaf[Key(r, i, j)].frame});
      if t.None? {
        return false, f;
      }
      leaked := g.leaf[Key(r, i, j)].frame;
      ghost var scratch := g.leaf[Key(r, i, j)];
      var p := Pte(true, f, MmuFlagsArch(flags));
      ghost var m2, g2 := m, g;
      SetPte(t.value, r, i, j, p, page);
      PreparedThen(m0, g0, m2, g2, m, g, r, i, flags.user);
      SwapHeld(g0.held, f, leaked);
      Overwrite(g0.mem, Key(r, i, j), ZERO_PAGE, page);
      Overwrite(g0.leaf, Key(r, i, j), scratch, p);
      ok := true;
    }

    /** The page just taken goes back unused. */
    method UndoTake(f: nat, ghost m0: Machine, ghost g0: Shadow)
      requires Valid() && TookOne(m0, g0, m, g, f)
      modifies this
      ensures Valid() && m == m0 && g == g0
    {
      FreeFrame(m0, g0, {}, f);
      TakeGive(m0, f);
      PutBack(g0.held, f);
      PageFree(f, {});
    }

    /** The entry to map page `f` at; if there is no memory for the walk, the page is given back. */
    method WalkFor(f: nat, r: nat, i: nat, j: nat, user: bool) returns (t: Option<nat>)
      requires Valid() && r in m.roots && i < USER_ENTRIES && j < ENTRIES && Key(r, i, j) !in g.leaf && f in g.held
      modifies this, memory
      ensures Valid() && Prepared(old(m), old(g), m, g, r, i, user) && memory.asked >= old(memory.asked)
      ensures t.None? ==>
                g == old(g).(slot := g.slot, held := old(g.held) - {f})
                    && (memory.Denied(old(memory.asked)) || m.free <= {f})
                          && old(m.free) <= m.free + NewTables(old(g), g, r, i) && f in m.free
      ensures t.Some? ==>
                && g == old(g).(slot := g.slot, leaf := g.leaf, mem := old(g.mem)[Key(r, i, j) := ZERO_PAGE])
                && Slot(r, i) in g.slot && g.slot[Slot(r, i)] == t.value && Key(r, i, j) in g.leaf
                && g.leaf == old(g.leaf)[Key(r, i, j) := g.leaf[Key(r, i, j)]]
                && One(m.count, g.leaf[Key(r, i, j)].frame) && g.leaf[Key(r, i, j)].frame in old(m.free)
                && old(m.free) <= m.free + NewTables(old(g), g, r, i) + {g.leaf[Key(r, i, j)].frame}
    {
      t := WalkCreate(r, i, j, user);
      if t.None? {
        PageFree(f, {});
      }
    }

    /** Overwrites a mapping whose frame nobody else names; that frame keeps its reference. */
    method SetPte(t: nat, r: nat, i: nat, j: nat, p: Pte, page: Page)
      requires Valid() && Slot(r, i) in g.slot && g.slot[Slot(r, i)] == t && j < ENTRIES && Key(r, i, j) in g.leaf
      requires p.present && p.frame in g.held && |page| == PAGE_SIZE && One(m.count, g.leaf[Key(r, i, j)].frame)
      modifies this
      ensures Valid() && m.roots == old(m.roots) && SameDirs(old(m.table), m.table, m.roots) && m.free == old(m.free)
      ensures g == old(g).(leaf := old(g.leaf)[Key(r, i, j) := p],
                held := old(g.held) - {p.frame} + {old(g.leaf)[Key(r, i, j)].frame},
                               mem := old(g.mem)[Key(r, i, j) := page])
    {
      ghost var s := Slot(r, i);
      assert Tied(m.table, g.slot, g.leaf, s, j);
      SlotTable(m.table, m.roots, g.slot, s);
      var f := m.table[t][j].frame;
      ReplaceLeaf(m, g, {}, s, j, p, page);
      assert KeyOf(s, j) == Key(r, i, j);
      m := m.(table := Put(m.table, t, j, p), bytes := (m.bytes - {f})[p.frame := page]);
      g := g.(leaf := g.leaf[Key(r, i, j) := p], held := g.held - {p.frame} + {f}, mem := g.mem[Key(r, i, j) := page]);
    }

    /** A write fault on a present page of a writable region. */
    method HandleCow(r: nat, i: nat, j: nat, flags: MemFlags) returns (ok: bool)
      requires Valid() && r in m.roots && i < USER_ENTRIES && j < ENTRIES && Key(r, i, j) in g.leaf
      modifies this, memory
      ensures Valid() && m.roots == old(m.roots) && SameDirs(old(m.table), m.table, m.roots)
              && memory.asked >= old(memory.asked)
      ensures !ok ==> m == old(m) && g == old(g) && (memory.Denied(old(memory.asked)) || m.free == {})
      ensures ok ==> Key(r, i, j) in g.leaf && g.leaf[Key(r, i, j)].flags == MmuFlagsArch(flags)
                     && old(m.free) <= m.free + {g.leaf[Key(r, i, j)].frame}
                     && g == old(g).(leaf := old(g.leaf)[Key(r, i, j) := g.leaf[Key(r, i, j)]])
    {
      WalkFindsLeaf(m.table, m.roots, g.slot, g.leaf, r, i, j);
      ghost var s, k := Slot(r, i), Key(r, i, j);
      LeafFrame(m, g, {}, k);
      SlotTable(m.table, m.roots, g.slot, s);
      var f := Walk(m.table, r, i, j).frame;
      var t := m.table[r][i].frame;
      if m.count[f] == 1 {
        var p := Pte(true, f, MmuFlagsArch(flags));
        FlagLeaf(m, g, {}, s, j, p);
        m := m.(table := Put(m.table, t, j, p));
        g := g.(leaf := g.leaf[k := p]);
        return true;
      }
      ok := BreakSharing(t, r, i, j, f, MmuFlagsArch(flags));
    }

    /** A private copy of a shared page. */
    method BreakSharing(t: nat, r: nat, i: nat, j: nat, f: nat, flags: PteFlags) returns (ok: bool)
      requires Valid() && r in m.roots && i < USER_ENTRIES && j < ENTRIES && Key(r, i, j) in g.leaf
      requires Slot(r, i) in g.slot && g.slot[Slot(r, i)] == t && g.leaf[Key(r, i, j)].frame == f && !One(m.count, f)
      modifies this, memory
      ensures Valid() && m.roots == old(m.roots) && SameDirs(old(m.table), m.table, m.roots)
              && memory.asked >= old(memory.asked)
      ensures !ok ==> m == old(m) && g == old(g) && (memory.Denied(old(memory.asked)) || m.free == {})
      ensures ok ==> Key(r, i, j) in g.leaf && g.leaf[Key(r, i, j)].flags == flags
                     && old(m.free) <= m.free + {g.leaf[Key(r, i, j)].frame}
                     && g == old(g).(leaf := old(g.leaf)[Key(r, i, j) := g.leaf[Key(r, i, j)]])
    {
      ghost var s, k := Slot(r, i), Key(r, i, j);
      LeafFrame(m, g, {}, k);
      SlotTable(m.table, m.roots, g.slot, s);
      var n := PageAlloc({});
      if n.None? {
        return false;
      }
      FreeFrame(old(m), old(g), {}, n.value);
      var p := Pte(true, n.value, flags);
      CopyLeaf(m, g, {}, s, j, p);
      m := Copied(m, t, j, p, f);
      g := g.(leaf := g.leaf[k := p], held := g.held - {n.value});
      assert g.held == old(g.held);
      return true;
    }

    /**
      The fault handler for a user-mode access to the page of entries (i, j). `region` is what the lookup of
      the address found, `file` the page read from its file, `None` if reading fails. It takes at most the
      three frames of `took`, and of a fault it should serve it fails only for want of memory.
     */
    method PageFault(r: nat, i: nat, j: nat, write: bool, exec: bool, region: Option<Region>, file: Option<Page>)
        returns (out: Outcome, ghost took: (nat, nat, nat))
      requires Valid() && r in m.roots && i < USER_ENTRIES && j < ENTRIES
      requires file.Some? ==> |file.value| == PAGE_SIZE
      modifies this, memory
      ensures Valid() && memory.asked >= old(memory.asked)
      ensures Prepared(old(m), old(g), m, g, r, i, region.Some? && region.value.flags.user)
      ensures out.Segfault? <==>
                region.None? || !Allows(region.value, write, exec) || (Key(r, i, j) in old(g.leaf) && !write)
      ensures !out.Handled? ==> g == old(g).(slot := g.slot) && old(m.free) <= m.free + {took.1}
      ensures out.Handled? ==> Serves(region, file, Key(r, i, j) in old(g.leaf), write, exec, Address(i, j))
      ensures !Serves(region, file, Key(r, i, j) in old(g.leaf), write, exec, Address(i, j)) ==>
                && m == old(m) && g == old(g)
                && memory.asked == old(memory.asked) + InVain(region, Key(r, i, j) in old(g.leaf), write, exec)
      ensures !out.Handled? && Serves(region, file, Key(r, i, j) in old(g.leaf), write, exec, Address(i, j)) ==>
                || memory.Denied(old(memory.asked))
                || old(m.free) <= if Key(r, i, j) in old(g.leaf) then {}
                                  else if Slot(r, i) in old(g.slot) then {took.0} else {took.0, took.1}
      ensures out.Handled? ==>
                && Slot(r, i) in g.slot && old(m.free) <= m.free + {took.0, took.1, took.2}
                && Key(r, i, j) in g.leaf && g.leaf[Key(r, i, j)].flags == MmuFlagsArch(region.value.flags)
                && g.leaf == old(g.leaf)[Key(r, i, j) := g.leaf[Key(r, i, j)]]
                && g.mem == if Key(r, i, j) in old(g.leaf) then old(g.mem)
                            else old(g.mem)[Key(r, i, j) := if region.value.flags.growsDown then ZERO_PAGE
                                                            else file.value]
    {
      var present := IsPresent(r, i, j);
      var early := Decide(present, write, exec, region, Address(i, j));
      if early.Some? {
        PreparedSame(m, g, r, i, region.Some? && region.value.flags.user);
        return early.value, (0, 0, 0);
      }
      if present {
        out, took := WritePresent(r, i, j, region.value.flags);
      } else {
        out, took := FillAbsent(r, i, j, region.value, file);
      }
    }

    method IsPresent(r: nat, i: nat, j: nat) returns (present: bool)
      requires Valid() && r in m.roots && i < USER_ENTRIES && j < ENTRIES
      ensures present <==> Key(r, i, j) in g.leaf
    {
      WalkFindsLeaf(m.table, m.roots, g.slot, g.leaf, r, i, j);
      present := Walk(m.table, r, i, j).present;
    }

    /** A write to a page that is there. */
    method WritePresent(r: nat, i: nat, j: nat, flags: MemFlags) returns (out: Outcome, ghost took: (nat, nat, nat))
      requires Valid() && r in m.roots && i < USER_ENTRIES && j < ENTRIES && Key(r, i, j) in g.leaf
      modifies this, memory
      ensures Valid() && Prepared(old(m), old(g), m, g, r, i, flags.user) && memory.asked >= old(memory.asked)
      ensures !out.Segfault? && old(m.free) <= m.free + {took.0, took.1, took.2}
      ensures !out.Handled? ==> g == old(g).(slot := g.slot) && old(m.free) <= m.free + {took.1}
      ensures !out.Handled? ==> memory.Denied(old(memory.asked)) || old(m.free) <= {}
      ensures out.Handled? ==>
                && Slot(r, i) in g.slot && g.mem == old(g.mem)
                && Key(r, i, j) in g.leaf && g.leaf[Key(r, i, j)].flags == MmuFlagsArch(flags)
                && g.leaf == old(g.leaf)[Key(r, i, j) := g.leaf[Key(r, i, j)]]
    {
      PreparedSame(m, g, r, i, flags.user);
      ghost var m0, g0 := m, g;
      assert Homed(g.slot, Key(r, i, j));
      var ok := HandleCow(r, i, j, flags);
      PreparedThen(m0, g0, m0, g0, m, g, r, i, flags.user);
      return if ok then Handled else Killed, (0, 0, g.leaf[Key(r, i, j)].frame);
    }

    /**
      A fault on an absent page: zeros for the stack, else the page of the file, if there is one and it can be read.
     */
    method FillAbsent(r: nat, i: nat, j: nat, reg: Region, file: Option<Page>)
        returns (out: Outcome, ghost took: (nat, nat, nat))
      requires Valid() && r in m.roots && i < USER_ENTRIES && j < ENTRIES && Key(r, i, j) !in g.leaf
      requires file.Some? ==> |file.value| == PAGE_SIZE
      modifies this, memory
      ensures Valid() && Prepared(old(m), old(g), m, g, r, i, reg.flags.user) && memory.asked >= old(memory.asked)
      ensures !out.Segfault? && old(m.free) <= m.free + {took.0, took.1, took.2}
      ensures !out.Handled? ==> g == old(g).(slot := g.slot) && old(m.free) <= m.free + {took.1}
      ensures !CanFill(reg, file) ==>
                && out.Killed? && m == old(m) && g == old(g)
                && memory.asked == old(memory.asked) + if !reg.flags.growsDown && reg.hasFile then 1 else 0
      ensures !out.Handled? && CanFill(reg, file) ==>
                memory.Denied(old(memory.asked)) || old(m.free) <= if Slot(r, i) in old(g.slot) then {took.0}
                                                                   else {took.0, took.1}
      ensures out.Handled? ==>
                && Slot(r, i) in g.slot && CanFill(reg, file)
                && g.mem == old(g.mem)[Key(r, i, j) := if reg.flags.growsDown then ZERO_PAGE else file.value]
                && Key(r, i, j) in g.leaf && g.leaf[Key(r, i, j)].flags == MmuFlagsArch(reg.flags)
                && g.leaf == old(g.leaf)[Key(r, i, j) := g.leaf[Key(r, i, j)]]
    {
      PreparedSame(m, g, r, i, reg.flags.user);
      if reg.flags.growsDown {
        out, took := MapOrKill(r, i, j, reg.flags, ZERO_PAGE);
      } else if reg.hasFile && file.Some? {
        out, took := MapOrKill(r, i, j, reg.flags, file.value);
      } else {
        if reg.hasFile {
          TakeInVain();
        }
        out, took := Killed, (0, 0, 0);
      }
    }

    /** A page is taken before the file is read, and given back if it cannot be. */
    method TakeInVain()
      requires Valid()
      modifies this, memory
      ensures Valid() && m == old(m) && g == old(g) && memory.asked == old(memory.asked) + 1
    {
      ghost var m0, g0 := m, g;
      var f := PageAlloc({});
      if f.Some? {
        UndoTake(f.value, m0, g0);
      }
    }

    /** Demand mapping as the fault handler uses it. */
    method MapOrKill(r: nat, i: nat, j: nat, flags: MemFlags, page: Page)
        returns (out: Outcome, ghost took: (nat, nat, nat))
      requires Valid() && r in m.roots && i < USER_ENTRIES && j < ENTRIES && |page| == PAGE_SIZE
      requires Key(r, i, j) !in g.leaf
      modifies this, memory
      ensures Valid() && Prepared(old(m), old(g), m, g, r, i, flags.user) && memory.asked >= old(memory.asked)
      ensures if out.Handled? then
                && Slot(r, i) in g.slot && old(m.free) <= m.free + {took.0, took.1, took.2}
                && g.mem == old(g.mem)[Key(r, i, j) := page]
                && Key(r, i, j) in g.leaf && g.leaf[Key(r, i, j)].flags == MmuFlagsArch(flags)
                && g.leaf == old(g.leaf)[Key(r, i, j) := g.leaf[Key(r, i, j)]]
              else
                && out.Killed? && g == old(g).(slot := g.slot) && old(m.free) <= m.free + {took.1}
                && (memory.Denied(old(memory.asked)) || old(m.free) <= if Slot(r, i) in old(g.slot) then {took.0}
                                                                       else {took.0, took.1})
    {
      var ok, x := DemandMap(r, i, j, flags, page);
      ghost var y := if Slot(r, i) in g.slot then g.slot[Slot(r, i)] else 0;
      ghost var z := if Key(r, i, j) in g.leaf then g.leaf[Key(r, i, j)].frame else 0;
      return if ok then Handled else Killed, (x, y, z);
    }

    // ----- The processor

    /** A user-mode load; `None` is a page fault. */
    method UserLoad(r: nat, i: nat, j: nat, off: nat) returns (v: Option<Byte>)
      requires Valid() && r in m.roots && i < USER_ENTRIES && j < ENTRIES && off < PAGE_SIZE
      ensures v.Some? <==> Key(r, i, j) in g.leaf && g.leaf[Key(r, i, j)].flags.us && UserDir(m.table, r, i)
      ensures v.Some? ==> Key(r, i, j) in g.mem && off < |g.mem[Key(r, i, j)]| && v.value == g.mem[Key(r, i, j)][off]
    {
      WalkFindsLeaf(m.table, m.roots, g.slot, g.leaf, r, i, j);
      var e := Walk(m.table, r, i, j);
      if !e.present || !e.flags.us || !m.table[r][i].flags.us {
        return None;
      }
      LeafFrame(m, g, {}, Key(r, i, j));
      assert ShownAt(g.leaf, m.bytes, g.mem, Key(r, i, j));
      return Some(m.bytes[e.frame][off]);
    }

    /** A user-mode store; it goes ahead exactly when both levels allow it, and else faults. */
    method UserStore(r: nat, i: nat, j: nat, off: nat, v: Byte) returns (done: bool)
      requires Valid() && r in m.roots && i < USER_ENTRIES && j < ENTRIES && off < PAGE_SIZE
      modifies this
      ensures Valid() && g == old(g).(mem := g.mem) && m == old(m).(bytes := m.bytes)
      ensures !done ==> m == old(m) && g == old(g)
      ensures done ==> Key(r, i, j) in old(g.mem) && off < |old(g.mem)[Key(r, i, j)]|
                       && g.mem == old(g.mem)[Key(r, i, j) := old(g.mem)[Key(r, i, j)][off := v]]
      ensures done <==> Key(r, i, j) in g.leaf && Writable(g.leaf[Key(r, i, j)]) && UserDir(old(m.table), r, i)
    {
      WalkFindsLeaf(m.table, m.roots, g.slot, g.leaf, r, i, j);
      assert Full(m.table, r) && Linked(m.table, g.slot, r, i);
      var e := Walk(m.table, r, i, j);
      if !e.present || !e.flags.rw || !e.flags.us || !m.table[r][i].flags.us {
        return false;
      }
      ghost var k := Key(r, i, j);
      LeafFrame(m, g, {}, k);
      assert ShownAt(g.leaf, m.bytes, g.mem, k);
      var page := m.bytes[e.frame][off := v];
      StoreLeaf(m, g, {}, k, page);
      m := m.(bytes := m.bytes[e.frame := page]);
      g := g.(mem := g.mem[k := page]);
      return true;
    }

    // ----- Teardown

    /** Drops one reference for each present entry of a table and clears it. */
    method DropEntries(t: nat, r: nat, i: nat)
      requires Valid() && Slot(r, i) in g.slot && g.slot[Slot(r, i)] == t
      modifies this
      ensures Valid() && m.roots == old(m.roots) && SameDirs(old(m.table), m.table, m.roots) && old(m.free) <= m.free
      ensures g == old(g).(leaf := Strip(old(g.leaf), Slot(r, i), ENTRIES),
                mem := Strip(old(g.mem), Slot(r, i), ENTRIES))
    {
      ghost var s := Slot(r, i);
      SlotTable(m.table, m.roots, g.slot, s);
      StripStep(g.leaf, s, 0);
      StripStep(g.mem, s, 0);
      assert m.roots <= m.table.Keys;
      for j := 0 to ENTRIES
        invariant Valid() && m.roots == old(m.roots) && SameDirs(old(m.table), m.table, m.roots)
                  && old(m.free) <= m.free
        invariant g == old(g).(leaf := Strip(old(g.leaf), s, j), mem := Strip(old(g.mem), s, j))
      {
        StripStep(old(g.leaf), s, j);
        StripStep(old(g.mem), s, j);
        DropEntry(t, r, i, j);
      }
    }

    method DropEntry(t: nat, r: nat, i: nat, j: nat)
      requires Valid() && Slot(r, i) in g.slot && g.slot[Slot(r, i)] == t && j < ENTRIES
      modifies this
      ensures Valid() && m.roots == old(m.roots) && SameDirs(old(m.table), m.table, m.roots) && old(m.free) <= m.free
      ensures g == old(g).(leaf := old(g.leaf) - {Key(r, i, j)}, mem := old(g.mem) - {Key(r, i, j)})
    {
      ghost var s, k := Slot(r, i), Key(r, i, j);
      SlotTable(m.table, m.roots, g.slot, s);
      assert Tied(m.table, g.slot, g.leaf, s, j);
      assert m.roots <= m.table.Keys;
      if m.table[t][j].present {
        DropLeaf(m, g, {}, s, j);
        m := Dropped(m, t, j, m.table[t][j].frame);
        g := g.(leaf := g.leaf - {k}, mem := g.mem - {k});
      } else {
        assert g.leaf - {k} == g.leaf;
        assert g.mem.Keys == g.leaf.Keys;
        assert g.mem - {k} == g.mem;
      }
    }

    /** Tears down the table of one directory entry. */
    method DropSubtree(r: nat, i: nat)
      requires Valid() && Slot(r, i) in g.slot
      modifies this
      ensures Valid() && m.roots == old(m.roots) && SameDirs(old(m.table), m.table, m.roots - {r})
              && old(m.free) <= m.free
      ensures r in old(m.table) && r in m.table && |old(m.table)[r]| == ENTRIES && i < ENTRIES
              && m.table[r] == old(m.table)[r][i := ABSENT]
      ensures g == old(g).(slot := old(g.slot) - {Slot(r, i)}, leaf := Strip(old(g.leaf), Slot(r, i), ENTRIES),
                           mem := Strip(old(g.mem), Slot(r, i), ENTRIES))
    {
      ghost var s := Slot(r, i);
      SlotTable(m.table, m.roots, g.slot, s);
      assert Linked(m.table, g.slot, r, i);
      var t := m.table[r][i].frame;
      LeafRange(m, g, {});
      DropEntries(t, r, i);
      FreeTable(m, g, {}, s);
      SlotTable(m.table, m.roots, g.slot, s);
      assert {} - {s} == {};
      m := TableFreed(m, r, i, t);
      g := g.(slot := g.slot - {s});
    }

    /** Tears down the user part of the first `n` directory entries. */
    method DropRows(r: nat, n: nat)
      requires Valid() && r in m.roots && n <= ENTRIES
      modifies this
      ensures Valid() && m.roots == old(m.roots) && SameDirs(old(m.table), m.table, m.roots - {r})
              && old(m.free) <= m.free
      ensures g == old(g).(slot := CutSlots(old(g.slot), r, n), leaf := StripRows(old(g.leaf), r, n),
                mem := StripRows(old(g.mem), r, n))
    {
      LeafRange(m, g, {});
      assert g.mem.Keys == g.leaf.Keys;
      StripRow(g.leaf, r, 0, ENTRIES);
      StripRow(g.mem, r, 0, ENTRIES);
      CutStep(g.slot, r, 0);
      assert m.roots <= m.table.Keys;
      ghost var was := g;
      for i := 0 to n
        invariant Valid() && m.roots == old(m.roots) && SameDirs(old(m.table), m.table, m.roots - {r})
                  && old(m.free) <= m.free
        invariant g == was.(slot := CutSlots(was.slot, r, i), leaf := StripRows(was.leaf, r, i),
                    mem := StripRows(was.mem, r, i))
      {
        CutStep(was.slot, r, i);
        StripRow(was.leaf, r, i, ENTRIES);
        StripRow(was.mem, r, i, ENTRIES);
        DropRow(r, i);
      }
    }

    method DropRow(r: nat, i: nat)
      requires Valid() && r in m.roots && i < ENTRIES
      modifies this
      ensures Valid() && m.roots == old(m.roots) && SameDirs(old(m.table), m.table, m.roots - {r})
              && old(m.free) <= m.free
      ensures g == old(g).(slot := old(g.slot) - {Slot(r, i)}, leaf := Strip(old(g.leaf), Slot(r, i), ENTRIES),
                           mem := Strip(old(g.mem), Slot(r, i), ENTRIES))
    {
      assert Full(m.table, r);
      assert m.roots <= m.table.Keys;
      if KernelEntry(i) || !m.table[r][i].present {
        assert Slot(r, i) !in g.slot by {
          if KernelEntry(i) { assert Slot(r, i) in g.slot ==> SlotOk(m.roots, g.slot, Slot(r, i)); }
          else { assert Linked(m.table, g.slot, r, i); }
        }
        NothingToStrip(m, g, Slot(r, i));
        return;
      }
      assert Linked(m.table, g.slot, r, i);
      DropSubtree(r, i);
    }

    /** Destroys a context: its pages lose a reference each, its tables go, nobody else notices. */
    method DestroyContext(r: nat)
      requires Valid() && r in m.roots
      modifies this
      ensures Valid() && m.roots == old(m.roots) - {r} && SameDirs(old(m.table), m.table, m.roots)
              && old(m.free) <= m.free
      ensures g == old(g).(slot := CutSlots(old(g.slot), r, ENTRIES), leaf := StripRows(old(g.leaf), r, ENTRIES),
                mem := Without(old(g.mem), r))
    {
      LeafRange(m, g, {});
      assert g.mem.Keys == g.leaf.Keys;
      DropRows(r, ENTRIES);
      assert g.mem == Without(old(g.mem), r);
      forall s | s in g.slot ensures s.r != r { assert SlotOk(m.roots, g.slot, s); }
      FreeRoot(m, g, r);
      m := RootFreed(m, r);
    }

    // ----- Fork

    /** Forks one entry of a table: a reference more, and no write permission on either side. */
    method CloneEntry(t: nat, t': nat, r: nat, c: nat, i: nat, j: nat)
      requires SysOk(m, g, {Slot(c, i)}) && Slot(r, i) in g.slot && g.slot[Slot(r, i)] == t
      requires Slot(c, i) in g.slot && g.slot[Slot(c, i)] == t' && j < ENTRIES && Key(c, i, j) !in g.leaf
      modifies this
      ensures SysOk(m, g, {Slot(c, i)}) && m.roots == old(m.roots) && m.bytes == old(m.bytes)
              && SameDirs(old(m.table), m.table, m.roots)
      ensures g == old(g).(leaf := g.leaf, mem := g.mem)
      ensures var src, dst := Key(r, i, j), Key(c, i, j);
              if src in old(g.leaf)
              then g.leaf == old(g.leaf)[src := Protect(old(g.leaf)[src])][dst := Protect(old(g.leaf)[src])]
              else g.leaf == old(g.leaf)
    {
      ghost var s, s' := Slot(r, i), Slot(c, i);
      SlotTable(m.table, m.roots, g.slot, s);
      SlotTable(m.table, m.roots, g.slot, s');
      assert Tied(m.table, g.slot, g.leaf, s, j);
      assert m.roots <= m.table.Keys;
      var e := m.table[t][j];
      if e.present {
        var p := Protect(e);
        ShareLeaf(m, g, {s'}, s, s', j, p);
        m := Shared(m, t, t', j, p);
        g := g.(leaf := g.leaf[KeyOf(s, j) := p][KeyOf(s', j) := p], mem := g.mem[KeyOf(s', j) := g.mem[KeyOf(s, j)]]);
      }
    }

    /** Forks a whole leaf table into a fresh one that is not linked yet. */
    method CloneEntries(t: nat, t': nat, r: nat, c: nat, i: nat, ghost was: Leaves)
      requires SysOk(m, g, {Slot(c, i)}) && Slot(r, i) in g.slot && g.slot[Slot(r, i)] == t
      requires Slot(c, i) in g.slot && g.slot[Slot(c, i)] == t' && r != c
      requires Cloned(was, g.leaf, r, c, i, 0) && forall k :: k in was ==> k.j < ENTRIES
      modifies this
      ensures SysOk(m, g, {Slot(c, i)}) && m.roots == old(m.roots) && m.bytes == old(m.bytes)
              && SameDirs(old(m.table), m.table, m.roots)
      ensures g == old(g).(leaf := g.leaf, mem := g.mem) && Cloned(was, g.leaf, r, c, i + 1, 0)
    {
      assert m.roots <= m.table.Keys;
      for j := 0 to ENTRIES
        invariant SysOk(m, g, {Slot(c, i)}) && m.roots == old(m.roots) && m.bytes == old(m.bytes)
                  && SameDirs(old(m.table), m.table, m.roots)
        invariant g == old(g).(leaf := g.leaf, mem := g.mem) && Cloned(was, g.leaf, r, c, i, j)
      {
        ghost var now := g.leaf;
        assert CloneAt(was, now, r, c, i, j, Key(c, i, j)) && CloneAt(was, now, r, c, i, j, Key(r, i, j));
        CloneEntry(t, t', r, c, i, j);
        CloneStep(was, now, g.leaf, r, c, i, j);
      }
      CloneRow(was, g.leaf, r, c, i, ENTRIES);
    }

    /** Clones the table of one directory entry; it can fail only before it touches anything. */
    method CloneTable(r: nat, c: nat, i: nat, ghost was: Leaves) returns (t': Option<nat>)
      requires Valid() && Slot(r, i) in g.slot && Slot(c, i) !in g.slot && c in m.roots && r != c
      requires Cloned(was, g.leaf, r, c, i, 0) && forall k :: k in was ==> k.j < ENTRIES
      modifies this, memory
      ensures m.roots == old(m.roots) && m.bytes == old(m.bytes) && SameDirs(old(m.table), m.table, m.roots)
              && memory.asked >= old(memory.asked)
      ensures t'.None? ==> Valid() && m == old(m) && g == old(g) && (memory.Denied(old(memory.asked)) || m.free == {})
      ensures t'.Some? ==> SysOk(m, g, {Slot(c, i)}) && Cloned(was, g.leaf, r, c, i + 1, 0)
                           && g == old(g).(slot := old(g.slot)[Slot(c, i) := t'.value], leaf := g.leaf, mem := g.mem)
    {
      SlotTable(m.table, m.roots, g.slot, Slot(r, i));
      assert Linked(m.table, g.slot, r, i);
      assert m.roots <= m.table.Keys;
      t' := PageAlloc({});
      if t'.None? {
        return;
      }
      var x := t'.value;
      FreeFrame(old(m), old(g), {}, x);
      var books := memory.Request();
      if !books {
        PageFree(x, {});
        TakeGive(old(m), x);
        assert g.held == old(g.held);
        return None;
      }
      var t := m.table[r][i].frame;
      MakeTable(x, r := c, i := i);
      assert g.held == old(g.held);
      CloneEntries(t, x, r, c, i, was);
    }

    /** Clones one directory entry: shares it in the kernel part, forks its table in the user part. */
    method CloneDirEntry(r: nat, c: nat, i: nat, ghost was: Leaves) returns (ok: bool)
      requires Valid() && r in m.roots && c in m.roots && r != c && i < ENTRIES && Slot(c, i) !in g.slot
      requires Cloned(was, g.leaf, r, c, i, 0) && forall k :: k in was ==>
                 k.j < ENTRIES && k.i < USER_ENTRIES && k.r != c
      requires Full(m.table, c) && Full(m.table, r) && m.table[c][i] == ABSENT
      modifies this, memory
      ensures Valid() && m.roots == old(m.roots) && m.bytes == old(m.bytes)
              && SameDirs(old(m.table), m.table, m.roots - {c}) && memory.asked >= old(memory.asked)
      ensures !ok ==>
                m == old(m) && g == old(g) && Slot(r, i) in g.slot && (memory.Denied(old(memory.asked)) || m.free == {})
      ensures ok ==>
                && Cloned(was, g.leaf, r, c, i + 1, 0) && CutSlots(g.slot, c, i + 1) == CutSlots(old(g.slot), c, i)
                && g == old(g).(slot := g.slot, leaf := g.leaf, mem := g.mem)
                && Full(m.table, c) && Full(m.table, r) && m.table[c] == old(m.table[c])[i := m.table[c][i]]
                && DirAt(m.table[r], m.table[c], i)
    {
      assert m.roots <= m.table.Keys;
      CutAdd(g.slot, c, i, 0);
      var e := m.table[r][i];
      if !e.present {
        EmptyRow(m, g, r, c, i, was);
        return true;
      }
      if KernelEntry(i) {
        CloneSkip(was, g.leaf, r, c, i);
        WriteRoot(m, g, {}, c, i, e, {});
        m := m.(table := Put(m.table, c, i, e));
        return true;
      }
      assert Linked(m.table, g.slot, r, i);
      var t := CloneTable(r, c, i, was);
      if t.None? {
        return false;
      }
      CutAdd(old(g.slot), c, i, t.value);
      LinkTable(t.value, c, i, ArchMmuFlags(e.flags).user);
      return true;
    }

    /** A fresh directory without user entries. */
    method MakeRoot(x: nat)
      requires Valid() && x in g.held
      modifies this
      ensures Valid() && x !in old(m.roots) && m.roots == old(m.roots) + {x} && m.bytes == old(m.bytes)
      ensures g == old(g).(held := old(g.held) - {x}) && (forall i :: Slot(x, i) !in g.slot)
      ensures x in m.table && m.table[x] == ZERO_TABLE && SameDirs(old(m.table), m.table, old(m.roots))
    {
      HeldFrame(m, g, {}, x);
      assert m.roots <= m.table.Keys;
      NewRoot(m, g, x);
      m := m.(table := m.table[x := ZERO_TABLE], roots := m.roots + {x});
      g := g.(held := g.held - {x});
    }

    /** Takes back a clone that failed at directory entry `n`. */
    method RollBackClone(r: nat, c: nat, n: nat, ghost m0: Machine, ghost g0: Shadow)
      requires SysOk(m0, g0, {}) && Cloning(m0, g0, m, g, r, c, n) && n <= ENTRIES
      modifies this
      ensures Valid() && ForkFailed(m0, g0, m, g, r, n)
    {
      RollBackPlan(m0, g0, m, g, r, c, n);
      DropRows(c, n);
      RemoveRoot(c, m0, g0);
      SameFrames(m0, g0, m, g, r, n);
    }

    method RemoveRoot(c: nat, ghost m0: Machine, ghost g0: Shadow)
      requires Valid() && SysOk(m0, g0, {}) && m.roots == m0.roots + {c} && c !in m0.roots && g.slot == g0.slot
      requires SameDirs(m0.table, m.table, m0.roots)
      modifies this`m
      ensures Valid() && m.roots == m0.roots && SameDirs(m0.table, m.table, m0.roots)
    {
      forall s | s in g.slot ensures s.r != c { assert SlotOk(m0.roots, g0.slot, s); }
      FreeRoot(m, g, c);
      m := RootFreed(m, c);
      assert m.roots == m0.roots;
    }

    method CloneNext(r: nat, c: nat, i: nat, ghost m0: Machine, ghost g0: Shadow) returns (next: nat)
      requires SysOk(m0, g0, {}) && Cloning(m0, g0, m, g, r, c, i) && i < ENTRIES
      modifies this, memory
      ensures (next == i || next == i + 1) && Cloning(m0, g0, m, g, r, c, next) && memory.asked >= old(memory.asked)
      ensures next == i ==> Slot(r, i) in g.slot && (memory.Denied(old(memory.asked)) || m.free == {})
    {
      LeafRange(m0, g0, {});
      NextSlotFree(m0, g0, m, g, r, c, i);
      ghost var before, was := m, g;
      var ok := CloneDirEntry(r, c, i, g0.leaf);
      if !ok {
        return i;
      }
      CloningStep(m0, g0, before, was, m, g, r, c, i);
      next := i + 1;
    }

    method CloneStartAt(r: nat) returns (c: Option<nat>)
      requires Valid() && r in m.roots
      modifies this, memory
      ensures memory.asked >= old(memory.asked)
      ensures c.None? ==> m == old(m) && g == old(g) && (memory.Denied(old(memory.asked)) || m.free == {})
      ensures c.Some? ==> c.value in old(m.free) && Cloning(old(m), old(g), m, g, r, c.value, 0)
    {
      LeafRange(m, g, {});
      assert m.roots <= m.table.Keys && Full(m.table, r);
      c := NewDirectory();
      if c.Some? {
        CutStep(g.slot, c.value, 0);
        CloneStart(g.leaf, r, c.value);
      }
    }

    /**
      Forks context `r`; a failure at directory entry `upto` is rolled back. It needs a frame for the directory
      and one for each table, and fails only if it is refused memory or there are fewer.
     */
    method CloneContext(r: nat) returns (c: Option<nat>, ghost upto: nat, ghost spent: set<nat>)
      requires Valid() && r in m.roots
      modifies this, memory
      ensures Valid() && memory.asked >= old(memory.asked)
      ensures c.Some? ==> ForkDone(old(m), old(g), m, g, r, c.value)
                          && old(m.free) <= m.free + spent && |spent| <= 1 + |Rows(old(g.slot), r, ENTRIES)|
      ensures c.None? ==> ForkFailed(old(m), old(g), m, g, r, upto)
      ensures c.None? ==>
                memory.Denied(old(memory.asked)) || (old(m.free) <= spent && |spent| <= |Rows(old(g.slot), r, ENTRIES)|)
    {
      ghost var m0, g0 := m, g;
      upto, spent := 0, {};
      c := CloneStartAt(r);
      if c.None? {
        NothingCloned(m, g, r);
        return;
      }
      c, upto, spent := CloneOrRollBack(r, c.value, m0, g0);
    }

    method CloneOrRollBack(r: nat, d: nat, ghost m0: Machine, ghost g0: Shadow)
        returns (c: Option<nat>, ghost upto: nat, ghost spent: set<nat>)
      requires SysOk(m0, g0, {}) && Cloning(m0, g0, m, g, r, d, 0) && d in m0.free
      modifies this, memory
      ensures Valid() && memory.asked >= old(memory.asked)
      ensures c.Some? ==> c.value == d && ForkDone(m0, g0, m, g, r, d)
      ensures c.Some? ==> m0.free <= m.free + spent && |spent| <= 1 + |Rows(g0.slot, r, ENTRIES)|
      ensures c.None? ==> ForkFailed(m0, g0, m, g, r, upto)
      ensures c.None? ==>
                memory.Denied(old(memory.asked)) || (m0.free <= spent && |spent| <= |Rows(g0.slot, r, ENTRIES)|)
    {
      var n := CloneRows(r, d, m0, g0);
      spent := CloneFrames(m0, g0, m, g, r, d, n);
      if n < ENTRIES {
        RowsGrow(g0.slot, r, n);
        RollBackClone(r, d, n, m0, g0);
        return None, n, spent;
      }
      CloneFinished(m0, g0, m, g, r, d);
      return Some(d), n, spent;
    }

    /** Clones directory entries until one fails or all are done. */
    method CloneRows(r: nat, c: nat, ghost m0: Machine, ghost g0: Shadow) returns (i: nat)
      requires SysOk(m0, g0, {}) && Cloning(m0, g0, m, g, r, c, 0)
      modifies this, memory
      ensures i <= ENTRIES && Cloning(m0, g0, m, g, r, c, i) && memory.asked >= old(memory.asked)
      ensures i < ENTRIES ==> Slot(r, i) in g.slot && (memory.Denied(old(memory.asked)) || m.free == {})
    {
      i := 0;
      while i < ENTRIES
        invariant i <= ENTRIES && Cloning(m0, g0, m, g, r, c, i) && memory.asked >= old(memory.asked)
      {
        var next := CloneNext(r, c, i, m0, g0);
        if next == i {
          return;
        }
        i := next;
      }
    }

    /** The root page of a clone, and its bookkeeping; fails without a trace. */
    method NewDirectory() returns (c: Option<nat>)
      requires Valid()
      modifies this, memory
      ensures Valid() && memory.asked >= old(memory.asked)
      ensures c.None? ==> m == old(m) && g == old(g) && (memory.Denied(old(memory.asked)) || m.free == {})
      ensures c.Some? ==>
                && c.value in old(m.free) && c.value !in old(m.roots) && m.roots == old(m.roots) + {c.value}
                   && m.bytes == old(m.bytes)
                && g == old(g) && (forall i :: Slot(c.value, i) !in g.slot)
                && c.value in m.table && m.table[c.value] == ZERO_TABLE
                   && SameDirs(old(m.table), m.table, old(m.roots))
    {
      c := PageAlloc({});
      if c.None? {
        return;
      }
      FreeFrame(old(m), old(g), {}, c.value);
      var books := memory.Request();
      if !books {
        PageFree(c.value, {});
        TakeGive(old(m), c.value);
        assert g.held == old(g.held);
        return None;
      }
      MakeRoot(c.value);
      assert g.held == old(g.held);
    }
  }
}
