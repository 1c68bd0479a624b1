/**
  A process as the fault handler and fork see it: the regions of its address space over its page tables.
  What a fault maps is what the region says of the file, and a forked process has the same regions and reads
  the same pages.
 */
module Process {
  import opened Common
  import opened CowFlat
  import opened Tables
  import opened MmuSteps
  import opened Fork
  import opened Mmu
  import M = Mapped
  import V = Vma

  const DIR_SPAN := 0x40_0000

  /** The directory and table entries of an address. */
  function DirIndex(a: nat): nat
  {
    a / DIR_SPAN
  }

  function TableIndex(a: nat): (j: nat)
    ensures j < ENTRIES
  {
    a / PAGE_SIZE % ENTRIES
  }

  lemma PageOf(a: nat)
    ensures Address(DirIndex(a), TableIndex(a)) == V.AlignDown(a)
  {
    assert a / PAGE_SIZE / ENTRIES == a / DIR_SPAN;
    assert a / PAGE_SIZE == DirIndex(a) * ENTRIES + TableIndex(a);
  }

  /** What the handler knows of a region. */
  function Seen(r: V.Region): Region
  {
    Region(r.start, r.end, r.flags, r.file.Some?)
  }

  /** The page of `a` shows what region `r` says of a file with bytes `c`. */
  ghost predicate ShowsFile(r: V.Region, c: seq<Byte>, a: nat, page: Page)
  {
    V.Shows(r.start, r.offset, c, a, page)
  }

  /** The page was read from position `at` of the file; if the seek worked out, it shows the file. */
  ghost predicate ReadFrom(r: V.Region, kind: M.Kind, c: seq<Byte>, at: nat, a: nat, page: Page)
  {
    page == M.PageAt(c, at) && (M.Lands(kind, |c|, V.FaultOffset(r, a)) ==> ShowsFile(r, c, a, page))
  }

  lemma ReadShowsFile(r: V.Region, kind: M.Kind, c: seq<Byte>, pos: nat, a: nat)
    requires V.RegionOk(r)
    ensures var at := M.Landing(kind, |c|, V.FaultOffset(r, a), pos); ReadFrom(r, kind, c, at, a, M.PageAt(c, at))
  {
    var off := V.FaultOffset(r, a);
    if M.Lands(kind, |c|, off) {
      M.LandsRight(kind, |c|, off, pos);
      V.AlignFacts(r.start);
      V.ShowsWindow(r, r.start, r.offset, c, a, M.PageAt(c, M.Landing(kind, |c|, off, pos)));
    }
  }

  /** The objects of all open files. */
  ghost function Reach(files: map<nat, M.OpenFile>): set<object>
  {
    set n, o | n in files && o in M.Footprint(files[n]) :: o
  }

  /**
    The files can be used, and what they ask memory for is granted or refused apart from what the page tables ask for.
   */
  ghost predicate Ready(files: map<nat, M.OpenFile>, memory: Memory)
    reads set n, o | n in files && o in M.Seen(files[n]) :: o
  {
    forall n :: n in files ==> M.Usable(files[n]) && memory !in M.Footprint(files[n])
  }

  /** No page can be had for the region: it has no open file, or reading that fails. */
  ghost predicate NoPage(r: V.Region, files: map<nat, M.OpenFile>, a: nat)
    reads set n, o | n in files && o in M.Seen(files[n]) :: o
    requires forall n :: n in files ==> M.Usable(files[n])
  {
    r.file.None? || r.file.value !in files || M.Fails(files[r.file.value], V.FaultOffset(r, a))
  }

  /** A region that contains an address contains the start of its page. */
  lemma PageInRegion(r: V.Region, a: nat)
    requires V.RegionOk(r) && V.Contains(r, a)
    ensures r.start <= Address(DirIndex(a), TableIndex(a)) < r.end
  {
    PageOf(a);
    V.AlignedBelow(r.start, a);
    V.AlignFacts(r.start);
  }

  /**
    Why a fault in region `r` was not handled: the region does not allow it, the page was there for reading, there is
    nothing to fill the page with, or memory ran out.
   */
  ghost predicate Excused(r: V.Region, present: bool, write: bool, exec: bool, noPage: bool, denied: bool,
          free: set<nat>, out: Outcome)
  {
    && (out.Segfault? <==>
          (write && !r.flags.write) || (!write && (present || !r.flags.read)) || (exec && !r.flags.exec))
    && (out.Killed? ==> denied || (!present && !r.flags.growsDown && noPage) || FewFrames(free))
  }

  /** No frame is lost but perhaps one. */
  ghost predicate AllButOne(free: set<nat>, free': set<nat>)
  {
    exists y :: free <= free' + {y}
  }

  predicate Blank(page: Page)
  {
    |page| == PAGE_SIZE && forall x :: 0 <= x < PAGE_SIZE ==> page[x] == 0
  }

  /** A handled fault adds page `k` if it was absent, zeros on the stack; nothing else changes in what is read. */
  predicate Adds(r: V.Region, k: Key, mem: map<Key, Page>, mem': map<Key, Page>, out: Outcome)
  {
    if !out.Handled? || k in mem then mem' == mem
    else k in mem' && mem' == mem[k := mem'[k]] && (r.flags.growsDown ==> Blank(mem'[k]))
  }

  class Process {
    const space: V.AddressSpace
    const root: nat
    var brk: nat
    var brkStart: nat

    constructor (space: V.AddressSpace, root: nat, brk: nat, brkStart: nat)
      ensures this.space == space && this.root == root && this.brk == brk && this.brkStart == brkStart
    {
      this.space, this.root, this.brk, this.brkStart := space, root, brk, brkStart;
    }

    /**
      A fault of user mode at address `a`. A file page that was absent reads as the file from then on, if the seek
      worked.
     */
    method Fault(mmu: Mmu, a: nat, write: bool, exec: bool, files: map<nat, M.OpenFile>)
        returns (out: Outcome, ghost n: Option<nat>)
      requires mmu.Valid() && space.Valid() && root in mmu.m.roots && DirIndex(a) < USER_ENTRIES
      requires Ready(files, mmu.memory)
      modifies mmu, mmu.memory, Reach(files)
      ensures mmu.Valid()
      ensures n.None? ==> out.Segfault? && forall i :: 0 <= i < |space.regions| ==> !V.Contains(space.regions[i], a)
      ensures n.None? ==> mmu.g.mem == old(mmu.g.mem)
      ensures !out.Handled? ==> AllButOne(old(mmu.m.free), mmu.m.free)
      ensures n.Some? ==> n.value < |space.regions| && V.Contains(space.regions[n.value], a)
      ensures n.Some? ==>
                var r, k := space.regions[n.value], Key(root, DirIndex(a), TableIndex(a));
                && Excused(r, k in old(mmu.g.mem), write, exec, old(NoPage(r, files, a)),
                           mmu.memory.Denied(old(mmu.memory.asked)), old(mmu.m.free), out)
                && Adds(r, k, old(mmu.g.mem), mmu.g.mem, out)
                && (k !in old(mmu.g.mem) && !r.flags.growsDown && old(NoPage(r, files, a)) ==>
                      mmu.m == old(mmu.m) && mmu.g == old(mmu.g))
      ensures n.Some? && out.Handled? && Key(root, DirIndex(a), TableIndex(a)) !in old(mmu.g.mem)
              && !space.regions[n.value].flags.growsDown ==>
                var r, page := space.regions[n.value], mmu.g.mem[Key(root, DirIndex(a), TableIndex(a))];
                && r.file.Some? && r.file.value in files && !files[r.file.value].Mute?
                && var f, off := files[r.file.value], V.FaultOffset(r, a);
                   ReadFrom(r, old(M.KindOf(f)), old(M.Bytes(f)), old(M.ReadsFrom(f, off)), a, page)
    {
      assert mmu.g.mem.Keys == mmu.g.leaf.Keys;
      var found := space.Lookup(a);
      n := found;
      if found.None? {
        ghost var took;
        out, took := mmu.PageFault(root, DirIndex(a), TableIndex(a), write, exec, None, None);
        assert old(mmu.m.free) <= mmu.m.free + {took.1};
        return;
      }
      var r := space.regions[found.value];
      PageInRegion(r, a);
      var present := mmu.IsPresent(root, DirIndex(a), TableIndex(a));
      if !present && Allows(Seen(r), write, exec) && !r.flags.growsDown && r.file.Some? && r.file.value in files {
        out := FileFault(mmu, a, r, files[r.file.value]);
      } else {
        out := OtherFault(mmu, a, write, exec, r);
      }
    }

    /** All other faults in a region: nothing is read from a file. */
    method OtherFault(mmu: Mmu, a: nat, write: bool, exec: bool, r: V.Region) returns (out: Outcome)
      requires mmu.Valid() && root in mmu.m.roots && DirIndex(a) < USER_ENTRIES
      requires r.start <= Address(DirIndex(a), TableIndex(a)) < r.end
      modifies mmu, mmu.memory
      ensures mmu.Valid()
      ensures var k := Key(root, DirIndex(a), TableIndex(a));
              && Excused(r, k in old(mmu.g.mem), write, exec, true, mmu.memory.Denied(old(mmu.memory.asked)),
                   old(mmu.m.free), out)
              && Adds(r, k, old(mmu.g.mem), mmu.g.mem, out)
              && (out.Handled? && k !in old(mmu.g.mem) ==> r.flags.growsDown)
              && (k !in old(mmu.g.mem) && !r.flags.growsDown ==> mmu.m == old(mmu.m) && mmu.g == old(mmu.g))
      ensures !out.Handled? ==> AllButOne(old(mmu.m.free), mmu.m.free)
    {
      assert mmu.g.mem.Keys == mmu.g.leaf.Keys;
      ghost var took;
      out, took := mmu.PageFault(root, DirIndex(a), TableIndex(a), write, exec, Some(Seen(r)), None);
      if !out.Handled? { assert old(mmu.m.free) <= mmu.m.free + {took.1}; }
      if !out.Handled? && old(mmu.m.free) <= {took.0, took.1} { assert FewFrames(old(mmu.m.free)); }
    }

    /**
      A fault on an absent page of a mapped file: a page is taken, then the file is read into it, then it is mapped.
     */
    method FileFault(mmu: Mmu, a: nat, r: V.Region, f: M.OpenFile) returns (out: Outcome)
      requires mmu.Valid() && root in mmu.m.roots && DirIndex(a) < USER_ENTRIES && V.RegionOk(r)
      requires Key(root, DirIndex(a), TableIndex(a)) !in mmu.g.leaf && M.Usable(f) && mmu.memory !in M.Footprint(f)
      modifies mmu, mmu.memory, M.Footprint(f)
      ensures mmu.Valid() && !out.Segfault?
      ensures !out.Handled? ==> AllButOne(old(mmu.m.free), mmu.m.free)
      ensures old(M.Fails(f, V.FaultOffset(r, a))) ==> mmu.m == old(mmu.m) && mmu.g == old(mmu.g)
      ensures !out.Handled? ==>
                && mmu.g.mem == old(mmu.g.mem)
                && (mmu.memory.Denied(old(mmu.memory.asked)) || old(M.Fails(f, V.FaultOffset(r, a)))
                     || FewFrames(old(mmu.m.free)))
      ensures var k, off := Key(root, DirIndex(a), TableIndex(a)), V.FaultOffset(r, a);
              out.Handled? ==>
                && !f.Mute? && k in mmu.g.mem && mmu.g.mem == old(mmu.g.mem)[k := mmu.g.mem[k]]
                && ReadFrom(r, old(M.KindOf(f)), old(M.Bytes(f)), old(M.ReadsFrom(f, off)), a, mmu.g.mem[k])
    {
      ghost var m0, g0, from := mmu.m, mmu.g, mmu.memory.asked;
      var x, page := TakeAndRead(mmu, a, r, f);
      if x.None? {
        assert mmu.m.free == {} ==> mmu.m.free <= {0, 0};
        assert m0.free <= mmu.m.free + {0};
        return Killed;
      }
      if page.None? {
        mmu.UndoTake(x.value, m0, g0);
        assert m0.free <= mmu.m.free + {0};
        return Killed;
      }
      ghost var mid := mmu.memory.asked;
      out := MapFilled(mmu, a, r.flags, x.value, page.value, m0, g0);
      Denials(mmu.memory.grants, from, mid, mmu.memory.asked);
    }

    /** The page is taken before the file is read into it. */
    method TakeAndRead(mmu: Mmu, a: nat, r: V.Region, f: M.OpenFile) returns (x: Option<nat>, page: Option<Page>)
      requires mmu.Valid() && V.RegionOk(r) && M.Usable(f) && mmu.memory !in M.Footprint(f)
      modifies mmu, mmu.memory, M.Footprint(f)
      ensures mmu.Valid() && mmu.memory.asked >= old(mmu.memory.asked)
      ensures x.None? ==> mmu.g == old(mmu.g) && mmu.m == old(mmu.m)
                          && (mmu.memory.Denied(old(mmu.memory.asked)) || old(mmu.m.free) == {})
      ensures x.Some? ==> TookOne(old(mmu.m), old(mmu.g), mmu.m, mmu.g, x.value)
      ensures x.Some? ==> (page.None? <==> old(M.Fails(f, V.FaultOffset(r, a))))
      ensures page.Some? ==>
                && |page.value| == PAGE_SIZE && !f.Mute?
                && ReadFrom(r, old(M.KindOf(f)), old(M.Bytes(f)), old(M.ReadsFrom(f, V.FaultOffset(r, a))), a,
                     page.value)
    {
      page := None;
      x := mmu.PageAlloc({});
      if x.None? {
        return;
      }
      ghost var m1, g1, mid := mmu.m, mmu.g, mmu.memory.asked;
      assert M.Usable(f) && M.Fails(f, V.FaultOffset(r, a)) == old(M.Fails(f, V.FaultOffset(r, a)));
      page := ReadFor(f, r, a);
      assert mmu.m == m1 && mmu.g == g1 && mmu.memory.asked == mid;
    }

    /** The page of the file for address `a`. */
    method ReadFor(f: M.OpenFile, r: V.Region, a: nat) returns (page: Option<Page>)
      requires M.Usable(f) && V.RegionOk(r)
      modifies M.Footprint(f)
      ensures page.None? <==> old(M.Fails(f, V.FaultOffset(r, a)))
      ensures page.Some? ==>
                !f.Mute? && ReadFrom(r, old(M.KindOf(f)), old(M.Bytes(f)), old(M.ReadsFrom(f, V.FaultOffset(r, a))), a,
                    page.value)
    {
      if !f.Mute? { ReadShowsFile(r, M.KindOf(f), M.Bytes(f), if f.Ram? then f.ram.pos else f.fat.pos, a); }
      page := M.ReadPage(f, V.FaultOffset(r, a));
    }

    /** Maps the page that was taken and filled. */
    method MapFilled(mmu: Mmu, a: nat, flags: MemFlags, x: nat, page: Page, ghost m0: Machine, ghost g0: Shadow)
        returns (out: Outcome)
      requires mmu.Valid() && root in mmu.m.roots && DirIndex(a) < USER_ENTRIES && |page| == PAGE_SIZE
      requires Key(root, DirIndex(a), TableIndex(a)) !in mmu.g.leaf && TookOne(m0, g0, mmu.m, mmu.g, x)
      modifies mmu, mmu.memory
      ensures mmu.Valid() && !out.Segfault? && mmu.memory.asked >= old(mmu.memory.asked)
      ensures !out.Handled? ==> mmu.g.mem == g0.mem && (mmu.memory.Denied(old(mmu.memory.asked)) || FewFrames(m0.free))
      ensures !out.Handled? ==> AllButOne(m0.free, mmu.m.free)
      ensures out.Handled? ==> mmu.g.mem == g0.mem[Key(root, DirIndex(a), TableIndex(a)) := page]
    {
      var ok;
      ghost var leaked;
      ok, leaked := mmu.MapTaken(x, root, DirIndex(a), TableIndex(a), flags, page, m0, g0);
      if !ok {
        ghost var y := if NewTables(g0, mmu.g, root, DirIndex(a)) == {} then 0 else mmu.g.slot[Slot(root, DirIndex(a))];
        assert m0.free <= mmu.m.free + {y};
      }
      if !ok && mmu.m.free <= {leaked} {
        ghost var t := NewTables(g0, mmu.g, root, DirIndex(a));
        ghost var y := if t == {} then leaked else mmu.g.slot[Slot(root, DirIndex(a))];
        assert m0.free <= {leaked, y};
      }
      return if ok then Handled else Killed;
    }

    /**
      The child has the same regions, the same break, and a context that reads as an eager copy; or there is none, and
      nobody reads anything new.
     */
    method Fork(mmu: Mmu) returns (child: Option<Process>)
      requires mmu.Valid() && space.Valid() && root in mmu.m.roots
      modifies mmu, mmu.memory
      ensures mmu.Valid() && space.Valid() && space.regions == old(space.regions)
      ensures child.Some? ==>
                && child.value.space.Valid() && child.value.space.regions == space.regions && child.value.space != space
                && child.value.brk == brk && child.value.brkStart == brkStart
                && ForkDone(old(mmu.m), old(mmu.g), mmu.m, mmu.g, root, child.value.root)
      ensures child.None? ==>
                mmu.g.mem == old(mmu.g.mem) && mmu.m.roots == old(mmu.m.roots) && mmu.m.free == old(mmu.m.free)
    {
      var copy := space.Dup(mmu.memory);
      if copy.None? {
        return None;
      }
      ghost var n, spent;
      var c;
      c, n, spent := mmu.CloneContext(root);
      if c.None? {
        return None;
      }
      var p := new Process(copy.value, c.value, brk, brkStart);
      return Some(p);
    }
  }
}
