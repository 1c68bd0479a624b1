/**
  Whole runs. The eager machine gives every context pages of its own: fork copies them all, a store changes
  one byte of one page. It knows nothing of frames and reference counts, only how many frames are free. Every
  run of the copy-on-write code is a run of the eager machine, answer by answer.
 */
module Eager {
  import opened Common
  import opened CowFlat
  import opened Tables
  import opened MmuSteps
  import opened Fork
  import opened Mmu

  type Mem = map<Key, Page>

  /**
    What the contexts have: the live ones, their pages, the permissions of each page and of each directory
    entry, the number of free frames, and the number of requests made to the allocator.
   */
  datatype State = State(live: set<nat>, mem: Mem, flags: map<Key, PteFlags>, dirs: map<Slot, bool>, free: nat,
      asked: nat)

  datatype Op =
    | Load(r: nat, i: nat, j: nat, off: nat)
    | Store(r: nat, i: nat, j: nat, off: nat, v: Byte)
    | Fault(r: nat, i: nat, j: nat, write: bool, exec: bool, region: Option<Region>, file: Option<Page>)
    | DoFork(r: nat)
    | Exit(r: nat)

  datatype Answer = Value(v: Byte) | Child(c: nat) | Done | Refused

  predicate InRange(op: Op)
  {
    match op
    case Load(_, i, j, off) => i < USER_ENTRIES && j < ENTRIES && off < PAGE_SIZE
    case Store(_, i, j, off, _) => i < USER_ENTRIES && j < ENTRIES && off < PAGE_SIZE
    case Fault(_, i, j, _, _, _, file) => i < USER_ENTRIES && j < ENTRIES && (file.Some? ==> |file.value| == PAGE_SIZE)
    case _ => true
  }

  // ----- The eager machine

  /** User mode may read page `k`: both levels say so. */
  predicate Reads(s: State, k: Key)
  {
    k in s.mem && k in s.flags && s.flags[k].us && SlotOf(k) in s.dirs && s.dirs[SlotOf(k)]
  }

  predicate Writes(s: State, k: Key)
  {
    Reads(s, k) && s.flags[k].rw
  }

  function ProtectFlags(f: PteFlags): PteFlags
  {
    Protect(Pte(true, 0, f)).flags
  }

  /** The permissions of page `k` after a fork of `r` into `c`: both sides have lost the right to write. */
  predicate ForkFlagsAt(was: map<Key, PteFlags>, now: map<Key, PteFlags>, r: nat, c: nat, k: Key)
  {
    var from := if k.r == c then Twin(k, r) else k;
    (k in now <==> from in was) && (k in now ==> now[k] == if from.r == r then ProtectFlags(was[from]) else was[from])
  }

  predicate ForkDirsAt(was: map<Slot, bool>, now: map<Slot, bool>, r: nat, c: nat, x: Slot)
  {
    var from := if x.r == c then Slot(r, x.i) else x;
    (x in now <==> from in was) && (x in now ==> now[x] == was[from])
  }

  ghost predicate Forks(s: State, s': State, r: nat, c: nat)
  {
    && c !in s.live && s'.live == s.live + {c} && s'.mem == ForkOf(s.mem, r, c)
    && (forall k {:trigger ForkFlagsAt(s.flags, s'.flags, r, c, k)} :: ForkFlagsAt(s.flags, s'.flags, r, c, k))
    && (forall x {:trigger ForkDirsAt(s.dirs, s'.dirs, r, c, x)} :: ForkDirsAt(s.dirs, s'.dirs, r, c, x))
    && s.free <= s'.free + 1 + |DirsOf(s, r)|
  }

  function DirsOf(s: State, r: nat): set<Slot>
  {
    set x | x in s.dirs && x.r == r
  }

  /** A fork that got as far as directory entry `n`: some pages of `r` may have to fault before the next write. */
  ghost predicate ForkFails(s: State, s': State, r: nat, n: nat)
  {
    && s' == s.(flags := s'.flags, asked := s'.asked) && s'.flags.Keys == s.flags.Keys
    && forall k :: k in s.flags ==> s'.flags[k] == if k.r == r && k.i < n then ProtectFlags(s.flags[k]) else s.flags[k]
  }

  ghost predicate Exits(s: State, s': State, r: nat)
  {
    && s'.live == s.live - {r} && s'.mem == Without(s.mem, r) && s'.asked == s.asked && s'.free >= s.free
    && (forall k :: k in s'.flags <==> k in s.flags && k.r != r)
    && (forall k :: k in s'.flags ==> s'.flags[k] == s.flags[k])
    && (forall x :: x in s'.dirs <==> x in s.dirs && x.r != r) && (forall x :: x in s'.dirs ==> s'.dirs[x] == s.dirs[x])
  }

  /** What a demand-mapped page holds: zeros on the stack, else the page of the file. */
  predicate FaultPage(region: Region, file: Option<Page>, page: Page)
  {
    if region.flags.growsDown then |page| == PAGE_SIZE && forall x :: 0 <= x < |page| ==> page[x] == 0
    else file == Some(page)
  }

  /** A table for directory entry `x`, if it has none. */
  predicate Provides(dirs: map<Slot, bool>, dirs': map<Slot, bool>, x: Slot, user: bool)
  {
    dirs' == if x in dirs then dirs else dirs[x := user]
  }

  ghost predicate Faults(s: State, s': State, k: Key, region: Region, file: Option<Page>)
  {
    && s' == s.(mem := s'.mem, flags := s.flags[k := MmuFlagsArch(region.flags)], dirs := s'.dirs, free := s'.free,
         asked := s'.asked)
    && Provides(s.dirs, s'.dirs, SlotOf(k), region.flags.user) && s.free <= s'.free + 3
    && if k in s.mem then s'.mem == s.mem
       else k in s'.mem && s'.mem == s.mem[k := s'.mem[k]] && FaultPage(region, file, s'.mem[k])
  }

  /** The frames a fault may need: a copy, or a page and a scratch page, and a table. */
  function FaultNeed(s: State, k: Key): nat
  {
    if k in s.mem then 1 else if SlotOf(k) in s.dirs then 2 else 3
  }

  /** Nothing but perhaps an empty table to show for it. */
  ghost predicate FaultFails(s: State, s': State, k: Key, user: bool)
  {
    && s' == s.(dirs := s'.dirs, free := s'.free, asked := s'.asked) && s.free <= s'.free + 1
    && (s'.dirs == s.dirs || Provides(s.dirs, s'.dirs, SlotOf(k), user))
  }

  /** A request for memory was refused on the way. */
  ghost predicate Short(grants: seq<bool>, s: State, s': State)
  {
    !AllGranted(grants, s.asked, s'.asked)
  }

  /** Operation `op` answered by `a` takes the eager machine from `s` to `s'`. */
  ghost predicate Transition(grants: seq<bool>, s: State, op: Op, a: Answer, s': State)
  {
    if op.r !in s.live then a == Refused && s' == s
    else match op
      case Load(r, i, j, off) =>
        var k := Key(r, i, j);
        s' == s && if Reads(s, k) then off < |s.mem[k]| && a == Value(s.mem[k][off]) else a == Refused
      case Store(r, i, j, off, v) =>
        var k := Key(r, i, j);
        if Writes(s, k) then a == Done && off < |s.mem[k]| && s' == s.(mem := s.mem[k := s.mem[k][off := v]])
        else a == Refused && s' == s
      case Fault(r, i, j, write, exec, region, file) =>
        var k := Key(r, i, j);
        if !Serves(region, file, k in s.mem, write, exec, Address(i, j)) then
          a == Refused && s' == s.(asked := s.asked + InVain(region, k in s.mem, write, exec))
        else if a == Done then Faults(s, s', k, region.value, file)
        else
          && a == Refused && FaultFails(s, s', k, region.value.flags.user)
          && (Short(grants, s, s') || s.free < FaultNeed(s, k))
      case DoFork(r) =>
        if a.Child? then Forks(s, s', r, a.c)
        else a == Refused && (exists n :: ForkFails(s, s', r, n)) && (Short(grants, s, s') || s.free <= |DirsOf(s, r)|)
      case Exit(r) => a == Done && Exits(s, s', r)
  }

  ghost predicate EagerRun(grants: seq<bool>, states: seq<State>, ops: seq<Op>, answers: seq<Answer>)
  {
    && |answers| == |ops| && |states| == |ops| + 1
    && forall n :: 0 <= n < |ops| ==> Transition(grants, states[n], ops[n], answers[n], states[n + 1])
  }

  // ----- Isolation

  /** The operation writes, maps, forks into or ends context `q`. */
  predicate Touches(op: Op, a: Answer, q: nat)
  {
    match op
    case Load(_, _, _, _) => false
    case DoFork(_) => a == Child(q)
    case _ => op.r == q
  }

  /** Context `q` has the same pages and can read the same of them. */
  ghost predicate SameFor(s: State, s': State, q: nat)
  {
    && (forall k :: k in s.mem && k.r == q ==> k in s'.mem && s'.mem[k] == s.mem[k])
    && (forall k :: k in s'.mem && k.r == q ==> k in s.mem)
    && (forall k: Key :: k.r == q ==> (Reads(s, k) <==> Reads(s', k)))
  }

  lemma StepIsolation(grants: seq<bool>, s: State, op: Op, a: Answer, s': State, q: nat)
    requires Transition(grants, s, op, a, s') && !Touches(op, a, q)
    ensures SameFor(s, s', q)
  {
    if op.DoFork? && op.r in s.live && a.Child? {
      forall k: Key | k.r == q ensures Reads(s, k) <==> Reads(s', k) {
        assert ForkFlagsAt(s.flags, s'.flags, op.r, a.c, k) && ForkDirsAt(s.dirs, s'.dirs, op.r, a.c, SlotOf(k));
      }
    }
  }

  /** Isolation over whole runs: what a context reads changes only by its own doing. */
  lemma {:induction false} RunIsolation(grants: seq<bool>, states: seq<State>, ops: seq<Op>, answers: seq<Answer>,
          q: nat)
    requires EagerRun(grants, states, ops, answers) && forall n :: 0 <= n < |ops| ==> !Touches(ops[n], answers[n], q)
    ensures SameFor(states[0], states[|ops|], q)
  {
    if |ops| > 0 {
      var n := |ops| - 1;
      RunIsolation(grants, states[..|ops|], ops[..n], answers[..n], q);
      StepIsolation(grants, states[n], ops[n], answers[n], states[n + 1], q);
    }
  }

  /** A child reads what its parent reads. */
  lemma ForkReads(grants: seq<bool>, s: State, r: nat, c: nat, s': State, k: Key)
    requires Transition(grants, s, DoFork(r), Child(c), s') && r in s.live && k.r == r
    ensures Reads(s', Twin(k, c)) <==> Reads(s, k)
    ensures Reads(s, k) ==> s'.mem[Twin(k, c)] == s.mem[k]
  {
    assert Twin(Twin(k, c), r) == k;
    assert ForkFlagsAt(s.flags, s'.flags, r, c, Twin(k, c)) && ForkDirsAt(s.dirs, s'.dirs, r, c, SlotOf(Twin(k, c)));
  }

  /** With frames to spare and no request refused, every fork succeeds and every fault that can be served is. */
  lemma NoShortage(grants: seq<bool>, s: State, op: Op, a: Answer, s': State)
    requires Transition(grants, s, op, a, s') && op.r in s.live && AllGranted(grants, s.asked, s'.asked)
             && s.free > |s.dirs| + 2
    ensures op.DoFork? ==> a.Child?
    ensures op.Fault? ==>
              (a == Done <==>
                  Serves(op.region, op.file, Key(op.r, op.i, op.j) in s.mem, op.write, op.exec, Address(op.i, op.j)))
  {
    SizeUpTo(DirsOf(s, op.r), s.dirs.Keys);
    assert |s.dirs.Keys| == |s.dirs|;
  }

  // ----- The code, seen as the eager machine

  predicate FlagAt(leaf: Leaves, flags: map<Key, PteFlags>, k: Key)
  {
    (k in flags <==> k in leaf) && (k in leaf ==> flags[k] == leaf[k].flags)
  }

  ghost predicate SeesFlags(leaf: Leaves, flags: map<Key, PteFlags>)
  {
    forall k {:trigger FlagAt(leaf, flags, k)} :: FlagAt(leaf, flags, k)
  }

  predicate DirAs(table: Tabs, slot: Slots, dirs: map<Slot, bool>, x: Slot)
  {
    (x in dirs <==> x in slot) && (x in slot ==> dirs[x] == UserDir(table, x.r, x.i))
  }

  ghost predicate SeesDirs(table: Tabs, slot: Slots, dirs: map<Slot, bool>)
  {
    forall x {:trigger DirAs(table, slot, dirs, x)} :: DirAs(table, slot, dirs, x)
  }

  /** `s` is what the machine amounts to. */
  ghost predicate Sees(m: Machine, g: Shadow, asked: nat, s: State)
  {
    && s.live == m.roots && s.mem == g.mem && s.asked == asked && s.free == |m.free|
    && SeesFlags(g.leaf, s.flags) && SeesDirs(m.table, g.slot, s.dirs)
  }

  lemma Look(m: Machine, g: Shadow, asked: nat) returns (s: State)
    ensures Sees(m, g, asked, s)
  {
    s := State(m.roots, g.mem, map k | k in g.leaf :: g.leaf[k].flags, map x | x in g.slot ::
        UserDir(m.table, x.r, x.i), |m.free|, asked);
  }

  /** The processor's permission test is the eager one. */
  lemma SeesReads(m: Machine, g: Shadow, asked: nat, s: State, k: Key)
    requires SysOk(m, g, {}) && Sees(m, g, asked, s)
    ensures Reads(s, k) <==> k in g.leaf && g.leaf[k].flags.us && UserDir(m.table, k.r, k.i)
    ensures Writes(s, k) <==> k in g.leaf && Writable(g.leaf[k]) && UserDir(m.table, k.r, k.i)
  {
    assert g.mem.Keys == g.leaf.Keys;
    assert k in g.leaf ==> Homed(g.slot, k);
    assert FlagAt(g.leaf, s.flags, k) && DirAs(m.table, g.slot, s.dirs, SlotOf(k));
  }

  /** All slots belong to live contexts. */
  ghost predicate Housed(roots: set<nat>, slot: Slots)
  {
    forall x :: x in slot ==> x.r in roots && x.i < USER_ENTRIES
  }

  lemma IsHoused(m: Machine, g: Shadow)
    requires SysOk(m, g, {})
    ensures Housed(m.roots, g.slot)
  {
    forall x | x in g.slot ensures x.r in m.roots && x.i < USER_ENTRIES { assert SlotOk(m.roots, g.slot, x); }
  }

  lemma SameDirBits(table: Tabs, table': Tabs, roots: set<nat>, slot: Slots, dirs: map<Slot, bool>)
    requires SeesDirs(table, slot, dirs) && Housed(roots, slot) && SameDirs(table, table', roots)
    ensures SeesDirs(table', slot, dirs)
  {
    forall x ensures DirAs(table', slot, dirs, x) { assert DirAs(table, slot, dirs, x); }
  }

  lemma DirsUnique(table: Tabs, slot: Slots, dirs: map<Slot, bool>, dirs': map<Slot, bool>)
    requires SeesDirs(table, slot, dirs) && SeesDirs(table, slot, dirs')
    ensures dirs == dirs'
  {
    forall x ensures (x in dirs <==> x in dirs') && (x in dirs ==> dirs[x] == dirs'[x]) {
      assert DirAs(table, slot, dirs, x) && DirAs(table, slot, dirs', x);
    }
  }

  lemma FlagsUnique(leaf: Leaves, flags: map<Key, PteFlags>, flags': map<Key, PteFlags>)
    requires SeesFlags(leaf, flags) && SeesFlags(leaf, flags')
    ensures flags == flags'
  {
    forall k ensures (k in flags <==> k in flags') && (k in flags ==> flags[k] == flags'[k]) {
      assert FlagAt(leaf, flags, k) && FlagAt(leaf, flags', k);
    }
  }

  lemma FlagsUpdated(leaf: Leaves, k: Key, p: Pte, flags: map<Key, PteFlags>)
    requires SeesFlags(leaf, flags)
    ensures SeesFlags(leaf[k := p], flags[k := p.flags])
  {
    var leaf', flags' := leaf[k := p], flags[k := p.flags];
    forall q ensures FlagAt(leaf', flags', q) { assert FlagAt(leaf, flags, q); }
  }

  /** Permissions of directory entries after a step that leaves them alone, but for a table that was missing. */
  lemma PreparedDirs(m: Machine, g: Shadow, m': Machine, g': Shadow, r: nat, i: nat, user: bool, dirs: map<Slot, bool>,
          dirs': map<Slot, bool>)
    requires SeesDirs(m.table, g.slot, dirs) && SeesDirs(m'.table, g'.slot, dirs')
    requires Housed(m.roots, g.slot) && r in m.roots && Prepared(m, g, m', g', r, i, user)
    ensures if Slot(r, i) in g'.slot then Provides(dirs, dirs', Slot(r, i), user) else dirs' == dirs
  {
    var want := if Slot(r, i) in g.slot || Slot(r, i) !in g'.slot then dirs else dirs[Slot(r, i) := user];
    forall x ensures (x in want <==> x in dirs') && (x in want ==> want[x] == dirs'[x]) {
      assert DirAs(m.table, g.slot, dirs, x) && DirAs(m'.table, g'.slot, dirs', x);
    }
    assert DirAs(m.table, g.slot, dirs, Slot(r, i));
  }

  lemma ForkedFlags(was: Leaves, now: Leaves, flags: map<Key, PteFlags>, flags': map<Key, PteFlags>, r: nat, c: nat)
    requires Cloned(was, now, r, c, ENTRIES, 0) && SeesFlags(was, flags) && SeesFlags(now, flags')
    requires forall k :: k in was ==> k.i < ENTRIES && k.r != c && was[k].present
    ensures forall k {:trigger ForkFlagsAt(flags, flags', r, c, k)} :: ForkFlagsAt(flags, flags', r, c, k)
  {
    forall k ensures ForkFlagsAt(flags, flags', r, c, k) {
      var from := if k.r == c then Twin(k, r) else k;
      assert CloneAt(was, now, r, c, ENTRIES, 0, k) && FlagAt(was, flags, from) && FlagAt(now, flags', k);
    }
  }

  /** Where the clone has tables, and with which permissions. */
  lemma ForkedDirs(m: Machine, g: Shadow, m': Machine, g': Shadow, r: nat, c: nat, dirs: map<Slot, bool>,
          dirs': map<Slot, bool>)
    requires ShapeOk(m.table, m.roots, g.slot, g.leaf, {}) && ShapeOk(m'.table, m'.roots, g'.slot, g'.leaf, {})
    requires r in m.roots && c !in m.roots && ForkDone(m, g, m', g', r, c)
    requires SeesDirs(m.table, g.slot, dirs) && SeesDirs(m'.table, g'.slot, dirs')
    ensures forall x {:trigger ForkDirsAt(dirs, dirs', r, c, x)} :: ForkDirsAt(dirs, dirs', r, c, x)
  {
    forall x: Slot ensures ForkDirsAt(dirs, dirs', r, c, x) {
      var from := if x.r == c then Slot(r, x.i) else x;
      ForkedDir(m, g, m', g', r, c, x, from);
      assert DirAs(m.table, g.slot, dirs, from) && DirAs(m'.table, g'.slot, dirs', x);
    }
  }

  lemma ForkedDir(m: Machine, g: Shadow, m': Machine, g': Shadow, r: nat, c: nat, x: Slot, from: Slot)
    requires ShapeOk(m.table, m.roots, g.slot, g.leaf, {}) && ShapeOk(m'.table, m'.roots, g'.slot, g'.leaf, {})
    requires r in m.roots && c !in m.roots && ForkDone(m, g, m', g', r, c) && from == if x.r == c then Slot(r, x.i)
                                                                                      else x
    ensures x in g'.slot <==> from in g.slot
    ensures x in g'.slot ==> (UserDir(m'.table, x.r, x.i) <==> UserDir(m.table, from.r, from.i))
  {
    if x in g'.slot { assert SlotOk(m'.roots, g'.slot, x); }
    if from in g.slot { assert SlotOk(m.roots, g.slot, from); }
    if x in g'.slot || from in g.slot {
      assert Linked(m'.table, g'.slot, x.r, x.i) && Linked(m.table, g.slot, from.r, from.i);
      assert x.r == c ==> DirAt(m'.table[r], m'.table[c], x.i);
    }
  }

  lemma FailedFlags(was: Leaves, now: Leaves, flags: map<Key, PteFlags>, flags': map<Key, PteFlags>, r: nat, n: nat)
    requires RolledBack(was, now, r, n) && SeesFlags(was, flags) && SeesFlags(now, flags') && forall k :: k in was ==>
               was[k].present
    ensures flags'.Keys == flags.Keys
    ensures forall k :: k in flags ==> flags'[k] == if k.r == r && k.i < n then ProtectFlags(flags[k]) else flags[k]
  {
    forall k ensures k in flags' <==> k in flags
             ensures k in flags ==> flags'[k] == if k.r == r && k.i < n then ProtectFlags(flags[k]) else flags[k] {
      assert RolledAt(was, now, r, n, k) && FlagAt(was, flags, k) && FlagAt(now, flags', k);
    }
  }

  lemma AllPresent(m: Machine, g: Shadow)
    requires SysOk(m, g, {})
    ensures forall k :: k in g.leaf ==> k.i < ENTRIES && k.r in m.roots && g.leaf[k].present
  {
    forall k | k in g.leaf ensures k.i < ENTRIES && k.r in m.roots && g.leaf[k].present { LeafPresent(m, g, {}, k); }
  }

  // ----- Steps

  method LoadStep(mmu: Mmu, r: nat, i: nat, j: nat, off: nat, ghost s: State) returns (a: Answer)
    requires mmu.Valid() && InRange(Load(r, i, j, off)) && Sees(mmu.m, mmu.g, mmu.memory.asked, s) && r in s.live
    ensures Transition(mmu.memory.grants, s, Load(r, i, j, off), a, s)
  {
    var v := mmu.UserLoad(r, i, j, off);
    SeesReads(mmu.m, mmu.g, mmu.memory.asked, s, Key(r, i, j));
    return if v.Some? then Value(v.value) else Refused;
  }

  method StoreStep(mmu: Mmu, r: nat, i: nat, j: nat, off: nat, v: Byte, ghost s: State)
      returns (a: Answer, ghost s': State)
    requires mmu.Valid() && InRange(Store(r, i, j, off, v)) && Sees(mmu.m, mmu.g, mmu.memory.asked, s) && r in s.live
    modifies mmu
    ensures mmu.Valid() && Sees(mmu.m, mmu.g, mmu.memory.asked, s')
    ensures Transition(mmu.memory.grants, s, Store(r, i, j, off, v), a, s')
  {
    SeesReads(mmu.m, mmu.g, mmu.memory.asked, s, Key(r, i, j));
    var done := mmu.UserStore(r, i, j, off, v);
    return if done then Done else Refused, s.(mem := mmu.g.mem);
  }

  lemma FaultDone(m: Machine, g: Shadow, a: nat, s: State, m': Machine, g': Shadow, a': nat, s': State, k: Key,
          region: Region,
          file: Option<Page>, took: (nat, nat, nat))
    requires SysOk(m, g, {}) && Sees(m, g, a, s) && Sees(m', g', a', s') && k.r in m.roots && g.mem.Keys == g.leaf.Keys
    requires Prepared(m, g, m', g', k.r, k.i, region.flags.user) && SlotOf(k) in g'.slot
    requires k in g'.leaf && g'.leaf == g.leaf[k := g'.leaf[k]] && g'.leaf[k].flags == MmuFlagsArch(region.flags)
    requires if k in g.leaf then g'.mem == g.mem
             else
               && (region.flags.growsDown || file.Some?)
               && g'.mem == g.mem[k := if region.flags.growsDown then ZERO_PAGE else file.value]
    requires m.free <= m'.free + {took.0, took.1, took.2}
    ensures Faults(s, s', k, region, file)
  {
    IsHoused(m, g);
    PreparedDirs(m, g, m', g', k.r, k.i, region.flags.user, s.dirs, s'.dirs);
    FlagsUpdated(g.leaf, k, g'.leaf[k], s.flags);
    FlagsUnique(g'.leaf, s'.flags, s.flags[k := MmuFlagsArch(region.flags)]);
    FaultMem(g, g', k, region, file);
    LostThree(m.free, m'.free, took.0, took.1, took.2);
  }

  lemma FaultMem(g: Shadow, g': Shadow, k: Key, region: Region, file: Option<Page>)
    requires k !in g.leaf ==> region.flags.growsDown || file.Some?
    requires k !in g.leaf ==> g'.mem == g.mem[k := if region.flags.growsDown then ZERO_PAGE else file.value]
    ensures k !in g.leaf ==> k in g'.mem && g'.mem == g.mem[k := g'.mem[k]] && FaultPage(region, file, g'.mem[k])
  {
  }

  lemma LostThree(free: set<nat>, free': set<nat>, x: nat, y: nat, z: nat)
    requires free <= free' + {x, y, z}
    ensures |free| <= |free'| + 3
  {
    Lost(free, free', {x, y, z});
  }

  lemma Lost(free: set<nat>, free': set<nat>, lost: set<nat>)
    requires free <= free' + lost
    ensures |free| <= |free'| + |lost|
  {
    SizeUpTo(free, free' + lost);
  }

  lemma FaultLost(m: Machine, g: Shadow, a: nat, s: State, m': Machine, g': Shadow, a': nat, s': State, k: Key,
          user: bool, x: nat)
    requires SysOk(m, g, {}) && Sees(m, g, a, s) && Sees(m', g', a', s') && k.r in m.roots
    requires Prepared(m, g, m', g', k.r, k.i, user) && g' == g.(slot := g'.slot) && m.free <= m'.free + {x}
    ensures FaultFails(s, s', k, user)
  {
    IsHoused(m, g);
    PreparedDirs(m, g, m', g', k.r, k.i, user, s.dirs, s'.dirs);
    FlagsUnique(g.leaf, s.flags, s'.flags);
    Lost(m.free, m'.free, {x});
  }

  lemma FaultLacks(m: Machine, g: Shadow, a: nat, s: State, k: Key, x: nat, y: nat)
    requires SysOk(m, g, {}) && Sees(m, g, a, s)
    requires m.free <= if k in g.leaf then {} else if SlotOf(k) in g.slot then {x} else {x, y}
    ensures s.free < FaultNeed(s, k)
  {
    assert g.mem.Keys == g.leaf.Keys;
    assert DirAs(m.table, g.slot, s.dirs, SlotOf(k));
    SizeUpTo(m.free, if k in g.leaf then {} else if SlotOf(k) in g.slot then {x} else {x, y});
  }

  /** A fault that is not served changes nothing, but for the request made in vain. */
  lemma FaultVain(m: Machine, g: Shadow, a: nat, s: State, a': nat, s': State, grants: seq<bool>, op: Op)
    requires SysOk(m, g, {}) && Sees(m, g, a, s) && Sees(m, g, a', s') && op.Fault? && op.r in s.live
    requires !Serves(op.region, op.file, Key(op.r, op.i, op.j) in g.leaf, op.write, op.exec, Address(op.i, op.j))
    requires a' == a + InVain(op.region, Key(op.r, op.i, op.j) in g.leaf, op.write, op.exec)
    ensures Transition(grants, s, op, Refused, s')
  {
    assert g.mem.Keys == g.leaf.Keys;
    FlagsUnique(g.leaf, s.flags, s'.flags);
    DirsUnique(m.table, g.slot, s.dirs, s'.dirs);
  }

  /** Why a fault that should be served was not. */
  ghost predicate Lacks(m: Machine, g: Shadow, k: Key, took: (nat, nat, nat))
  {
    m.free <= if k in g.leaf then {} else if SlotOf(k) in g.slot then {took.0} else {took.0, took.1}
  }

  lemma FaultRefused(m: Machine, g: Shadow, a: nat, s: State, m': Machine, g': Shadow, a': nat, s': State,
          grants: seq<bool>, op: Op, took: (nat, nat, nat))
    requires SysOk(m, g, {}) && Sees(m, g, a, s) && Sees(m', g', a', s') && op.Fault? && op.r in s.live
    requires op.region.Some? && op.r in m.roots && Prepared(m, g, m', g', op.r, op.i, op.region.value.flags.user)
    requires g' == g.(slot := g'.slot) && m.free <= m'.free + {took.1}
    requires !AllGranted(grants, a, a') || Lacks(m, g, Key(op.r, op.i, op.j), took)
    requires Serves(op.region, op.file, Key(op.r, op.i, op.j) in g.leaf, op.write, op.exec, Address(op.i, op.j))
    ensures Transition(grants, s, op, Refused, s')
  {
    var k := Key(op.r, op.i, op.j);
    assert g.mem.Keys == g.leaf.Keys;
    FaultLost(m, g, a, s, m', g', a', s', k, op.region.value.flags.user, took.1);
    if AllGranted(grants, a, a') { FaultLacks(m, g, a, s, k, took.0, took.1); }
  }

  lemma FaultServed(m: Machine, g: Shadow, a: nat, s: State, m': Machine, g': Shadow, a': nat, s': State,
          grants: seq<bool>, op: Op)
    requires SysOk(m, g, {}) && Sees(m, g, a, s) && op.Fault? && op.r in s.live
    requires Serves(op.region, op.file, Key(op.r, op.i, op.j) in g.leaf, op.write, op.exec, Address(op.i, op.j))
    requires Faults(s, s', Key(op.r, op.i, op.j), op.region.value, op.file)
    ensures Transition(grants, s, op, Done, s')
  {
    assert g.mem.Keys == g.leaf.Keys;
  }

  method FaultStep(mmu: Mmu, op: Op, ghost s: State) returns (a: Answer, ghost s': State)
    requires mmu.Valid() && op.Fault? && InRange(op) && Sees(mmu.m, mmu.g, mmu.memory.asked, s) && op.r in s.live
    modifies mmu, mmu.memory
    ensures mmu.Valid() && Sees(mmu.m, mmu.g, mmu.memory.asked, s')
    ensures Transition(mmu.memory.grants, s, op, a, s')
  {
    ghost var m, g, from, k, grants := mmu.m, mmu.g, mmu.memory.asked, Key(op.r, op.i, op.j), mmu.memory.grants;
    assert g.mem.Keys == g.leaf.Keys;
    var out, took := mmu.PageFault(op.r, op.i, op.j, op.write, op.exec, op.region, op.file);
    s' := Look(mmu.m, mmu.g, mmu.memory.asked);
    if out.Handled? {
      FaultDone(m, g, from, s, mmu.m, mmu.g, mmu.memory.asked, s', k, op.region.value, op.file, took);
      FaultServed(m, g, from, s, mmu.m, mmu.g, mmu.memory.asked, s', grants, op);
      return Done, s';
    }
    if !Serves(op.region, op.file, k in g.leaf, op.write, op.exec, Address(op.i, op.j)) {
      FaultVain(m, g, from, s, mmu.memory.asked, s', grants, op);
    } else {
      FaultRefused(m, g, from, s, mmu.m, mmu.g, mmu.memory.asked, s', grants, op, took);
    }
    return Refused, s';
  }

  lemma ForkMade(m: Machine, g: Shadow, a: nat, s: State, m': Machine, g': Shadow, a': nat, s': State, r: nat, c: nat,
          spent: set<nat>)
    requires SysOk(m, g, {}) && SysOk(m', g', {}) && Sees(m, g, a, s) && Sees(m', g', a', s') && r in m.roots
    requires ForkDone(m, g, m', g', r, c) && m.free <= m'.free + spent && |spent| <= 1 + |Rows(g.slot, r, ENTRIES)|
    ensures Forks(s, s', r, c)
  {
    FreeFrame(m, g, {}, c);
    assert m.roots <= m.table.Keys;
    AllPresent(m, g);
    ForkedFlags(g.leaf, g'.leaf, s.flags, s'.flags, r, c);
    ForkedDirs(m, g, m', g', r, c, s.dirs, s'.dirs);
    Lost(m.free, m'.free, spent);
    RowsSeen(m, g, s, r);
  }

  lemma RowsSeen(m: Machine, g: Shadow, s: State, r: nat)
    requires SeesDirs(m.table, g.slot, s.dirs)
    ensures |Rows(g.slot, r, ENTRIES)| <= |DirsOf(s, r)|
  {
    forall x | x in Rows(g.slot, r, ENTRIES) ensures x in DirsOf(s, r) { assert DirAs(m.table, g.slot, s.dirs, x); }
    SizeUpTo(Rows(g.slot, r, ENTRIES), DirsOf(s, r));
  }

  lemma ForkLost(m: Machine, g: Shadow, a: nat, s: State, m': Machine, g': Shadow, a': nat, s': State, r: nat, n: nat)
    requires SysOk(m, g, {}) && Sees(m, g, a, s) && Sees(m', g', a', s') && ForkFailed(m, g, m', g', r, n)
    ensures ForkFails(s, s', r, n)
  {
    AllPresent(m, g);
    IsHoused(m, g);
    FailedFlags(g.leaf, g'.leaf, s.flags, s'.flags, r, n);
    SameDirBits(m.table, m'.table, m.roots, g.slot, s.dirs);
    DirsUnique(m'.table, g.slot, s.dirs, s'.dirs);
  }

  lemma ForkLacks(m: Machine, g: Shadow, a: nat, s: State, r: nat, spent: set<nat>)
    requires Sees(m, g, a, s) && m.free <= spent && |spent| <= |Rows(g.slot, r, ENTRIES)|
    ensures s.free <= |DirsOf(s, r)|
  {
    SizeUpTo(m.free, spent);
    RowsSeen(m, g, s, r);
  }

  method ForkStep(mmu: Mmu, r: nat, ghost s: State) returns (a: Answer, ghost s': State)
    requires mmu.Valid() && Sees(mmu.m, mmu.g, mmu.memory.asked, s) && r in s.live
    modifies mmu, mmu.memory
    ensures mmu.Valid() && Sees(mmu.m, mmu.g, mmu.memory.asked, s')
    ensures Transition(mmu.memory.grants, s, DoFork(r), a, s')
  {
    ghost var m, g, from := mmu.m, mmu.g, mmu.memory.asked;
    var c, n, spent := mmu.CloneContext(r);
    s' := Look(mmu.m, mmu.g, mmu.memory.asked);
    if c.Some? {
      ForkMade(m, g, from, s, mmu.m, mmu.g, mmu.memory.asked, s', r, c.value, spent);
      return Child(c.value), s';
    }
    ForkLost(m, g, from, s, mmu.m, mmu.g, mmu.memory.asked, s', r, n);
    if !mmu.memory.Denied(from) { ForkLacks(m, g, from, s, r, spent); }
    a := Refused;
  }

  lemma ExitMade(m: Machine, g: Shadow, a: nat, s: State, m': Machine, g': Shadow, s': State, r: nat)
    requires SysOk(m, g, {}) && Sees(m, g, a, s) && Sees(m', g', a, s') && m'.roots == m.roots - {r}
    requires SameDirs(m.table, m'.table, m'.roots) && m.free <= m'.free
    requires g' == g.(slot := CutSlots(g.slot, r, ENTRIES), leaf := StripRows(g.leaf, r, ENTRIES),
               mem := Without(g.mem, r))
    ensures Exits(s, s', r)
  {
    AllPresent(m, g);
    IsHoused(m, g);
    forall k ensures (k in s'.flags <==> k in s.flags && k.r != r) && (k in s'.flags ==> s'.flags[k] == s.flags[k]) {
      assert FlagAt(g.leaf, s.flags, k) && FlagAt(g'.leaf, s'.flags, k);
    }
    ExitDirs(m, g, m', g', r, s.dirs, s'.dirs);
    SizeUpTo(m.free, m'.free);
  }

  lemma ExitDirs(m: Machine, g: Shadow, m': Machine, g': Shadow, r: nat, dirs: map<Slot, bool>, dirs': map<Slot, bool>)
    requires SeesDirs(m.table, g.slot, dirs) && SeesDirs(m'.table, g'.slot, dirs') && Housed(m.roots, g.slot)
    requires m'.roots == m.roots - {r} && SameDirs(m.table, m'.table, m'.roots)
             && g'.slot == CutSlots(g.slot, r, ENTRIES)
    ensures (forall x :: x in dirs' <==> x in dirs && x.r != r) && (forall x :: x in dirs' ==> dirs'[x] == dirs[x])
  {
    forall x ensures (x in dirs' <==> x in dirs && x.r != r) && (x in dirs' ==> dirs'[x] == dirs[x]) {
      assert DirAs(m.table, g.slot, dirs, x) && DirAs(m'.table, g'.slot, dirs', x);
    }
  }

  method ExitStep(mmu: Mmu, r: nat, ghost s: State) returns (ghost s': State)
    requires mmu.Valid() && Sees(mmu.m, mmu.g, mmu.memory.asked, s) && r in s.live
    modifies mmu
    ensures mmu.Valid() && Sees(mmu.m, mmu.g, mmu.memory.asked, s')
    ensures Transition(mmu.memory.grants, s, Exit(r), Done, s')
  {
    ghost var m, g := mmu.m, mmu.g;
    mmu.DestroyContext(r);
    s' := Look(mmu.m, mmu.g, mmu.memory.asked);
    ExitMade(m, g, mmu.memory.asked, s, mmu.m, mmu.g, s', r);
  }

  /** One operation of the code is one step of the eager machine, with the same answer. */
  method Step(mmu: Mmu, op: Op, ghost s: State) returns (a: Answer, ghost s': State)
    requires mmu.Valid() && InRange(op) && Sees(mmu.m, mmu.g, mmu.memory.asked, s)
    modifies mmu, mmu.memory
    ensures mmu.Valid() && Sees(mmu.m, mmu.g, mmu.memory.asked, s')
    ensures Transition(mmu.memory.grants, s, op, a, s')
  {
    if op.r !in mmu.m.roots {
      return Refused, s;
    }
    match op
    case Load(r, i, j, off) =>
      a := LoadStep(mmu, r, i, j, off, s);
      s' := s;
    case Store(r, i, j, off, v) =>
      a, s' := StoreStep(mmu, r, i, j, off, v, s);
    case Fault(_, _, _, _, _, _, _) =>
      a, s' := FaultStep(mmu, op, s);
    case DoFork(r) =>
      a, s' := ForkStep(mmu, r, s);
    case Exit(r) =>
      s' := ExitStep(mmu, r, s);
      a := Done;
  }

  /** Every run of the code is a run of the eager machine. */
  method Run(mmu: Mmu, ops: seq<Op>) returns (answers: seq<Answer>, ghost states: seq<State>)
    requires mmu.Valid() && forall n :: 0 <= n < |ops| ==> InRange(ops[n])
    modifies mmu, mmu.memory
    ensures mmu.Valid() && EagerRun(mmu.memory.grants, states, ops, answers)
    ensures Sees(old(mmu.m), old(mmu.g), old(mmu.memory.asked), states[0])
            && Sees(mmu.m, mmu.g, mmu.memory.asked, states[|ops|])
  {
    ghost var first := Look(mmu.m, mmu.g, mmu.memory.asked);
    ghost var s := first;
    answers, states := [], [s];
    for n := 0 to |ops|
      invariant mmu.Valid() && EagerRun(mmu.memory.grants, states, ops[..n], answers)
      invariant states[0] == first && states[n] == s && Sees(mmu.m, mmu.g, mmu.memory.asked, s)
    {
      Longer(ops, n);
      var a;
      ghost var s';
      a, s' := Step(mmu, ops[n], s);
      RunStep(mmu.memory.grants, states, ops[..n], answers, ops[n], a, s');
      answers, states, s := answers + [a], states + [s'], s';
    }
    assert ops[..|ops|] == ops;
  }

  lemma Longer(ops: seq<Op>, n: nat)
    requires n < |ops|
    ensures ops[..n + 1] == ops[..n] + [ops[n]]
  {
  }

  lemma RunStep(grants: seq<bool>, states: seq<State>, ops: seq<Op>, answers: seq<Answer>, op: Op, a: Answer, s': State)
    requires EagerRun(grants, states, ops, answers) && Transition(grants, states[|ops|], op, a, s')
    ensures EagerRun(grants, states + [s'], ops + [op], answers + [a])
  {
    var states', ops', answers' := states + [s'], ops + [op], answers + [a];
    forall n | 0 <= n < |ops'| ensures Transition(grants, states'[n], ops'[n], answers'[n], states'[n + 1]) {
      assert n < |ops| ==> Transition(grants, states[n], ops[n], answers[n], states[n + 1]);
    }
  }

  /**
    A store as a user program sees it: on a fault the kernel steps in and the store is tried again. It
    takes effect as one eager store, after the demand mapping if there was none.
   */
  method StoreThroughFault(mmu: Mmu, r: nat, i: nat, j: nat, off: nat, v: Byte, region: Region,
          file: Option<Page>) returns (done: bool, out: Outcome)
    requires mmu.Valid() && r in mmu.m.roots && InRange(Store(r, i, j, off, v))
             && (file.Some? ==> |file.value| == PAGE_SIZE)
    modifies mmu, mmu.memory
    ensures mmu.Valid()
    ensures var k, mem := Key(r, i, j), old(mmu.g.mem);
            if !done then mmu.g.mem == mem || (k !in mem && k in mmu.g.mem && mmu.g.mem == mem[k := mmu.g.mem[k]])
            else if k in mem then off < |mem[k]| && mmu.g.mem == mem[k := mem[k][off := v]]
            else var page := if region.flags.growsDown then ZERO_PAGE
                             else (if file.Some? then file.value else ZERO_PAGE);
                 off < |page| && mmu.g.mem == mem[k := page[off := v]]
    ensures out.Handled? && region.flags.user && (Slot(r, i) in old(mmu.g.slot) ==> UserDir(old(mmu.m.table), r, i)) ==>
              done
    ensures out.Segfault? <==> !done && !region.flags.write
  {
    ghost var k := Key(r, i, j);
    assert mmu.g.mem.Keys == mmu.g.leaf.Keys;
    done := mmu.UserStore(r, i, j, off, v);
    if done {
      return true, Handled;
    }
    ghost var took;
    out, took := mmu.PageFault(r, i, j, true, false, Some(region), file);
    if out.Handled? {
      ghost var page := mmu.g.mem[k];
      done := mmu.UserStore(r, i, j, off, v);
      if done {
        Overwrite(old(mmu.g.mem), k, page, page[off := v]);
      }
    }
  }

  lemma FewFramesExact(free: set<nat>)
    ensures FewFrames(free) <==> |free| <= 2
  {
    if x, y :| free <= {x, y} { SizeUpTo(free, {x, y}); }
    if |free| <= 2 {
      if free != {} {
        var x :| x in free;
        if free - {x} != {} {
          var y :| y in free - {x};
          SizeUpTo({x, y}, free);
          assert |free - {x} - {y}| == 0;
          assert free <= {x, y};
        } else {
          assert free <= {x, x};
        }
      } else {
        assert free <= {0, 0};
      }
    }
  }

  /**
    A load as a user program sees it, from the flags of the region. An absent page of a region that may be read reads as
    zero on the stack and else as the file's byte, and one of a region that may not be read, or not executed by a fetch,
    ends the program.
   */
  method LoadThroughFault(mmu: Mmu, r: nat, i: nat, j: nat, off: nat, exec: bool, region: Region, file: Option<Page>)
      returns (v: Option<Byte>, out: Outcome)
    requires mmu.Valid() && r in mmu.m.roots && InRange(Load(r, i, j, off))
             && (file.Some? ==> |file.value| == PAGE_SIZE)
    modifies mmu, mmu.memory
    ensures mmu.Valid()
    ensures var k, mem := Key(r, i, j), old(mmu.g.mem);
            if k in mem then mmu.g.mem == mem && (v.Some? ==> off < |mem[k]| && v.value == mem[k][off])
            else if out.Handled? then
              k in mmu.g.mem && off < |mmu.g.mem[k]| && mmu.g.mem == mem[k := mmu.g.mem[k]]
              && (v.Some? ==> v.value == mmu.g.mem[k][off])
            else v.None? && mmu.g.mem == mem
    ensures v.Some? && Key(r, i, j) !in old(mmu.g.mem) ==>
              v.value == if region.flags.growsDown then 0 else (if file.Some? then file.value[off] else 0)
    ensures Key(r, i, j) !in old(mmu.g.mem) ==> (out.Segfault? <==> !region.flags.read || (exec && !region.flags.exec))
    ensures Key(r, i, j) !in old(mmu.g.mem) && region.flags.read && region.flags.user && (exec ==> region.flags.exec)
            && (region.flags.growsDown || (region.hasFile && file.Some?)) && !FewFrames(old(mmu.m.free))
            && !mmu.memory.Denied(old(mmu.memory.asked))
            && (Slot(r, i) in old(mmu.g.slot) ==> UserDir(old(mmu.m.table), r, i)) ==>
              v.Some?
  {
    ghost var k := Key(r, i, j);
    assert mmu.g.mem.Keys == mmu.g.leaf.Keys;
    v := mmu.UserLoad(r, i, j, off);
    if v.Some? {
      return v, Handled;
    }
    out := FaultForLoad(mmu, r, i, j, exec, region, file);
    if out.Handled? {
      v := mmu.UserLoad(r, i, j, off);
    }
  }

  /** The fault of a load that did not get through. */
  method FaultForLoad(mmu: Mmu, r: nat, i: nat, j: nat, exec: bool, region: Region, file: Option<Page>)
      returns (out: Outcome)
    requires mmu.Valid() && r in mmu.m.roots && i < USER_ENTRIES && j < ENTRIES
    requires file.Some? ==> |file.value| == PAGE_SIZE
    modifies mmu, mmu.memory
    ensures mmu.Valid() && r in mmu.m.roots && mmu.g.mem.Keys == mmu.g.leaf.Keys
    ensures Key(r, i, j) in old(mmu.g.leaf) ==> out.Segfault? && mmu.g.mem == old(mmu.g.mem)
    ensures Key(r, i, j) !in old(mmu.g.leaf) ==> (out.Segfault? <==> !region.flags.read || (exec && !region.flags.exec))
    ensures !out.Handled? ==> mmu.g.mem == old(mmu.g.mem)
    ensures out.Handled? ==>
              var k := Key(r, i, j);
              && k in mmu.g.mem && mmu.g.mem == old(mmu.g.mem)[k := mmu.g.mem[k]]
              && (region.flags.growsDown || file.Some?)
              && mmu.g.mem[k] == (if region.flags.growsDown then ZERO_PAGE else file.value)
              && k in mmu.g.leaf && mmu.g.leaf[k].flags.us == region.flags.user
              && (region.flags.user && (Slot(r, i) in old(mmu.g.slot) ==> UserDir(old(mmu.m.table), r, i)) ==>
                    UserDir(mmu.m.table, r, i))
    ensures Key(r, i, j) !in old(mmu.g.leaf) && region.flags.read && (exec ==> region.flags.exec)
            && (region.flags.growsDown || (region.hasFile && file.Some?))
            && !FewFrames(old(mmu.m.free)) && !mmu.memory.Denied(old(mmu.memory.asked)) ==>
              out.Handled?
  {
    assert mmu.g.mem.Keys == mmu.g.leaf.Keys;
    ghost var took;
    out, took := mmu.PageFault(r, i, j, false, exec, Some(region), file);
    assert mmu.g.mem.Keys == mmu.g.leaf.Keys;
    if !out.Handled? && old(mmu.m.free) <= {took.0, took.1} { assert FewFrames(old(mmu.m.free)); }
  }
}
