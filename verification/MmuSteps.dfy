/**
  What each small change the MMU code makes does to the whole machine: the tables, the reference counts,
  the frame accounting, and the memory every context reads.
 */
module MmuSteps {
  import opened Common
  import opened CowFlat
  import opened Tables

  /**
    `free`: frames the page allocator can hand out; `count`: reference counts of the others; `table` and
    `bytes`: contents of the frames used as page tables and as user pages; `roots`: page directories.
   */
  datatype Machine = Machine(free: set<nat>, count: map<nat, nat>, bytes: map<nat, Page>, table: Tabs, roots: set<nat>)

  /**
    For the proofs: the table of each slot, the leaves, the frames held, all frames, and the eager picture,
    in which every leaf has a page of its own.
   */
  datatype Shadow = Shadow(slot: Slots, leaf: Leaves, held: set<nat>, all: set<nat>, mem: map<Key, Page>)

  ghost predicate SysOk(m: Machine, g: Shadow, open: set<Slot>)
  {
    && FlatOk(g.leaf, m.count, m.bytes)
    && AccountOk(m.free, m.count, m.table.Keys, m.bytes.Keys, g.held, g.all)
    && ShapeOk(m.table, m.roots, g.slot, g.leaf, open)
    && Shows(g.leaf, m.bytes, g.mem)
  }

  // ----- Frames that no table mentions

  /** A free frame is handed out, with one reference. */
  function Taken(m: Machine, f: nat): Machine
  {
    m.(free := m.free - {f}, count := m.count[f := 1])
  }

  lemma Take(m: Machine, g: Shadow, open: set<Slot>, f: nat)
    requires SysOk(m, g, open) && f in m.free
    ensures SysOk(Taken(m, f), g.(held := g.held + {f}), open)
  {
    var count' := m.count[f := 1];
    forall t | t in m.table.Keys || t in g.held + {f} ensures One(count', t) { assert One(m.count, t) || t == f; }
    FlatFrame(g.leaf, m.count, count', m.bytes);
  }

  /** A frame with one reference goes back to the allocator. */
  function Given(m: Machine, f: nat): Machine
  {
    m.(free := m.free + {f}, count := m.count - {f})
  }

  lemma Give(m: Machine, g: Shadow, open: set<Slot>, f: nat)
    requires SysOk(m, g, open) && f in g.held
    ensures SysOk(Given(m, f), g.(held := g.held - {f}), open)
  {
    var count' := m.count - {f};
    forall t | t in m.table.Keys || t in g.held - {f} ensures One(count', t) { assert One(m.count, t); }
    FlatFrame(g.leaf, m.count, count', m.bytes);
  }

  lemma HeldFrame(m: Machine, g: Shadow, open: set<Slot>, f: nat)
    requires SysOk(m, g, open) && f in g.held
    ensures f in m.count && m.count[f] == 1 && f !in m.bytes && f !in m.table && f !in m.free
  {
    assert One(m.count, f);
  }

  // ----- Tables come and go

  lemma NewTable(m: Machine, g: Shadow, open: set<Slot>, s: Slot, t: nat)
    requires SysOk(m, g, open) && t in g.held && s !in g.slot && s.i < USER_ENTRIES && s.r in m.roots
    ensures SysOk(m.(table := m.table[t := ZERO_TABLE]), g.(slot := g.slot[s := t], held := g.held - {t}), open + {s})
  {
    HeldFrame(m, g, open, t);
    AddTable(m.table, m.roots, g.slot, g.leaf, open, s, t);
    TableAccount(m, g, open, t);
  }

  lemma TableAccount(m: Machine, g: Shadow, open: set<Slot>, t: nat)
    requires SysOk(m, g, open) && t in g.held
    ensures AccountOk(m.free, m.count, m.table[t := ZERO_TABLE].Keys, m.bytes.Keys, g.held - {t}, g.all)
  {
    assert m.table[t := ZERO_TABLE].Keys == m.table.Keys + {t};
  }

  lemma NewRoot(m: Machine, g: Shadow, r: nat)
    requires SysOk(m, g, {}) && r in g.held
    ensures SysOk(m.(table := m.table[r := ZERO_TABLE], roots := m.roots + {r}), g.(held := g.held - {r}), {})
    ensures r !in m.roots && forall i :: Slot(r, i) !in g.slot
  {
    HeldFrame(m, g, {}, r);
    AddRoot(m.table, m.roots, g.slot, g.leaf, r);
    TableAccount(m, g, {}, r);
  }

  /** Linking a slot's table, or writing an entry of the shared kernel part. */
  lemma WriteRoot(m: Machine, g: Shadow, open: set<Slot>, r: nat, i: nat, e: Pte, open': set<Slot>)
    requires SysOk(m, g, open) && r in m.roots && i < ENTRIES
    requires if i >= USER_ENTRIES then open' == open
             else Slot(r, i) in g.slot && e == MkTable(g.slot[Slot(r, i)], e.flags.us) && open' == open - {Slot(r, i)}
    ensures r in m.table && |m.table[r]| == ENTRIES
    ensures SysOk(m.(table := Put(m.table, r, i, e)), g, open')
  {
    PutRoot(m.table, m.roots, g.slot, g.leaf, open, r, i, e, open');
    assert Put(m.table, r, i, e).Keys == m.table.Keys;
  }

  function TableFreed(m: Machine, r: nat, i: nat, t: nat): Machine
    requires r in m.table && i < |m.table[r]|
  {
    Given(m.(table := Put(m.table, r, i, ABSENT) - {t}), t)
  }

  lemma FreeAccount(m: Machine, g: Shadow, open: set<Slot>, t: nat)
    requires SysOk(m, g, open) && t in m.table
    ensures AccountOk(m.free + {t}, m.count - {t}, m.table.Keys - {t}, m.bytes.Keys, g.held, g.all)
    ensures FlatOk(g.leaf, m.count - {t}, m.bytes)
  {
    var count' := m.count - {t};
    forall u | u in m.table.Keys - {t} || u in g.held ensures One(count', u) { assert One(m.count, u); }
    FlatFrame(g.leaf, m.count, count', m.bytes);
  }

  lemma FreeTable(m: Machine, g: Shadow, open: set<Slot>, s: Slot)
    requires SysOk(m, g, open) && s in g.slot && forall k :: k in g.leaf ==> SlotOf(k) != s
    ensures s.r in m.table && s.i < |m.table[s.r]|
    ensures SysOk(TableFreed(m, s.r, s.i, g.slot[s]), g.(slot := g.slot - {s}), open - {s})
  {
    SlotTable(m.table, m.roots, g.slot, s);
    var table' := Put(m.table, s.r, s.i, ABSENT) - {g.slot[s]};
    DropTable(m.table, m.roots, g.slot, g.leaf, open, s, table');
    FreeAccount(m, g, open, g.slot[s]);
    assert table'.Keys == m.table.Keys - {g.slot[s]};
  }

  function RootFreed(m: Machine, r: nat): Machine
  {
    Given(m.(table := m.table - {r}, roots := m.roots - {r}), r)
  }

  lemma FreeRoot(m: Machine, g: Shadow, r: nat)
    requires SysOk(m, g, {}) && r in m.roots && forall s :: s in g.slot ==> s.r != r
    ensures SysOk(RootFreed(m, r), g, {})
  {
    DropRoot(m.table, m.roots, g.slot, g.leaf, r);
    assert r in m.table;
    FreeAccount(m, g, {}, r);
    assert (m.table - {r}).Keys == m.table.Keys - {r};
  }

  // ----- Leaves come, change and go

  lemma MapAccount(free: set<nat>, count: map<nat, nat>, tables: set<nat>, datas: set<nat>, held: set<nat>,
          all: set<nat>, f: nat)
    requires AccountOk(free, count, tables, datas, held, all) && f in held
    ensures AccountOk(free, count, tables, datas + {f}, held - {f}, all)
  {
  }

  lemma UnmapAccount(free: set<nat>, count: map<nat, nat>, tables: set<nat>, datas: set<nat>, held: set<nat>,
          all: set<nat>, f: nat)
    requires AccountOk(free, count, tables, datas, held, all) && f in datas && One(count, f)
    ensures AccountOk(free, count, tables, datas - {f}, held + {f}, all)
  {
  }

  lemma CountAccount(free: set<nat>, count: map<nat, nat>, tables: set<nat>, datas: set<nat>, held: set<nat>,
          all: set<nat>, f: nat, n: nat)
    requires AccountOk(free, count, tables, datas, held, all) && f in datas
    ensures AccountOk(free, count[f := n], tables, datas, held, all)
  {
    var count' := count[f := n];
    forall t | t in tables || t in held ensures One(count', t) { assert One(count, t); }
  }

  /** A held frame is mapped at an absent entry. */
  lemma MapLeaf(m: Machine, g: Shadow, open: set<Slot>, s: Slot, j: nat, p: Pte, page: Page)
    requires SysOk(m, g, open) && s in g.slot && j < ENTRIES && KeyOf(s, j) !in g.leaf
    requires p.present && p.frame in g.held && |page| == PAGE_SIZE
    ensures g.slot[s] in m.table && |m.table[g.slot[s]]| == ENTRIES
    ensures var m' := m.(table := Put(m.table, g.slot[s], j, p), bytes := m.bytes[p.frame := page]);
            var g' := g.(leaf := g.leaf[KeyOf(s, j) := p], held := g.held - {p.frame},
                mem := g.mem[KeyOf(s, j) := page]);
            SysOk(m', g', open)
  {
    HeldFrame(m, g, open, p.frame);
    PutLeaf(m.table, m.roots, g.slot, g.leaf, open, s, j, p);
    ShowsContents(g.leaf, m.count, m.bytes, g.mem);
    MapHeldStep(g.leaf, m.count, m.bytes, KeyOf(s, j), p, page);
    ShowsContents(g.leaf[KeyOf(s, j) := p], m.count, m.bytes[p.frame := page], g.mem[KeyOf(s, j) := page]);
    assert Put(m.table, g.slot[s], j, p).Keys == m.table.Keys;
    assert m.bytes[p.frame := page].Keys == m.bytes.Keys + {p.frame};
    MapAccount(m.free, m.count, m.table.Keys, m.bytes.Keys, g.held, g.all, p.frame);
  }

  /** A mapping is overwritten: the frame it was the only one to name is held from now on, by nobody. */
  lemma ReplaceLeaf(m: Machine, g: Shadow, open: set<Slot>, s: Slot, j: nat, p: Pte, page: Page)
    requires SysOk(m, g, open) && s in g.slot && j < ENTRIES && KeyOf(s, j) in g.leaf
    requires p.present && p.frame in g.held && |page| == PAGE_SIZE
    requires One(m.count, g.leaf[KeyOf(s, j)].frame)
    ensures g.slot[s] in m.table && |m.table[g.slot[s]]| == ENTRIES
    ensures var f := g.leaf[KeyOf(s, j)].frame;
            var m' := m.(table := Put(m.table, g.slot[s], j, p), bytes := (m.bytes - {f})[p.frame := page]);
            var g' := g.(leaf := g.leaf[KeyOf(s, j) := p], held := g.held - {p.frame} + {f},
                mem := g.mem[KeyOf(s, j) := page]);
            SysOk(m', g', open)
  {
    var k := KeyOf(s, j);
    var f := g.leaf[k].frame;
    HeldFrame(m, g, open, p.frame);
    LeafFrame(m, g, open, k);
    PutLeaf(m.table, m.roots, g.slot, g.leaf, open, s, j, p);
    ShowsContents(g.leaf, m.count, m.bytes, g.mem);
    ReplaceStep(g.leaf, m.count, m.bytes, k, p, page);
    ShowsContents(g.leaf[k := p], m.count, (m.bytes - {f})[p.frame := page], g.mem[k := page]);
    assert Put(m.table, g.slot[s], j, p).Keys == m.table.Keys;
    MapAccount(m.free, m.count, m.table.Keys, m.bytes.Keys, g.held, g.all, p.frame);
    UnmapAccount(m.free, m.count, m.table.Keys, m.bytes.Keys + {p.frame}, g.held - {p.frame}, g.all, f);
    assert (m.bytes - {f})[p.frame := page].Keys == m.bytes.Keys + {p.frame} - {f};
  }

  lemma LeafFrame(m: Machine, g: Shadow, open: set<Slot>, k: Key)
    requires SysOk(m, g, open) && k in g.leaf
    ensures var f := g.leaf[k].frame;
            f in m.bytes && |m.bytes[f]| == PAGE_SIZE && f in m.count && m.count[f] >= 1 && f !in m.table
                && f !in g.held && f !in m.free
  {
    assert Counted(g.leaf, m.count, m.bytes, k);
    assert Names(g.leaf, g.leaf[k].frame, k);
    NotEmpty(g.leaf, g.leaf[k].frame);
  }

  /** A shared mapping is redirected to a private copy, and the shared frame loses a reference. */
  function Copied(m: Machine, t: nat, j: nat, p: Pte, f: nat): Machine
    requires t in m.table && j < |m.table[t]| && f in m.count && m.count[f] > 1 && f in m.bytes
  {
    m.(table := Put(m.table, t, j, p), bytes := m.bytes[p.frame := m.bytes[f]], count := m.count[f := m.count[f] - 1])
  }

  lemma CopyLeaf(m: Machine, g: Shadow, open: set<Slot>, s: Slot, j: nat, p: Pte)
    requires SysOk(m, g, open) && s in g.slot && j < ENTRIES && KeyOf(s, j) in g.leaf
    requires p.present && p.frame in g.held && !One(m.count, g.leaf[KeyOf(s, j)].frame)
    ensures g.slot[s] in m.table && |m.table[g.slot[s]]| == ENTRIES
    ensures var f := g.leaf[KeyOf(s, j)].frame;
            && f in m.count && m.count[f] > 1 && f in m.bytes
            && var m' := Copied(m, g.slot[s], j, p, f);
               var g' := g.(leaf := g.leaf[KeyOf(s, j) := p], held := g.held - {p.frame});
               SysOk(m', g', open)
  {
    var k := KeyOf(s, j);
    var f := g.leaf[k].frame;
    HeldFrame(m, g, open, p.frame);
    LeafFrame(m, g, open, k);
    PutLeaf(m.table, m.roots, g.slot, g.leaf, open, s, j, p);
    ShowsContents(g.leaf, m.count, m.bytes, g.mem);
    CopyStep(g.leaf, m.count, m.bytes, k, p);
    var count' := m.count[f := m.count[f] - 1];
    assert count'[p.frame := 1] == count';
    ShowsContents(g.leaf[k := p], count', m.bytes[p.frame := m.bytes[f]], g.mem);
    CountAccount(m.free, m.count, m.table.Keys, m.bytes.Keys, g.held, g.all, f, m.count[f] - 1);
    MapAccount(m.free, count', m.table.Keys, m.bytes.Keys, g.held, g.all, p.frame);
    assert Put(m.table, g.slot[s], j, p).Keys == m.table.Keys;
    assert m.bytes[p.frame := m.bytes[f]].Keys == m.bytes.Keys + {p.frame};
  }

  /** The only mapping of a frame gets new flags. */
  lemma FlagLeaf(m: Machine, g: Shadow, open: set<Slot>, s: Slot, j: nat, p: Pte)
    requires SysOk(m, g, open) && s in g.slot && j < ENTRIES && KeyOf(s, j) in g.leaf
    requires p.present && p.frame == g.leaf[KeyOf(s, j)].frame && One(m.count, p.frame)
    ensures g.slot[s] in m.table && |m.table[g.slot[s]]| == ENTRIES
    ensures var m' := m.(table := Put(m.table, g.slot[s], j, p));
            var g' := g.(leaf := g.leaf[KeyOf(s, j) := p]);
            SysOk(m', g', open)
  {
    PutLeaf(m.table, m.roots, g.slot, g.leaf, open, s, j, p);
    ShowsContents(g.leaf, m.count, m.bytes, g.mem);
    UpgradeStep(g.leaf, m.count, m.bytes, KeyOf(s, j), p);
    ShowsContents(g.leaf[KeyOf(s, j) := p], m.count, m.bytes, g.mem);
    assert Put(m.table, g.slot[s], j, p).Keys == m.table.Keys;
  }

  /** One leaf is forked: the frame gains a reference, both entries become `p`. */
  function Shared(m: Machine, t: nat, t': nat, j: nat, p: Pte): Machine
    requires t in m.table && j < |m.table[t]| && t' in m.table && j < |m.table[t']| && p.frame in m.count
  {
    m.(table := Put(Put(m.table, t, j, p), t', j, p), count := m.count[p.frame := m.count[p.frame] + 1])
  }

  lemma ShareLeaf(m: Machine, g: Shadow, open: set<Slot>, s: Slot, s': Slot, j: nat, p: Pte)
    requires SysOk(m, g, open) && s in g.slot && s' in g.slot && j < ENTRIES && KeyOf(s, j) in g.leaf
             && KeyOf(s', j) !in g.leaf
    requires p.present && p.frame == g.leaf[KeyOf(s, j)].frame && !Writable(p)
    ensures p.frame in m.count && g.slot[s] in m.table && |m.table[g.slot[s]]| == ENTRIES
    ensures g.slot[s'] in m.table && |m.table[g.slot[s']]| == ENTRIES && KeyOf(s, j) in g.mem
    ensures var m' := Shared(m, g.slot[s], g.slot[s'], j, p);
            var g' := g.(leaf := g.leaf[KeyOf(s, j) := p][KeyOf(s', j) := p],
                mem := g.mem[KeyOf(s', j) := g.mem[KeyOf(s, j)]]);
            SysOk(m', g', open)
  {
    LeafFrame(m, g, open, KeyOf(s, j));
    PutLeaf(m.table, m.roots, g.slot, g.leaf, open, s, j, p);
    var mid := Put(m.table, g.slot[s], j, p);
    PutLeaf(mid, m.roots, g.slot, g.leaf[KeyOf(s, j) := p], open, s', j, p);
    ShowsContents(g.leaf, m.count, m.bytes, g.mem);
    ShareStep(g.leaf, m.count, m.bytes, KeyOf(s, j), KeyOf(s', j), p);
    ShowsContents(g.leaf[KeyOf(s, j) := p][KeyOf(s', j) := p], m.count[p.frame := m.count[p.frame] + 1], m.bytes,
        g.mem[KeyOf(s', j) := g.mem[KeyOf(s, j)]]);
    assert Put(mid, g.slot[s'], j, p).Keys == mid.Keys == m.table.Keys;
    SlotTable(m.table, m.roots, g.slot, s');
    CountAccount(m.free, m.count, m.table.Keys, m.bytes.Keys, g.held, g.all, p.frame, m.count[p.frame] + 1);
  }

  /** A leaf is unmapped and its frame loses a reference, going free with the last one. */
  function Dropped(m: Machine, t: nat, j: nat, f: nat): Machine
    requires t in m.table && j < |m.table[t]| && f in m.count && m.count[f] >= 1
  {
    var m0 := m.(table := Put(m.table, t, j, ABSENT));
    if m.count[f] == 1 then Given(m0.(bytes := m.bytes - {f}), f) else m0.(count := m.count[f := m.count[f] - 1])
  }

  lemma DropLeaf(m: Machine, g: Shadow, open: set<Slot>, s: Slot, j: nat)
    requires SysOk(m, g, open) && s in g.slot && j < ENTRIES && KeyOf(s, j) in g.leaf
    ensures g.slot[s] in m.table && |m.table[g.slot[s]]| == ENTRIES
    ensures var f := g.leaf[KeyOf(s, j)].frame;
            && f in m.count && m.count[f] >= 1
            && var m' := Dropped(m, g.slot[s], j, f);
               var g' := g.(leaf := g.leaf - {KeyOf(s, j)}, mem := g.mem - {KeyOf(s, j)});
               SysOk(m', g', open)
  {
    var k := KeyOf(s, j);
    var f := g.leaf[k].frame;
    LeafFrame(m, g, open, k);
    PutLeaf(m.table, m.roots, g.slot, g.leaf, open, s, j, ABSENT);
    ShowsContents(g.leaf, m.count, m.bytes, g.mem);
    DropStep(g.leaf, m.count, m.bytes, k);
    var m' := Dropped(m, g.slot[s], j, f);
    ShowsContents(g.leaf - {k}, m'.count, m'.bytes, g.mem - {k});
    assert m'.table.Keys == m.table.Keys;
    DropAccount(m, g, f, m'.count);
    assert (m.bytes - {f}).Keys == m.bytes.Keys - {f};
  }

  lemma DropAccount(m: Machine, g: Shadow, f: nat, count': map<nat, nat>)
    requires AccountOk(m.free, m.count, m.table.Keys, m.bytes.Keys, g.held, g.all) && f in m.bytes && m.count[f] >= 1
    requires count' == if m.count[f] == 1 then m.count - {f} else m.count[f := m.count[f] - 1]
    ensures if m.count[f] == 1 then AccountOk(m.free + {f}, count', m.table.Keys, m.bytes.Keys - {f}, g.held, g.all)
            else AccountOk(m.free, count', m.table.Keys, m.bytes.Keys, g.held, g.all)
  {
    forall t | t in m.table.Keys || t in g.held ensures One(count', t) { assert One(m.count, t); }
  }

  /** A user store through a writable leaf. */
  lemma StoreLeaf(m: Machine, g: Shadow, open: set<Slot>, k: Key, page: Page)
    requires SysOk(m, g, open) && k in g.leaf && Writable(g.leaf[k]) && |page| == PAGE_SIZE
    ensures var m' := m.(bytes := m.bytes[g.leaf[k].frame := page]);
            SysOk(m', g.(mem := g.mem[k := page]), open)
  {
    LeafFrame(m, g, open, k);
    ShowsContents(g.leaf, m.count, m.bytes, g.mem);
    StoreStep(g.leaf, m.count, m.bytes, k, page);
    ShowsContents(g.leaf, m.count, m.bytes[g.leaf[k].frame := page], g.mem[k := page]);
    assert m.bytes[g.leaf[k].frame := page].Keys == m.bytes.Keys;
  }
}
