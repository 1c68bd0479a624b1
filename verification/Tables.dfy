/**
  Two-level page tables in physical frames. A context is named by the frame of its page directory; `slot`
  says which frame holds the table of which directory entry, and `leaf` lists the present entries of those
  tables. The lemmas keep these views and the frame accounting in step with what the MMU code writes.
 */
module Tables {
  import opened CowFlat

  const ENTRIES := 1024
  const USER_SPACE_END := 0xBFFF_FFFF

  /** Directory entry `i` covers addresses from `i << 22`; those at or above the end of user space are shared. */
  predicate KernelEntry(i: nat)
  {
    i * 0x40_0000 >= USER_SPACE_END
  }

  const USER_ENTRIES := 768

  /** The address test splits the directory at entry 768. */
  lemma KernelSplit(i: nat)
    ensures KernelEntry(i) <==> i >= USER_ENTRIES
  {
  }

  const NO_FLAGS := PteFlags(false, false, false, false, false, false, false, false)

  const ABSENT := Pte(false, 0, NO_FLAGS)

  /** A cleared frame, read as a table. */
  const ZERO_TABLE: seq<Pte> := seq(ENTRIES, _ => ABSENT)

  /** A directory entry: always writable, user-accessible if its first mapping was. */
  function MkTable(frame: nat, user: bool): Pte
  {
    Pte(true, frame, NO_FLAGS.(rw := true, us := user))
  }

  datatype Slot = Slot(r: nat, i: nat)
  type Slots = map<Slot, nat>
  type Tabs = map<nat, seq<Pte>>

  function KeyOf(s: Slot, j: nat): Key
  {
    Key(s.r, s.i, j)
  }

  function SlotOf(k: Key): Slot
  {
    Slot(k.r, k.i)
  }

  // ----- Frame accounting

  predicate One(count: map<nat, nat>, t: nat)
  {
    t in count && count[t] == 1
  }

  /**
    Every frame is free, a table, a mapped data frame, or held: allocated but not reachable from any
    directory. Tables and held frames have one reference.
   */
  ghost predicate AccountOk(free: set<nat>, count: map<nat, nat>, tables: set<nat>, datas: set<nat>, held: set<nat>,
          all: set<nat>)
  {
    && free !! count.Keys && free + count.Keys == all
    && tables !! datas && tables !! held && datas !! held && count.Keys == tables + datas + held
    && (forall t {:trigger One(count, t)} :: t in tables || t in held ==> One(count, t))
  }

  // ----- Shape of the tables

  predicate Full(table: Tabs, t: nat)
  {
    t in table && |table[t]| == ENTRIES
  }

  predicate SlotOk(roots: set<nat>, slot: Slots, s: Slot)
  {
    s in slot && s.i < USER_ENTRIES && s.r in roots
  }

  predicate Distinct(slot: Slots, s: Slot, s': Slot)
  {
    s in slot && s' in slot && s != s' ==> slot[s] != slot[s']
  }

  /** Entry `j` of the table of slot `s` and the leaf of that name agree. */
  predicate Tied(table: Tabs, slot: Slots, leaf: Leaves, s: Slot, j: nat)
  {
    && s in slot && slot[s] in table && j < |table[slot[s]]|
    && var e := table[slot[s]][j];
       (e.present <==> KeyOf(s, j) in leaf) && (e.present ==> leaf[KeyOf(s, j)] == e)
  }

  predicate Homed(slot: Slots, k: Key)
  {
    SlotOf(k) in slot && k.j < ENTRIES
  }

  /** Directory entry `i` of context `r` points at the slot's table exactly when there is one. */
  predicate Linked(table: Tabs, slot: Slots, r: nat, i: nat)
  {
    && r in table && i < |table[r]|
    && var e := table[r][i];
       (e.present <==> Slot(r, i) in slot) && (e.present ==> e == MkTable(slot[Slot(r, i)], e.flags.us))
  }

  ghost predicate OwnersOk(table: Tabs, roots: set<nat>, slot: Slots)
  {
    && table.Keys == roots + slot.Values && roots !! slot.Values
    && (forall t {:trigger Full(table, t)} :: t in table ==> Full(table, t))
    && (forall s {:trigger SlotOk(roots, slot, s)} :: s in slot ==> SlotOk(roots, slot, s))
    && (forall s, s' {:trigger Distinct(slot, s, s')} :: Distinct(slot, s, s'))
  }

  ghost predicate TiesOk(table: Tabs, slot: Slots, leaf: Leaves)
  {
    && (forall s, j {:trigger Tied(table, slot, leaf, s, j)} :: s in slot && 0 <= j < ENTRIES ==>
         Tied(table, slot, leaf, s, j))
    && (forall k {:trigger Homed(slot, k)} :: k in leaf ==> Homed(slot, k))
  }

  /** All user directory entries are linked, but for slots in `open`. */
  ghost predicate LinksOk(table: Tabs, roots: set<nat>, slot: Slots, open: set<Slot>)
  {
    forall r, i {:trigger Linked(table, slot, r, i)} :: r in roots && 0 <= i < USER_ENTRIES && Slot(r, i) !in open ==>
        Linked(table, slot, r, i)
  }

  ghost predicate ShapeOk(table: Tabs, roots: set<nat>, slot: Slots, leaf: Leaves, open: set<Slot>)
  {
    OwnersOk(table, roots, slot) && TiesOk(table, slot, leaf) && LinksOk(table, roots, slot, open)
  }

  lemma SlotTable(table: Tabs, roots: set<nat>, slot: Slots, s: Slot)
    requires OwnersOk(table, roots, slot) && s in slot
    ensures slot[s] in table && |table[slot[s]]| == ENTRIES && slot[s] !in roots
    ensures s.i < USER_ENTRIES && s.r in roots && s.r in table && |table[s.r]| == ENTRIES && s.r != slot[s]
  {
    assert SlotOk(roots, slot, s);
    assert slot[s] in slot.Values;
    assert Full(table, slot[s]) && Full(table, s.r);
  }

  // ----- Walking

  /** The leaf entry the walker reaches for a user address, `ABSENT` if it meets an absent directory entry. */
  function Walk(table: Tabs, r: nat, i: nat, j: nat): (e: Pte)
    requires r in table && i < |table[r]|
    requires table[r][i].present ==> table[r][i].frame in table && j < |table[table[r][i].frame]|
  {
    if table[r][i].present then table[table[r][i].frame][j] else ABSENT
  }

  /** The walker finds exactly the leaves. */
  lemma WalkFindsLeaf(table: Tabs, roots: set<nat>, slot: Slots, leaf: Leaves, r: nat, i: nat, j: nat)
    requires ShapeOk(table, roots, slot, leaf, {}) && r in roots && i < USER_ENTRIES && j < ENTRIES
    ensures r in table && i < |table[r]|
    ensures table[r][i].present ==>
              Slot(r, i) in slot && table[r][i].frame == slot[Slot(r, i)] && Full(table, slot[Slot(r, i)])
    ensures Walk(table, r, i, j).present <==> Key(r, i, j) in leaf
    ensures Walk(table, r, i, j).present ==> Walk(table, r, i, j) == leaf[Key(r, i, j)]
  {
    assert Linked(table, slot, r, i);
    assert Key(r, i, j) in leaf ==> Homed(slot, Key(r, i, j));
    if Slot(r, i) in slot {
      assert Tied(table, slot, leaf, Slot(r, i), j);
      SlotTable(table, roots, slot, Slot(r, i));
    }
  }

  // ----- Writing one entry

  function Put(table: Tabs, t: nat, j: nat, e: Pte): Tabs
    requires t in table && j < |table[t]|
  {
    table[t := table[t][j := e]]
  }

  function LeafPut(leaf: Leaves, k: Key, e: Pte): Leaves
  {
    if e.present then leaf[k := e] else leaf - {k}
  }

  lemma PutOwners(table: Tabs, roots: set<nat>, slot: Slots, t: nat, j: nat, e: Pte)
    requires OwnersOk(table, roots, slot) && t in table && j < |table[t]|
    ensures OwnersOk(Put(table, t, j, e), roots, slot)
  {
    var table' := Put(table, t, j, e);
    assert table'.Keys == table.Keys;
    forall u | u in table' ensures Full(table', u) { assert Full(table, u); }
  }

  /** Writing entry `j` of the table of slot `s` writes the leaf of that name and nothing else. */
  lemma PutLeaf(table: Tabs, roots: set<nat>, slot: Slots, leaf: Leaves, open: set<Slot>, s: Slot, j: nat, e: Pte)
    requires ShapeOk(table, roots, slot, leaf, open) && s in slot && j < ENTRIES
    ensures slot[s] in table && |table[slot[s]]| == ENTRIES
    ensures ShapeOk(Put(table, slot[s], j, e), roots, slot, LeafPut(leaf, KeyOf(s, j), e), open)
  {
    SlotTable(table, roots, slot, s);
    var table', leaf' := Put(table, slot[s], j, e), LeafPut(leaf, KeyOf(s, j), e);
    PutOwners(table, roots, slot, slot[s], j, e);
    forall u, i | u in slot && 0 <= i < ENTRIES ensures Tied(table', slot, leaf', u, i) {
      assert Tied(table, slot, leaf, u, i) && Distinct(slot, s, u);
    }
    forall k | k in leaf' ensures Homed(slot, k) {
      assert k in leaf ==> Homed(slot, k);
    }
    forall r, i | r in roots && 0 <= i < USER_ENTRIES && Slot(r, i) !in open ensures Linked(table', slot, r, i) {
      assert Linked(table, slot, r, i);
    }
  }

  /** Writing a directory entry touches no leaf; a user entry is linked afterwards if it names its slot's table. */
  lemma PutRoot(table: Tabs, roots: set<nat>, slot: Slots, leaf: Leaves, open: set<Slot>, r: nat, i: nat, e: Pte,
          open': set<Slot>)
    requires ShapeOk(table, roots, slot, leaf, open) && r in roots && i < ENTRIES
    requires if i >= USER_ENTRIES then open' == open
             else Slot(r, i) in slot && e == MkTable(slot[Slot(r, i)], e.flags.us) && open' == open - {Slot(r, i)}
    ensures r in table && |table[r]| == ENTRIES
    ensures ShapeOk(Put(table, r, i, e), roots, slot, leaf, open')
  {
    assert r in table && Full(table, r);
    var table' := Put(table, r, i, e);
    PutOwners(table, roots, slot, r, i, e);
    forall u, j | u in slot && 0 <= j < ENTRIES ensures Tied(table', slot, leaf, u, j) {
      assert Tied(table, slot, leaf, u, j);
      SlotTable(table, roots, slot, u);
    }
    forall q, j | q in roots && 0 <= j < USER_ENTRIES && Slot(q, j) !in open' ensures Linked(table', slot, q, j) {
      if Slot(q, j) !in open { assert Linked(table, slot, q, j); }
    }
  }

  // ----- Adding and removing tables

  lemma AddValue(slot: Slots, s: Slot, t: nat)
    requires s !in slot
    ensures slot[s := t].Values == slot.Values + {t}
  {
    var slot' := slot[s := t];
    assert forall v :: v in slot.Values ==> exists u :: u in slot && slot[u] == v && slot'[u] == v;
    assert slot'[s] == t;
  }

  lemma RemoveValue(slot: Slots, s: Slot)
    requires s in slot && forall u {:trigger Distinct(slot, s, u)} :: Distinct(slot, s, u)
    ensures (slot - {s}).Values == slot.Values - {slot[s]}
  {
    forall v | v in slot.Values && v != slot[s] ensures v in (slot - {s}).Values {
      var u :| u in slot && slot[u] == v;
      assert u in slot - {s} && (slot - {s})[u] == v;
    }
    forall v | v in (slot - {s}).Values ensures v in slot.Values && v != slot[s] {
      var u :| u in slot - {s} && (slot - {s})[u] == v;
      assert Distinct(slot, s, u) && slot[u] == v;
    }
  }

  /** A zeroed frame becomes the table of a new slot, not yet linked. */
  lemma AddTable(table: Tabs, roots: set<nat>, slot: Slots, leaf: Leaves, open: set<Slot>, s: Slot, t: nat)
    requires ShapeOk(table, roots, slot, leaf, open) && s !in slot && s.i < USER_ENTRIES && s.r in roots && t !in table
    ensures ShapeOk(table[t := ZERO_TABLE], roots, slot[s := t], leaf, open + {s})
  {
    var table', slot' := table[t := ZERO_TABLE], slot[s := t];
    AddValue(slot, s, t);
    assert table'.Keys == table.Keys + {t};
    forall u | u in table' ensures Full(table', u) { assert u != t ==> Full(table, u); }
    forall u | u in slot' ensures SlotOk(roots, slot', u) { assert u != s ==> SlotOk(roots, slot, u); }
    forall u, v ensures Distinct(slot', u, v) {
      assert Distinct(slot, u, v);
      assert u in slot ==> slot[u] in slot.Values;
      assert v in slot ==> slot[v] in slot.Values;
    }
    AddTableTies(table, roots, slot, leaf, s, t);
    forall r, i | r in roots && 0 <= i < USER_ENTRIES && Slot(r, i) !in open + {s} ensures Linked(table', slot', r, i) {
      assert Linked(table, slot, r, i);
    }
  }

  lemma AddTableTies(table: Tabs, roots: set<nat>, slot: Slots, leaf: Leaves, s: Slot, t: nat)
    requires OwnersOk(table, roots, slot) && TiesOk(table, slot, leaf) && s !in slot && t !in table
    ensures TiesOk(table[t := ZERO_TABLE], slot[s := t], leaf)
  {
    var table', slot' := table[t := ZERO_TABLE], slot[s := t];
    forall u, j | u in slot' && 0 <= j < ENTRIES ensures Tied(table', slot', leaf, u, j) {
      if u != s {
        assert Tied(table, slot, leaf, u, j);
      } else {
        assert KeyOf(s, j) in leaf ==> Homed(slot, KeyOf(s, j));
      }
    }
    forall k | k in leaf ensures Homed(slot', k) { assert Homed(slot, k); }
  }

  /** An emptied table goes, with its directory entry cleared if it was linked. */
  lemma DropTable(table: Tabs, roots: set<nat>, slot: Slots, leaf: Leaves, open: set<Slot>, s: Slot, table': Tabs)
    requires ShapeOk(table, roots, slot, leaf, open) && s in slot
    requires forall k :: k in leaf ==> SlotOf(k) != s
    requires s.r in table && s.i < |table[s.r]|
    requires table' == Put(table, s.r, s.i, ABSENT) - {slot[s]}
    ensures ShapeOk(table', roots, slot - {s}, leaf, open - {s})
  {
    SlotTable(table, roots, slot, s);
    DropTableOwners(table, roots, slot, s, table');
    var slot' := slot - {s};
    forall u, j | u in slot' && 0 <= j < ENTRIES ensures Tied(table', slot', leaf, u, j) {
      assert Tied(table, slot, leaf, u, j) && Distinct(slot, s, u);
      SlotTable(table, roots, slot, u);
    }
    forall k | k in leaf ensures Homed(slot', k) { assert Homed(slot, k); }
    forall r, i | r in roots && 0 <= i < USER_ENTRIES && Slot(r, i) !in open - {s} ensures Linked(table', slot', r, i) {
      assert Full(table, r);
      if Slot(r, i) != s { assert Linked(table, slot, r, i); }
    }
  }

  lemma DropTableOwners(table: Tabs, roots: set<nat>, slot: Slots, s: Slot, table': Tabs)
    requires OwnersOk(table, roots, slot) && s in slot && s.r in table && s.i < |table[s.r]|
    requires table' == Put(table, s.r, s.i, ABSENT) - {slot[s]}
    ensures OwnersOk(table', roots, slot - {s})
  {
    SlotTable(table, roots, slot, s);
    RemoveValue(slot, s);
    assert table'.Keys == table.Keys - {slot[s]};
    forall u | u in table' ensures Full(table', u) { assert Full(table, u); }
    var slot' := slot - {s};
    forall u | u in slot' ensures SlotOk(roots, slot', u) { assert SlotOk(roots, slot, u); }
    forall u, v ensures Distinct(slot', u, v) { assert Distinct(slot, u, v); }
  }

  /** A new directory starts with no user entry. */
  lemma AddRoot(table: Tabs, roots: set<nat>, slot: Slots, leaf: Leaves, r: nat)
    requires ShapeOk(table, roots, slot, leaf, {}) && r !in table
    ensures ShapeOk(table[r := ZERO_TABLE], roots + {r}, slot, leaf, {})
    ensures forall i :: Slot(r, i) !in slot
  {
    var table', roots' := table[r := ZERO_TABLE], roots + {r};
    assert table'.Keys == table.Keys + {r};
    forall u | u in table' ensures Full(table', u) { assert u != r ==> Full(table, u); }
    forall u | u in slot ensures SlotOk(roots', slot, u) && u.r != r { assert SlotOk(roots, slot, u); }
    forall u, j | u in slot && 0 <= j < ENTRIES ensures Tied(table', slot, leaf, u, j) {
      assert Tied(table, slot, leaf, u, j);
    }
    forall q, i | q in roots' && 0 <= i < USER_ENTRIES && Slot(q, i) !in {} ensures Linked(table', slot, q, i) {
      if q != r { assert Linked(table, slot, q, i); }
    }
  }

  lemma DropRoot(table: Tabs, roots: set<nat>, slot: Slots, leaf: Leaves, r: nat)
    requires ShapeOk(table, roots, slot, leaf, {}) && r in roots && forall s :: s in slot ==> s.r != r
    ensures ShapeOk(table - {r}, roots - {r}, slot, leaf, {})
  {
    var table', roots' := table - {r}, roots - {r};
    assert table'.Keys == table.Keys - {r};
    forall u | u in table' ensures Full(table', u) { assert Full(table, u); }
    forall u | u in slot ensures SlotOk(roots', slot, u) { assert SlotOk(roots, slot, u); }
    forall u, j | u in slot && 0 <= j < ENTRIES ensures Tied(table', slot, leaf, u, j) {
      assert Tied(table, slot, leaf, u, j);
      SlotTable(table, roots, slot, u);
    }
    forall q, i | q in roots' && 0 <= i < USER_ENTRIES && Slot(q, i) !in {} ensures Linked(table', slot, q, i) {
      assert Linked(table, slot, q, i);
    }
  }
}
