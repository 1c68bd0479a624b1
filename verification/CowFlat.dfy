/**
  Shared frames behind private address spaces: the flat picture. A leaf is one present 4 KiB page-table
  entry, named by its context, directory index and table index. The eager picture gives every leaf a page
  of its own; the lemmas say when sharing frames cannot be told from it.
 */
module CowFlat {
  import opened Common

  datatype PteFlags = PteFlags(rw: bool, us: bool, pwt: bool, pcd: bool, accessed: bool, dirty: bool, psize: bool,
      global: bool)

  datatype Pte = Pte(present: bool, frame: nat, flags: PteFlags)

  datatype Key = Key(r: nat, i: nat, j: nat)

  type Page = seq<Byte>

  type Leaves = map<Key, Pte>

  /** A user-mode store through this entry goes ahead without a fault. */
  predicate Writable(p: Pte)
  {
    p.flags.rw && p.flags.us
  }

  predicate Names(leaf: Leaves, f: nat, k: Key)
  {
    k in leaf && leaf[k].frame == f
  }

  /** The leaves that name frame `f`. */
  ghost function Refs(leaf: Leaves, f: nat): (s: set<Key>)
    ensures forall k :: k in s <==> Names(leaf, f, k)
  {
    set k | k in leaf && Names(leaf, f, k)
  }

  /** The frame under leaf `k` is a data frame whose reference count is the number of leaves that name it. */
  ghost predicate Counted(leaf: Leaves, count: map<nat, nat>, bytes: map<nat, Page>, k: Key)
    requires k in leaf
  {
    var f := leaf[k].frame;
    f in bytes && |bytes[f]| == PAGE_SIZE && f in count && count[f] == |Refs(leaf, f)|
  }

  /** A writable leaf is the only one to name its frame. */
  ghost predicate Exclusive(leaf: Leaves, k: Key)
    requires k in leaf
  {
    Writable(leaf[k]) ==> Refs(leaf, leaf[k].frame) == {k}
  }

  /** Some leaf names frame `f`. */
  ghost predicate Named(leaf: Leaves, f: nat)
  {
    Refs(leaf, f) != {}
  }

  ghost predicate AllNamed(leaf: Leaves, bytes: map<nat, Page>)
  {
    forall f {:trigger Named(leaf, f)} :: f in bytes ==> Named(leaf, f)
  }

  ghost predicate FlatOk(leaf: Leaves, count: map<nat, nat>, bytes: map<nat, Page>)
  {
    && AllNamed(leaf, bytes)
    && (forall k {:trigger Counted(leaf, count, bytes, k)} :: k in leaf ==> Counted(leaf, count, bytes, k))
    && (forall k {:trigger Exclusive(leaf, k)} :: k in leaf ==> Exclusive(leaf, k))
  }

  /** What every address space reads: the page under each leaf. */
  ghost function Contents(leaf: Leaves, bytes: map<nat, Page>): map<Key, Page>
  {
    map k | k in leaf && leaf[k].frame in bytes :: bytes[leaf[k].frame]
  }

  predicate ShownAt(leaf: Leaves, bytes: map<nat, Page>, mem: map<Key, Page>, k: Key)
  {
    k in leaf && k in mem && leaf[k].frame in bytes && mem[k] == bytes[leaf[k].frame]
  }

  /** `mem` is what every address space reads. */
  ghost predicate Shows(leaf: Leaves, bytes: map<nat, Page>, mem: map<Key, Page>)
  {
    && mem.Keys == leaf.Keys
    && (forall k {:trigger ShownAt(leaf, bytes, mem, k)} :: k in leaf ==> ShownAt(leaf, bytes, mem, k))
  }

  lemma ShowsContents(leaf: Leaves, count: map<nat, nat>, bytes: map<nat, Page>, mem: map<Key, Page>)
    requires FlatOk(leaf, count, bytes)
    ensures Shows(leaf, bytes, mem) <==> mem == Contents(leaf, bytes)
  {
    if Shows(leaf, bytes, mem) {
      forall k | k in leaf ensures ShownAt(leaf, bytes, mem, k) {}
      assert mem == Contents(leaf, bytes);
    }
    if mem == Contents(leaf, bytes) {
      forall k | k in leaf ensures ShownAt(leaf, bytes, mem, k) { assert Counted(leaf, count, bytes, k); }
      assert mem.Keys == leaf.Keys;
    }
  }

  lemma OnlyRef(leaf: Leaves, count: map<nat, nat>, bytes: map<nat, Page>, k: Key, k': Key)
    requires FlatOk(leaf, count, bytes) && k in leaf && k' in leaf && leaf[k].frame == leaf[k'].frame
    requires (leaf[k].frame in count && count[leaf[k].frame] == 1) || Writable(leaf[k])
    ensures k == k'
  {
    assert Counted(leaf, count, bytes, k) && Exclusive(leaf, k);
    var s := Refs(leaf, leaf[k].frame);
    assert Names(leaf, leaf[k].frame, k) && Names(leaf, leaf[k].frame, k');
    if k != k' {
      assert {k, k'} <= s;
      SubsetSize({k, k'}, s);
    }
  }

  lemma SubsetSize(a: set<Key>, b: set<Key>)
    requires a <= b
    ensures |a| <= |b|
  {
    assert b == a + (b - a);
  }

  // ----- How reference sets move

  lemma RefsAdd(leaf: Leaves, k: Key, p: Pte, f: nat)
    requires k !in leaf
    ensures Refs(leaf[k := p], f) == (if p.frame == f then Refs(leaf, f) + {k} else Refs(leaf, f))
            && k !in Refs(leaf, f)
    ensures |Refs(leaf[k := p], f)| == |Refs(leaf, f)| + if p.frame == f then 1 else 0
  {
    var leaf' := leaf[k := p];
    assert forall q :: Names(leaf', f, q) <==> Names(leaf, f, q) || (q == k && p.frame == f);
    assert !Names(leaf, f, k);
    if p.frame == f {
      assert Refs(leaf', f) == Refs(leaf, f) + {k};
    } else {
      assert Refs(leaf', f) == Refs(leaf, f);
    }
  }

  lemma RefsDrop(leaf: Leaves, k: Key, f: nat)
    requires k in leaf
    ensures Refs(leaf - {k}, f) == Refs(leaf, f) - {k}
    ensures |Refs(leaf - {k}, f)| == |Refs(leaf, f)| - if leaf[k].frame == f then 1 else 0
  {
    assert Names(leaf, leaf[k].frame, k);
    forall q ensures Names(leaf - {k}, f, q) <==> Names(leaf, f, q) && q != k {}
    assert Refs(leaf - {k}, f) == Refs(leaf, f) - {k};
  }

  /** Changing only the flags of a leaf moves no reference. */
  lemma RefsFlags(leaf: Leaves, k: Key, p: Pte, f: nat)
    requires k in leaf && p.frame == leaf[k].frame
    ensures Refs(leaf[k := p], f) == Refs(leaf, f)
  {
    forall q ensures Names(leaf[k := p], f, q) <==> Names(leaf, f, q) {}
  }

  // ----- The steps

  /** A store through a writable leaf changes one page of the eager picture. */
  lemma StoreStep(leaf: Leaves, count: map<nat, nat>, bytes: map<nat, Page>, k: Key, page: Page)
    requires FlatOk(leaf, count, bytes) && k in leaf && Writable(leaf[k]) && |page| == PAGE_SIZE
    ensures var bytes' := bytes[leaf[k].frame := page];
            FlatOk(leaf, count, bytes') && Contents(leaf, bytes') == Contents(leaf, bytes)[k := page]
  {
    var f := leaf[k].frame;
    var bytes' := bytes[f := page];
    forall q | q in leaf ensures Counted(leaf, count, bytes', q) && (leaf[q].frame == f ==> q == k) {
      assert Counted(leaf, count, bytes, q);
      if leaf[q].frame == f { OnlyRef(leaf, count, bytes, k, q); }
    }
    assert Counted(leaf, count, bytes, k);
    forall g | g in bytes' ensures Named(leaf, g) { assert g in bytes; }
  }

  /** Forking one leaf: both sides keep the frame, neither may write it. */
  lemma ShareStep(leaf: Leaves, count: map<nat, nat>, bytes: map<nat, Page>, src: Key, dst: Key, p: Pte)
    requires FlatOk(leaf, count, bytes) && src in leaf && dst !in leaf && p.frame == leaf[src].frame && !Writable(p)
    ensures p.frame in count && p.frame in bytes
    ensures var leaf' := leaf[src := p][dst := p]; var count' := count[p.frame := count[p.frame] + 1];
            FlatOk(leaf', count', bytes) && Contents(leaf', bytes) == Contents(leaf, bytes)[dst := bytes[p.frame]]
  {
    var f := p.frame;
    assert Counted(leaf, count, bytes, src);
    var leaf' := leaf[src := p][dst := p];
    var count' := count[f := count[f] + 1];
    forall q | q in leaf' ensures Counted(leaf', count', bytes, q) && Exclusive(leaf', q) {
      ShareOther(leaf, count, bytes, src, dst, p, q);
    }
    ShareNamed(leaf, bytes, src, dst, p);
  }

  lemma ShareNamed(leaf: Leaves, bytes: map<nat, Page>, src: Key, dst: Key, p: Pte)
    requires AllNamed(leaf, bytes) && src in leaf && dst !in leaf && p.frame == leaf[src].frame
    ensures AllNamed(leaf[src := p][dst := p], bytes)
  {
    var mid := leaf[src := p];
    var leaf' := mid[dst := p];
    forall g | g in bytes ensures Named(leaf', g) {
      assert Named(leaf, g);
      RefsFlags(leaf, src, p, g);
      RefsAdd(mid, dst, p, g);
    }
  }

  lemma ShareOther(leaf: Leaves, count: map<nat, nat>, bytes: map<nat, Page>, src: Key, dst: Key, p: Pte, q: Key)
    requires FlatOk(leaf, count, bytes) && src in leaf && dst !in leaf && p.frame == leaf[src].frame && !Writable(p)
    requires (q in leaf || q == dst) && p.frame in count
    ensures var leaf' := leaf[src := p][dst := p];
            Counted(leaf', count[p.frame := count[p.frame] + 1], bytes, q) && Exclusive(leaf', q)
  {
    assert Counted(leaf, count, bytes, src);
    var mid := leaf[src := p];
    var g := if q == dst then p.frame else leaf[q].frame;
    RefsFlags(leaf, src, p, g);
    RefsAdd(mid, dst, p, g);
    if q != dst && q != src {
      assert Counted(leaf, count, bytes, q) && Exclusive(leaf, q);
      if Writable(leaf[q]) && g == p.frame { OnlyRef(leaf, count, bytes, q, src); }
    }
  }

  /** Dropping one leaf: the frame goes when its last reference does, and no other leaf notices. */
  lemma DropStep(leaf: Leaves, count: map<nat, nat>, bytes: map<nat, Page>, k: Key)
    requires FlatOk(leaf, count, bytes) && k in leaf
    ensures var f := leaf[k].frame;
            && f in count && count[f] >= 1
            && var count' := if count[f] == 1 then count - {f} else count[f := count[f] - 1];
               var bytes' := if count[f] == 1 then bytes - {f} else bytes;
               FlatOk(leaf - {k}, count', bytes') && Contents(leaf - {k}, bytes') == Contents(leaf, bytes) - {k}
  {
    var f := leaf[k].frame;
    assert Counted(leaf, count, bytes, k);
    assert Names(leaf, f, k);
    RefsDrop(leaf, k, f);
    var leaf' := leaf - {k};
    var count' := if count[f] == 1 then count - {f} else count[f := count[f] - 1];
    var bytes' := if count[f] == 1 then bytes - {f} else bytes;
    forall q | q in leaf' ensures Counted(leaf', count', bytes', q) && Exclusive(leaf', q) {
      DropOther(leaf, count, bytes, k, q);
    }
    DropNamed(leaf, bytes, bytes', k);
  }

  /** What dropping leaf `k` means for another leaf `q`. */
  lemma DropOther(leaf: Leaves, count: map<nat, nat>, bytes: map<nat, Page>, k: Key, q: Key)
    requires FlatOk(leaf, count, bytes) && k in leaf && q in leaf && q != k
    requires leaf[k].frame in count && count[leaf[k].frame] >= 1
    ensures var f := leaf[k].frame;
            var count' := if count[f] == 1 then count - {f} else count[f := count[f] - 1];
            var bytes' := if count[f] == 1 then bytes - {f} else bytes;
            Counted(leaf - {k}, count', bytes', q) && Exclusive(leaf - {k}, q)
  {
    assert Counted(leaf, count, bytes, q) && Exclusive(leaf, q);
    RefsDrop(leaf, k, leaf[q].frame);
    if leaf[q].frame == leaf[k].frame && count[leaf[k].frame] == 1 { OnlyRef(leaf, count, bytes, k, q); }
  }

  lemma DropNamed(leaf: Leaves, bytes: map<nat, Page>, bytes': map<nat, Page>, k: Key)
    requires AllNamed(leaf, bytes) && k in leaf
    requires bytes' == if |Refs(leaf, leaf[k].frame)| == 1 then bytes - {leaf[k].frame} else bytes
    ensures AllNamed(leaf - {k}, bytes')
  {
    forall g | g in bytes' ensures Named(leaf - {k}, g) {
      assert Named(leaf, g);
      RefsDrop(leaf, k, g);
      NotEmpty(leaf, g);
      NotEmpty(leaf - {k}, g);
    }
  }

  lemma NotEmpty(leaf: Leaves, f: nat)
    ensures Named(leaf, f) <==> |Refs(leaf, f)| > 0
  {
  }

  /** Mapping a fresh frame under a new leaf. */
  lemma MapStep(leaf: Leaves, count: map<nat, nat>, bytes: map<nat, Page>, k: Key, p: Pte, page: Page)
    requires FlatOk(leaf, count, bytes) && k !in leaf && p.frame !in bytes && |page| == PAGE_SIZE
    ensures var count', bytes' := count[p.frame := 1], bytes[p.frame := page];
            FlatOk(leaf[k := p], count', bytes') && Contents(leaf[k := p], bytes') == Contents(leaf, bytes)[k := page]
  {
    var f := p.frame;
    var leaf', count', bytes' := leaf[k := p], count[f := 1], bytes[f := page];
    forall q | q in leaf' ensures Counted(leaf', count', bytes', q) && Exclusive(leaf', q) {
      MapOther(leaf, count, bytes, k, p, page, q);
    }
    MapNamed(leaf, bytes, k, p, page);
    Unnamed(leaf, count, bytes, f);
    MapContents(leaf, bytes, k, p, page);
  }

  /** The same for a frame that already has its reference. */
  lemma MapHeldStep(leaf: Leaves, count: map<nat, nat>, bytes: map<nat, Page>, k: Key, p: Pte, page: Page)
    requires FlatOk(leaf, count, bytes) && k !in leaf && p.frame !in bytes && |page| == PAGE_SIZE
    requires p.frame in count && count[p.frame] == 1
    ensures var bytes' := bytes[p.frame := page];
            FlatOk(leaf[k := p], count, bytes') && Contents(leaf[k := p], bytes') == Contents(leaf, bytes)[k := page]
  {
    MapStep(leaf, count, bytes, k, p, page);
    assert count[p.frame := 1] == count;
  }

  /** Overwriting the only mapping of one frame by the first mapping of another. */
  lemma ReplaceStep(leaf: Leaves, count: map<nat, nat>, bytes: map<nat, Page>, k: Key, p: Pte, page: Page)
    requires FlatOk(leaf, count, bytes) && k in leaf && p.frame !in bytes && |page| == PAGE_SIZE
    requires p.frame in count && count[p.frame] == 1 && leaf[k].frame in count && count[leaf[k].frame] == 1
    ensures var bytes' := (bytes - {leaf[k].frame})[p.frame := page];
            FlatOk(leaf[k := p], count, bytes') && Contents(leaf[k := p], bytes') == Contents(leaf, bytes)[k := page]
  {
    var f := leaf[k].frame;
    assert Counted(leaf, count, bytes, k);
    DropStep(leaf, count, bytes, k);
    MapHeldStep(leaf - {k}, count - {f}, bytes - {f}, k, p, page);
    assert (leaf - {k})[k := p] == leaf[k := p];
    assert (Contents(leaf, bytes) - {k})[k := page] == Contents(leaf, bytes)[k := page];
    FlatFrame(leaf[k := p], count - {f}, count, (bytes - {f})[p.frame := page]);
  }

  /** Only the counts of data frames matter. */
  lemma FlatFrame(leaf: Leaves, count: map<nat, nat>, count': map<nat, nat>, bytes: map<nat, Page>)
    requires FlatOk(leaf, count, bytes)
    requires forall f :: f in bytes && f in count ==> f in count' && count'[f] == count[f]
    ensures FlatOk(leaf, count', bytes)
  {
    forall k | k in leaf ensures Counted(leaf, count', bytes, k) { assert Counted(leaf, count, bytes, k); }
  }

  lemma MapOther(leaf: Leaves, count: map<nat, nat>, bytes: map<nat, Page>, k: Key, p: Pte, page: Page, q: Key)
    requires FlatOk(leaf, count, bytes) && k !in leaf && p.frame !in bytes && |page| == PAGE_SIZE
             && (q in leaf || q == k)
    ensures var leaf' := leaf[k := p];
            Counted(leaf', count[p.frame := 1], bytes[p.frame := page], q) && Exclusive(leaf', q)
  {
    if q == k {
      Unnamed(leaf, count, bytes, p.frame);
      RefsAdd(leaf, k, p, p.frame);
    } else {
      assert Counted(leaf, count, bytes, q) && Exclusive(leaf, q);
      RefsAdd(leaf, k, p, leaf[q].frame);
    }
  }

  lemma MapNamed(leaf: Leaves, bytes: map<nat, Page>, k: Key, p: Pte, page: Page)
    requires AllNamed(leaf, bytes) && k !in leaf
    ensures AllNamed(leaf[k := p], bytes[p.frame := page])
  {
    var leaf', bytes' := leaf[k := p], bytes[p.frame := page];
    forall g | g in bytes' ensures Named(leaf', g) {
      RefsAdd(leaf, k, p, g);
      if g != p.frame { assert Named(leaf, g); }
    }
  }

  lemma MapContents(leaf: Leaves, bytes: map<nat, Page>, k: Key, p: Pte, page: Page)
    requires forall q :: q in leaf && q != k ==> leaf[q].frame != p.frame
    ensures Contents(leaf[k := p], bytes[p.frame := page]) == Contents(leaf, bytes)[k := page]
  {
  }

  /** No leaf names a frame that is not a data frame. */
  lemma Unnamed(leaf: Leaves, count: map<nat, nat>, bytes: map<nat, Page>, f: nat)
    requires FlatOk(leaf, count, bytes) && f !in bytes
    ensures Refs(leaf, f) == {}
    ensures forall q :: q in leaf ==> leaf[q].frame != f
  {
    forall q | q in leaf ensures leaf[q].frame != f { assert Counted(leaf, count, bytes, q); }
  }

  /** Breaking the sharing of one leaf: a private copy replaces the shared frame; nobody reads anything new. */
  lemma CopyStep(leaf: Leaves, count: map<nat, nat>, bytes: map<nat, Page>, k: Key, p: Pte)
    requires FlatOk(leaf, count, bytes) && k in leaf && leaf[k].frame in count && count[leaf[k].frame] != 1
             && p.frame !in bytes
    ensures var f := leaf[k].frame;
            && f in bytes && count[f] > 1
            && var count', bytes' := count[f := count[f] - 1][p.frame := 1], bytes[p.frame := bytes[f]];
               FlatOk(leaf[k := p], count', bytes') && Contents(leaf[k := p], bytes') == Contents(leaf, bytes)
  {
    var f := leaf[k].frame;
    assert Counted(leaf, count, bytes, k) && Names(leaf, f, k);
    assert count[f] > 1 by { assert {k} <= Refs(leaf, f); SubsetSize({k}, Refs(leaf, f)); }
    DropStep(leaf, count, bytes, k);
    MapStep(leaf - {k}, count[f := count[f] - 1], bytes, k, p, bytes[f]);
    assert (leaf - {k})[k := p] == leaf[k := p];
    assert (Contents(leaf, bytes) - {k})[k := bytes[f]] == Contents(leaf, bytes);
  }

  /** The last reference may be made writable in place. */
  lemma UpgradeStep(leaf: Leaves, count: map<nat, nat>, bytes: map<nat, Page>, k: Key, p: Pte)
    requires FlatOk(leaf, count, bytes) && k in leaf && p.frame == leaf[k].frame && p.frame in count
             && count[p.frame] == 1
    ensures FlatOk(leaf[k := p], count, bytes) && Contents(leaf[k := p], bytes) == Contents(leaf, bytes)
  {
    var leaf' := leaf[k := p];
    assert Counted(leaf, count, bytes, k) && Names(leaf, p.frame, k);
    Singleton(Refs(leaf, p.frame), k);
    forall q | q in leaf' ensures Counted(leaf', count, bytes, q) && Exclusive(leaf', q) {
      assert Counted(leaf, count, bytes, q) && Exclusive(leaf, q);
      RefsFlags(leaf, k, p, leaf'[q].frame);
    }
    forall g | g in bytes ensures Named(leaf', g) {
      assert Named(leaf, g);
      RefsFlags(leaf, k, p, g);
    }
  }

  lemma Singleton(s: set<Key>, k: Key)
    requires k in s && |s| == 1
    ensures s == {k}
  {
    assert |s - {k}| == 0;
  }
}
