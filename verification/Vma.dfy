/**
  The regions of a process's address space: a list kept page-aligned, sorted and disjoint, with early exits
  that rely on the order, and file offsets that follow the rounding of the start address.
 */
module Vma {
  import opened Common
  import F = Fork
  import M = Mapped

  /** The last address that can be rounded up to a page. */
  const MAX_END := 0xFFFF_F000

  /** `file` names an open file; `offset` is meaningful with a file and may be negative. */
  datatype Region = Region(start: nat, end: nat, flags: F.MemFlags, prot: nat, file: Option<nat>, offset: int)

  datatype Status = Ok | EInval | ENoMem | ENoEnt

  function AlignDown(v: nat): nat
  {
    v / PAGE_SIZE * PAGE_SIZE
  }

  function AlignUp(v: nat): nat
  {
    (v + PAGE_SIZE - 1) / PAGE_SIZE * PAGE_SIZE % LIMIT
  }

  lemma AlignFacts(v: nat)
    requires v < LIMIT
    ensures AlignDown(v) <= v < AlignDown(v) + PAGE_SIZE && AlignDown(v) % PAGE_SIZE == 0
    ensures v <= MAX_END ==> v <= AlignUp(v) < v + PAGE_SIZE && AlignUp(v) % PAGE_SIZE == 0 && AlignUp(v) < LIMIT
    ensures v > MAX_END ==> AlignUp(v) == 0
    ensures v % PAGE_SIZE == 0 ==> AlignDown(v) == v && AlignUp(v) == v
  {
  }

  predicate RegionOk(r: Region)
  {
    r.start < r.end < LIMIT && r.start % PAGE_SIZE == 0 && r.end % PAGE_SIZE == 0
  }

  predicate Before(rs: seq<Region>, i: nat, j: nat)
  {
    i < |rs| && j < |rs| && rs[i].end <= rs[j].start
  }

  ghost predicate ListOk(rs: seq<Region>)
  {
    && (forall i :: 0 <= i < |rs| ==> RegionOk(rs[i]))
    && (forall i, j {:trigger Before(rs, i, j)} :: 0 <= i < j < |rs| ==> Before(rs, i, j))
  }

  predicate Contains(r: Region, a: nat)
  {
    r.start <= a < r.end
  }

  predicate Overlaps(r: Region, start: nat, end: nat)
  {
    start < r.end && end > r.start
  }

  predicate Clashes(rs: seq<Region>, start: nat, end: nat)
  {
    exists i :: 0 <= i < |rs| && Overlaps(rs[i], start, end)
  }

  /** What a new region becomes. */
  function Rounded(start: nat, end: nat, flags: F.MemFlags, prot: nat, file: Option<nat>, offset: int): Region
  {
    var from := AlignDown(start);
    Region(from, AlignUp(end), flags, prot, file, if file.Some? then offset - (start - from) else offset)
  }

  lemma InsertOk(rs: seq<Region>, k: nat, r: Region)
    requires ListOk(rs) && k <= |rs| && RegionOk(r)
    requires (forall i :: 0 <= i < k ==> rs[i].end <= r.start) && (k < |rs| ==> r.end <= rs[k].start)
    ensures ListOk(rs[..k] + [r] + rs[k..])
  {
    var rs' := rs[..k] + [r] + rs[k..];
    forall i, j | 0 <= i < j < |rs'| ensures Before(rs', i, j) {
      if j < k {
        assert Before(rs, i, j);
      } else if j > k && i != k {
        assert Before(rs, if i < k then i else i - 1, j - 1);
      } else if i == k {
        assert j - 1 > k ==> Before(rs, k, j - 1);
      }
    }
  }

  lemma RemoveOk(rs: seq<Region>, k: nat)
    requires ListOk(rs) && k < |rs|
    ensures ListOk(rs[..k] + rs[k + 1..])
  {
    var rs' := rs[..k] + rs[k + 1..];
    forall i, j | 0 <= i < j < |rs'| ensures Before(rs', i, j) {
      assert Before(rs, if i < k then i else i + 1, if j < k then j else j + 1);
    }
  }

  /** Regions are disjoint: an address lies in at most one. */
  lemma OneRegion(rs: seq<Region>, i: nat, j: nat, a: nat)
    requires ListOk(rs) && i < |rs| && j < |rs| && Contains(rs[i], a) && Contains(rs[j], a)
    ensures i == j
  {
    assert i < j ==> Before(rs, i, j);
    assert j < i ==> Before(rs, j, i);
  }

  /** Above the last page the end wraps to zero, and the region is none. */
  lemma WrappedRegion(start: nat, end: nat, flags: F.MemFlags, prot: nat, file: Option<nat>, offset: int)
    requires start < end < LIMIT
    ensures RegionOk(Rounded(start, end, flags, prot, file, offset)) <==> end <= MAX_END
  {
    AlignFacts(start);
    AlignFacts(end);
  }

  // ----- File pages

  /** Where in the file the handler of a fault at `a` reads the page from. */
  function FaultOffset(r: Region, a: nat): int
  {
    r.offset + (AlignDown(a) - r.start)
  }

  /** Every byte of the page of `a` is the byte that a mapping of the file from `offset` at `start` puts there. */
  ghost predicate Shows(start: nat, offset: int, c: seq<Byte>, a: nat, page: seq<Byte>)
  {
    |page| == PAGE_SIZE && forall b: nat {:trigger page[b % PAGE_SIZE]} ::
      AlignDown(b) == AlignDown(a) ==> page[b % PAGE_SIZE] == M.FileByte(c, offset + (b - start))
  }

  /** Rounding keeps the mapping of addresses to file bytes. */
  lemma ShowsWindow(r: Region, start: nat, offset: int, c: seq<Byte>, a: nat, page: seq<Byte>)
    requires r.start == AlignDown(start) && r.offset == offset - (start - AlignDown(start))
    ensures Shows(start, offset, c, a, page) <==> page == M.PageAt(c, FaultOffset(r, a))
  {
    var off := FaultOffset(r, a);
    if Shows(start, offset, c, a, page) {
      forall x | 0 <= x < PAGE_SIZE ensures page[x] == M.PageAt(c, off)[x] {
        var b: nat := AlignDown(a) + x;
        InSamePage(a, x);
        OffsetOfByte(r, start, offset, b);
      }
    }
    if page == M.PageAt(c, off) {
      forall b: nat | AlignDown(b) == AlignDown(a) ensures page[b % PAGE_SIZE] == M.FileByte(c, offset + (b - start)) {
        OffsetOfByte(r, start, offset, b);
      }
    }
  }

  lemma InSamePage(a: nat, x: nat)
    requires x < PAGE_SIZE
    ensures AlignDown(AlignDown(a) + x) == AlignDown(a) && (AlignDown(a) + x) % PAGE_SIZE == x
  {
  }

  /**
    The page a fault at `a` maps shows the file, whatever the file of `n` bytes holds and wherever its position was.
   */
  ghost predicate FaultShows(r: Region, start: nat, offset: int, a: nat, kind: M.Kind, n: nat)
  {
    forall c, pos: nat {:trigger M.PageAt(c, M.Landing(kind, n, FaultOffset(r, a), pos))} ::
      |c| == n && pos <= n ==> Shows(start, offset, c, a, M.PageAt(c, M.Landing(kind, n, FaultOffset(r, a), pos)))
  }

  /** Faults read the bytes the mapping asked for if and only if the seek to the page's offset works out. */
  lemma FaultReadsOriginalBytes(start: nat, end: nat, flags: F.MemFlags, prot: nat, file: Option<nat>, offset: int,
          a: nat, kind: M.Kind, n: nat)
    requires start < end <= MAX_END && file.Some? && a < LIMIT
    requires Contains(Rounded(start, end, flags, prot, file, offset), a)
    ensures var r := Rounded(start, end, flags, prot, file, offset);
            FaultShows(r, start, offset, a, kind, n) <==> M.Lands(kind, n, FaultOffset(r, a))
  {
    var r := Rounded(start, end, flags, prot, file, offset);
    var off := FaultOffset(r, a);
    M.PageRight(kind, n, off);
    forall c, pos: nat ensures var page := M.PageAt(c, M.Landing(kind, n, off, pos));
                               Shows(start, offset, c, a, page) <==> page == M.PageAt(c, off) {
      ShowsWindow(r, start, offset, c, a, M.PageAt(c, M.Landing(kind, n, off, pos)));
    }
    if FaultShows(r, start, offset, a, kind, n) {
      forall pos: nat | pos <= n ensures M.SameWindow(n, M.Landing(kind, n, off, pos), off) {
        forall c: seq<Byte> | |c| == n ensures M.PageAt(c, M.Landing(kind, n, off, pos)) == M.PageAt(c, off) {}
      }
    }
  }

  lemma OffsetOfByte(r: Region, start: nat, offset: int, a: nat)
    requires r.start == AlignDown(start) && r.offset == offset - (start - AlignDown(start))
    ensures FaultOffset(r, a) + a % PAGE_SIZE == offset + (a - start)
  {
    assert a == AlignDown(a) + a % PAGE_SIZE;
  }

  /**
    Every page of the region has an offset that survives the cut to 32 bits with sign, exactly when the first page
    does not start before the file and the last starts below 2^31.
   */
  lemma OffsetsInFile(start: nat, end: nat, flags: F.MemFlags, prot: nat, file: Option<nat>, offset: int)
    requires start < end <= MAX_END && file.Some?
    ensures var r := Rounded(start, end, flags, prot, file, offset);
            (forall a: nat :: Contains(r, a) ==> 0 <= FaultOffset(r, a) < 0x8000_0000)
            <==> start % PAGE_SIZE <= offset && offset - start % PAGE_SIZE + (r.end - r.start) - PAGE_SIZE < 0x8000_0000
  {
    var r := Rounded(start, end, flags, prot, file, offset);
    AlignFacts(start);
    AlignFacts(end);
    var last: nat := r.end - PAGE_SIZE;
    LastPage(start, end);
    assert start == AlignDown(start) + start % PAGE_SIZE;
    assert FaultOffset(r, start) == offset - start % PAGE_SIZE && Contains(r, start);
    assert FaultOffset(r, last) == offset - start % PAGE_SIZE + (last - r.start) && Contains(r, last);
    forall a: nat | Contains(r, a) ensures FaultOffset(r, start) <= FaultOffset(r, a) <= FaultOffset(r, last) {
      AlignedBelow(start, a);
      AlignedAbove(a, r.end);
    }
  }

  lemma LastPage(start: nat, end: nat)
    requires start < end <= MAX_END
    ensures AlignUp(end) >= AlignDown(start) + PAGE_SIZE
            && AlignDown(AlignUp(end) - PAGE_SIZE) == AlignUp(end) - PAGE_SIZE
  {
    AlignFacts(start);
    AlignFacts(end);
  }

  lemma AlignedAbove(a: nat, end: nat)
    requires a < end && AlignDown(end) == end
    ensures AlignDown(a) <= end - PAGE_SIZE
  {
  }

  lemma AlignedBelow(start: nat, a: nat)
    requires AlignDown(start) <= a
    ensures AlignDown(start) <= AlignDown(a)
  {
  }

  class AddressSpace {
    var regions: seq<Region>

    ghost predicate Valid()
      reads this
    {
      ListOk(regions)
    }

    constructor ()
      ensures Valid() && regions == []
    {
      regions := [];
    }

    /** The region asked for, page-aligned, if it overlaps none and there is memory for it. */
    method Add(memory: Memory, start: nat, end: nat, flags: F.MemFlags, prot: nat, file: Option<nat>, offset: int)
        returns (s: Status, ghost at: nat)
      requires Valid() && start < LIMIT && end < LIMIT
      modifies this, memory
      ensures memory.asked >= old(memory.asked)
      ensures s == if start >= end || Clashes(old(regions), AlignDown(start), AlignUp(end)) then EInval
                   else if memory.Denied(old(memory.asked)) then ENoMem else Ok
      ensures !s.Ok? ==> regions == old(regions)
      ensures var r := Rounded(start, end, flags, prot, file, offset);
              s.Ok? ==>
                  at <= |old(regions)| && regions == old(regions)[..at] + [r] + old(regions)[at..]
                      && (Valid() <==> end <= MAX_END)
      ensures s.Ok? ==> forall i :: at <= i < |old(regions)| ==> old(regions)[i].start >= AlignUp(end)
    {
      at := 0;
      if start >= end {
        return EInval, 0;
      }
      AlignFacts(start);
      AlignFacts(end);
      var r := Rounded(start, end, flags, prot, file, offset);
      var k := 0;
      while k < |regions| && regions[k].start < r.end
        invariant k <= |regions| && regions == old(regions) && memory.asked == old(memory.asked)
        invariant forall i :: 0 <= i < k ==> !Overlaps(regions[i], r.start, r.end) && regions[i].start < r.end
      {
        if r.start < regions[k].end && r.end > regions[k].start {
          return EInval, 0;
        }
        k := k + 1;
      }
      forall i | k <= i < |regions| ensures !Overlaps(regions[i], r.start, r.end) && regions[i].start >= r.end {
        assert k < i ==> Before(regions, k, i);
      }
      var granted := memory.Request();
      if !granted {
        return ENoMem, 0;
      }
      WrappedRegion(start, end, flags, prot, file, offset);
      if end <= MAX_END {
        InsertOk(regions, k, r);
      }
      regions := regions[..k] + [r] + regions[k..];
      assert regions[k] == r;
      return Ok, k;
    }

    /** Stops at the first region that starts above the address, and still misses none. */
    method Lookup(a: nat) returns (k: Option<nat>)
      requires Valid()
      ensures k.Some? ==> k.value < |regions| && Contains(regions[k.value], a)
      ensures k.Some? <==> exists i :: 0 <= i < |regions| && Contains(regions[i], a)
    {
      var i := 0;
      while i < |regions| && a >= regions[i].start
        invariant i <= |regions| && forall j :: 0 <= j < i ==> !Contains(regions[j], a)
      {
        if a < regions[i].end {
          return Some(i);
        }
        i := i + 1;
      }
      forall j | i <= j < |regions| ensures !Contains(regions[j], a) { assert i < j ==> Before(regions, i, j); }
      return None;
    }

    method Remove(a: nat) returns (s: Status)
      requires Valid()
      modifies this
      ensures Valid()
      ensures if exists i :: 0 <= i < |old(regions)| && Contains(old(regions)[i], a)
              then s == Ok && exists i ::
                  0 <= i < |old(regions)| && Contains(old(regions)[i], a)
                      && regions == old(regions)[..i] + old(regions)[i + 1..]
              else s == ENoEnt && regions == old(regions)
    {
      var i := 0;
      while i < |regions|
        invariant i <= |regions| && regions == old(regions) && forall j :: 0 <= j < i ==> !Contains(regions[j], a)
      {
        if a >= regions[i].start && a < regions[i].end {
          RemoveOk(regions, i);
          assert Contains(old(regions)[i], a);
          regions := regions[..i] + regions[i + 1..];
          return Ok;
        }
        i := i + 1;
      }
      return ENoEnt;
    }

    /** A copy has the same regions; there is none exactly when a request for memory was refused. */
    method Dup(memory: Memory) returns (copy: Option<AddressSpace>)
      requires Valid()
      modifies memory
      ensures memory.asked >= old(memory.asked)
      ensures copy.None? <==> memory.Denied(old(memory.asked))
      ensures copy.Some? ==> fresh(copy.value) && copy.value.Valid() && copy.value.regions == regions
    {
      var granted := memory.Request();
      if !granted {
        return None;
      }
      var twin := new AddressSpace();
      var i := 0;
      while i < |regions|
        invariant i <= |regions| && fresh(twin) && twin.Valid() && twin.regions == regions[..i]
        invariant memory.asked >= old(memory.asked) && !memory.Denied(old(memory.asked))
      {
        var r := regions[i];
        AlignFacts(r.start);
        AlignFacts(r.end);
        NoClash(regions, i);
        ghost var before := memory.asked;
        var s, at := twin.Add(memory, r.start, r.end, r.flags, r.prot, r.file, r.offset);
        if !s.Ok? {
          assert memory.Denied(before);
          return None;
        }
        assert at < i ==> Before(regions, at, i);
        i := i + 1;
      }
      return Some(twin);
    }
  }

  lemma NoClash(rs: seq<Region>, i: nat)
    requires ListOk(rs) && i < |rs|
    ensures !Clashes(rs[..i], rs[i].start, rs[i].end)
  {
    forall j | 0 <= j < i ensures !Overlaps(rs[..i][j], rs[i].start, rs[i].end) { assert Before(rs, j, i); }
  }
}
