/**
  How the fault handler reads a page of a mapped file: a seek, whose result it does not look at, and a read of one
  page. A seek that fails leaves the old position, so the page is right exactly when the seek gets where it should.
 */
module Mapped {
  import opened Common
  import R = Ramfs
  import D = FatFile

  // ----- Windows on a file

  /** Byte `i` of a file; there are zeros around it. */
  function FileByte(c: seq<Byte>, i: int): Byte
  {
    if 0 <= i < |c| then c[i] else 0
  }

  /** The page whose first byte is byte `pos` of the file. */
  function PageAt(c: seq<Byte>, pos: int): (page: seq<Byte>)
    ensures |page| == PAGE_SIZE && forall x :: 0 <= x < PAGE_SIZE ==> page[x] == FileByte(c, pos + x)
  {
    seq(PAGE_SIZE, x requires 0 <= x < PAGE_SIZE => FileByte(c, pos + x))
  }

  /** A page at `pos` lies wholly before or behind a file of `n` bytes. */
  predicate Outside(n: nat, pos: int)
  {
    pos >= n || pos + PAGE_SIZE <= 0
  }

  /** Whatever a file of `n` bytes holds, it reads the same at `p` and at `q`. */
  ghost predicate SameWindow(n: nat, p: int, q: int)
  {
    forall c {:trigger PageAt(c, p)} :: |c| == n ==> PageAt(c, p) == PageAt(c, q)
  }

  /** Byte `x` of window `p` shows a byte that window `q` does not show there. */
  lemma WindowsDiffer(n: nat, p: int, q: int, x: nat)
    requires p != q && x < PAGE_SIZE && 0 <= p + x < n
    ensures !SameWindow(n, p, q)
  {
    var c: seq<Byte> := seq(n, i => if i == p + x then 1 else 0);
    assert PageAt(c, p)[x] == 1 && PageAt(c, q)[x] == 0;
  }

  lemma Shown(n: nat, p: int) returns (x: nat)
    requires n > 0 && !Outside(n, p)
    ensures x < PAGE_SIZE && 0 <= p + x < n
  {
    x := if p >= 0 then 0 else -p;
  }

  /** Two places in a file read the same only if they are one, or neither shows any of its bytes. */
  lemma Windows(n: nat, p: int, q: int)
    requires n > 0
    ensures SameWindow(n, p, q) <==> p == q || (Outside(n, p) && Outside(n, q))
  {
    if p != q && !Outside(n, p) {
      var x := Shown(n, p);
      WindowsDiffer(n, p, q, x);
    } else if p != q && !Outside(n, q) {
      var x := Shown(n, q);
      WindowsDiffer(n, q, p, x);
    } else {
      forall c: seq<Byte> | |c| == n ensures PageAt(c, p) == PageAt(c, q) {}
    }
  }

  // ----- Where a seek leaves the position

  /** What a 64-bit offset is cut to on the way to a parameter of 32 bits with sign. */
  function CutInt(offset: int): int
  {
    if offset % LIMIT < 0x8000_0000 then offset % LIMIT else offset % LIMIT - LIMIT
  }

  /**
    What a seek depends on. On the RAM file system: the pages that the array has room for, and whether a request for
    a longer one is granted. On a FAT volume: the listed size, and where the chain of clusters ends.
   */
  datatype Kind = OnRam(room: nat, granted: bool) | OnFat(listed: nat, end: nat)

  function SeekTarget(kind: Kind, offset: int): int
  {
    match kind
    case OnRam(_, _) => CutInt(offset)
    case OnFat(_, _) => offset % LIMIT
  }

  /** The seek in a file of `n` bytes gets to its target. */
  predicate Seeks(kind: Kind, n: nat, offset: int)
  {
    var t := SeekTarget(kind, offset);
    match kind
    case OnRam(room, granted) => t >= 0 && (t <= n || R.PageCount(t) <= room || granted)
    case OnFat(listed, end) => t <= listed && !(t > 0 && t == end)
  }

  /** Both kinds cut the offset to 32 bits; only one of them reads a sign into it. */
  lemma Cuts(offset: int)
    ensures offset % LIMIT == CutInt(offset) % LIMIT
    ensures CutInt(offset) == offset <==> -0x8000_0000 <= offset < 0x8000_0000
    ensures offset % LIMIT == offset <==> 0 <= offset < LIMIT
  {
  }

  /** Where the read starts. */
  function Landing(kind: Kind, n: nat, offset: int, pos: nat): (at: nat)
  {
    if Seeks(kind, n, offset) then SeekTarget(kind, offset) else pos
  }

  /** The page is right, whatever the file holds and wherever its position was. */
  ghost predicate AlwaysRight(kind: Kind, n: nat, offset: int)
  {
    forall pos: nat {:trigger Landing(kind, n, offset, pos)} ::
      pos <= n ==> SameWindow(n, Landing(kind, n, offset, pos), offset)
  }

  /** What a caller can test: the seek gets to the offset, or the file has nothing to show there and at its target. */
  predicate Lands(kind: Kind, n: nat, offset: int)
  {
    || n == 0
    || (Seeks(kind, n, offset)
        && (SeekTarget(kind, offset) == offset || (SeekTarget(kind, offset) >= n && Outside(n, offset))))
  }

  lemma LandsRight(kind: Kind, n: nat, offset: int, pos: nat)
    requires Lands(kind, n, offset)
    ensures SameWindow(n, Landing(kind, n, offset, pos), offset)
  {
    var at := Landing(kind, n, offset, pos);
    if n == 0 {
      forall c: seq<Byte> | |c| == n ensures PageAt(c, at) == PageAt(c, offset) {}
    } else {
      Windows(n, at, offset);
    }
  }

  /** The page read for a fault is always right if and only if the offset passes the test. */
  lemma PageRight(kind: Kind, n: nat, offset: int)
    ensures AlwaysRight(kind, n, offset) <==> Lands(kind, n, offset)
  {
    if Lands(kind, n, offset) {
      forall pos: nat | pos <= n ensures SameWindow(n, Landing(kind, n, offset, pos), offset) {
        LandsRight(kind, n, offset, pos);
      }
    } else {
      Windows(n, Landing(kind, n, offset, 0), offset);
    }
  }

  /** The test on the RAM file system, for a page with bytes of the file and for one behind its end. */
  lemma RamLands(room: nat, granted: bool, n: nat, offset: int)
    requires 0 < n < LIMIT && offset + PAGE_SIZE > 0
    ensures offset < n ==> (Lands(OnRam(room, granted), n, offset) <==> 0 <= offset < 0x8000_0000)
    ensures n <= offset < 0x8000_0000 ==>
              (Lands(OnRam(room, granted), n, offset) <==> granted || offset == n || R.PageCount(offset) <= room)
  {
    Cuts(offset);
  }

  /**
    The test on a FAT volume. Of the pages behind the end of the file only one is right, the one that starts just
    there, if the listed size is the size and the file does not fill its last cluster.
   */
  lemma FatLands(listed: nat, end: nat, n: nat, offset: int)
    requires 0 < n < LIMIT && listed <= n <= end && offset + PAGE_SIZE > 0
    ensures offset < n ==> (Lands(OnFat(listed, end), n, offset) <==> 0 <= offset <= listed)
    ensures n <= offset < LIMIT ==> (Lands(OnFat(listed, end), n, offset) <==> offset == n == listed && n != end)
  {
    Cuts(offset);
  }

  /** Offset 2^31 of a file of one byte: the cut makes it negative, and the page shows the byte at the old position. */
  method CutOffsetMisleads() returns (page: seq<Byte>)
    ensures page == PageAt([7], 0) && page != PageAt([7], 0x8000_0000)
  {
    var memory := new Memory([]);
    var inode := new R.Inode(memory);
    var f := new R.File(inode);
    ghost var t;
    var r;
    r, t := f.Write([7]);
    r := f.Lseek(0, SeekSet);
    assert inode.Bytes() == [7];
    page := ReadRamPage(f, 0x8000_0000);
    assert PageAt([7], 0)[0] == 7 && PageAt([7], 0x8000_0000)[0] == 0;
  }

  /** The page behind a FAT file of one byte, its zero-filled data say, shows the byte at the old position. */
  lemma FatTailMisleads()
    ensures var kind := OnFat(1, 512); Landing(kind, 1, PAGE_SIZE, 0) == 0 && PageAt([7], 0) != PageAt([7], PAGE_SIZE)
  {
    assert PageAt([7], 0)[0] == 7 && PageAt([7], PAGE_SIZE)[0] == 0;
  }

  // ----- Open files

  /** A file that can be mapped; `Mute` has no read operation. */
  datatype OpenFile = Ram(ram: R.File) | Fat(fat: D.File) | Mute

  ghost function Footprint(f: OpenFile): set<object>
  {
    match f
    case Ram(h) => {h, h.inode, h.inode.memory}
    case Fat(h) => {h, h.memory}
    case Mute => {}
  }

  ghost function Seen(f: OpenFile): set<object>
  {
    if f.Fat? then Footprint(f) + {f.fat.volume} else Footprint(f)
  }

  ghost predicate Usable(f: OpenFile)
    reads Seen(f)
  {
    match f
    case Ram(h) => h.Valid()
    case Fat(h) => h.Valid()
    case Mute => true
  }

  ghost function Bytes(f: OpenFile): seq<Byte>
    reads Seen(f)
    requires Usable(f)
  {
    match f
    case Ram(h) => h.inode.Bytes()
    case Fat(h) => h.Bytes()
    case Mute => []
  }

  ghost function KindOf(f: OpenFile): Kind
    reads Seen(f)
    requires !f.Mute?
  {
    match f
    case Ram(h) => OnRam(|h.inode.pages|, Granted(h.inode.memory.grants, h.inode.memory.asked))
    case Fat(h) => OnFat(h.listed, h.End())
  }

  /** The position from which the handler reads. */
  ghost function ReadsFrom(f: OpenFile, offset: int): nat
    reads Seen(f)
    requires !f.Mute? && Usable(f)
  {
    Landing(KindOf(f), |Bytes(f)|, offset, if f.Ram? then f.ram.pos else f.fat.pos)
  }

  /** Reading fails: there is no read operation, or it reports an error, which the end of a FAT file may be. */
  ghost predicate Fails(f: OpenFile, offset: int)
    reads Seen(f)
    requires Usable(f)
  {
    match f
    case Ram(_) => false
    case Fat(h) =>
      var c := FlatRead(h.Bytes(), ReadsFrom(f, offset), PAGE_SIZE);
      || h.directory
      || (if c == [] then h.endOfFile < 0
          else !Granted(h.memory.grants, h.memory.asked)
               || (ReadsFrom(f, offset) + |c| == h.End() && h.endOfFile < 0))
    case Mute => true
  }

  /** A zeroed page with what a read finds copied to its front. */
  function Padded(buf: seq<Byte>): (page: seq<Byte>)
    requires |buf| <= PAGE_SIZE
    ensures |page| == PAGE_SIZE
  {
    buf + seq(PAGE_SIZE - |buf|, _ => 0)
  }

  lemma PaddedRead(c: seq<Byte>, pos: nat)
    ensures |FlatRead(c, pos, PAGE_SIZE)| <= PAGE_SIZE && Padded(FlatRead(c, pos, PAGE_SIZE)) == PageAt(c, pos)
  {
  }

  /** The reading part of the file fault handler. */
  method ReadPage(f: OpenFile, offset: int) returns (page: Option<seq<Byte>>)
    requires Usable(f)
    modifies Footprint(f)
    ensures Usable(f)
    ensures page.None? <==> old(Fails(f, offset))
    ensures page.Some? ==> !f.Mute? && page.value == PageAt(old(Bytes(f)), old(ReadsFrom(f, offset)))
  {
    match f
    case Ram(h) =>
      var p := ReadRamPage(h, offset);
      return Some(p);
    case Fat(h) =>
      page := ReadFatPage(h, offset);
    case Mute =>
      page := None;
  }

  method ReadRamPage(h: R.File, offset: int) returns (page: seq<Byte>)
    requires h.Valid()
    modifies h, h.inode, h.inode.memory
    ensures h.Valid() && page == PageAt(old(h.inode.Bytes()), old(ReadsFrom(Ram(h), offset)))
  {
    ghost var c, at := h.inode.Bytes(), ReadsFrom(Ram(h), offset);
    Cuts(offset);
    var r := h.Lseek(CutInt(offset), SeekSet);
    assert h.Valid() && h.pos == at;
    var buf := h.Read(PAGE_SIZE);
    PaddedRead(c, at);
    page := Padded(buf);
  }

  method ReadFatPage(h: D.File, offset: int) returns (page: Option<seq<Byte>>)
    requires h.Valid()
    modifies h, h.memory
    ensures h.Valid() && (page.None? <==> old(Fails(Fat(h), offset)))
    ensures page.Some? ==> page.value == PageAt(h.Bytes(), old(ReadsFrom(Fat(h), offset)))
  {
    ghost var at := ReadsFrom(Fat(h), offset);
    Cuts(offset);
    var r := h.Lseek(CutInt(offset), SeekSet);
    assert h.pos == at;
    var n, buf := h.Read(PAGE_SIZE);
    PaddedRead(h.Bytes(), at);
    if n < 0 {
      return None;
    }
    page := Some(Padded(buf));
  }
}
