/**
  Page-table entries as 32-bit words. The lemmas tie the word operations of the i386 paging code to the
  entries with a frame and a set of flags that the rest of the model uses.
 */
module Paging {
  import opened CowFlat
  import opened Tables
  import opened Fork

  const P: bv32 := 0x1
  const PAGE_MASK: bv32 := 0xFFFF_F000
  const FLAGS_MASK: bv32 := 0xFFF

  // ----- The word operations

  function MkPteWord(phys: bv32, flags: bv32): bv32
  {
    (phys & PAGE_MASK) | (flags & FLAGS_MASK) | P
  }

  function PtePhys(w: bv32): bv32
  {
    w & PAGE_MASK
  }

  function PteLow(w: bv32): bv32
  {
    w & FLAGS_MASK
  }

  function MkTableWord(phys: bv32, user: bool): bv32
  {
    (phys & PAGE_MASK) | ((if user then 0x7 else 0x3) & FLAGS_MASK)
  }

  function MmuFlagsArchWord(f: bv32): bv32
  {
    P | (if f & 0x2 != 0 then 0x2 else 0) | (if f & 0x4 != 0 then 0x4 else 0) | (if f & 0x8 != 0 then 0x100 else 0)
    | (if f & 0x40 != 0 then 0x80 else 0) | (if f & 0x10 != 0 then 0x18 else 0)
  }

  function ArchMmuFlagsWord(f: bv32): bv32
  {
    (if f & 0x1 != 0 then 0x1 else 0) | (if f & 0x2 != 0 then 0x2 else 0) | (if f & 0x18 != 0 then 0x10 else 0)
    | (if f & 0x100 != 0 then 0x8 else 0) | (if f & 0x80 != 0 then 0x40 else 0) | (if f & 0x4 != 0 then 0x4 else 0)
  }

  /** What fork writes for a present leaf. */
  function ProtectWord(w: bv32): bv32
  {
    var flags := ArchMmuFlagsWord(PteLow(w));
    if flags & 0x2 != 0 && flags & 0x4 != 0 then MkPteWord(PtePhys(w), MmuFlagsArchWord(flags & !0x2)) else w
  }

  // ----- What words stand for

  function Flags(w: bv32): PteFlags
  {
    PteFlags(w & 0x2 != 0, w & 0x4 != 0, w & 0x8 != 0, w & 0x10 != 0, w & 0x20 != 0, w & 0x40 != 0, w & 0x80 != 0,
        w & 0x100 != 0)
  }

  function MemFlagsOf(w: bv32): MemFlags
  {
    MemFlags(w & 0x1 != 0, w & 0x2 != 0, w & 0x4 != 0, w & 0x8 != 0, w & 0x10 != 0, w & 0x40 != 0, w & 0x1000 != 0,
        w & 0x8000 != 0)
  }

  function Entry(w: bv32): Pte
  {
    Pte(w & P != 0, (w >> 12) as nat, Flags(w))
  }

  // ----- Round trips

  /** An entry gives back the address and flags it was made from, and is present. */
  lemma PteRoundTrip(phys: bv32, flags: bv32)
    ensures PtePhys(MkPteWord(phys, flags)) == phys & PAGE_MASK
    ensures PteLow(MkPteWord(phys, flags)) == (flags & FLAGS_MASK) | P
    ensures MkPteWord(phys, flags) & P != 0
    ensures MkPteWord(phys, flags) >> 12 == phys >> 12
  {
  }

  /** A present entry is made from its own parts. */
  lemma PtePartsMakeEntry(w: bv32)
    requires w & P != 0
    ensures MkPteWord(PtePhys(w), PteLow(w)) == w
  {
  }

  /** The two flag translations are inverse on the flags that both have a meaning for. */
  lemma FlagRoundTrip(f: bv32)
    requires f & !0x5F == 0 && f & 0x1 != 0
    ensures ArchMmuFlagsWord(MmuFlagsArchWord(f)) == f
  {
  }

  /** The low bits that both words test alike. */
  predicate SameFlagBits(v: bv32, w: bv32)
  {
    v & 0x1FE == w & 0x1FE
  }

  lemma SameFlags(v: bv32, w: bv32)
    requires SameFlagBits(v, w)
    ensures Flags(v) == Flags(w)
  {
  }

  lemma PteBits(phys: bv32, flags: bv32)
    ensures SameFlagBits(MkPteWord(phys, flags), flags) && SameFlagBits(PteLow(flags), flags)
  {
  }

  lemma ArchFlags(f: bv32)
    ensures Flags(MmuFlagsArchWord(f)) == MmuFlagsArch(MemFlagsOf(f))
  {
  }

  lemma MemOfArch(w: bv32)
    requires w & P != 0
    ensures MemFlagsOf(ArchMmuFlagsWord(w)) == ArchMmuFlags(Flags(w))
  {
  }

  lemma PteEntry(phys: bv32, flags: bv32)
    ensures Entry(MkPteWord(phys, flags)) == Pte(true, (phys >> 12) as nat, Flags(flags))
  {
    PteRoundTrip(phys, flags);
    PteBits(phys, flags);
    SameFlags(MkPteWord(phys, flags), flags);
  }

  /** The entry the fault handlers write. */
  lemma MappedEntry(phys: bv32, f: bv32)
    ensures Entry(MkPteWord(phys, MmuFlagsArchWord(f))) == Pte(true, (phys >> 12) as nat, MmuFlagsArch(MemFlagsOf(f)))
  {
    PteEntry(phys, MmuFlagsArchWord(f));
    ArchFlags(f);
  }

  function TableBits(user: bool): bv32
  {
    if user then 0x6 else 0x2
  }

  lemma TableWord(phys: bv32, user: bool)
    ensures MkTableWord(phys, user) == MkPteWord(phys, TableBits(user))
    ensures Flags(TableBits(user)) == NO_FLAGS.(rw := true, us := user)
  {
  }

  /** The entry that links a table. */
  lemma TableEntry(phys: bv32, user: bool)
    ensures Entry(MkTableWord(phys, user)) == MkTable((phys >> 12) as nat, user)
  {
    TableWord(phys, user);
    PteEntry(phys, TableBits(user));
  }

  lemma WithoutWrite(f: bv32)
    ensures MemFlagsOf(f & !0x2) == MemFlagsOf(f).(write := false)
  {
  }

  lemma PhysFrame(w: bv32)
    ensures PtePhys(w) >> 12 == w >> 12 && PteLow(w) & P == w & P
  {
  }

  /** What fork writes, word by word, is what the model writes. */
  lemma ProtectedEntry(w: bv32)
    requires w & P != 0
    ensures Entry(ProtectWord(w)) == Protect(Entry(w))
  {
    var low := PteLow(w);
    var flags := ArchMmuFlagsWord(low);
    PhysFrame(w);
    PteBits(0, w);
    SameFlags(low, w);
    MemOfArch(low);
    WithoutWrite(flags);
    MappedEntry(PtePhys(w), flags & !0x2);
  }
}
