/**
  The cpio "newc" archive reader for the initial RAM disk: hexadecimal header fields, names and contents
  padded to addresses that are multiples of four. Reading undoes writing, and on arbitrary bytes it stays
  inside the archive and always comes to an end.
 */
module Cpio {
  import opened Common

  const HEADER := 110
  /** The largest pointer value. */
  const TOP := 0xFFFF_FFFF

  const MAGIC: seq<Byte> := [0x30, 0x37, 0x30, 0x37, 0x30, 0x31]
  /** "TRAILER!!!" and its terminator. */
  const TRAILER: seq<Byte> := [0x54, 0x52, 0x41, 0x49, 0x4C, 0x45, 0x52, 0x21, 0x21, 0x21, 0]

  /** What the iterator reports: `name` with its terminator, and the file's bytes. */
  datatype Entry = Entry(
    ino: nat, mode: nat, uid: nat, gid: nat, nlink: nat, mtime: nat, devmajor: nat, devminor: nat,
    rdevmajor: nat, rdevminor: nat, check: nat, name: seq<Byte>, content: seq<Byte>)

  // ----- Addresses

  /** Rounds an address up to a multiple of four, in 32-bit arithmetic. */
  function Align4(p: nat): nat
  {
    if p + Pad4(p) > TOP then (p + Pad4(p)) % 0x1_0000_0000 else p + Pad4(p)
  }

  /** How far `n` is from the next multiple of four. */
  function Pad4(n: nat): nat
  {
    (4 - n % 4) % 4
  }

  /** Rounding up works exactly up to the last multiple of four. */
  lemma Align4Works(p: nat)
    requires p <= TOP
    ensures Align4(p) >= p <==> p <= TOP - 3
    ensures p <= TOP - 3 ==> Align4(p) % 4 == 0 && p <= Align4(p) < p + 4
    ensures p > TOP - 3 ==> Align4(p) == 0
  {
  }

  // ----- Hexadecimal fields

  /** Anything but a hexadecimal digit counts as zero. */
  function Digit(c: Byte): (d: nat)
    ensures d < 16
  {
    if 0x30 <= c <= 0x39 then (c - 0x30) as nat
    else if 0x41 <= c <= 0x46 then (c - 0x41) as nat + 10
    else if 0x61 <= c <= 0x66 then (c - 0x61) as nat + 10
    else 0
  }

  /** The value of a field: its digits, most significant first, in 32 bits. */
  function Hex(field: seq<Byte>): (v: nat)
    ensures v < 0x1_0000_0000
  {
    if |field| == 0 then 0
    else (Hex(field[..|field| - 1]) * 16 % 0x1_0000_0000 + Digit(field[|field| - 1])) % 0x1_0000_0000
  }

  method ParseField(field: seq<Byte>) returns (value: nat)
    requires |field| == 8
    ensures value == Hex(field) == Weighed(field, 8)
    ensures forall v: nat :: Spells(field, v) ==> value == v
  {
    HexIsSum(field);
    forall v: nat | Spells(field, v) ensures Hex(field) == v { HexRoundTrip(field, v); }
    value := 0;
    for i := 0 to 8
      invariant value == Hex(field[..i])
    {
      assert field[..i + 1][..i] == field[..i];
      value := (value * 16 % 0x1_0000_0000 + Digit(field[i])) % 0x1_0000_0000;
    }
    assert field[..8] == field;
  }

  const LOWER := "0123456789abcdef"
  const UPPER := "0123456789ABCDEF"

  /** The two marks of the format, as text. */
  lemma Marks()
    ensures |MAGIC| == 6 && forall i :: 0 <= i < 6 ==> MAGIC[i] as int == "070701"[i] as int
    ensures |TRAILER| == 11 && TRAILER[10] == 0 && forall i :: 0 <= i < 10 ==>
              TRAILER[i] as int == "TRAILER!!!"[i] as int
  {
  }

  /** `c` is the character for digit `d`, in either case. */
  predicate Writes(c: Byte, d: nat)
  {
    d < 16 && (c as int == LOWER[d] as int || c as int == UPPER[d] as int)
  }

  /** Exactly the sixteen digits are digits, in either case, and count what they say; the rest counts nothing. */
  lemma DigitWrites(c: Byte, d: nat)
    ensures Writes(c, d) ==> Digit(c) == d
    ensures (forall e: nat :: !Writes(c, e)) ==> Digit(c) == 0
  {
    DigitCharWrites(Digit(c), false);
    DigitCharWrites(Digit(c), true);
    if d < 16 {
      DigitCharWrites(d, false);
      DigitCharWrites(d, true);
    }
    if Digit(c) > 0 { assert Writes(c, Digit(c)); }
  }

  /** The character written for a digit. */
  function DigitChar(d: nat, caps: bool): (c: Byte)
    requires d < 16
    ensures Digit(c) == d
  {
    if d < 10 then 0x30 + d as Byte else (if caps then 0x41 else 0x61) + (d - 10) as Byte
  }

  lemma DigitCharWrites(d: nat, caps: bool)
    requires d < 16
    ensures DigitChar(d, caps) as int == (if caps then UPPER else LOWER)[d] as int
  {
    if d < 8 {
      assert d == 0 || d == 1 || d == 2 || d == 3 || d == 4 || d == 5 || d == 6 || d == 7;
    } else {
      assert d == 8 || d == 9 || d == 10 || d == 11 || d == 12 || d == 13 || d == 14 || d == 15;
    }
  }

  lemma Shift(h: nat, d: nat)
    requires h * 16 + d < 0x1_0000_0000
    ensures (h * 16 % 0x1_0000_0000 + d) % 0x1_0000_0000 == h * 16 + d
  {
  }

  /** `v` without its last `n` digits. */
  function Top(v: nat, n: nat): nat
  {
    if n == 0 then v else Top(v, n - 1) / 16
  }

  /** The field is the number in eight hexadecimal digits, each in either case. */
  predicate Spells(f: seq<Byte>, v: nat)
  {
    |f| == 8 && v < 0x1_0000_0000 && forall k :: 0 <= k < 8 ==> Writes(f[k], Top(v, 7 - k) % 16)
  }

  lemma {:induction false} TopBelow(v: nat, n: nat)
    ensures Top(v, n) <= v
  {
    if n > 0 { TopBelow(v, n - 1); }
  }

  lemma TopOf8(v: nat)
    requires v < 0x1_0000_0000
    ensures Top(v, 8) == 0
  {
    assert Top(v, 1) < 0x1000_0000;
    assert Top(v, 2) < 0x100_0000;
    assert Top(v, 3) < 0x10_0000;
    assert Top(v, 4) < 0x1_0000;
    assert Top(v, 5) < 0x1000;
    assert Top(v, 6) < 0x100;
    assert Top(v, 7) < 0x10;
  }

  lemma HexNext(f: seq<Byte>, n: nat)
    requires 0 < n <= |f|
    ensures Hex(f[..n]) == (Hex(f[..n - 1]) * 16 % 0x1_0000_0000 + Digit(f[n - 1])) % 0x1_0000_0000
  {
    assert f[..n][..n - 1] == f[..n - 1];
  }

  /** The first `n` digits of a field give the number it spells without its last digits. */
  lemma {:induction false} SpelledPrefix(f: seq<Byte>, v: nat, n: nat)
    requires n <= |f| == 8 && v < 0x1_0000_0000 && forall k: nat :: k < 8 ==> Digit(f[k]) == Top(v, 7 - k) % 16
    ensures Hex(f[..n]) == Top(v, 8 - n)
  {
    if n == 0 {
      TopOf8(v);
    } else {
      SpelledPrefix(f, v, n - 1);
      HexNext(f, n);
      TopBelow(v, 8 - n);
      Reassembled(Top(v, 8 - n));
      assert Digit(f[n - 1]) == Top(v, 7 - (n - 1)) % 16;
    }
  }

  lemma SpelledDigit(f: seq<Byte>, v: nat, k: nat)
    requires Spells(f, v) && k < 8
    ensures Digit(f[k]) == Top(v, 7 - k) % 16
  {
    DigitWrites(f[k], Top(v, 7 - k) % 16);
  }

  lemma Reassembled(w: nat)
    requires w < 0x1_0000_0000
    ensures (w / 16 * 16 % 0x1_0000_0000 + w % 16) % 0x1_0000_0000 == w
  {
    Shift(w / 16, w % 16);
  }

  /** Parsing a written field gives the number back, whichever case its digits are in. */
  lemma HexRoundTrip(f: seq<Byte>, v: nat)
    requires Spells(f, v)
    ensures Hex(f) == v
  {
    forall k: nat | k < 8 ensures Digit(f[k]) == Top(v, 7 - k) % 16 { SpelledDigit(f, v, k); }
    SpelledPrefix(f, v, 8);
    assert f[..8] == f;
  }

  function Pow16(n: nat): nat
  {
    if n == 0 then 1 else 16 * Pow16(n - 1)
  }

  /** The first `n` digits, each times its power of sixteen. */
  function Weighed(f: seq<Byte>, n: nat): nat
    requires n <= |f| == 8
  {
    if n == 0 then 0 else Weighed(f, n - 1) + Digit(f[n - 1]) * Pow16(8 - n)
  }

  lemma {:induction false} HexBelow(f: seq<Byte>, n: nat)
    requires n <= |f| == 8
    ensures Hex(f[..n]) < Pow16(n) <= Pow16(8) == 0x1_0000_0000
    ensures n > 0 ==> Hex(f[..n]) == Hex(f[..n - 1]) * 16 + Digit(f[n - 1])
  {
    Pow16Upto(n);
    if n > 0 {
      HexBelow(f, n - 1);
      HexNext(f, n);
      Shift(Hex(f[..n - 1]), Digit(f[n - 1]));
    }
  }

  lemma Pow16Upto(n: nat)
    requires n <= 8
    ensures Pow16(n) <= Pow16(8) == 0x1_0000_0000
  {
    assert Pow16(1) == 0x10 && Pow16(2) == 0x100;
    assert Pow16(3) == 0x1000 && Pow16(4) == 0x1_0000;
    assert Pow16(5) == 0x10_0000 && Pow16(6) == 0x100_0000;
    assert Pow16(7) == 0x1000_0000;
  }

  /** Any field of eight characters is read as the sum of its digits times their powers of sixteen. */
  lemma HexIsSum(f: seq<Byte>)
    requires |f| == 8
    ensures Hex(f) == Weighed(f, 8)
  {
    WeighedPrefix(f, 8);
    assert f[..8] == f;
  }

  lemma {:induction false} WeighedPrefix(f: seq<Byte>, n: nat)
    requires n <= |f| == 8
    ensures Hex(f[..n]) * Pow16(8 - n) == Weighed(f, n)
  {
    if n > 0 {
      WeighedPrefix(f, n - 1);
      HexBelow(f, n);
      Distribute(Hex(f[..n - 1]), Digit(f[n - 1]), Pow16(8 - n));
    }
  }

  lemma Distribute(h: nat, d: nat, p: nat)
    ensures (h * 16 + d) * p == h * (16 * p) + d * p
  {
  }

  /** The last `n` digits of `v`. */
  function Digits(v: nat, n: nat, caps: bool): (f: seq<Byte>)
    ensures |f| == n
  {
    if n == 0 then [] else Digits(v / 16, n - 1, caps) + [DigitChar(v % 16, caps)]
  }

  lemma {:induction false} DigitsAt(v: nat, n: nat, caps: bool, k: nat)
    requires k < n
    ensures Writes(Digits(v, n, caps)[k], Top(v, n - 1 - k) % 16)
  {
    if k == n - 1 {
      DigitCharWrites(v % 16, caps);
    } else {
      DigitsAt(v / 16, n - 1, caps, k);
      TopShift(v, n - 2 - k);
    }
  }

  lemma {:induction false} TopShift(v: nat, n: nat)
    ensures Top(v / 16, n) == Top(v, n + 1)
  {
    if n > 0 { TopShift(v, n - 1); }
  }

  lemma DigitsSpelled(v: nat, caps: bool)
    requires v < 0x1_0000_0000
    ensures Spells(Digits(v, 8, caps), v)
  {
    forall k: nat | k < 8 ensures Writes(Digits(v, 8, caps)[k], Top(v, 7 - k) % 16) { DigitsAt(v, 8, caps, k); }
  }

  // ----- The header

  /** Field `k` of a header at offset `o`; the fields start behind the magic number. */
  function Field(data: seq<Byte>, o: nat, k: nat): (f: seq<Byte>)
    requires k < 13 && o + HEADER <= |data|
    ensures |f| == 8
  {
    data[o + 6 + 8 * k..o + 14 + 8 * k]
  }

  function FieldValues(e: Entry): (v: seq<nat>)
    ensures |v| == 13
  {
    [e.ino, e.mode, e.uid, e.gid, e.nlink, e.mtime, |e.content|,
     e.devmajor, e.devminor, e.rdevmajor, e.rdevminor, |e.name|, e.check]
  }

  // ----- Reading

  /** `Stray` is an entry whose content pointer is not in the archive. */
  datatype Outcome = Yield(entry: Entry, next: nat) | Stray(next: nat) | End | Error(code: int)

  /** The archive lies in the address space, and not at null. */
  predicate Fits(base: nat, data: seq<Byte>)
  {
    0 < base && base + |data| <= TOP
  }

  /**
    It is too short for a header and a name, or ends at or below the last multiple of four, so that no address in it
    is rounded up to null.
   */
  predicate Safe(base: nat, size: nat)
  {
    size < HEADER + 1 || base + size <= TOP - 3
  }

  predicate Placed(base: nat, data: seq<Byte>)
  {
    Fits(base, data) && Safe(base, |data|)
  }

  /** The result sends the next call back to the start of the archive, or outside of it. */
  predicate Derails(r: Outcome)
  {
    r.Stray? || (r.Yield? && r.next == 0)
  }

  /** The entry lies inside the archive, and the cursor moves on by more than a header. */
  predicate Advances(base: nat, size: nat, cur: nat, e: Entry, next: nat)
  {
    && next <= base + size && next % 4 == 0 && |e.name| > 0 && e.name[|e.name| - 1] == 0 && e.name != TRAILER
    && cur + HEADER + |e.name| + |e.content| <= next
  }

  /** The entry whose header stands at address `cur`. */
  function Iterate(base: nat, data: seq<Byte>, cur: nat): (r: Outcome)
    requires Fits(base, data) && base <= cur <= base + |data|
    ensures r.Yield? && r.next != 0 ==> Advances(base, |data|, cur, r.entry, r.next)
    ensures Derails(r) ==> !Placed(base, data)
  {
    var o := cur - base;
    if o + HEADER > |data| || data[o..o + 6] != MAGIC then Error(-EINVAL)
    else Body(base, data, o, Hex(Field(data, o, 11)), Hex(Field(data, o, 6)))
  }

  /** Name and content behind the header at offset `o`. */
  function Body(base: nat, data: seq<Byte>, o: nat, namesize: nat, filesize: nat): (r: Outcome)
    requires Fits(base, data) && o + HEADER <= |data|
    ensures r.Yield? && r.next != 0 ==> Advances(base, |data|, base + o, r.entry, r.next)
    ensures Derails(r) ==> !Placed(base, data)
  {
    var name := o + HEADER;
    if namesize == 0 || name + namesize > |data| || data[name + namesize - 1] != 0 then Error(-EINVAL)
    else if data[name..name + namesize] == TRAILER then End
    else Content(base, data, o, data[name..name + namesize], filesize)
  }

  /** What rounding up gives: the next multiple of four, or null if there is none. */
  predicate IsAligned(p: nat, a: nat)
  {
    if p <= TOP - 3 then a % 4 == 0 && p <= a < p + 4 else a == 0
  }

  /** The content, at the next multiple of four, and the place of the next header. */
  function Content(base: nat, data: seq<Byte>, o: nat, name: seq<Byte>, filesize: nat): (r: Outcome)
    requires Fits(base, data) && o + HEADER + |name| <= |data|
    requires |name| > 0 && name[|name| - 1] == 0 && name != TRAILER
    ensures r.Yield? && r.next != 0 ==> Advances(base, |data|, base + o, r.entry, r.next)
    ensures Derails(r) ==> !Placed(base, data)
  {
    Align4Works(base + o + HEADER + |name|);
    var at := Align4(base + o + HEADER + |name|);
    if at > base + |data| then Error(-ERANGE)
    else if at + filesize > base + |data| then Error(-EINVAL)
    else
      Align4Works(at + filesize);
      Settle(base, data, o, name, filesize, at, Align4(at + filesize))
  }

  function Settle(base: nat, data: seq<Byte>, o: nat, name: seq<Byte>, filesize: nat, at: nat, next: nat): (r: Outcome)
    requires Fits(base, data) && o + HEADER + |name| <= |data|
    requires |name| > 0 && name[|name| - 1] == 0 && name != TRAILER
    requires IsAligned(base + o + HEADER + |name|, at) && at + filesize <= base + |data|
             && IsAligned(at + filesize, next)
    ensures r.Yield? && r.next != 0 ==> Advances(base, |data|, base + o, r.entry, r.next)
    ensures Derails(r) ==> !Placed(base, data)
  {
    if next > base + |data| then Error(-EINVAL)
    else if at < base then Stray(next)
    else Yield(MakeEntry(data, o, name, data[at - base..at - base + filesize]), next)
  }

  function MakeEntry(data: seq<Byte>, o: nat, name: seq<Byte>, content: seq<Byte>): Entry
    requires o + HEADER <= |data|
  {
    Entry(Hex(Field(data, o, 0)), Hex(Field(data, o, 1)), Hex(Field(data, o, 2)), Hex(Field(data, o, 3)),
          Hex(Field(data, o, 4)), Hex(Field(data, o, 5)), Hex(Field(data, o, 7)), Hex(Field(data, o, 8)),
          Hex(Field(data, o, 9)), Hex(Field(data, o, 10)), Hex(Field(data, o, 12)), name, content)
  }

  /** One call of the iterator; `cursor` is null on the first. */
  method Next(base: nat, data: seq<Byte>, cursor: Option<nat>) returns (r: Outcome)
    requires cursor.Some? ==> base <= cursor.value <= base + |data|
    ensures if base == 0 then r == Error(-EINVAL) else if base + |data| > TOP then r == Error(-ERANGE)
            else r == Iterate(base, data, if cursor.Some? then cursor.value else base)
  {
    if base == 0 {
      return Error(-EINVAL);
    }
    if base + |data| > TOP {
      return Error(-ERANGE);
    }
    var cur := if cursor.Some? then cursor.value else base;
    var o := cur - base;
    if HEADER > |data| - o || data[o..o + 6] != MAGIC {
      return Error(-EINVAL);
    }
    var namesize := ParseField(Field(data, o, 11));
    if namesize == 0 {
      return Error(-EINVAL);
    }
    var filesize := ParseField(Field(data, o, 6));
    r := NextBody(base, data, o, namesize, filesize);
  }

  method NextBody(base: nat, data: seq<Byte>, o: nat, namesize: nat, filesize: nat) returns (r: Outcome)
    requires Fits(base, data) && o + HEADER <= |data| && namesize > 0
    ensures r == Body(base, data, o, namesize, filesize)
  {
    var at := o + HEADER;
    if namesize > |data| - at || data[at + namesize - 1] != 0 {
      return Error(-EINVAL);
    }
    var name := data[at..at + namesize];
    if namesize == 11 && name == TRAILER {
      return End;
    }
    r := NextContent(base, data, o, name, filesize);
  }

  method NextContent(base: nat, data: seq<Byte>, o: nat, name: seq<Byte>, filesize: nat) returns (r: Outcome)
    requires Fits(base, data) && o + HEADER + |name| <= |data|
    requires |name| > 0 && name[|name| - 1] == 0 && name != TRAILER
    ensures r == Content(base, data, o, name, filesize)
  {
    Align4Works(base + o + HEADER + |name|);
    var at := Align4(base + o + HEADER + |name|);
    if at > base + |data| {
      return Error(-ERANGE);
    }
    if filesize > base + |data| - at {
      return Error(-EINVAL);
    }
    Align4Works(at + filesize);
    r := NextSettle(base, data, o, name, filesize, at, Align4(at + filesize));
  }

  method NextSettle(base: nat, data: seq<Byte>, o: nat, name: seq<Byte>, filesize: nat, at: nat, next: nat)
      returns (r: Outcome)
    requires Fits(base, data) && o + HEADER + |name| <= |data|
    requires |name| > 0 && name[|name| - 1] == 0 && name != TRAILER
    requires IsAligned(base + o + HEADER + |name|, at) && at + filesize <= base + |data|
             && IsAligned(at + filesize, next)
    ensures r == Settle(base, data, o, name, filesize, at, next)
  {
    if next > base + |data| {
      return Error(-EINVAL);
    }
    if at < base {
      return Stray(next);
    }
    var e := FillEntry(data, o, name, data[at - base..at - base + filesize]);
    return Yield(e, next);
  }

  method FillEntry(data: seq<Byte>, o: nat, name: seq<Byte>, content: seq<Byte>) returns (e: Entry)
    requires o + HEADER <= |data|
    ensures e == MakeEntry(data, o, name, content)
  {
    var ino := ParseField(Field(data, o, 0));
    var mode := ParseField(Field(data, o, 1));
    var uid := ParseField(Field(data, o, 2));
    var gid := ParseField(Field(data, o, 3));
    var nlink := ParseField(Field(data, o, 4));
    var mtime := ParseField(Field(data, o, 5));
    var devmajor := ParseField(Field(data, o, 7));
    var devminor := ParseField(Field(data, o, 8));
    var rdevmajor := ParseField(Field(data, o, 9));
    var rdevminor := ParseField(Field(data, o, 10));
    var check := ParseField(Field(data, o, 12));
    e := Entry(ino, mode, uid, gid, nlink, mtime, devmajor, devminor, rdevmajor, rdevminor, check, name, content);
  }

  // ----- The last three bytes

  function Zeros(n: nat): (z: seq<Byte>)
    ensures |z| == n
  {
    seq(n, _ => 0)
  }

  /** An entry with no content, all numbers zero and a name of `n` zero bytes. */
  function NullEntry(n: nat): Entry
  {
    Entry(0, 0, 0, 0, 0, 0, 0, 0, 0, 0, 0, Zeros(n), [])
  }

  /** An archive of `n` bytes: one entry, whose name fills it to the end. */
  function FullArchive(n: nat): (data: seq<Byte>)
    requires n > HEADER
    ensures |data| == n
  {
    Header(NullEntry(n - HEADER), false) + Zeros(n - HEADER)
  }

  lemma FullHeader(n: nat)
    requires HEADER < n <= TOP
    ensures var data := FullArchive(n);
            data[0..6] == MAGIC && Hex(Field(data, 0, 11)) == n - HEADER && Hex(Field(data, 0, 6)) == 0
    ensures FullArchive(n)[HEADER..n] == Zeros(n - HEADER) != TRAILER
  {
    NullEncodable(n - HEADER);
    WrittenFields(NullEntry(n - HEADER), Zeros(n - HEADER), false);
    assert TRAILER[0] == 0x54 && Zeros(n - HEADER)[0] == 0;
  }

  lemma NullEncodable(n: nat)
    requires 0 < n <= TOP
    ensures Encodable(NullEntry(n))
  {
  }

  lemma WrittenFields(e: Entry, rest: seq<Byte>, caps: bool)
    requires Encodable(e)
    ensures var data := Header(e, caps) + rest;
            && data[0..6] == MAGIC && Hex(Field(data, 0, 11)) == |e.name| && Hex(Field(data, 0, 6)) == |e.content|
            && data[HEADER..|data|] == rest
  {
    var data := Header(e, caps) + rest;
    assert data[0..HEADER] == Header(e, caps);
    HeaderWritten(data, 0, e, caps);
    HeaderEntry(data, 0, e);
  }

  /**
    An archive that ends in the last three bytes can have an entry whose content pointer and next cursor are
    null. A null cursor stands for the start, so the next call gives the same entry again, and so on for ever.
   */
  lemma LastEntryStartsOver(base: nat, n: nat)
    requires 0 < base && base + n <= TOP && !Safe(base, n)
    ensures Iterate(base, FullArchive(n), base) == Stray(0)
  {
    var data := FullArchive(n);
    FullHeader(n);
    assert data[n - 1] == 0;
    NullContent(base, data, data[HEADER..n]);
  }

  lemma NullContent(base: nat, data: seq<Byte>, name: seq<Byte>)
    requires Fits(base, data) && |data| == HEADER + |name| && !Safe(base, |data|)
    requires |name| > 0 && name[|name| - 1] == 0 && name != TRAILER
    ensures Content(base, data, 0, name, 0) == Stray(0)
  {
    Align4Works(base + |data|);
    Align4Works(0);
  }

  ghost predicate NeverDerails(base: nat, n: nat)
    requires 0 < base && base + n <= TOP
  {
    forall data: seq<Byte>, cur: nat :: |data| == n && base <= cur <= base + n ==> !Derails(Iterate(base, data, cur))
  }

  /** Which places are safe for every archive of a size: exactly those of `Safe`. */
  lemma SafePlaces(base: nat, n: nat)
    requires 0 < base && base + n <= TOP
    ensures NeverDerails(base, n) <==> Safe(base, n)
  {
    if !Safe(base, n) {
      LastEntryStartsOver(base, n);
      assert Derails(Iterate(base, FullArchive(n), base));
    }
  }

  /** The `k`th round of an iteration that has yielded `es` and put its cursor at `curs`. */
  predicate Round(base: nat, data: seq<Byte>, curs: seq<nat>, es: seq<Entry>, k: nat)
    requires Placed(base, data)
  {
    k + 1 < |curs| && k < |es| && base <= curs[k] <= base + |data|
        && Iterate(base, data, curs[k]) == Yield(es[k], curs[k + 1])
  }

  /** All rounds from the start of the archive. */
  ghost predicate Rounds(base: nat, data: seq<Byte>, curs: seq<nat>, es: seq<Entry>)
    requires Placed(base, data)
  {
    && |curs| == |es| + 1 && curs[0] == base && base <= curs[|es|] <= base + |data|
    && forall k {:trigger Round(base, data, curs, es, k)} :: 0 <= k < |es| ==> Round(base, data, curs, es, k)
  }

  lemma NextRound(base: nat, data: seq<Byte>, curs: seq<nat>, es: seq<Entry>, e: Entry, next: nat)
    requires Placed(base, data) && Rounds(base, data, curs, es) && Iterate(base, data, curs[|es|]) == Yield(e, next)
    ensures curs[|es|] < next <= base + |data| && Rounds(base, data, curs + [next], es + [e])
  {
    assert Advances(base, |data|, curs[|es|], e, next);
    var curs', es' := curs + [next], es + [e];
    forall k | 0 <= k < |es'| ensures Round(base, data, curs', es', k) {
      assert k < |es| ==> Round(base, data, curs, es, k);
    }
  }

  /** The rounds `curs` yield `es` and end with `code`: 0 at the trailer, or an error. */
  ghost predicate Ends(base: nat, data: seq<Byte>, curs: seq<nat>, es: seq<Entry>, code: int)
    requires Placed(base, data)
  {
    Rounds(base, data, curs, es) && Iterate(base, data, curs[|es|]) == if code == 0 then End else Error(code)
  }

  /** The loop that unpacks the archive: in every safe place it ends, at the trailer or with an error code. */
  method Unpack(base: nat, data: seq<Byte>) returns (entries: seq<Entry>, code: int)
    requires Fits(base, data) ==> Safe(base, |data|)
    ensures !Fits(base, data) ==> entries == [] && code == if base == 0 then -EINVAL else -ERANGE
    ensures Fits(base, data) ==> exists curs :: Ends(base, data, curs, entries, code)
  {
    ghost var curs := [base];
    entries := [];
    var cursor: Option<nat> := None;
    while true
      invariant if Fits(base, data) then Rounds(base, data, curs, entries) else entries == [] && curs == [base]
      invariant curs[|entries|] == if cursor.Some? then cursor.value else base
      decreases base + |data| - curs[|entries|]
    {
      var r := Next(base, data, cursor);
      match r
      case End =>
        assert Ends(base, data, curs, entries, 0);
        return entries, 0;
      case Error(c) =>
        assert Fits(base, data) && c != 0 ==> Ends(base, data, curs, entries, c);
        return entries, c;
      case Yield(e, next) =>
        NextRound(base, data, curs, entries, e, next);
        entries, cursor, curs := entries + [e], Some(next), curs + [next];
    }
  }

  // ----- Writing

  function Padding(n: nat): seq<Byte>
  {
    seq(Pad4(n), _ => 0)
  }

  function Fields(v: seq<nat>, caps: bool): (f: seq<Byte>)
    ensures |f| == 8 * |v|
  {
    if v == [] then [] else Digits(v[0], 8, caps) + Fields(v[1..], caps)
  }

  function Header(e: Entry, caps: bool): (h: seq<Byte>)
    ensures |h| == HEADER
  {
    MAGIC + Fields(FieldValues(e), caps)
  }

  /** One way to write an entry: header and name, then the content, each padded with zeros to a multiple of four. */
  function Encode(e: Entry, caps: bool): seq<Byte>
  {
    Header(e, caps) + (e.name + (Padding(HEADER + |e.name|) + (e.content + Padding(|e.content|))))
  }

  /** The header at offset `o` spells the numbers of the entry, its digits in either case. */
  ghost predicate HeaderAt(data: seq<Byte>, o: nat, e: Entry)
  {
    o + HEADER <= |data| && data[o..o + 6] == MAGIC && FieldsSpell(data, o, FieldValues(e), 13)
  }

  /** The first `n` fields of the header spell the first `n` numbers. */
  predicate FieldsSpell(data: seq<Byte>, o: nat, v: seq<nat>, n: nat)
    requires o + HEADER <= |data| && n <= |v| == 13
  {
    n == 0 || (FieldsSpell(data, o, v, n - 1) && Spells(Field(data, o, n - 1), v[n - 1]))
  }

  lemma {:induction false} FieldSpell(data: seq<Byte>, o: nat, v: seq<nat>, n: nat, k: nat)
    requires o + HEADER <= |data| && k < n <= |v| == 13 && FieldsSpell(data, o, v, n)
    ensures Hex(Field(data, o, k)) == v[k]
  {
    if k < n - 1 { FieldSpell(data, o, v, n - 1, k); } else { HexRoundTrip(Field(data, o, k), v[k]); }
  }

  lemma {:induction false} FieldsSpelled(data: seq<Byte>, o: nat, e: Entry, caps: bool, n: nat)
    requires StartsWith(data, o, Header(e, caps)) && Encodable(e) && n <= 13
    ensures FieldsSpell(data, o, FieldValues(e), n)
  {
    if n > 0 {
      FieldsSpelled(data, o, e, caps, n - 1);
      HeaderField(data, o, e, caps, n - 1);
    }
  }

  /** The entry stands at offset `o`, with any padding; of the trailer only header and name matter. */
  ghost predicate StandsAt(data: seq<Byte>, o: nat, e: Entry)
  {
    && HeaderAt(data, o, e) && StartsWith(data, o + HEADER, e.name)
    && (e.name != TRAILER ==> o + EndAt(e) <= |data| && StartsWith(data, o + ContentAt(e), e.content))
  }

  predicate Word(v: nat)
  {
    v < 0x1_0000_0000
  }

  lemma WordFields(e: Entry, k: nat)
    requires Encodable(e) && k < 13
    ensures Word(FieldValues(e)[k])
  {
  }

  /** Numbers of 32 bits and a terminated name; the name of the trailer is taken. */
  predicate Encodable(e: Entry)
  {
    && Word(e.ino) && Word(e.mode) && Word(e.uid) && Word(e.gid) && Word(e.nlink) && Word(e.mtime) && Word(|e.content|)
    && Word(e.devmajor) && Word(e.devminor) && Word(e.rdevmajor) && Word(e.rdevminor) && Word(|e.name|) && Word(e.check)
    && |e.name| > 0 && e.name[|e.name| - 1] == 0
  }

  lemma {:induction false} FieldsAt(v: seq<nat>, caps: bool, k: nat)
    requires k < |v|
    ensures Fields(v, caps)[8 * k..8 * k + 8] == Digits(v[k], 8, caps)
  {
    if k > 0 {
      FieldsAt(v[1..], caps, k - 1);
      SliceBehind(Digits(v[0], 8, caps), Fields(v[1..], caps), 8 * (k - 1), 8 * (k - 1) + 8);
    }
  }

  lemma SliceBehind(a: seq<Byte>, b: seq<Byte>, i: nat, j: nat)
    requires i <= j <= |b|
    ensures (a + b)[|a| + i..|a| + j] == b[i..j]
  {
    forall k | 0 <= k < j - i ensures (a + b)[|a| + i..|a| + j][k] == b[i..j][k] {}
  }

  predicate StartsWith(data: seq<Byte>, o: nat, s: seq<Byte>)
  {
    o + |s| <= |data| && data[o..o + |s|] == s
  }

  lemma StartsWithParts(data: seq<Byte>, o: nat, a: seq<Byte>, b: seq<Byte>)
    requires StartsWith(data, o, a + b)
    ensures StartsWith(data, o, a) && StartsWith(data, o + |a|, b)
  {
    var s := data[o..o + |a + b|];
    assert data[o..o + |a|] == s[..|a|] == a;
    assert data[o + |a|..o + |a| + |b|] == s[|a|..] == b;
  }

  lemma SliceOfSlice(data: seq<Byte>, a: nat, b: nat, i: nat, j: nat)
    requires a <= b <= |data| && i <= j <= b - a
    ensures data[a..b][i..j] == data[a + i..a + j]
  {
    forall k | 0 <= k < j - i ensures data[a..b][i..j][k] == data[a + i..a + j][k] {}
  }

  /** A written header, in lower or upper case, spells the numbers it was made from. */
  lemma HeaderField(data: seq<Byte>, o: nat, e: Entry, caps: bool, k: nat)
    requires StartsWith(data, o, Header(e, caps)) && Encodable(e) && k < 13
    ensures Spells(Field(data, o, k), FieldValues(e)[k])
  {
    var v := FieldValues(e);
    WordFields(e, k);
    StartsWithParts(data, o, MAGIC, Fields(v, caps));
    FieldsAt(v, caps, k);
    SliceOfSlice(data, o + 6, o + 6 + |Fields(v, caps)|, 8 * k, 8 * k + 8);
    DigitsSpelled(v[k], caps);
  }

  lemma HeaderWritten(data: seq<Byte>, o: nat, e: Entry, caps: bool)
    requires StartsWith(data, o, Header(e, caps)) && Encodable(e)
    ensures HeaderAt(data, o, e)
  {
    StartsWithParts(data, o, MAGIC, Fields(FieldValues(e), caps));
    FieldsSpelled(data, o, e, caps, 13);
  }

  /** A header is parsed to the numbers it spells. */
  lemma HeaderEntry(data: seq<Byte>, o: nat, e: Entry)
    requires HeaderAt(data, o, e)
    ensures MakeEntry(data, o, e.name, e.content) == e
    ensures data[o..o + 6] == MAGIC && Hex(Field(data, o, 11)) == |e.name| && Hex(Field(data, o, 6)) == |e.content|
  {
    var v := FieldValues(e);
    forall k: nat | k < 13 ensures Hex(Field(data, o, k)) == v[k] { FieldSpell(data, o, v, 13, k); }
    assert v[0] == e.ino && v[1] == e.mode && v[2] == e.uid && v[3] == e.gid && v[4] == e.nlink && v[5] == e.mtime
           && v[7] == e.devmajor;
  }

  lemma Align4Pads(p: nat, n: nat)
    requires p % 4 == 0 && p + n <= TOP - 3
    ensures Align4(p + n) == p + n + Pad4(n) && (n + Pad4(n)) % 4 == 0 && |Padding(n)| == Pad4(n)
  {
    assert (p + n) % 4 == n % 4;
  }

  /** Where the parts of a written entry stand: its name, its content, and its end. */
  function ContentAt(e: Entry): nat
  {
    HEADER + |e.name| + Pad4(HEADER + |e.name|)
  }

  function EndAt(e: Entry): nat
  {
    ContentAt(e) + |e.content| + Pad4(|e.content|)
  }

  lemma EncodedPlaces(data: seq<Byte>, o: nat, e: Entry, caps: bool)
    requires StartsWith(data, o, Encode(e, caps))
    ensures |Encode(e, caps)| == EndAt(e) && o + EndAt(e) <= |data|
    ensures StartsWith(data, o, Header(e, caps)) && StartsWith(data, o + HEADER, e.name)
            && StartsWith(data, o + ContentAt(e), e.content)
  {
    var rest := e.content + Padding(|e.content|);
    var pad := Padding(HEADER + |e.name|);
    StartsWithParts(data, o, Header(e, caps), e.name + (pad + rest));
    StartsWithParts(data, o + HEADER, e.name, pad + rest);
    StartsWithParts(data, o + HEADER + |e.name|, pad, rest);
    StartsWithParts(data, o + ContentAt(e), e.content, Padding(|e.content|));
  }

  lemma EncodedParts(data: seq<Byte>, o: nat, e: Entry, caps: bool)
    requires StartsWith(data, o, Encode(e, caps)) && Encodable(e)
    ensures |Encode(e, caps)| == EndAt(e) && StandsAt(data, o, e)
  {
    EncodedPlaces(data, o, e, caps);
    HeaderWritten(data, o, e, caps);
  }

  lemma EncodedAligns(p: nat, e: Entry)
    requires p % 4 == 0 && p + EndAt(e) <= TOP - 3
    ensures Align4(p + HEADER + |e.name|) == p + ContentAt(e)
    ensures Align4(p + ContentAt(e) + |e.content|) == p + EndAt(e) && EndAt(e) % 4 == 0
  {
    var c, n := ContentAt(e), |e.content|;
    Align4Pads(p, HEADER + |e.name|);
    Sum4(p, c);
    Align4Pads(p + c, n);
    Sum4(c, n + Pad4(n));
  }

  lemma ContentYields(base: nat, data: seq<Byte>, o: nat, name: seq<Byte>, content: seq<Byte>, at: nat, next: nat)
    requires Placed(base, data) && o + HEADER + |name| <= |data| && |name| > 0 && name[|name| - 1] == 0
             && name != TRAILER
    requires Align4(base + o + HEADER + |name|) == base + at && StartsWith(data, at, content)
    requires Align4(base + at + |content|) == base + next && next <= |data|
    ensures Content(base, data, o, name, |content|) == Yield(MakeEntry(data, o, name, content), base + next)
  {
  }

  lemma ContentRoundTrip(base: nat, data: seq<Byte>, o: nat, e: Entry)
    requires Placed(base, data) && (base + o) % 4 == 0 && Encodable(e) && e.name != TRAILER && StandsAt(data, o, e)
    ensures Content(base, data, o, e.name, |e.content|) == Yield(e, base + o + EndAt(e))
  {
    EncodedAligns(base + o, e);
    ContentYields(base, data, o, e.name, e.content, o + ContentAt(e), o + EndAt(e));
    HeaderEntry(data, o, e);
  }

  lemma BodyRoundTrip(base: nat, data: seq<Byte>, o: nat, e: Entry)
    requires Placed(base, data) && (base + o) % 4 == 0 && Encodable(e) && StandsAt(data, o, e)
    ensures Body(base, data, o, |e.name|, |e.content|) == if e.name == TRAILER then End
                                                          else Yield(e, base + o + EndAt(e))
  {
    var at := o + HEADER;
    assert data[at + |e.name| - 1] == data[at..at + |e.name|][|e.name| - 1];
    if e.name != TRAILER { ContentRoundTrip(base, data, o, e); }
  }

  /** The iterator reads back an entry that stands at an aligned address, and stops behind it. */
  lemma EntryRoundTrip(base: nat, data: seq<Byte>, o: nat, e: Entry)
    requires Placed(base, data) && (base + o) % 4 == 0 && StandsAt(data, o, e) && Encodable(e)
    ensures Iterate(base, data, base + o) == if e.name == TRAILER then End else Yield(e, base + o + EndAt(e))
  {
    HeaderEntry(data, o, e);
    BodyRoundTrip(base, data, o, e);
  }

  /** Entry `k` of an archive, or the trailer behind the last one. */
  function PieceOf(es: seq<Entry>, trailer: Entry, k: nat): Entry
  {
    if k < |es| then es[k] else trailer
  }

  /** Piece `k` stands at offset `ps[k]`, and the next one right behind it. */
  ghost predicate Laid(data: seq<Byte>, es: seq<Entry>, trailer: Entry, ps: seq<nat>, k: nat)
  {
    && k < |ps| && StandsAt(data, ps[k], PieceOf(es, trailer, k))
    && (k + 1 < |ps| ==> ps[k + 1] == ps[k] + EndAt(PieceOf(es, trailer, k)))
  }

  predicate Ordinary(es: seq<Entry>, k: nat)
  {
    k < |es| && Encodable(es[k]) && es[k].name != TRAILER
  }

  /** An archive of the entries `es`, one behind the other, closed by a trailer, at an aligned address. */
  ghost predicate Archive(base: nat, data: seq<Byte>, es: seq<Entry>, trailer: Entry, ps: seq<nat>)
  {
    && Placed(base, data) && base % 4 == 0 && |ps| == |es| + 1 && ps[0] == 0
    && (forall k {:trigger Laid(data, es, trailer, ps, k)} :: 0 <= k <= |es| ==> Laid(data, es, trailer, ps, k))
    && (forall k {:trigger Ordinary(es, k)} :: 0 <= k < |es| ==> Ordinary(es, k)) && Encodable(trailer)
    && trailer.name == TRAILER
  }

  lemma EntryAt(base: nat, data: seq<Byte>, o: nat, next: nat, e: Entry)
    requires Placed(base, data) && base % 4 == 0 && o % 4 == 0 && StandsAt(data, o, e) && Encodable(e)
             && next == o + EndAt(e)
    ensures o <= |data| && Iterate(base, data, base + o) == if e.name == TRAILER then End else Yield(e, base + next)
  {
    Sum4(base, o);
    EntryRoundTrip(base, data, o, e);
  }

  lemma NextAligned(o: nat, next: nat, e: Entry)
    requires o % 4 == 0 && next == o + EndAt(e)
    ensures next % 4 == 0
  {
    Pad4Works(HEADER + |e.name|);
    Pad4Works(|e.content|);
    Sum4(ContentAt(e), |e.content| + Pad4(|e.content|));
    Sum4(o, EndAt(e));
  }

  lemma Pad4Works(n: nat)
    ensures (n + Pad4(n)) % 4 == 0
  {
  }

  lemma Sum4(a: nat, b: nat)
    requires a % 4 == 0 && b % 4 == 0
    ensures (a + b) % 4 == 0
  {
  }

  /** Reading at an aligned piece, and the alignment of what follows. */
  lemma ReadEntry(base: nat, data: seq<Byte>, es: seq<Entry>, trailer: Entry, ps: seq<nat>, k: nat)
    requires Archive(base, data, es, trailer, ps) && k < |es| && ps[k] % 4 == 0
    ensures ps[k] <= |data| && ps[k + 1] % 4 == 0 && Iterate(base, data, base + ps[k]) == Yield(es[k], base + ps[k + 1])
  {
    assert Laid(data, es, trailer, ps, k);
    assert Ordinary(es, k);
    NextAligned(ps[k], ps[k + 1], es[k]);
    EntryAt(base, data, ps[k], ps[k + 1], es[k]);
  }

  lemma ReadTrailer(base: nat, data: seq<Byte>, es: seq<Entry>, trailer: Entry, ps: seq<nat>)
    requires Archive(base, data, es, trailer, ps) && ps[|es|] % 4 == 0
    ensures ps[|es|] <= |data| && Iterate(base, data, base + ps[|es|]) == End
  {
    assert Laid(data, es, trailer, ps, |es|);
    EntryAt(base, data, ps[|es|], ps[|es|] + EndAt(trailer), trailer);
  }

  lemma {:induction false} PiecesAligned(base: nat, data: seq<Byte>, es: seq<Entry>, trailer: Entry, ps: seq<nat>,
          k: nat)
    requires Archive(base, data, es, trailer, ps) && k <= |es|
    ensures ps[k] % 4 == 0
  {
    if k > 0 {
      PiecesAligned(base, data, es, trailer, ps, k - 1);
      ReadEntry(base, data, es, trailer, ps, k - 1);
    }
  }

  /** The written archive is an iteration that yields its entries. */
  lemma ArchiveRounds(base: nat, data: seq<Byte>, es: seq<Entry>, trailer: Entry, ps: seq<nat>) returns (curs: seq<nat>)
    requires Archive(base, data, es, trailer, ps)
    ensures Rounds(base, data, curs, es) && curs[0] == base && Iterate(base, data, curs[|es|]).End?
  {
    curs := seq(|es| + 1, k requires 0 <= k <= |es| => base + ps[k]);
    forall k | 0 <= k < |es| ensures Round(base, data, curs, es, k) {
      PiecesAligned(base, data, es, trailer, ps, k);
      ReadEntry(base, data, es, trailer, ps, k);
    }
    PiecesAligned(base, data, es, trailer, ps, |es|);
    ReadTrailer(base, data, es, trailer, ps);
  }

  predicate WalkAt(it: nat -> Outcome, a: seq<nat>, es: seq<Entry>, k: nat)
  {
    k + 1 < |a| && k < |es| && it(a[k]) == Yield(es[k], a[k + 1])
  }

  ghost predicate Walk(it: nat -> Outcome, a: seq<nat>, es: seq<Entry>)
  {
    |a| == |es| + 1 && !it(a[|es|]).Yield? && forall k {:trigger WalkAt(it, a, es, k)} :: 0 <= k < |es| ==>
        WalkAt(it, a, es, k)
  }

  /** Two complete walks from the same place are the same. */
  lemma {:induction false} SameWalk(it: nat -> Outcome, a: seq<nat>, es: seq<Entry>, b: seq<nat>, got: seq<Entry>,
          k: nat)
    requires Walk(it, a, es) && Walk(it, b, got) && a[0] == b[0] && k <= |es|
    ensures k <= |got| && a[k] == b[k] && (forall i :: 0 <= i < k ==> es[i] == got[i]) && (k == |es| ==> |got| == k)
  {
    if k > 0 {
      SameWalk(it, a, es, b, got, k - 1);
      assert WalkAt(it, a, es, k - 1);
      assert k - 1 < |got| ==> WalkAt(it, b, got, k - 1);
    }
    assert k < |got| ==> WalkAt(it, b, got, k);
  }

  function Stepper(base: nat, data: seq<Byte>): nat -> Outcome
    requires Placed(base, data)
  {
    cur => if base <= cur <= base + |data| then Iterate(base, data, cur) else Error(0)
  }

  lemma RoundsWalk(base: nat, data: seq<Byte>, curs: seq<nat>, es: seq<Entry>)
    requires Placed(base, data) && Rounds(base, data, curs, es) && !Iterate(base, data, curs[|es|]).Yield?
    ensures Walk(Stepper(base, data), curs, es)
  {
    var it := Stepper(base, data);
    forall k | 0 <= k < |es| ensures WalkAt(it, curs, es, k) { assert Round(base, data, curs, es, k); }
  }

  /** Unpacking undoes packing: the entries come back in order, and the trailer ends the archive. */
  lemma ArchiveRoundTrip(base: nat, data: seq<Byte>, es: seq<Entry>, trailer: Entry, ps: seq<nat>, curs: seq<nat>,
          got: seq<Entry>, code: int)
    requires Archive(base, data, es, trailer, ps) && Ends(base, data, curs, got, code)
    ensures got == es && code == 0
  {
    var own := ArchiveRounds(base, data, es, trailer, ps);
    RoundsWalk(base, data, own, es);
    RoundsWalk(base, data, curs, got);
    SameWalk(Stepper(base, data), own, es, curs, got, |es|);
  }

  /** One way to write an archive. */
  function EncodeAll(es: seq<Entry>, trailer: Entry, caps: bool): seq<Byte>
  {
    if es == [] then Encode(trailer, caps) else Encode(es[0], caps) + EncodeAll(es[1..], trailer, caps)
  }

  lemma {:induction false} LaidOut(data: seq<Byte>, o: nat, es: seq<Entry>, trailer: Entry, caps: bool)
      returns (ps: seq<nat>)
    requires StartsWith(data, o, EncodeAll(es, trailer, caps)) && Encodable(trailer)
    requires forall k {:trigger Ordinary(es, k)} :: 0 <= k < |es| ==> Ordinary(es, k)
    ensures |ps| == |es| + 1 && ps[0] == o
    ensures forall k {:trigger Laid(data, es, trailer, ps, k)} :: 0 <= k <= |es| ==> Laid(data, es, trailer, ps, k)
    decreases |es|
  {
    if es == [] {
      ps := [o];
      EncodedParts(data, o, trailer, caps);
    } else {
      assert Ordinary(es, 0);
      StartsWithParts(data, o, Encode(es[0], caps), EncodeAll(es[1..], trailer, caps));
      EncodedParts(data, o, es[0], caps);
      forall k | 0 <= k < |es[1..]| ensures Ordinary(es[1..], k) { assert Ordinary(es, k + 1); }
      var rest := LaidOut(data, o + EndAt(es[0]), es[1..], trailer, caps);
      ps := [o] + rest;
      forall k | 0 <= k <= |es| ensures Laid(data, es, trailer, ps, k) {
        if k > 0 { LaidNext(data, es, trailer, rest, o, k); }
      }
    }
  }

  lemma LaidNext(data: seq<Byte>, es: seq<Entry>, trailer: Entry, rest: seq<nat>, o: nat, k: nat)
    requires 0 < k <= |es| && |rest| == |es| && Laid(data, es[1..], trailer, rest, k - 1)
    ensures Laid(data, es, trailer, [o] + rest, k)
  {
    assert PieceOf(es, trailer, k) == PieceOf(es[1..], trailer, k - 1);
    assert ([o] + rest)[k] == rest[k - 1] && (k < |rest| ==> ([o] + rest)[k + 1] == rest[k]);
  }

  /** The unpacking loop on an archive at an aligned address: the entries come back in order. */
  method UnpackArchive(base: nat, data: seq<Byte>, ghost es: seq<Entry>, ghost trailer: Entry, ghost ps: seq<nat>)
      returns (entries: seq<Entry>, code: int)
    requires Archive(base, data, es, trailer, ps)
    ensures entries == es && code == 0
  {
    entries, code := Unpack(base, data);
    ghost var curs :| Ends(base, data, curs, entries, code);
    ArchiveRoundTrip(base, data, es, trailer, ps, curs, entries, code);
  }

  /** What `EncodeAll` writes, in either case, is such an archive. */
  lemma EncodedArchive(base: nat, data: seq<Byte>, es: seq<Entry>, trailer: Entry, caps: bool) returns (ps: seq<nat>)
    requires Placed(base, data) && base % 4 == 0 && StartsWith(data, 0, EncodeAll(es, trailer, caps))
    requires forall k {:trigger Ordinary(es, k)} :: 0 <= k < |es| ==> Ordinary(es, k)
    requires Encodable(trailer) && trailer.name == TRAILER
    ensures Archive(base, data, es, trailer, ps)
  {
    ps := LaidOut(data, 0, es, trailer, caps);
  }
}
