/**
  The file allocation table: entries of 12 bits packed three bytes to two, of 16 bits, or of 28 bits in
  32-bit words whose top four bits are kept. Shifts and masks are written as quotients and remainders.
  On top of the entries: following, freeing and extending cluster chains.
 */
module Fat {
  import opened Common

  /** The table of each width, as it lies in memory. */
  datatype Table = Fat12(bytes: seq<nat>) | Fat16(half: seq<nat>) | Fat32(word: seq<nat>)

  const UNUSED := 0

  // ----- Entries

  function Modulus(t: Table): nat
  {
    match t case Fat12(_) => 0x1000 case Fat16(_) => 0x1_0000 case Fat32(_) => 0x1000_0000
  }

  /** The table has `n` entries, and its cells have their width. */
  predicate Shaped(t: Table, n: nat)
  {
    match t
    case Fat12(b) => 3 * n + 1 <= 2 * |b| && forall i :: 0 <= i < |b| ==> b[i] < 0x100
    case Fat16(h) => n <= |h| && forall i :: 0 <= i < |h| ==> h[i] < 0x1_0000
    case Fat32(w) => n <= |w| && forall i :: 0 <= i < |w| ==> w[i] < 0x1_0000_0000
  }

  /** Where the bytes of a 12-bit entry start. */
  function Offset(i: nat): nat
  {
    i * 3 / 2
  }

  function Get12(odd: bool, lo: nat, hi: nat): nat
  {
    if odd then (lo / 16 + hi * 16) % 0x1000 else (lo + hi % 16 * 256) % 0x1000
  }

  /** The two bytes as one word with the entry's twelve bits replaced. */
  function Put12(odd: bool, lo: nat, hi: nat, v: nat): nat
  {
    var current := lo + hi * 256;
    if odd then current % 16 + v % 0x1000 * 16 else current / 0x1000 * 0x1000 % 0x1_0000 + v % 0x1000
  }

  function Next(t: Table, n: nat, i: nat): nat
    requires Shaped(t, n) && i < n
  {
    match t
    case Fat12(b) => Get12(i % 2 == 1, b[Offset(i)], b[Offset(i) + 1])
    case Fat16(h) => h[i]
    case Fat32(w) => w[i] % 0x1000_0000
  }

  function Add(t: Table, n: nat, i: nat, v: nat): Table
    requires Shaped(t, n) && i < n
  {
    match t
    case Fat12(b) =>
      var o := Offset(i);
      var current := Put12(i % 2 == 1, b[o], b[o + 1], v);
      Fat12(b[o := current % 256][o + 1 := current / 256 % 256])
    case Fat16(h) => Fat16(h[i := v % 0x1_0000])
    case Fat32(w) => Fat32(w[i := w[i] / 0x1000_0000 * 0x1000_0000 + v % 0x1000_0000])
  }

  lemma Digits(a: nat, p: nat, q: nat)
    requires a < 16 && p < 16 && q < 256
    ensures var c := 4096 * a + 256 * p + q;
            c % 256 == q && c / 256 == 16 * a + p && (16 * a + p) % 16 == p && (16 * a + p) / 16 == a && c / 4096 == a
  {
  }

  lemma PackEven(lo: nat, hi: nat, v: nat)
    requires lo < 256 && hi < 256
    ensures var current := Put12(false, lo, hi, v);
            && current < 0x1_0000 && Get12(false, current % 256, current / 256 % 256) == v % 0x1000
            && current / 256 % 256 / 16 == hi / 16
  {
    var a, w := hi / 16, v % 0x1000;
    var p, q := w / 256, w % 256;
    assert lo + hi * 256 == 4096 * a + 256 * (hi % 16) + lo;
    Digits(a, hi % 16, lo);
    Digits(a, p, q);
    assert Put12(false, lo, hi, v) == 4096 * a + 256 * p + q;
  }

  lemma Nibbles(w: nat) returns (x: nat, y: nat, z: nat)
    requires w < 0x1000
    ensures x < 16 && y < 16 && z < 16 && w == 256 * x + 16 * y + z
  {
    x, y, z := w / 256, w / 16 % 16, w % 16;
  }

  lemma OddDigits(x: nat, y: nat, z: nat, l: nat)
    requires x < 16 && y < 16 && z < 16 && l < 16
    ensures var c := l + (256 * x + 16 * y + z) * 16;
            c < 0x1_0000 && c % 256 == 16 * z + l && c / 256 % 256 == 16 * x + y && (16 * z + l) / 16 == z
                && (16 * z + l) % 16 == l
  {
    var c := l + (256 * x + 16 * y + z) * 16;
    assert c == 256 * (16 * x + y) + (16 * z + l);
  }

  lemma PackOdd(lo: nat, hi: nat, v: nat)
    requires lo < 256 && hi < 256
    ensures var current := Put12(true, lo, hi, v);
            && current < 0x1_0000 && Get12(true, current % 256, current / 256 % 256) == v % 0x1000
            && current % 256 % 16 == lo % 16
  {
    var x, y, z := Nibbles(v % 0x1000);
    assert (lo + hi * 256) % 16 == lo % 16;
    OddDigits(x, y, z, lo % 16);
  }

  /** Reading back an entry, and the nibble of the neighbour that shares a byte with it. */
  lemma Pack12(odd: bool, lo: nat, hi: nat, v: nat)
    requires lo < 256 && hi < 256
    ensures var current := Put12(odd, lo, hi, v);
            var lo', hi' := current % 256, current / 256 % 256;
            && current < 0x1_0000 && Get12(odd, lo', hi') == v % 0x1000
            && (odd ==> lo' % 16 == lo % 16) && (!odd ==> hi' / 16 == hi / 16)
  {
    if odd { PackOdd(lo, hi, v); } else { PackEven(lo, hi, v); }
  }

  lemma Neighbours12(lo: nat, mid: nat, mid': nat, hi: nat)
    requires lo < 256 && mid < 256 && mid' < 256 && hi < 256
    ensures mid % 16 == mid' % 16 ==> Get12(false, lo, mid) == Get12(false, lo, mid')
    ensures mid / 16 == mid' / 16 ==> Get12(true, mid, hi) == Get12(true, mid', hi)
  {
  }

  lemma Offsets(i: nat, j: nat)
    requires i < j
    ensures Offset(j) >= Offset(i) + 1
    ensures Offset(j) == Offset(i) + 1 <==> j == i + 1 && i % 2 == 0
  {
    HalfOffset(i);
    HalfOffset(j);
  }

  lemma HalfOffset(i: nat)
    ensures Offset(i) == 3 * (i / 2) + i % 2
  {
  }

  lemma AddShaped(t: Table, n: nat, i: nat, v: nat)
    requires Shaped(t, n) && i < n
    ensures Shaped(Add(t, n, i, v), n)
  {
    if t.Fat12? {
      Pack12(i % 2 == 1, t.bytes[Offset(i)], t.bytes[Offset(i) + 1], v);
    }
  }

  /** After writing entry `i` it reads as the value cut to the width; every other entry reads as before. */
  lemma NextOfAdd(t: Table, n: nat, i: nat, v: nat, j: nat)
    requires Shaped(t, n) && i < n && j < n
    ensures Shaped(Add(t, n, i, v), n)
    ensures Next(Add(t, n, i, v), n, j) == if j == i then v % Modulus(t) else Next(t, n, j)
  {
    AddShaped(t, n, i, v);
    if t.Fat12? {
      NextOfAdd12(t.bytes, n, i, v, j);
    }
  }

  lemma NextOfAdd12(b: seq<nat>, n: nat, i: nat, v: nat, j: nat)
    requires i < n && j < n && Shaped(Fat12(b), n) && Shaped(Add(Fat12(b), n, i, v), n)
    ensures Next(Add(Fat12(b), n, i, v), n, j) == if j == i then v % 0x1000 else Next(Fat12(b), n, j)
  {
    var o := Offset(i);
    Pack12(i % 2 == 1, b[o], b[o + 1], v);
    var current := Put12(i % 2 == 1, b[o], b[o + 1], v);
    Others12(b, n, i, j, current % 256, current / 256 % 256);
  }

  /** Two bytes that keep the neighbour's nibble keep every other entry. */
  lemma Others12(b: seq<nat>, n: nat, i: nat, j: nat, lo: nat, hi: nat)
    requires i < n && j < n && Shaped(Fat12(b), n) && lo < 256 && hi < 256
    requires if i % 2 == 1 then lo % 16 == b[Offset(i)] % 16 else hi / 16 == b[Offset(i) + 1] / 16
    ensures var b' := b[Offset(i) := lo][Offset(i) + 1 := hi];
            Shaped(Fat12(b'), n) && Next(Fat12(b'), n, j) == if j == i then Get12(i % 2 == 1, lo, hi)
                                                             else Next(Fat12(b), n, j)
  {
    OffsetFits(|b|, n, i);
    OffsetFits(|b|, n, j);
    if i != j {
      Overlap(i, j);
      OtherBytes(b, Offset(i), lo, hi, Offset(j), j % 2 == 1);
    }
  }

  lemma OffsetFits(len: nat, n: nat, i: nat)
    requires 3 * n + 1 <= 2 * len && i < n
    ensures Offset(i) + 1 < len
  {
  }

  /** Two entries share a byte only if they are an even one and the next. */
  lemma Overlap(i: nat, j: nat)
    requires i != j
    ensures Offset(j) != Offset(i)
    ensures Offset(j) == Offset(i) + 1 ==> i % 2 == 0 && j % 2 == 1
    ensures Offset(j) + 1 == Offset(i) ==> i % 2 == 1 && j % 2 == 0
  {
    if i < j { Offsets(i, j); } else { Offsets(j, i); }
  }

  lemma OtherBytes(b: seq<nat>, o: nat, lo: nat, hi: nat, p: nat, odd: bool)
    requires o + 1 < |b| && p + 1 < |b| && p != o && lo < 256 && hi < 256 && forall k :: 0 <= k < |b| ==> b[k] < 256
    requires p == o + 1 ==> odd && hi / 16 == b[p] / 16
    requires p + 1 == o ==> !odd && lo % 16 == b[o] % 16
    ensures var b' := b[o := lo][o + 1 := hi];
            Get12(odd, b'[p], b'[p + 1]) == Get12(odd, b[p], b[p + 1])
  {
    if p == o + 1 {
      Neighbours12(0, b[p], hi, b[p + 1]);
    } else if p + 1 == o {
      Neighbours12(b[p], b[o], lo, 0);
    }
  }

  lemma ThreeBytes(lo: nat, mid: nat, hi: nat)
    requires lo < 256 && mid < 256 && hi < 256
    ensures Get12(false, lo, mid) + 0x1000 * Get12(true, mid, hi) == lo + 0x100 * mid + 0x1_0000 * hi
  {
    var x, y := mid / 16, mid % 16;
    assert mid == 16 * x + y;
    assert lo + y * 256 < 0x1000 && x + hi * 16 < 0x1000;
  }

  /** Three bytes hold two 12-bit entries, the first in the low twelve bits of the 24. */
  lemma PackedPair(b: seq<nat>, n: nat, k: nat)
    requires Shaped(Fat12(b), n) && 2 * k + 1 < n
    ensures 3 * k + 2 < |b|
    ensures Next(Fat12(b), n, 2 * k) + 0x1000 * Next(Fat12(b), n, 2 * k + 1)
         == b[3 * k] + 0x100 * b[3 * k + 1] + 0x1_0000 * b[3 * k + 2]
  {
    HalfOffset(2 * k);
    HalfOffset(2 * k + 1);
    ThreeBytes(b[3 * k], b[3 * k + 1], b[3 * k + 2]);
  }

  /** The reserved top bits of a FAT32 entry survive every write. */
  lemma TopBitsKept(w: seq<nat>, n: nat, i: nat, v: nat)
    requires Shaped(Fat32(w), n) && i < n
    ensures Add(Fat32(w), n, i, v).word[i] / 0x1000_0000 == w[i] / 0x1000_0000
  {
  }

  /** The values of the first `k` entries. */
  function Values(t: Table, n: nat, k: nat): (e: seq<nat>)
    requires Shaped(t, n) && k <= n
    ensures |e| == k && forall i {:trigger Next(t, n, i)} :: 0 <= i < k ==> e[i] == Next(t, n, i)
  {
    if k == 0 then [] else Values(t, n, k - 1) + [Next(t, n, k - 1)]
  }

  /** Writing an entry changes that value and no other. */
  lemma ValuesOfAdd(t: Table, n: nat, i: nat, v: nat)
    requires Shaped(t, n) && i < n
    ensures Shaped(Add(t, n, i, v), n)
    ensures Values(Add(t, n, i, v), n, n) == Values(t, n, n)[i := v % Modulus(t)]
  {
    NextOfAdd(t, n, i, v, i);
    var t' := Add(t, n, i, v);
    var e, e' := Values(t, n, n), Values(t', n, n);
    forall j | 0 <= j < n ensures e'[j] == e[i := v % Modulus(t)][j] {
      NextOfAdd(t, n, i, v, j);
      assert e'[j] == Next(t', n, j) && e[j] == Next(t, n, j);
    }
  }

  // ----- Chains, over the values of the entries

  /** The first value that marks the end of a chain. */
  function Eof(t: Table): nat
  {
    match t case Fat12(_) => 0x0FF8 case Fat16(_) => 0xFFF8 case Fat32(_) => 0x0FFF_FFF8
  }

  /** Of the values an entry can have the eight largest end a chain. */
  lemma EndMarks(t: Table, v: nat)
    requires v < Modulus(t)
    ensures v >= Eof(t) <==> v + 8 >= Modulus(t)
  {
    match t case Fat12(_) => case Fat16(_) => case Fat32(_) =>
  }

  /** The mark that is written. */
  function LastMark(t: Table): (v: nat)
    ensures Eof(t) <= v < Modulus(t)
  {
    match t case Fat12(_) => 0x0FFF case Fat16(_) => 0xFFFF case Fat32(_) => 0x0FFF_FFFF
  }

  lemma Cut(t: Table, v: nat)
    ensures v < Modulus(t) ==> v % Modulus(t) == v
  {
    match t case Fat12(_) => case Fat16(_) => case Fat32(_) =>
  }

  predicate Distinct(p: seq<nat>)
  {
    forall i, j :: 0 <= i < j < |p| ==> p[i] != p[j]
  }

  predicate LinkAt(e: seq<nat>, p: seq<nat>, k: int)
  {
    0 <= k < |p| - 1 && p[k] < |e| && e[p[k]] == p[k + 1]
  }

  /** Distinct clusters, each linked to the next. */
  ghost predicate IsPath(e: seq<nat>, p: seq<nat>)
  {
    && Distinct(p) && (forall k :: 0 <= k < |p| ==> 2 <= p[k] < |e|)
    && (forall k {:trigger LinkAt(e, p, k)} :: 0 <= k < |p| - 1 ==> LinkAt(e, p, k))
  }

  /** A path that ends in an end-of-chain mark. */
  ghost predicate IsChain(e: seq<nat>, eof: nat, c: seq<nat>)
  {
    IsPath(e, c) && |c| > 0 && e[c[|c| - 1]] >= eof
  }

  /** A path that cannot be followed further: a mark, a free or reserved value, or back into itself. */
  ghost predicate Complete(e: seq<nat>, eof: nat, p: seq<nat>)
  {
    IsPath(e, p) && |p| > 0 && var v := e[p[|p| - 1]]; v < 2 || v >= eof || v in p
  }

  ghost predicate LeadsInside(e: seq<nat>, eof: nat, start: nat, p: seq<nat>)
  {
    IsPath(e, p) && |p| > 0 && p[0] == start ==> var v := e[p[|p| - 1]]; v < |e| || v >= eof
  }

  /** What can be followed from `start` never leads outside the table. */
  ghost predicate Inside(e: seq<nat>, eof: nat, start: nat)
  {
    forall p {:trigger LeadsInside(e, eof, start, p)} :: LeadsInside(e, eof, start, p)
  }

  /** `e'` is `e` with the clusters of `p` unused. */
  ghost predicate Cleared(e: seq<nat>, e': seq<nat>, p: seq<nat>)
  {
    |e'| == |e| && forall j :: 0 <= j < |e| ==> e'[j] == if j in p then UNUSED else e[j]
  }

  lemma PathStep(e: seq<nat>, p: seq<nat>, x: nat)
    requires IsPath(e, p) && 2 <= x < |e| && x !in p && (|p| > 0 ==> e[p[|p| - 1]] == x)
    ensures IsPath(e, p + [x])
  {
    var q := p + [x];
    forall k | 0 <= k < |q| - 1 ensures LinkAt(e, q, k) {
      assert k < |p| - 1 ==> LinkAt(e, p, k);
    }
  }

  /** On a well-formed chain the complete path from its head is the chain. */
  lemma {:induction false} PathIsChain(e: seq<nat>, eof: nat, c: seq<nat>, p: seq<nat>, k: nat)
    requires |e| <= eof && IsChain(e, eof, c) && Complete(e, eof, p) && p[0] == c[0] && 1 <= k <= |c|
    ensures k <= |p| && p[..k] == c[..k] && (k == |c| ==> p == c)
  {
    if k > 1 {
      PathIsChain(e, eof, c, p, k - 1);
      var j := k - 2;
      assert p[j] == p[..k - 1][j] == c[..k - 1][j] == c[j];
      var v := c[k - 1];
      assert LinkAt(e, c, j);
      assert v !in c[..k - 1] && p[..k - 1] <= p;
      assert LinkAt(e, p, j);
      assert p[k - 1] == v;
    }
    assert |p| > k ==> LinkAt(e, p, k - 1);
  }

  /** Distinct numbers below `n` are at most `n`. */
  lemma {:induction false} Pigeonhole(p: seq<nat>, n: nat)
    requires Distinct(p) && forall k :: 0 <= k < |p| ==> p[k] < n
    ensures |p| <= n
    decreases n
  {
    assert |p| > 0 ==> p[0] < n;
    if n == 0 {
    } else if n - 1 in p {
      var k :| 0 <= k < |p| && p[k] == n - 1;
      var q := p[..k] + p[k + 1..];
      forall i, j | 0 <= i < j < |q| ensures q[i] != q[j] {
        assert q[i] == p[if i < k then i else i + 1] && q[j] == p[if j < k then j else j + 1];
      }
      forall i | 0 <= i < |q| ensures q[i] < n - 1 { assert q[i] == p[if i < k then i else i + 1]; }
      Pigeonhole(q, n - 1);
    } else {
      Pigeonhole(p, n - 1);
    }
  }

  /** Freeing has cleared `path` out of `e` and is about to follow `cluster`. */
  ghost predicate Freeing(e: seq<nat>, now: seq<nat>, eof: nat, start: nat, path: seq<nat>, cluster: nat)
  {
    && Cleared(e, now, path) && IsPath(e, path) && 2 <= cluster && (cluster < |e| || cluster >= eof)
    && if |path| == 0 then cluster == start else path[0] == start && e[path[|path| - 1]] == cluster
  }

  lemma FreeStep(e: seq<nat>, now: seq<nat>, eof: nat, start: nat, path: seq<nat>, cluster: nat)
    requires Freeing(e, now, eof, start, path, cluster) && Inside(e, eof, start) && |e| <= eof && cluster < eof
    ensures var path', now' := if cluster in path then path else path + [cluster], now[cluster := UNUSED];
            if now[cluster] < 2 then Cleared(e, now', path') && Complete(e, eof, path') && path'[0] == start
            else Freeing(e, now', eof, start, path', now[cluster]) && |path| < |path'| <= |e|
  {
    if cluster !in path {
      PathStep(e, path, cluster);
      assert LeadsInside(e, eof, start, path + [cluster]);
      Pigeonhole(path + [cluster], |e|);
    }
  }

  /** Freeing a well-formed chain clears exactly its clusters. */
  lemma FreedExactly(e: seq<nat>, e': seq<nat>, eof: nat, c: seq<nat>, p: seq<nat>)
    requires |e| <= eof && IsChain(e, eof, c) && Complete(e, eof, p) && p[0] == c[0] && Cleared(e, e', p)
    ensures Cleared(e, e', c)
  {
    PathIsChain(e, eof, c, p, |c|);
  }

  /** Chains that share no cluster with what was freed are still chains. */
  lemma OthersSurvive(e: seq<nat>, e': seq<nat>, eof: nat, p: seq<nat>, d: seq<nat>)
    requires IsChain(e, eof, d) && Cleared(e, e', p) && forall k :: 0 <= k < |d| ==> d[k] !in p
    ensures IsChain(e', eof, d)
  {
    forall k | 0 <= k < |d| - 1 ensures LinkAt(e', d, k) { assert LinkAt(e, d, k); }
  }

  /** A chain keeps clear of unused clusters. */
  lemma UnusedOutside(e: seq<nat>, eof: nat, c: seq<nat>, x: nat)
    requires IsChain(e, eof, c) && x < |e| && e[x] == UNUSED && eof > 0
    ensures x !in c
  {
    forall k | 0 <= k < |c| ensures c[k] != x { assert k < |c| - 1 ==> LinkAt(e, c, k); }
  }

  /** Linking an unused cluster behind a chain extends it by that cluster. */
  lemma ChainExtended(e: seq<nat>, eof: nat, c: seq<nat>, x: nat, mark: nat)
    requires IsChain(e, eof, c) && 2 <= x < |e| && e[x] == UNUSED && 0 < eof <= mark
    ensures IsChain(e[c[|c| - 1] := x][x := mark], eof, c + [x])
  {
    UnusedOutside(e, eof, c, x);
    var e', q := e[c[|c| - 1] := x][x := mark], c + [x];
    forall k | 0 <= k < |q| - 1 ensures LinkAt(e', q, k) {
      assert k < |c| - 1 ==> LinkAt(e, c, k);
    }
  }

  /** Chains that contain neither of the two entries written are not affected. */
  lemma ChainKept(e: seq<nat>, eof: nat, d: seq<nat>, from: nat, x: nat, mark: nat)
    requires IsChain(e, eof, d) && from < |e| && x < |e| && from !in d && x !in d
    ensures IsChain(e[from := x][x := mark], eof, d)
  {
    var e' := e[from := x][x := mark];
    forall k | 0 <= k < |d| - 1 ensures LinkAt(e', d, k) { assert LinkAt(e, d, k); }
  }

  /** The FAT32 hint is in range and an unused cluster lies at or behind it. */
  ghost predicate HintHits(e: seq<nat>, fat32: bool, hint: nat, root: nat)
  {
    fat32 && root <= hint && exists i :: hint <= i < |e| && e[i] == UNUSED
  }

  /** What the second scan accepts. */
  predicate Candidate(e: seq<nat>, eof: nat, i: nat)
    requires i < |e|
  {
    e[i] == UNUSED || e[i] >= eof
  }

  /** Some cluster is unused and no chain ends before it. */
  ghost predicate UnusedFirst(e: seq<nat>, eof: nat)
  {
    exists u :: 2 <= u < |e| && e[u] == UNUSED && forall k :: 2 <= k < u ==> e[k] < eof
  }

  lemma FirstDecides(e: seq<nat>, eof: nat, i: nat)
    requires 2 <= i < |e| && Candidate(e, eof, i) && 0 < eof && forall k :: 2 <= k < i ==> !Candidate(e, eof, k)
    ensures e[i] == UNUSED <==> UnusedFirst(e, eof)
  {
    assert forall k :: 2 <= k < i ==> e[k] < eof && e[k] != UNUSED by {
      forall k | 2 <= k < i ensures e[k] < eof && e[k] != UNUSED { assert !Candidate(e, eof, k); }
    }
  }

  /**
    Without the hint a chain end can be taken for a free cluster: here cluster 2 is a one-cluster chain and
    cluster 3 is unused, and appending to cluster 4 takes cluster 2 into both chains.
   */
  lemma ChainEndTaken()
    ensures var e := [0, 0, 0xFFFF, 0, 0xFFFF];
            && IsChain(e, 0xFFF8, [2]) && IsChain(e, 0xFFF8, [4]) && Candidate(e, 0xFFF8, 2) && !UnusedFirst(e, 0xFFF8)
            && var e' := e[4 := 2][2 := 0xFFFF];
               IsChain(e', 0xFFF8, [2]) && IsChain(e', 0xFFF8, [4, 2])
  {
    var e := [0, 0, 0xFFFF, 0, 0xFFFF];
    var e' := e[4 := 2][2 := 0xFFFF];
    assert LinkAt(e', [4, 2], 0);
  }

  class Volume {
    var table: Table
    const total: nat
    const root: nat
    /** Where FAT32 starts looking for an unused cluster. */
    var hint: nat

    /** Cluster numbers cannot be mistaken for marks. */
    ghost predicate Valid()
      reads this`table
    {
      Shaped(table, total) && total <= Eof(table)
    }

    constructor (table: Table, total: nat, root: nat, hint: nat)
      requires Shaped(table, total) && total <= Eof(table)
      ensures Valid() && this.table == table && this.total == total && this.root == root && this.hint == hint
    {
      this.table, this.total, this.root, this.hint := table, total, root, hint;
    }

    ghost function Entries(): (e: seq<nat>)
      requires Valid()
      reads this`table
      ensures |e| == total
    {
      Values(table, total, total)
    }

    method GetEntry(i: nat) returns (v: nat)
      requires Valid() && i < total
      ensures v == Entries()[i]
    {
      v := Next(table, total, i);
    }

    method SetEntry(i: nat, v: nat)
      requires Valid() && i < total
      modifies this`table
      ensures Valid() && Eof(table) == Eof(old(table)) && Modulus(table) == Modulus(old(table))
              && LastMark(table) == LastMark(old(table))
      ensures table.Fat32? == old(table).Fat32?
      ensures Entries() == old(Entries())[i := v % Modulus(table)]
      ensures v < Modulus(table) ==> Entries() == old(Entries())[i := v]
    {
      ValuesOfAdd(table, total, i, v);
      Cut(table, v);
      table := Add(table, total, i, v);
    }

    /** Frees what can be followed from `start`: all of it, once each, even if the chain runs in a circle. */
    method FreeChain(start: nat) returns (ghost path: seq<nat>)
      requires Valid() && Inside(Entries(), Eof(table), start) && (start < total || start >= Eof(table))
      modifies this`table
      ensures Valid() && Cleared(old(Entries()), Entries(), path)
      ensures if start < 2 || start >= Eof(old(table)) then path == [] && table == old(table)
              else Complete(old(Entries()), Eof(old(table)), path) && path[0] == start
      ensures forall c :: IsChain(old(Entries()), Eof(old(table)), c) && c[0] == start ==> path == c
    {
      path := [];
      ghost var e, eof := Entries(), Eof(table);
      if start < 2 || start >= Eof(table) {
        return;
      }
      var cluster: nat := start;
      while cluster < Eof(table)
        invariant Valid() && Eof(table) == eof && Freeing(e, Entries(), eof, start, path, cluster) && |path| <= total
        decreases total - |path|
      {
        FreeStep(e, Entries(), eof, start, path, cluster);
        var next := GetEntry(cluster);
        SetEntry(cluster, UNUSED);
        path := if cluster in path then path else path + [cluster];
        if next < 2 {
          break;
        }
        cluster := next;
      }
      forall c | IsChain(e, eof, c) && c[0] == start ensures path == c { PathIsChain(e, eof, c, path, |c|); }
    }

    /** The next unused cluster from the hint on, which then moves behind it. */
    method FindFromHint() returns (r: Option<nat>)
      requires Valid()
      modifies this`hint
      ensures r.Some? <==> HintHits(Entries(), table.Fat32?, old(hint), root)
      ensures r.None? ==> hint == old(hint)
      ensures r.Some? ==> old(hint) <= r.value < total && Entries()[r.value] == UNUSED && hint == r.value + 1
                          && forall i :: old(hint) <= i < r.value ==> Entries()[i] != UNUSED
    {
      if table.Fat32? && hint >= root && hint < total {
        var i := hint;
        while i < total
          invariant hint == old(hint) <= i <= total && forall k :: hint <= k < i ==> Entries()[k] != UNUSED
        {
          var v := GetEntry(i);
          if v == UNUSED {
            hint := i + 1;
            return Some(i);
          }
          i := i + 1;
        }
      }
      r := None;
    }

    /** A cluster to hand out. The second scan takes the first one that is unused or ends a chain. */
    method FindFreeCluster() returns (r: Option<nat>)
      requires Valid()
      modifies this`hint
      ensures HintHits(Entries(), table.Fat32?, old(hint), root) ==>
                r.Some? && old(hint) <= r.value < total && Entries()[r.value] == UNUSED && hint == r.value + 1
      ensures !HintHits(Entries(), table.Fat32?, old(hint), root) ==> hint == old(hint)
      ensures r.None? ==> forall i :: 2 <= i < total ==> !Candidate(Entries(), Eof(table), i)
      ensures r.Some? ==> r.value < total && Candidate(Entries(), Eof(table), r.value)
      ensures HintHits(Entries(), table.Fat32?, old(hint), root) ==>
                r.Some? && forall i :: old(hint) <= i < r.value ==> Entries()[i] != UNUSED
      ensures r.Some? && !HintHits(Entries(), table.Fat32?, old(hint), root) ==>
                r.value >= 2 && forall i :: 2 <= i < r.value ==> !Candidate(Entries(), Eof(table), i)
      ensures r.Some? ==> (Entries()[r.value] == UNUSED <==>
                             HintHits(Entries(), table.Fat32?, old(hint), root) || UnusedFirst(Entries(), Eof(table)))
    {
      r := FindFromHint();
      if r.Some? {
        return;
      }
      var i := 2;
      while i < total
        invariant 2 <= i && hint == old(hint) && forall k :: 2 <= k < i && k < total ==>
                    !Candidate(Entries(), Eof(table), k)
      {
        var v := GetEntry(i);
        if v >= Eof(table) || v == UNUSED {
          FirstDecides(Entries(), Eof(table), i);
          return Some(i);
        }
        i := i + 1;
      }
      r := None;
    }

    /**
      Links a new cluster behind `from`. Given an unused cluster this extends the chain that ends there by
      one and touches no other chain; the condition for that is the same as for finding one.
     */
    method AppendCluster(from: nat) returns (r: Option<nat>)
      requires Valid() && from < total
      modifies this
      ensures Valid() && Eof(table) == Eof(old(table))
      ensures r.None? ==> table == old(table) && forall i :: 2 <= i < total ==> !Candidate(Entries(), Eof(table), i)
      ensures r.Some? ==>
                r.value < total && Entries() == old(Entries())[from := r.value][r.value := LastMark(old(table))]
      ensures r.Some? && !HintHits(old(Entries()), old(table).Fat32?, old(hint), root) ==>
                r.value >= 2 && Candidate(old(Entries()), Eof(table), r.value)
                && forall i :: 2 <= i < r.value ==> !Candidate(old(Entries()), Eof(table), i)
      ensures r.Some? ==> (old(Entries())[r.value] == UNUSED <==>
                             HintHits(old(Entries()), old(table).Fat32?, old(hint), root)
                                 || UnusedFirst(old(Entries()), Eof(table)))
      ensures r.Some? && r.value >= 2 && old(Entries())[r.value] == UNUSED ==>
                && (forall c :: IsChain(old(Entries()), Eof(table), c) && c[|c| - 1] == from ==>
                     IsChain(Entries(), Eof(table), c + [r.value]))
                && (forall d :: IsChain(old(Entries()), Eof(table), d) && from !in d ==>
                     IsChain(Entries(), Eof(table), d))
    {
      ghost var e, eof, mark := Entries(), Eof(table), LastMark(table);
      r := FindFreeCluster();
      if r.None? {
        return;
      }
      var x := r.value;
      SetEntry(from, x);
      SetEntry(x, LastMark(table));
      if x >= 2 && e[x] == UNUSED {
        forall c | IsChain(e, eof, c) && c[|c| - 1] == from ensures IsChain(Entries(), eof, c + [x]) {
          ChainExtended(e, eof, c, x, mark);
        }
        forall d | IsChain(e, eof, d) && from !in d ensures IsChain(Entries(), eof, d) {
          UnusedOutside(e, eof, d, x);
          ChainKept(e, eof, d, from, x, mark);
        }
      }
    }
  }

  const SHORT_TABLE: seq<nat> := [0, 0, 0xFFFF, 0, 0xFFFF]

  lemma {:induction false} HalfValues(h: seq<nat>, n: nat, k: nat)
    requires Shaped(Fat16(h), n) && k <= n
    ensures Values(Fat16(h), n, k) == h[..k]
  {
    if k > 0 { HalfValues(h, n, k - 1); }
  }

  lemma ShortShape()
    ensures Shaped(Fat16(SHORT_TABLE), 5) && SHORT_TABLE[..5] == SHORT_TABLE
  {
  }

  lemma ShortTable()
    ensures Shaped(Fat16(SHORT_TABLE), 5) && Values(Fat16(SHORT_TABLE), 5, 5) == SHORT_TABLE
    ensures Candidate(SHORT_TABLE, 0xFFF8, 2)
    ensures var e' := SHORT_TABLE[4 := 2][2 := 0xFFFF]; IsChain(e', 0xFFF8, [2]) && IsChain(e', 0xFFF8, [4, 2])
  {
    ShortShape();
    HalfValues(SHORT_TABLE, 5, 5);
    ChainEndTaken();
  }

  /** The same on a FAT16 volume: appending to cluster 4 hands out cluster 2, which ends a chain of its own. */
  method AppendTakesChainEnd() returns (v: Volume, r: Option<nat>)
    ensures v.Valid() && Eof(v.table) == 0xFFF8 && r == Some(2)
    ensures IsChain(v.Entries(), 0xFFF8, [2]) && IsChain(v.Entries(), 0xFFF8, [4, 2])
  {
    ShortTable();
    v := new Volume(Fat16(SHORT_TABLE), 5, 2, 0);
    ghost var e := v.Entries();
    r := v.AppendCluster(4);
    assert Candidate(e, Eof(v.table), 2);
    assert r.None? ==> v.Entries() == e;
  }
}
