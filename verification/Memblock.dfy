/**
  The boot-time region tables: insertion sort and interval merge in place, and first-fit allocation.
  Bases are below 4 GiB; merging clamps the end of a region that runs to the top of the 32-bit address space.
 */
module Memblock {
  import opened Bits
  import opened Common

  const MAX_REGIONS := 128
  const UINTPTR_MAX := 0xFFFF_FFFF

  datatype Region = Region(base: nat, size: nat)

  /** Regions whose base and size fit the 32-bit types of their callers. */
  predicate Fits(r: Region)
  {
    r.base <= UINTPTR_MAX && 0 < r.size <= UINTPTR_MAX
  }

  /** The region ends below the last byte of the address space, so that its end is not clamped. */
  predicate Plain(r: Region)
  {
    r.size <= UINTPTR_MAX - r.base
  }

  /** The end of the region as merging computes it. */
  function End(r: Region): nat
  {
    if r.size > UINTPTR_MAX - r.base then UINTPTR_MAX else r.base + r.size
  }

  predicate In(r: Region, x: int)
  {
    r.base <= x < r.base + r.size
  }

  predicate InAt(s: seq<Region>, i: int, x: int)
  {
    0 <= i < |s| && In(s[i], x)
  }

  /** Byte `x` lies in one of the first `n` regions. */
  ghost predicate Covers(s: seq<Region>, n: nat, x: int)
  {
    exists i {:trigger InAt(s, i, x)} :: i < n && InAt(s, i, x)
  }

  /**
    The first `n` regions of `a` have no bytes but those of the first `i` of `s`, and all of these but perhaps the top
    one.
   */
  ghost predicate SameBytes(a: seq<Region>, n: nat, s: seq<Region>, i: nat)
  {
    forall x {:trigger Covers(a, n, x)} ::
        (Covers(a, n, x) ==> Covers(s, i, x)) && (Covers(s, i, x) && x < UINTPTR_MAX ==> Covers(a, n, x))
  }

  ghost predicate AllFit(s: seq<Region>, n: nat)
    requires n <= |s|
  {
    forall i :: 0 <= i < n ==> Fits(s[i])
  }

  ghost predicate Sorted(s: seq<Region>, n: nat)
    requires n <= |s|
  {
    forall i, j :: 0 <= i < j < n ==> s[i].base <= s[j].base
  }

  /** Sorted, pairwise disjoint and not even touching. */
  ghost predicate Gapped(s: seq<Region>, n: nat)
    requires n <= |s|
  {
    forall i, j :: 0 <= i < j < n ==> End(s[i]) < s[j].base
  }

  // ----- Insertion sort

  /** Move element `i` of `s` down to position `j`. */
  function MoveDown(s: seq<Region>, i: nat, j: nat): (t: seq<Region>)
    requires j <= i < |s|
    ensures |t| == |s|
  {
    s[..j] + [s[i]] + s[j..i] + s[i + 1..]
  }

  lemma MoveDownPermutes(s: seq<Region>, i: nat, j: nat)
    requires j <= i < |s|
    ensures multiset(MoveDown(s, i, j)) == multiset(s)
  {
    assert s == s[..j] + s[j..i] + [s[i]] + s[i + 1..];
  }

  /** Element `i` belongs at position `j` of the sorted elements before it, behind those with the same base. */
  ghost predicate Fitting(s: seq<Region>, i: nat, j: nat)
  {
    && j <= i < |s|
    && (forall k :: 0 <= k < j ==> s[k].base <= s[i].base)
    && (forall k :: j <= k < i ==> s[k].base > s[i].base)
  }

  lemma MoveDownAt(s: seq<Region>, i: nat, j: nat, k: nat)
    requires j <= i < |s| && k <= i
    ensures MoveDown(s, i, j)[k] == if k < j then s[k] else if k == j then s[i] else s[k - 1]
  {
  }

  lemma MoveDownSorts(s: seq<Region>, i: nat, j: nat)
    requires j <= i < |s| && Sorted(s, i)
    requires j > 0 ==> s[j - 1].base <= s[i].base
    requires forall k :: j <= k < i ==> s[k].base > s[i].base
    ensures Sorted(MoveDown(s, i, j), i + 1) && Fitting(s, i, j)
  {
    var t := MoveDown(s, i, j);
    forall a, b | 0 <= a < b < i + 1 ensures t[a].base <= t[b].base {
      MoveDownAt(s, i, j, a);
      MoveDownAt(s, i, j, b);
    }
  }

  ghost predicate SameElements(s: seq<Region>, t: seq<Region>, n: nat)
  {
    n <= |s| == |t| && multiset(s[..n]) == multiset(t[..n]) && s[n..] == t[n..]
  }

  lemma MoveDownPrefix(s: seq<Region>, i: nat, j: nat, n: nat)
    requires j <= i < n <= |s|
    ensures SameElements(s, MoveDown(s, i, j), n)
  {
    var t := MoveDown(s, i, j);
    assert s[..n][..j] == s[..j] && s[..n][j..i] == s[j..i] && s[..n][i + 1..] == s[i + 1..n];
    assert t[..n] == MoveDown(s[..n], i, j);
    assert t[n..] == s[n..];
    MoveDownPermutes(s[..n], i, j);
  }

  /** The array while element `i` is being moved down and the hole is at `j`. */
  function Shifted(s: seq<Region>, i: nat, j: nat): (t: seq<Region>)
    requires j <= i < |s|
    ensures |t| == |s|
  {
    s[..j + 1] + s[j..i] + s[i + 1..]
  }

  lemma ShiftedFacts(s: seq<Region>, i: nat, j: nat)
    requires j <= i < |s|
    ensures Shifted(s, i, i) == s
    ensures j > 0 ==> Shifted(s, i, j)[j - 1] == s[j - 1] && Shifted(s, i, j)[j := s[j - 1]] == Shifted(s, i, j - 1)
    ensures Shifted(s, i, j)[j := s[i]] == MoveDown(s, i, j)
  {
  }

  /** One round of the sort: the inner loop shifts, then the key is stored. */
  method InsertOne(regions: array<Region>, i: nat) returns (j: nat)
    requires i < regions.Length && Sorted(regions[..], i)
    modifies regions
    ensures j <= i && regions[..] == MoveDown(old(regions[..]), i, j)
    ensures Sorted(regions[..], i + 1) && Fitting(old(regions[..]), i, j)
  {
    ghost var s := regions[..];
    var key := regions[i];
    j := i;
    ShiftedFacts(s, i, i);
    while j > 0 && regions[j - 1].base > key.base
      invariant j <= i && regions[..] == Shifted(s, i, j)
      invariant forall k :: j <= k < i ==> s[k].base > key.base
    {
      ShiftedFacts(s, i, j);
      assert regions[j - 1] == regions[..][j - 1];
      regions[j] := regions[j - 1];
      j := j - 1;
    }
    ShiftedFacts(s, i, j);
    assert j > 0 ==> regions[j - 1] == regions[..][j - 1];
    regions[j] := key;
    assert regions[..] == MoveDown(s, i, j);
    MoveDownSorts(s, i, j);
  }

  /** If all but the last element are in order already, only that one moves, to position `at`. */
  method Sort(regions: array<Region>, count: nat) returns (ghost at: nat)
    requires count <= regions.Length
    modifies regions
    ensures Sorted(regions[..], count)
    ensures SameElements(old(regions[..]), regions[..], count)
    ensures count > 0 && Sorted(old(regions[..]), count - 1) ==>
              Fitting(old(regions[..]), count - 1, at) && regions[..] == MoveDown(old(regions[..]), count - 1, at)
  {
    var i := 1;
    at := 0;
    ghost var s0 := regions[..];
    while i < count
      invariant i >= 1
      invariant Sorted(regions[..], if i <= count then i else count)
      invariant SameElements(s0, regions[..], count)
      invariant Sorted(s0, if count > 0 then count - 1 else 0) && 0 < count ==>
                  if i < count then regions[..] == s0
                  else Fitting(s0, count - 1, at) && regions[..] == MoveDown(s0, count - 1, at)
    {
      ghost var s := regions[..];
      var j := InsertOne(regions, i);
      MoveDownPrefix(s, i, j, count);
      StaysPut(s, i, j, count);
      at, i := j, i + 1;
    }
  }

  /** An element that is in order already stays where it is. */
  lemma StaysPut(s: seq<Region>, i: nat, j: nat, count: nat)
    requires i < count <= |s| && Fitting(s, i, j)
    ensures Sorted(s, count - 1) && i < count - 1 ==> MoveDown(s, i, j) == s
  {
    assert MoveDown(s, i, i) == s;
  }

  // ----- Interval merge

  predicate TopAt(s: seq<Region>, i: nat)
  {
    i < |s| && In(s[i], UINTPTR_MAX) && forall j :: 0 <= j < i ==> End(s[j]) < s[i].base
  }

  /** One of the first `n` regions has the last byte of the address space and touches none before it. */
  ghost predicate TopKept(s: seq<Region>, n: nat)
  {
    exists i {:trigger TopAt(s, i)} :: 0 <= i < n && TopAt(s, i)
  }

  lemma TopNext(s: seq<Region>, n: nat)
    ensures TopKept(s, n + 1) <==> TopKept(s, n) || TopAt(s, n)
  {
    if i :| 0 <= i < n + 1 && TopAt(s, i) { assert TopAt(s, i); }
    if i :| 0 <= i < n && TopAt(s, i) { assert TopAt(s, i); }
  }

  /** `e` is the largest end of the first `n` regions. */
  ghost predicate Ends(s: seq<Region>, n: nat, e: nat)
    requires n <= |s|
  {
    (forall k :: 0 <= k < n ==> End(s[k]) <= e) && exists k :: 0 <= k < n && End(s[k]) == e
  }

  lemma EndsNext(s: seq<Region>, n: nat, e: nat)
    requires n < |s| && Ends(s, n, e)
    ensures Ends(s, n + 1, if End(s[n]) > e then End(s[n]) else e)
  {
    var k :| 0 <= k < n && End(s[k]) == e;
    assert End(s[if End(s[n]) > e then n else k]) == if End(s[n]) > e then End(s[n]) else e;
  }

  /** The part of the merge's state that the loop has built: `a[..out + 1]` stands for `s[..i]`. */
  ghost predicate Merged(s: seq<Region>, i: nat, a: seq<Region>, out: nat)
  {
    && out < i <= |s| == |a|
    && AllFit(a, out + 1) && Gapped(a, out + 1)
    && a[out].base <= s[i - 1].base && Ends(s, i, End(a[out]))
    && (Covers(a, out + 1, UINTPTR_MAX) <==> TopKept(s, i))
    && (forall k :: i <= k < |s| ==> a[k] == s[k])
    && SameBytes(a, out + 1, s, i)
  }

  function Extend(prev: Region, cur: Region): Region
  {
    if End(cur) > End(prev) && End(cur) >= prev.base then Region(prev.base, End(cur) - prev.base) else prev
  }

  lemma ExtendFacts(prev: Region, cur: Region)
    requires Fits(prev) && Fits(cur) && prev.base <= cur.base <= End(prev)
    ensures var r := Extend(prev, cur);
            && Fits(r) && r.base == prev.base
            && End(r) == (if End(cur) > End(prev) then End(cur) else End(prev))
            && (forall x :: In(r, x) ==> In(prev, x) || In(cur, x))
            && (forall x :: x < UINTPTR_MAX && (In(prev, x) || In(cur, x)) ==> In(r, x))
  {
  }

  lemma CoversNext(s: seq<Region>, n: nat, x: int)
    requires n < |s|
    ensures Covers(s, n + 1, x) <==> Covers(s, n, x) || In(s[n], x)
  {
    if In(s[n], x) { assert InAt(s, n, x); }
    if i :| i < n + 1 && InAt(s, i, x) { assert InAt(s, i, x); }
    if i :| i < n && InAt(s, i, x) { assert InAt(s, i, x); }
  }

  lemma CoversAgree(s: seq<Region>, t: seq<Region>, n: nat, x: int)
    requires n <= |s| && n <= |t| && forall k :: 0 <= k < n ==> s[k] == t[k]
    ensures Covers(s, n, x) <==> Covers(t, n, x)
  {
    if i :| i < n && InAt(s, i, x) { assert InAt(t, i, x); }
    if i :| i < n && InAt(t, i, x) { assert InAt(s, i, x); }
  }

  lemma TopAfterJoin(s: seq<Region>, i: nat, a: seq<Region>, out: nat)
    requires i < |s| && out < |a| && Fits(a[out]) && Fits(s[i]) && Ends(s, i, End(a[out]))
    requires a[out].base <= s[i].base <= End(a[out]) && (Covers(a, out + 1, UINTPTR_MAX) <==> TopKept(s, i))
    ensures Covers(a[out := Extend(a[out], s[i])], out + 1, UINTPTR_MAX) <==> TopKept(s, i + 1)
  {
    var a' := a[out := Extend(a[out], s[i])];
    CoversNext(a, out, UINTPTR_MAX);
    CoversNext(a', out, UINTPTR_MAX);
    CoversAgree(a, a', out, UINTPTR_MAX);
    TopNext(s, i);
    var k :| 0 <= k < i && End(s[k]) == End(a[out]);
    assert !TopAt(s, i);
  }

  lemma TopAfterMove(s: seq<Region>, i: nat, a: seq<Region>, out: nat)
    requires i < |s| && out + 1 < |a| && Ends(s, i, End(a[out]))
    requires s[i].base > End(a[out]) && (Covers(a, out + 1, UINTPTR_MAX) <==> TopKept(s, i))
    ensures Covers(a[out + 1 := s[i]], out + 2, UINTPTR_MAX) <==> TopKept(s, i + 1)
  {
    var a' := a[out + 1 := s[i]];
    CoversNext(a', out + 1, UINTPTR_MAX);
    CoversAgree(a, a', out + 1, UINTPTR_MAX);
    TopNext(s, i);
  }

  lemma MergeJoin(s: seq<Region>, i: nat, a: seq<Region>, out: nat)
    requires i < |s| && Merged(s, i, a, out) && Fits(s[i]) && s[i - 1].base <= s[i].base
    requires s[i].base <= End(a[out])
    ensures Merged(s, i + 1, a[out := Extend(a[out], s[i])], out)
  {
    var a' := a[out := Extend(a[out], s[i])];
    ExtendFacts(a[out], s[i]);
    EndsNext(s, i, End(a[out]));
    TopAfterJoin(s, i, a, out);
    var n := out + 1;
    forall x ensures (Covers(a', n, x) ==> Covers(s, i + 1, x))
        && (Covers(s, i + 1, x) && x < UINTPTR_MAX ==> Covers(a', n, x)) {
      CoversNext(s, i, x);
      CoversNext(a, out, x);
      CoversNext(a', out, x);
      CoversAgree(a, a', out, x);
    }
  }

  lemma MergeMove(s: seq<Region>, i: nat, a: seq<Region>, out: nat)
    requires i < |s| && Merged(s, i, a, out) && Fits(s[i]) && s[i - 1].base <= s[i].base
    requires s[i].base > End(a[out])
    ensures Merged(s, i + 1, a[out + 1 := s[i]], out + 1)
  {
    var a' := a[out + 1 := s[i]];
    EndsNext(s, i, End(a[out]));
    TopAfterMove(s, i, a, out);
    var n := out + 2;
    forall x ensures (Covers(a', n, x) ==> Covers(s, i + 1, x))
        && (Covers(s, i + 1, x) && x < UINTPTR_MAX ==> Covers(a', n, x)) {
      CoversNext(s, i, x);
      CoversNext(a', out + 1, x);
      CoversAgree(a, a', out + 1, x);
    }
  }

  lemma MergeStart(s: seq<Region>)
    requires |s| > 0 && Fits(s[0])
    ensures Merged(s, 1, s, 0)
  {
    OnlyTop(s, 1);
  }

  lemma OnlyTop(s: seq<Region>, n: nat)
    requires n < 2 && n <= |s|
    ensures Covers(s, n, UINTPTR_MAX) <==> TopKept(s, n)
  {
    if i :| i < n && InAt(s, i, UINTPTR_MAX) { assert TopAt(s, 0); }
    if i :| 0 <= i < n && TopAt(s, i) { assert InAt(s, 0, UINTPTR_MAX); }
  }

  function SumSizes(s: seq<Region>, n: nat): nat
    requires n <= |s|
  {
    if n == 0 then 0 else SumSizes(s, n - 1) + s[n - 1].size
  }

  // ----- Permuting or appending regions, and the bytes they cover

  lemma PermutedCovers(s: seq<Region>, t: seq<Region>, n: nat, x: int)
    requires SameElements(s, t, n)
    ensures Covers(s, n, x) ==> Covers(t, n, x)
  {
    if i :| i < n && InAt(s, i, x) {
      assert s[..n][i] in multiset(t[..n]);
      var j :| 0 <= j < n && t[..n][j] == s[i];
      assert InAt(t, j, x);
    }
  }

  lemma PermutedFits(s: seq<Region>, t: seq<Region>, n: nat)
    requires SameElements(s, t, n) && AllFit(s, n)
    ensures AllFit(t, n)
  {
    forall i | 0 <= i < n ensures Fits(t[i]) {
      assert t[..n][i] in multiset(s[..n]);
      var j :| 0 <= j < n && s[..n][j] == t[i];
    }
  }

  lemma AppendedCovers(s: seq<Region>, t: seq<Region>, n: nat, r: Region, x: int)
    requires n < |s| && SameElements(s[n := r], t, n + 1)
    ensures Covers(t, n + 1, x) <==> Covers(s, n, x) || In(r, x)
  {
    PermutedCovers(s[n := r], t, n + 1, x);
    PermutedCovers(t, s[n := r], n + 1, x);
    CoversNext(s[n := r], n, x);
    CoversAgree(s, s[n := r], n, x);
  }

  /**
   * What a caller can test on the table and the new range: the last byte of the address space stays covered if its
   * region is not joined to the new range below it, or if the new range has it and joins nothing below.
   */
  ghost predicate KeepsTop(s: seq<Region>, n: nat, r: Region)
    requires n <= |s|
  {
    || (exists j :: 0 <= j < n && In(s[j], UINTPTR_MAX) && !(r.base < s[j].base <= End(r)))
    || (In(r, UINTPTR_MAX) && forall j :: 0 <= j < n && s[j].base <= r.base ==> End(s[j]) < r.base)
  }

  lemma TopStays(s: seq<Region>, n: nat, r: Region, at: nat)
    requires n < |s| && Gapped(s, n) && Fitting(s[n := r], n, at) && KeepsTop(s, n, r)
    ensures TopKept(MoveDown(s[n := r], n, at), n + 1)
  {
    var u := s[n := r];
    var t := MoveDown(u, n, at);
    if j :| 0 <= j < n && In(s[j], UINTPTR_MAX) && !(r.base < s[j].base <= End(r)) {
      var i := if j < at then j else j + 1;
      assert u[j] == s[j];
      MoveDownAt(u, n, at, i);
      forall k: nat | k < i ensures End(t[k]) < t[i].base {
        MoveDownAt(u, n, at, k);
        assert k != at ==> t[k] == s[if k < at then k else k - 1];
      }
      assert TopAt(t, i);
    } else {
      MoveDownAt(u, n, at, at);
      forall k: nat | k < at ensures End(t[k]) < r.base {
        MoveDownAt(u, n, at, k);
        assert t[k] == u[k] == s[k];
      }
      assert TopAt(t, at);
    }
  }

  lemma TopWasThere(s: seq<Region>, n: nat, r: Region, at: nat)
    requires n < |s| && Gapped(s, n) && Fitting(s[n := r], n, at) && TopKept(MoveDown(s[n := r], n, at), n + 1)
    ensures KeepsTop(s, n, r)
  {
    var u := s[n := r];
    var t := MoveDown(u, n, at);
    var i: nat :| 0 <= i < n + 1 && TopAt(t, i);
    MoveDownAt(u, n, at, i);
    MoveDownAt(u, n, at, at);
    if i == at {
      forall j: nat | j < n && s[j].base <= r.base ensures End(s[j]) < r.base {
        assert u[j] == s[j];
        MoveDownAt(u, n, at, j);
      }
    } else {
      var j := if i < at then i else i - 1;
      assert u[j] == s[j] == t[i];
    }
  }

  lemma TopOfInserted(s: seq<Region>, n: nat, r: Region, at: nat, t: seq<Region>)
    requires n < |s| && Gapped(s, n) && AllFit(s, n)
    requires Sorted(s[n := r], n) ==> Fitting(s[n := r], n, at) && t == MoveDown(s[n := r], n, at)
    ensures TopKept(t, n + 1) <==> KeepsTop(s, n, r)
  {
    assert Sorted(s[n := r], n);
    if KeepsTop(s, n, r) { TopStays(s, n, r, at); } else if TopKept(t, n + 1) { TopWasThere(s, n, r, at); }
  }

  /** Not one byte below the end of the address space changes hands. */
  ghost predicate Exact(s: seq<Region>, n: nat, r: Region, t: seq<Region>, c: nat)
  {
    forall x {:trigger Covers(t, c, x)} :: x <= UINTPTR_MAX ==> (Covers(t, c, x) <==> Covers(s, n, x) || In(r, x))
  }

  lemma ExactIfTopKept(s: seq<Region>, n: nat, r: Region, t: seq<Region>, c: nat)
    requires n <= |s| && Adds(s, n, r, t, c) && (Covers(t, c, UINTPTR_MAX) <==> KeepsTop(s, n, r))
    ensures Exact(s, n, r, t, c) <==> (Covers(s, n, UINTPTR_MAX) || In(r, UINTPTR_MAX) ==> KeepsTop(s, n, r))
  {
    if Covers(s, n, UINTPTR_MAX) || In(r, UINTPTR_MAX) ==> KeepsTop(s, n, r) {
      forall x | x <= UINTPTR_MAX ensures Covers(t, c, x) <==> Covers(s, n, x) || In(r, x) {
      }
    }
  }

  /** If no registered range runs to the top of the address space, not one byte is lost. */
  lemma PlainBytesExact(a: seq<Region>, n: nat, s: seq<Region>)
    requires SameBytes(a, n, s, |s|) && forall i :: 0 <= i < |s| ==> Plain(s[i])
    ensures forall x {:trigger Covers(a, n, x)} :: Covers(a, n, x) <==> Covers(s, |s|, x)
  {
    forall x ensures Covers(a, n, x) <==> Covers(s, |s|, x) {
      if i :| i < |s| && InAt(s, i, x) { assert Plain(s[i]); }
    }
  }

  lemma RegisteredCovers(s: seq<Region>, r: Region, x: int)
    ensures Covers(s + [r], |s| + 1, x) <==> Covers(s, |s|, x) || In(r, x)
  {
    CoversNext(s + [r], |s|, x);
    CoversAgree(s, s + [r], |s|, x);
  }

  /** The bytes of `t` are those of `s` and of `r`, but perhaps for the top one. */
  ghost predicate Adds(s: seq<Region>, n: nat, r: Region, t: seq<Region>, c: nat)
  {
    forall x {:trigger Covers(t, c, x)} ::
      (Covers(t, c, x) ==> Covers(s, n, x) || In(r, x))
          && ((Covers(s, n, x) || In(r, x)) && x < UINTPTR_MAX ==> Covers(t, c, x))
  }

  lemma AddsRegistered(s: seq<Region>, n: nat, registered: seq<Region>, r: Region, t: seq<Region>, c: nat)
    requires SameBytes(s, n, registered, |registered|) && Adds(s, n, r, t, c)
    ensures SameBytes(t, c, registered + [r], |registered| + 1)
  {
    var all := registered + [r];
    forall x ensures (Covers(t, c, x) ==> Covers(all, |all|, x))
        && (Covers(all, |all|, x) && x < UINTPTR_MAX ==> Covers(t, c, x)) {
      RegisteredCovers(registered, r, x);
      assert Covers(s, n, x) ==> Covers(registered, |registered|, x);
    }
  }

  /** struct memblock_type; `registered` lists the ranges accepted so far. */
  class RegionTable {
    const regions: array<Region>
    var count: nat
    var totalmem: nat
    ghost var registered: seq<Region>

    ghost predicate Shape()
      reads this
    {
      regions.Length == MAX_REGIONS && count <= MAX_REGIONS
    }

    /** The table is sorted with strict gaps and its bytes are those of the registered ranges. */
    ghost predicate Valid()
      reads this, regions
    {
      && Shape()
      && AllFit(regions[..], count) && Gapped(regions[..], count)
      && SameBytes(regions[..], count, registered, |registered|)
    }

    constructor ()
      ensures Valid() && registered == [] && count == totalmem == 0 && fresh(regions) && regions.Length == 128
    {
      regions := new Region[MAX_REGIONS](_ => Region(0, 0));
      count, totalmem := 0, 0;
      registered := [];
    }

    /** The body of the merge loop. */
    method MergeRound(ghost s: seq<Region>, i: nat, k: nat) returns (out: nat)
      requires i < regions.Length == |s| && Merged(s, i, regions[..], k)
      requires Fits(s[i]) && s[i - 1].base <= s[i].base
      modifies regions
      ensures Merged(s, i + 1, regions[..], out)
    {
      out := k;
      assert regions[..][i] == s[i];
      var prev, cur := regions[out], regions[i];
      var prevEnd, curEnd := End(prev), End(cur);
      if cur.base <= prevEnd {
        MergeJoin(s, i, regions[..], out);
        ghost var a := regions[..];
        if curEnd > prevEnd {
          regions[out] := Region(prev.base, curEnd - prev.base);
        }
        assert regions[..] == a[out := Extend(a[out], s[i])];
      } else {
        MergeMove(s, i, regions[..], out);
        out := out + 1;
        regions[out] := regions[i];
      }
    }

    method Merge()
      requires Shape() && AllFit(regions[..], count) && Sorted(regions[..], count)
      modifies this`count, this`totalmem, regions
      ensures Shape() && AllFit(regions[..], count) && Gapped(regions[..], count)
      ensures count <= old(count) && (old(count) > 0 ==> count > 0)
      ensures SameBytes(regions[..], count, old(regions[..]), old(count))
      ensures Covers(regions[..], count, UINTPTR_MAX) <==> TopKept(old(regions[..]), old(count))
      ensures totalmem == if old(count) < 2 then old(totalmem) else SumSizes(regions[..], count)
    {
      if count < 2 {
        OnlyTop(regions[..], count);
        return;
      }
      ghost var s := regions[..];
      MergeStart(s);
      var out := 0;
      var i := 1;
      while i < count
        invariant 1 <= i <= count == old(count)
        invariant Merged(s, i, regions[..], out)
      {
        out := MergeRound(s, i, out);
        i := i + 1;
      }
      count := out + 1;
      totalmem := SumUp();
    }

    method SumUp() returns (sum: nat)
      requires Shape()
      ensures sum == SumSizes(regions[..], count)
    {
      sum := 0;
      for i := 0 to count
        invariant sum == SumSizes(regions[..], i)
      {
        sum := sum + regions[i].size;
      }
    }

    /** Append, sort and merge. */
    method Insert(r: Region)
      requires Shape() && count < MAX_REGIONS && Fits(r) && AllFit(regions[..], count)
      modifies this`count, this`totalmem, regions
      ensures Shape() && AllFit(regions[..], count) && Gapped(regions[..], count) && 0 < count <= old(count) + 1
      ensures Adds(old(regions[..]), old(count), r, regions[..], count)
      ensures Gapped(old(regions[..]), old(count)) ==>
                (Covers(regions[..], count, UINTPTR_MAX) <==> KeepsTop(old(regions[..]), old(count), r))
      ensures totalmem == if old(count) == 0 then old(totalmem) else SumSizes(regions[..], count)
    {
      ghost var s, n := regions[..], count;
      AppendSorted(r);
      ghost var t, c := regions[..], count;
      forall x ensures Covers(t, c, x) <==> Covers(s, n, x) || In(r, x) {
        AppendedCovers(s, t, n, r, x);
      }
      Merge();
    }

    /** Append and sort. */
    method AppendSorted(r: Region)
      requires Shape() && count < MAX_REGIONS && Fits(r) && AllFit(regions[..], count)
      modifies this`count, regions
      ensures Shape() && count == old(count) + 1 && AllFit(regions[..], count) && Sorted(regions[..], count)
      ensures SameElements(old(regions[..])[old(count) := r], regions[..], count)
      ensures Gapped(old(regions[..]), old(count)) ==>
                (TopKept(regions[..], count) <==> KeepsTop(old(regions[..]), old(count), r))
    {
      ghost var s, n := regions[..], count;
      regions[count] := r;
      assert regions[..] == s[n := r];
      count := count + 1;
      ghost var at := Sort(regions, count);
      if Gapped(s, n) { TopOfInserted(s, n, r, at, regions[..]); }
      PermutedFits(s[n := r], regions[..], count);
    }

    /** memblock_add and memblock_reserve: one body, on two tables. */
    method Register(base: nat, size: nat)
      requires Valid() && base <= UINTPTR_MAX && size <= UINTPTR_MAX
      modifies this, regions
      ensures Valid()
      ensures registered == old(registered) + if size == 0 || old(count) >= MAX_REGIONS then []
                                              else [Region(base, size)]
      ensures size == 0 || old(count) >= MAX_REGIONS ==>
                regions[..] == old(regions[..]) && count == old(count) && totalmem == old(totalmem)
      ensures size != 0 && old(count) < MAX_REGIONS ==>
                && 0 < count <= old(count) + 1
                && totalmem == (if old(count) == 0 then old(totalmem) else SumSizes(regions[..], count))
                && Adds(old(regions[..]), old(count), Region(base, size), regions[..], count)
      ensures size != 0 && old(count) < MAX_REGIONS ==>
                var s, n, r := old(regions[..]), old(count), Region(base, size);
                && (Covers(regions[..], count, UINTPTR_MAX) <==> KeepsTop(s, n, r))
                && (Exact(s, n, r, regions[..], count) <==>
                      (Covers(s, n, UINTPTR_MAX) || In(r, UINTPTR_MAX) ==> KeepsTop(s, n, r)))
    {
      if size == 0 {
        return;
      }
      if count >= MAX_REGIONS {
        return;
      }
      Insert(Region(base, size));
      ExactIfTopKept(old(regions[..]), old(count), Region(base, size), regions[..], count);
      AddsRegistered(old(regions[..]), old(count), registered, Region(base, size), regions[..], count);
      registered := registered + [Region(base, size)];
    }
  }

  /** The last page of the address space, registered after the page below it, loses its last byte. */
  method TopByteLost() returns (t: RegionTable)
    ensures t.Valid() && t.registered == [Region(0xFFFF_E000, 0x1000), Region(0xFFFF_F000, 0x1000)]
    ensures In(t.registered[1], UINTPTR_MAX) && !Covers(t.regions[..], t.count, UINTPTR_MAX)
  {
    t := new RegionTable();
    t.Register(0xFFFF_E000, 0x1000);
    ghost var s := t.regions[..];
    assert t.registered == [Region(0xFFFF_E000, 0x1000)];
    OnlyRegion(s, Region(0xFFFF_E000, 0x1000));
    t.Register(0xFFFF_F000, 0x1000);
    assert !KeepsTop(s, 1, Region(0xFFFF_F000, 0x1000));
  }

  // ----- Reservation tests and first-fit allocation

  predicate Overlaps(r: Region, base: nat, size: nat)
  {
    !(base + size <= r.base || base >= r.base + r.size)
  }

  predicate OverlapsAt(s: seq<Region>, i: int, base: nat, size: nat)
  {
    0 <= i < |s| && Overlaps(s[i], base, size)
  }

  /** memblock_is_reserved: the range leaves the address space or overlaps a region. */
  ghost predicate Busy(s: seq<Region>, n: nat, base: nat, size: nat)
  {
    size > UINTPTR_MAX - base || exists i {:trigger OverlapsAt(s, i, base, size)} ::
        i < n && OverlapsAt(s, i, base, size)
  }

  /** For a range inside the address space, busy means that one of its bytes is covered. */
  lemma BusyBytes(s: seq<Region>, n: nat, base: nat, size: nat)
    requires n <= |s| && AllFit(s, n) && 0 < size <= UINTPTR_MAX - base
    ensures Busy(s, n, base, size) <==> exists x :: base <= x < base + size && Covers(s, n, x)
  {
    if i :| i < n && OverlapsAt(s, i, base, size) {
      var x := if base < s[i].base then s[i].base else base;
      assert InAt(s, i, x);
      assert Covers(s, n, x);
    }
    if x :| base <= x < base + size && Covers(s, n, x) {
      var i :| i < n && InAt(s, i, x);
      assert OverlapsAt(s, i, base, size);
    }
  }

  const SPACE := 0x1_0000_0000

  /** ALIGN_UP(base, align) as the code computes it: the mask is 32 bits wide, so a carry out of bit 31 is lost. */
  function ScanStart(base: nat, align: nat): nat
    requires align > 0
  {
    AndNot((base + align - 1) % SPACE, align - 1)
  }

  predicate Wraps(base: nat, k: nat)
  {
    base + Pow2(k) > SPACE
  }

  /** The scan of a region starts inside it exactly when rounding its base up does not leave the address space. */
  lemma ScanStartFacts(base: nat, k: nat)
    requires base <= UINTPTR_MAX && k < 32
    ensures Aligned(ScanStart(base, Pow2(k)), k)
    ensures ScanStart(base, Pow2(k)) >= base <==> !Wraps(base, k)
    ensures !Wraps(base, k) ==> ScanStart(base, Pow2(k)) < base + Pow2(k)
    ensures Wraps(base, k) ==> ScanStart(base, Pow2(k)) == 0
  {
    Pow2Fits(k);
    if Wraps(base, k) {
      WrappedStart(base, k);
      AlignedZero(k);
    } else {
      PlainStart(base, k);
    }
  }

  lemma PlainStart(base: nat, k: nat)
    requires !Wraps(base, k)
    ensures Aligned(ScanStart(base, Pow2(k)), k) && base <= ScanStart(base, Pow2(k)) < base + Pow2(k)
  {
    var w: nat := base + Pow2(k) - 1;
    SmallMod(w);
    AndNotMask(w, k);
  }

  lemma SmallMod(w: nat)
    ensures w < SPACE ==> w % SPACE == w
    ensures SPACE <= w < 2 * SPACE ==> w % SPACE == w - SPACE
  {
  }

  lemma WrappedStart(base: nat, k: nat)
    requires base <= UINTPTR_MAX && Pow2(k) <= SPACE && Wraps(base, k)
    ensures ScanStart(base, Pow2(k)) == 0 < base
  {
    var w := base + Pow2(k) - 1 - SPACE;
    SmallMod(base + Pow2(k) - 1);
    AndNotMask(w, k);
    AlignedZero(k);
    AlignedNesting(ScanStart(base, Pow2(k)), k, 0, k);
  }

  lemma Pow2Of32()
    ensures Pow2(31) == 0x8000_0000 && Pow2(32) == SPACE == UINTPTR_MAX + 1
  {
    assert Pow2(8) == 256;
    assert Pow2(16) == 65536;
    assert Pow2(24) == 0x100_0000;
  }

  lemma Pow2Fits(k: nat)
    requires k <= 32
    ensures Pow2(k) <= SPACE
  {
    Pow2Of32();
    Pow2Monotone(k, 32);
  }

  /** An aligned range of `size` bytes inside region `m`, whose end must not pass the top of the address space. */
  predicate Candidate(m: Region, k: nat, size: nat, c: nat)
  {
    m.size <= UINTPTR_MAX - m.base && Aligned(c, k) && m.base <= c && c + size <= m.base + m.size
  }

  /** No candidate lies below the start of the scan. */
  lemma CandidateScanned(m: Region, k: nat, size: nat, c: nat)
    requires Fits(m) && k < 32 && Candidate(m, k, size, c) && size > 0
    ensures ScanStart(m.base, Pow2(k)) <= c && !Wraps(m.base, k)
  {
    ScanStartFacts(m.base, k);
    AlignedNesting(ScanStart(m.base, Pow2(k)), k, c, k);
    if Wraps(m.base, k) {
      Pow2Of32();
      AlignedSpace(k);
      AlignedNesting(c, k, SPACE, k);
    }
  }

  lemma AlignedSpace(k: nat)
    requires k <= 32
    ensures Aligned(SPACE, k)
  {
    Pow2Of32();
    AlignedPow2(32);
    AlignedDown(SPACE, k, 32);
  }

  /** `c` is `start` or a number of steps behind it. */
  predicate Stepped(start: nat, align: nat, c: nat)
    requires align > 0
  {
    start <= c && (c - start) % align == 0
  }

  /** An address that the scan of region `m` tries: from the rounded base on, in steps of the alignment. */
  predicate Scanned(m: Region, align: nat, size: nat, c: nat)
    requires align > 0
  {
    Plain(m) && Stepped(ScanStart(m.base, align), align, c) && c + size <= m.base + m.size
  }

  /** Between one place and the next there is none. */
  lemma NoneBetween(start: nat, align: nat, cur: nat, c: nat)
    requires align > 0 && Stepped(start, align, cur)
    ensures Stepped(start, align, cur + align)
    ensures Stepped(start, align, c) && c < cur + align ==> c <= cur
  {
    NextMultiple(cur - start, align);
  }

  lemma NextMultiple(x: nat, n: nat)
    requires n > 0 && x % n == 0
    ensures (x + n) % n == 0 && forall y :: x < y < x + n ==> y % n == y - x
  {
    forall y | x < y < x + n ensures y % n == y - x {
      assert y == x / n * n + (y - x);
      Remainder(x / n, y - x, n);
    }
    assert x + n == (x / n + 1) * n;
    Remainder(x / n + 1, 0, n);
  }

  lemma Remainder(q: nat, d: nat, n: nat)
    requires d < n
    ensures (q * n + d) % n == d
  {
    var x := q * n + d;
    var e := x / n - q;
    assert x == (q + e) * n + x % n;
    assert d == e * n + x % n;
    Multiples(e, n);
  }

  lemma Multiples(e: int, n: nat)
    ensures e >= 1 ==> e * n >= n
    ensures e <= -1 ==> e * n + n <= 0
  {
  }

  lemma HalfMod(p: nat, n: nat)
    requires n > 0
    ensures p % (2 * n) == 0 <==> p % 2 == 0 && p / 2 % n == 0
  {
    var q, d := p / 2 / n, p / 2 % n;
    assert p / 2 == q * n + d;
    assert p == q * (2 * n) + (2 * d + p % 2);
    Remainder(q, 2 * d + p % 2, 2 * n);
  }

  lemma {:induction false} AlignedMod(p: nat, k: nat)
    ensures Aligned(p, k) <==> p % Pow2(k) == 0
  {
    if k > 0 {
      AlignedMod(p / 2, k - 1);
      HalfMod(p, Pow2(k - 1));
    }
  }

  /** In steps of a power of two from an aligned place one comes to the aligned places. */
  lemma SteppedAligned(start: nat, k: nat, c: nat)
    requires Aligned(start, k)
    ensures Stepped(start, Pow2(k), c) <==> start <= c && Aligned(c, k)
  {
    AlignedMod(start, k);
    AlignedMod(c, k);
    if start <= c { SumMod(start, c - start, Pow2(k)); }
  }

  lemma SumMod(a: nat, d: nat, n: nat)
    requires n > 0 && a % n == 0
    ensures (a + d) % n == d % n
  {
    var p, q := a / n, d / n;
    assert a == p * n && d == q * n + d % n;
    assert a + d == (p + q) * n + d % n;
    Remainder(p + q, d % n, n);
  }

  /** Without a wrap the scan tries exactly the candidates; with one, there is no candidate. */
  lemma ScannedAreCandidates(m: Region, k: nat, size: nat, c: nat)
    requires Fits(m) && k < 32 && size > 0
    ensures Candidate(m, k, size, c) <==> Scanned(m, Pow2(k), size, c) && !Wraps(m.base, k)
    ensures Scanned(m, Pow2(k), size, c) ==> Aligned(c, k) && (m.base <= c <==> !Wraps(m.base, k))
  {
    ScanStartFacts(m.base, k);
    SteppedAligned(ScanStart(m.base, Pow2(k)), k, c);
    if Candidate(m, k, size, c) { CandidateScanned(m, k, size, c); }
  }

  /** Every address below `hi` that the scan of region `m` tries is busy. */
  ghost predicate Full(m: Region, res: seq<Region>, n: nat, align: nat, size: nat, hi: nat)
    requires align > 0
  {
    forall c: nat {:trigger Scanned(m, align, size, c)} :: c < hi && Scanned(m, align, size, c) ==>
        Busy(res, n, c, size)
  }

  /** The allocator gives up at a region where the request does not fit below the top of the address space. */
  predicate GivesUp(m: Region, align: nat, size: nat)
    requires align > 0
  {
    Plain(m) && ScanStart(m.base, align) + size > UINTPTR_MAX
  }

  /** It comes to region `i`, with nothing found before. */
  ghost predicate Reaches(mem: seq<Region>, i: nat, res: seq<Region>, n: nat, align: nat, size: nat)
    requires i <= |mem| && align > 0
  {
    forall j {:trigger mem[j]} :: 0 <= j < i ==>
        !GivesUp(mem[j], align, size) && Full(mem[j], res, n, align, size, SPACE)
  }

  /** No candidate of the first `m` regions is left. */
  ghost predicate NoneLeft(mem: seq<Region>, m: nat, res: seq<Region>, n: nat, k: nat, size: nat)
    requires m <= |mem|
  {
    forall j, c: nat {:trigger Candidate(mem[j], k, size, c)} :: 0 <= j < m && Candidate(mem[j], k, size, c) ==>
        Busy(res, n, c, size)
  }

  /**
    `r` is the first fit, found in region `i`: the first address tried there that is not busy, with nothing found
    before.
   */
  ghost predicate FirstFit(mem: seq<Region>, m: nat, res: seq<Region>, n: nat, align: nat, size: nat, i: nat, r: nat)
    requires m <= |mem| && align > 0
  {
    && i < m && Reaches(mem, i, res, n, align, size) && !GivesUp(mem[i], align, size)
    && Full(mem[i], res, n, align, size, r)
    && Scanned(mem[i], align, size, r) && !Busy(res, n, r, size)
  }

  lemma FirstFitUnique(mem: seq<Region>, m: nat, res: seq<Region>, n: nat, align: nat, size: nat, i: nat, r: nat,
          i': nat,
          r': nat)
    requires m <= |mem| && align > 0 && FirstFit(mem, m, res, n, align, size, i, r)
             && FirstFit(mem, m, res, n, align, size, i', r')
    ensures i == i' && r == r'
  {
  }

  /** What is found lies in its region exactly when rounding the region's base up did not wrap around. */
  lemma FirstFitInRegion(mem: seq<Region>, m: nat, res: seq<Region>, n: nat, k: nat, size: nat, i: nat, r: nat)
    requires m <= |mem| && AllFit(mem, m) && k < 32 && size > 0 && FirstFit(mem, m, res, n, Pow2(k), size, i, r)
    ensures Aligned(r, k)
    ensures (forall x :: r <= x < r + size ==> In(mem[i], x)) <==> !Wraps(mem[i].base, k)
  {
    ScannedAreCandidates(mem[i], k, size, r);
    assert In(mem[i], r) ==> mem[i].base <= r;
  }

  /** No alignment is alignment to one byte. */
  function Unit(align: nat): (a: nat)
    ensures a > 0
  {
    if align == 0 then 1 else align
  }

  /** If the alignment is a power of two, no aligned place inside a region is left. */
  ghost predicate NoneLeftFor(mem: seq<Region>, m: nat, res: seq<Region>, n: nat, align: nat, size: nat)
    requires m <= |mem|
  {
    forall k: nat {:trigger Pow2(k)} :: k < 32 && align == Pow2(k) ==> NoneLeft(mem, m, res, n, k, size)
  }

  /** Stepping the scan by one alignment skips only the address just tried. */
  lemma FullStep(m: Region, res: seq<Region>, n: nat, align: nat, size: nat, cur: nat)
    requires align > 0 && Full(m, res, n, align, size, cur) && Stepped(ScanStart(m.base, align), align, cur)
    requires Busy(res, n, cur, size)
    ensures Full(m, res, n, align, size, cur + align) && Stepped(ScanStart(m.base, align), align, cur + align)
  {
    var start := ScanStart(m.base, align);
    NoneBetween(start, align, cur, cur);
    forall c: nat | c < cur + align && Scanned(m, align, size, c) ensures Busy(res, n, c, size) {
      NoneBetween(start, align, cur, c);
    }
  }

  /** If a request does not fit below the top of the address space in one region, nothing is found. */
  lemma BreakFull(mem: seq<Region>, m: nat, i: nat, res: seq<Region>, n: nat, align: nat, size: nat)
    requires i < m <= |mem| && align > 0 && Reaches(mem, i, res, n, align, size) && GivesUp(mem[i], align, size)
    requires 0 < size <= UINTPTR_MAX && AllFit(mem, m) && Gapped(mem, m)
    ensures NoneLeftFor(mem, m, res, n, align, size)
    ensures forall i': nat, r: nat :: !FirstFit(mem, m, res, n, align, size, i', r)
  {
    forall k: nat | k < 32 && align == Pow2(k) ensures NoneLeft(mem, m, res, n, k, size) {
      BreakLeavesNone(mem, m, i, res, n, k, size);
    }
    forall i': nat, r: nat ensures !FirstFit(mem, m, res, n, align, size, i', r) {
      if i' < i { assert Full(mem[i'], res, n, align, size, SPACE); }
    }
  }

  /** For a power of two no later region helps either. */
  lemma BreakLeavesNone(mem: seq<Region>, m: nat, i: nat, res: seq<Region>, n: nat, k: nat, size: nat)
    requires i < m <= |mem| && AllFit(mem, m) && Gapped(mem, m) && Reaches(mem, i, res, n, Pow2(k), size)
    requires k < 32 && 0 < size <= UINTPTR_MAX && GivesUp(mem[i], Pow2(k), size)
    ensures NoneLeft(mem, m, res, n, k, size)
  {
    ScanStartFacts(mem[i].base, k);
    forall j, c: nat | 0 <= j < m && Candidate(mem[j], k, size, c) ensures Busy(res, n, c, size) {
      ScannedAreCandidates(mem[j], k, size, c);
      if j >= i {
        AlignedNesting(ScanStart(mem[i].base, Pow2(k)), k, c, k);
        assert i < j ==> End(mem[i]) < mem[j].base;
      }
    }
  }

  lemma NothingFound(mem: seq<Region>, m: nat, res: seq<Region>, n: nat, align: nat, size: nat)
    requires m <= |mem| && align > 0 && Reaches(mem, m, res, n, align, size) && 0 < size <= UINTPTR_MAX
             && AllFit(mem, m)
    ensures NoneLeftFor(mem, m, res, n, align, size)
    ensures forall i: nat, r: nat :: !FirstFit(mem, m, res, n, align, size, i, r)
  {
    forall k: nat | k < 32 && align == Pow2(k) ensures NoneLeft(mem, m, res, n, k, size) {
      NothingLeft(mem, m, res, n, k, size);
    }
    forall i: nat, r: nat ensures !FirstFit(mem, m, res, n, align, size, i, r) {
      if i < m { assert Full(mem[i], res, n, align, size, SPACE); }
    }
  }

  lemma NothingLeft(mem: seq<Region>, m: nat, res: seq<Region>, n: nat, k: nat, size: nat)
    requires m <= |mem| && AllFit(mem, m) && Reaches(mem, m, res, n, Pow2(k), size) && k < 32 && 0 < size <= UINTPTR_MAX
    ensures NoneLeft(mem, m, res, n, k, size)
  {
    forall j, c: nat | 0 <= j < m && Candidate(mem[j], k, size, c) ensures Busy(res, n, c, size) {
      ScannedAreCandidates(mem[j], k, size, c);
    }
  }

  class Memblock {
    const memory: RegionTable
    const reserved: RegionTable

    ghost predicate Valid()
      reads this, memory, memory.regions, reserved, reserved.regions
    {
      memory.Valid() && reserved.Valid() && memory != reserved && memory.regions != reserved.regions
    }

    constructor ()
      ensures Valid() && memory.registered == [] && reserved.registered == []
      ensures memory.count == 0 && reserved.count == 0
      ensures fresh(memory) && fresh(reserved) && fresh(memory.regions) && fresh(reserved.regions)
    {
      memory := new RegionTable();
      reserved := new RegionTable();
    }

    method IsReserved(base: nat, size: nat) returns (busy: bool)
      requires Valid() && base <= UINTPTR_MAX
      ensures busy <==> Busy(reserved.regions[..], reserved.count, base, size)
    {
      if size > UINTPTR_MAX - base {
        return true;
      }
      for i := 0 to reserved.count
        invariant forall j :: 0 <= j < i ==> !OverlapsAt(reserved.regions[..], j, base, size)
      {
        var r := reserved.regions[i];
        if !(base + size <= r.base || base >= r.base + r.size) {
          assert OverlapsAt(reserved.regions[..], i, base, size);
          return true;
        }
      }
      return false;
    }

    /** The inner loop of memblock_alloc over one region. */
    method ScanRegion(m: Region, size: nat, align: nat, start: nat) returns (found: bool, cur: nat)
      requires Valid() && Fits(m) && align > 0 && size > 0 && start == ScanStart(m.base, align) && Plain(m)
      ensures found ==>
                && Full(m, reserved.regions[..], reserved.count, align, size, cur) && Scanned(m, align, size, cur)
                && !Busy(reserved.regions[..], reserved.count, cur, size)
      ensures !found ==> Full(m, reserved.regions[..], reserved.count, align, size, SPACE)
    {
      ghost var res, n := reserved.regions[..], reserved.count;
      cur := start;
      while cur + size <= m.base + m.size
        invariant Full(m, res, n, align, size, cur) && Stepped(start, align, cur)
        decreases m.base + m.size - cur
      {
        var busy := IsReserved(cur, size);
        if !busy {
          return true, cur;
        }
        FullStep(m, res, n, align, size, cur);
        cur := cur + align;
      }
      found := false;
    }

    /**
      memblock_alloc. The result is a pointer: 0 stands both for failure and for an allocation at address 0, so
      the ghost result `hit` names the region the allocation came from, or is -1. A successful allocation is
      entered in the reserved table only if that table has room.
     */
    method Alloc(size: nat, align: nat) returns (r: nat, ghost hit: int)
      requires Valid() && size <= UINTPTR_MAX && align <= UINTPTR_MAX
      modifies reserved, reserved.regions
      ensures Valid()
      ensures hit >= 0 ==> size > 0
      ensures hit >= 0 ==>
                FirstFit(memory.regions[..], memory.count, old(reserved.regions[..]), old(reserved.count), Unit(align),
                    size, hit, r)
      ensures hit >= 0 && old(reserved.count) < MAX_REGIONS ==>
                Adds(old(reserved.regions[..]), old(reserved.count), Region(r, size), reserved.regions[..],
                    reserved.count)
      ensures hit < 0 && size > 0 ==>
                && r == 0
                && NoneLeftFor(memory.regions[..], memory.count, old(reserved.regions[..]), old(reserved.count),
                     Unit(align), size)
                && forall i: nat, c: nat ::
                     !FirstFit(memory.regions[..], memory.count, old(reserved.regions[..]), old(reserved.count),
                         Unit(align), size, i, c)
      ensures size == 0 ==> r == 0 && hit < 0
      ensures hit < 0 || old(reserved.count) >= MAX_REGIONS ==>
                reserved.regions[..] == old(reserved.regions[..]) && reserved.count == old(reserved.count)
    {
      hit := -1;
      if size == 0 {
        return 0, -1;
      }
      var a := if align == 0 then 1 else align;
      ghost var mem, m, res, n := memory.regions[..], memory.count, reserved.regions[..], reserved.count;
      var i := 0;
      while i < memory.count
        invariant i <= m && Reaches(mem, i, res, n, a, size)
        invariant reserved.count == n && reserved.regions[..] == res
                  && reserved.registered == old(reserved.registered) && Valid()
      {
        var region := memory.regions[i];
        assert region == mem[i];
        var c, stop := TryRegion(region, size, a);
        if stop {
          BreakFull(mem, m, i, res, n, a, size);
          return 0, -1;
        }
        if c.Some? {
          assert FirstFit(mem, m, res, n, a, size, i, c.value);
          reserved.Register(c.value, size);
          return c.value, i;
        }
        i := i + 1;
      }
      NothingFound(mem, m, res, n, a, size);
      return 0, -1;
    }

    /** One round of the loop over regions; `stop` ends it. */
    method TryRegion(region: Region, size: nat, a: nat) returns (c: Option<nat>, stop: bool)
      requires Valid() && Fits(region) && a > 0 && size > 0
      ensures stop <==> GivesUp(region, a, size)
      ensures c.Some? ==>
                && !stop && Full(region, reserved.regions[..], reserved.count, a, size, c.value)
                && Scanned(region, a, size, c.value) && !Busy(reserved.regions[..], reserved.count, c.value, size)
      ensures c.None? && !stop ==> Full(region, reserved.regions[..], reserved.count, a, size, SPACE)
    {
      if region.size > UINTPTR_MAX - region.base {
        return None, false;
      }
      var cur := AndNot((region.base + a - 1) % SPACE, a - 1);
      if size > UINTPTR_MAX - cur {
        return None, true;
      }
      var found, at := ScanRegion(region, size, a, cur);
      return if found then Some(at) else None, false;
    }
  }

  /** In bytes: what a first fit hands out was covered by no reserved region. */
  lemma FirstFitUnreserved(mem: seq<Region>, m: nat, res: seq<Region>, n: nat, align: nat, size: nat, i: nat, r: nat,
          x: int)
    requires m <= |mem| && align > 0 && n <= |res| && AllFit(res, n) && FirstFit(mem, m, res, n, align, size, i, r)
             && r <= x < r + size
    ensures !Covers(res, n, x)
  {
    BusyBytes(res, n, r, size);
  }

  // ----- The wrap-around is real

  /** A table with the bytes of one plain region holds that region. */
  lemma OnlyRegion(s: seq<Region>, r: Region)
    requires |s| > 0 && AllFit(s, 1) && SameBytes(s, 1, [r], 1) && Fits(r) && Plain(r)
    ensures s[0] == r
  {
    forall x ensures In(s[0], x) <==> In(r, x) {
      assert Covers(s, 1, x) <==> InAt(s, 0, x);
      assert Covers([r], 1, x) <==> InAt([r], 0, x);
    }
    assert In(r, r.base) && In(s[0], s[0].base) && In(r, r.base + r.size - 1) && In(s[0], s[0].base + s[0].size - 1);
  }

  lemma WrappedFit(mem: seq<Region>, res: seq<Region>)
    requires |mem| > 0 && mem[0] == Region(0xFFFF_F001, 16) && |res| > 0 && res[0] == Region(0, 0x1000)
    ensures FirstFit(mem, 1, res, 1, 0x1000, 8, 0, 0x1000)
  {
    var m := mem[0];
    assert Pow2(8) == 256;
    assert Pow2(12) == 0x1000;
    ScanStartFacts(m.base, 12);
    AlignedPow2(12);
    forall c: nat | c < 0x1000 && Scanned(m, 0x1000, 8, c) ensures Busy(res, 1, c, 8) {
      assert OverlapsAt(res, 0, c, 8);
    }
    assert !OverlapsAt(res, 0, 0x1000, 8);
  }

  /** A 16-byte region at 0xFFFFF001 sends an 8-byte, 4 KiB-aligned request to address 0x1000. */
  method WrapLeavesTheRegion() returns (r: nat)
    ensures r == 0x1000 && !In(Region(0xFFFF_F001, 16), r)
  {
    var mb := new Memblock();
    mb.memory.Register(0xFFFF_F001, 16);
    mb.reserved.Register(0, 0x1000);
    ghost var mem, res := mb.memory.regions[..], mb.reserved.regions[..];
    assert mb.memory.registered == [Region(0xFFFF_F001, 16)] && mb.reserved.registered == [Region(0, 0x1000)];
    OnlyRegion(mem, Region(0xFFFF_F001, 16));
    OnlyRegion(res, Region(0, 0x1000));
    WrappedFit(mem, res);
    assert Pow2(8) == 256;
    assert Pow2(12) == 0x1000;
    ghost var hit;
    r, hit := mb.Alloc(8, 0x1000);
    FirstFitUnique(mem, 1, res, 1, 0x1000, 8, 0, 0x1000, hit, r);
  }
}
