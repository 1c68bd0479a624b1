/**
  Path walking: splitting a path into names, following them from the root across mount points, and the
  references to inodes this takes and gives back.
 */
module Path {
  import opened Common

  const ENOENT := 2
  const ENOSYS := 38

  datatype Result<T> = Ok(value: T) | Err(code: int)

  // ----- Names of a path

  /** How many characters come before the next slash. */
  function NameLen(p: string): (n: nat)
    ensures n <= |p| && (forall i :: 0 <= i < n ==> p[i] != '/') && (n < |p| ==> p[n] == '/')
  {
    if p == "" || p[0] == '/' then 0 else 1 + NameLen(p[1..])
  }

  /** The names between the slashes. */
  function Names(p: string): seq<string>
  {
    if p == "" then []
    else if p[0] == '/' then Names(p[1..])
    else [p[..NameLen(p)]] + Names(p[NameLen(p)..])
  }

  predicate IsName(c: string)
  {
    c != "" && '/' !in c
  }

  /** A path made of names, each behind a slash. */
  function Join(cs: seq<string>): string
  {
    if cs == [] then "" else "/" + cs[0] + Join(cs[1..])
  }

  lemma {:induction false} NameLenOf(c: string, rest: string)
    requires '/' !in c && (rest == "" || rest[0] == '/')
    ensures NameLen(c + rest) == |c|
  {
    if c == "" {
      assert c + rest == rest;
    } else {
      NameLenOf(c[1..], rest);
      assert (c + rest)[1..] == c[1..] + rest;
    }
  }

  lemma NamesHead(c: string, rest: string)
    requires IsName(c) && (rest == "" || rest[0] == '/')
    ensures Names(c + rest) == [c] + Names(rest)
  {
    NameLenOf(c, rest);
    var p := c + rest;
    assert p[0] == c[0];
    assert p[..|c|] == c && p[|c|..] == rest;
  }

  /** Splitting undoes joining. */
  lemma {:induction false} NamesOfJoin(cs: seq<string>)
    requires forall k :: 0 <= k < |cs| ==> IsName(cs[k])
    ensures Names(Join(cs)) == cs
  {
    if cs != [] {
      var rest := Join(cs[1..]);
      NamesOfJoin(cs[1..]);
      JoinStart(cs[1..]);
      NamesHead(cs[0], rest);
      NamesBehindSlash(cs[0], rest);
      assert [cs[0]] + cs[1..] == cs;
    }
  }

  lemma JoinStart(cs: seq<string>)
    ensures Join(cs) == "" || Join(cs)[0] == '/'
  {
  }

  lemma NamesBehindSlash(c: string, rest: string)
    ensures Names("/" + c + rest) == Names(c + rest)
  {
    assert ("/" + c + rest)[1..] == c + rest;
  }

  /** What comes out of a path are names. */
  lemma {:induction false} NamesAreNames(p: string, k: nat)
    requires k < |Names(p)|
    ensures IsName(Names(p)[k])
    decreases |p|
  {
    if p[0] == '/' {
      NamesAreNames(p[1..], k);
    } else if k > 0 {
      NamesAreNames(p[NameLen(p)..], k - 1);
    }
  }

  lemma SkipSlash(path: string, i: nat)
    requires i < |path| && path[i] == '/'
    ensures Names(path[i..]) == Names(path[i + 1..])
  {
    assert path[i..][1..] == path[i + 1..];
  }

  lemma LongerName(path: string, j: nat)
    requires j < |path| && path[j] != '/'
    ensures NameLen(path[j..]) == 1 + NameLen(path[j + 1..])
  {
    assert path[j..][1..] == path[j + 1..];
  }

  lemma TakeName(path: string, i: nat, j: nat)
    requires i < j <= |path| && path[i] != '/' && NameLen(path[i..]) == j - i
    ensures Names(path[i..]) == [path[i..j]] + Names(path[j..])
  {
    assert path[i..][..j - i] == path[i..j] && path[i..][j - i..] == path[j..];
  }

  /** The end of the slashes, and the end of the name behind them, in the text from `cursor` on. */
  method PathIterate(path: string, cursor: nat) returns (found: bool, name: string, next: nat)
    requires cursor <= |path|
    ensures found <==> Names(path[cursor..]) != []
    ensures found ==> cursor < next <= |path| && Names(path[cursor..]) == [name] + Names(path[next..])
  {
    var i := cursor;
    while i < |path| && path[i] == '/'
      invariant cursor <= i <= |path| && Names(path[i..]) == Names(path[cursor..])
    {
      SkipSlash(path, i);
      i := i + 1;
    }
    if i == |path| {
      return false, "", cursor;
    }
    var j := i;
    while j < |path| && path[j] != '/'
      invariant i <= j <= |path| && NameLen(path[i..]) == j - i + NameLen(path[j..])
    {
      LongerName(path, j);
      j := j + 1;
    }
    TakeName(path, i, j);
    return true, path[i..j], j;
  }

  // ----- Walking

  datatype Mount = Mount(id: nat, root: nat)

  const MAX_ERRNO := 255

  /** A machine word: null, the address of an inode, or an error number in the last bytes of the address space. */
  type Pointer = p: int | 0 <= p < LIMIT

  predicate IsErr(p: Pointer)
  {
    p >= LIMIT - MAX_ERRNO
  }

  function PtrErr(p: Pointer): int
    requires IsErr(p)
  {
    p - LIMIT
  }

  /** What a directory's lookup operation answers. */
  datatype Answer = Child(ino: nat) | NoChild | Failed(code: int)

  predicate Representable(a: Answer)
  {
    match a
    case Child(ino) => 0 < ino < LIMIT - MAX_ERRNO
    case NoChild => true
    case Failed(code) => -MAX_ERRNO <= code < 0
  }

  type Reply = a: Answer | Representable(a) witness NoChild

  /** The answer as a pointer. */
  function Packed(a: Reply): Pointer
  {
    match a
    case Child(ino) => ino
    case NoChild => 0
    case Failed(code) => LIMIT + code
  }

  /** The lookup operation of each directory that has one, and the mounts on inodes. */
  datatype World = World(lookup: nat -> Option<string -> Reply>, mounted: nat -> Option<Mount>)

  datatype Place = Place(ino: nat, mnt: Mount)

  /** One name further, into the file system mounted there if there is one. */
  function Step(w: World, at: Place, name: string): Result<Place>
  {
    match w.lookup(at.ino)
    case None => Err(-ENOSYS)
    case Some(lookup) =>
      match lookup(name)
      case NoChild => Err(-ENOENT)
      case Failed(code) => Err(code)
      case Child(c) => Ok(match w.mounted(c) case Some(m) => Place(m.root, m) case None => Place(c, at.mnt))
  }

  function Walk(w: World, at: Place, names: seq<string>): Result<Place>
    decreases |names|
  {
    if names == [] then Ok(at)
    else match Step(w, at, names[0])
         case Err(code) => Err(code)
         case Ok(next) => Walk(w, next, names[1..])
  }

  /** The place of the directory that holds the last name. */
  function Parent(w: World, at: Place, names: seq<string>): Result<Place>
    requires names != []
  {
    Walk(w, at, names[..|names| - 1])
  }

  /** Walking a path is looking up its last name in its parent. */
  lemma {:induction false} WalkIsParentThenStep(w: World, at: Place, names: seq<string>)
    requires names != []
    ensures Walk(w, at, names) == match Parent(w, at, names)
                                  case Err(code) => Err(code)
                                  case Ok(dir) => Step(w, dir, names[|names| - 1])
    decreases |names|
  {
    if |names| > 1 {
      var next := Step(w, at, names[0]);
      assert names[..|names| - 1][1..] == names[1..][..|names| - 2];
      if next.Ok? { WalkIsParentThenStep(w, next.value, names[1..]); }
    } else {
      assert names[..0] == [] && (Step(w, at, names[0]).Ok? ==> Walk(w, Step(w, at, names[0]).value, names[1..]).Ok?);
    }
  }

  /** `p` is the root of its mount, or nothing is mounted on it. */
  predicate Uncovered(w: World, p: Place)
  {
    p.ino == p.mnt.root || w.mounted(p.ino).None?
  }

  /**
    A walk never ends in a directory that a mount hides: it goes on from the root of the mount, and stays in its mount
    until it crosses into another.
   */
  lemma {:induction false} WalkUncovered(w: World, at: Place, names: seq<string>)
    requires Uncovered(w, at)
    ensures var r := Walk(w, at, names); r.Ok? ==> Uncovered(w, r.value)
    ensures var r := Walk(w, at, names);
            r.Ok? && (forall i: nat :: w.mounted(i).None?) ==> r.value.mnt == at.mnt
    decreases |names|
  {
    if names != [] {
      var next := Step(w, at, names[0]);
      if next.Ok? { WalkUncovered(w, next.value, names[1..]); }
    }
  }

  /** The error numbers of a step: a place without a lookup operation, a missing name, and a lookup that failed. */
  lemma StepFails(w: World, at: Place, name: string)
    ensures w.lookup(at.ino).None? ==> Step(w, at, name) == Err(-38)
    ensures w.lookup(at.ino).Some? && w.lookup(at.ino).value(name).NoChild? ==> Step(w, at, name) == Err(-2)
    ensures Step(w, at, name).Err? ==> -255 <= Step(w, at, name).code < 0
  {
  }

  /** The last 255 addresses are error numbers. */
  lemma LastAddresses(p: Pointer)
    ensures IsErr(p) <==> 0xFFFF_FF01 <= p
    ensures IsErr(p) ==> -255 <= PtrErr(p) <= -1
  {
  }

  /** A name whose inode is mounted on leads to the root of that mount, and into it. */
  lemma StepIntoMount(w: World, at: Place, name: string, r: Place)
    requires Step(w, at, name) == Ok(r) && r.mnt != at.mnt
    ensures r.ino == r.mnt.root && exists i: nat :: w.mounted(i) == Some(r.mnt)
  {
  }

  /** Walking composes. */
  lemma {:induction false} WalkSplit(w: World, at: Place, a: seq<string>, b: seq<string>)
    ensures Walk(w, at, a + b) == match Walk(w, at, a) case Err(code) => Err(code) case Ok(mid) => Walk(w, mid, b)
    decreases |a|
  {
    if a == [] {
      assert a + b == b;
    } else {
      assert (a + b)[1..] == a[1..] + b;
      var next := Step(w, at, a[0]);
      if next.Ok? { WalkSplit(w, next.value, a[1..], b); }
    }
  }

  /** A looked-up inode, and the mount on it. */
  datatype Found = Found(dentry: nat, mount: Option<Mount>)

  /** Where a walk goes on from there. */
  function Arrive(f: Found, mnt: Mount): Place
  {
    match f.mount
    case Some(m) => Place(m.root, m)
    case None => Place(f.dentry, mnt)
  }

  // ----- References

  function Refs(refs: map<nat, int>, i: nat): int
  {
    if i in refs then refs[i] else 0
  }

  /** `now` has one reference more than `was` on the inode in `more`, and the same on all others. */
  ghost predicate OneMore(was: map<nat, int>, now: map<nat, int>, more: Option<nat>)
  {
    forall i: nat {:trigger Refs(now, i)} :: Refs(now, i) == Refs(was, i) + if more == Some(i) then 1 else 0
  }

  class Vfs {
    const w: World
    const root: Option<Mount>
    var refs: map<nat, int>

    constructor (w: World, root: Option<Mount>)
      ensures this.w == w && this.root == root && refs == map[] && forall i: nat :: Refs(refs, i) == 0
    {
      this.w, this.root, refs := w, root, map[];
    }

    method Get(i: nat)
      modifies this
      ensures OneMore(old(refs), refs, Some(i))
    {
      refs := refs[i := Refs(refs, i) + 1];
    }

    method Release(i: nat, ghost was: map<nat, int>)
      requires OneMore(was, refs, Some(i))
      modifies this
      ensures OneMore(was, refs, None)
    {
      ghost var before := refs;
      refs := refs[i := Refs(refs, i) - 1];
      forall j: nat ensures Refs(refs, j) == Refs(was, j) {
        assert Refs(before, j) == Refs(was, j) + if Some(i) == Some(j) then 1 else 0;
      }
    }

    /** A file system's lookup operation: it answers with a pointer, and takes a reference on the inode it points to. */
    method Find(lookup: string -> Reply, name: string) returns (p: Pointer)
      modifies this
      ensures p == Packed(lookup(name))
      ensures OneMore(old(refs), refs, match lookup(name) case Child(c) => Some(c) case _ => None)
    {
      var a := lookup(name);
      if a.Child? {
        Get(a.ino);
      }
      return Packed(a);
    }

    /** The inode of a name and what is mounted on it, read off the pointer: with a reference, or an error with none. */
    method Lookup(at: Place, name: string) returns (r: Result<Found>)
      modifies this
      ensures Step(w, at, name) == if r.Ok? then Ok(Arrive(r.value, at.mnt)) else Err(r.code)
      ensures OneMore(old(refs), refs, if r.Ok? then Some(r.value.dentry) else None)
    {
      var lookup := w.lookup(at.ino);
      if lookup.None? {
        return Err(-ENOSYS);
      }
      var child := Find(lookup.value, name);
      if child == 0 || IsErr(child) {
        return Err(if child != 0 then PtrErr(child) else -ENOENT);
      }
      return Ok(Found(child, w.mounted(child)));
    }

    /** One round of a walk: the reference moves from the old place to the new one. */
    method Move(at: Place, name: string, ghost was: map<nat, int>) returns (r: Result<Place>)
      requires OneMore(was, refs, Some(at.ino))
      modifies this
      ensures r == Step(w, at, name)
      ensures OneMore(was, refs, if r.Ok? then Some(r.value.ino) else None)
    {
      ghost var before := refs;
      var next := Lookup(at, name);
      if next.Err? {
        Release(at.ino, was);
        return Err(next.code);
      }
      var child, m := next.value.dentry, next.value.mount;
      Swap(at.ino, child, was, before);
      if m.None? {
        return Ok(Place(child, at.mnt));
      }
      before := refs;
      Get(m.value.root);
      Swap(child, m.value.root, was, before);
      return Ok(Place(m.value.root, m.value));
    }

    /** Gives back the reference on `from` after one on `to` was taken. */
    method Swap(from: nat, to: nat, ghost was: map<nat, int>, ghost before: map<nat, int>)
      requires OneMore(was, before, Some(from)) && OneMore(before, refs, Some(to))
      modifies this
      ensures OneMore(was, refs, Some(to))
    {
      ghost var mid := refs;
      refs := refs[from := Refs(refs, from) - 1];
      forall i: nat ensures Refs(refs, i) == Refs(was, i) + if i == to then 1 else 0 {
        assert Refs(mid, i) == Refs(before, i) + (if Some(to) == Some(i) then 1 else 0);
        assert Refs(before, i) == Refs(was, i) + if Some(from) == Some(i) then 1 else 0;
      }
    }

    /** The result depends only on the names of the path; it holds one reference on success and none on failure. */
    method WalkPath(path: string) returns (r: Result<Place>)
      modifies this
      ensures root.None? ==> r == Err(-EINVAL)
      ensures root.Some? ==> r == Walk(w, Place(root.value.root, root.value), Names(path))
      ensures OneMore(old(refs), refs, if r.Ok? then Some(r.value.ino) else None)
    {
      if root.None? {
        return Err(-EINVAL);
      }
      var at := Place(root.value.root, root.value);
      ghost var start := at;
      Get(at.ino);
      var cursor := 0;
      assert path[0..] == path;
      while true
        invariant cursor <= |path| && OneMore(old(refs), refs, Some(at.ino))
        invariant Walk(w, at, Names(path[cursor..])) == Walk(w, start, Names(path))
        decreases |path| - cursor
      {
        var found, name, next := PathIterate(path, cursor);
        if !found {
          return Ok(at);
        }
        assert Names(path[cursor..])[1..] == Names(path[next..]);
        var step := Move(at, name, old(refs));
        if step.Err? {
          return Err(step.code);
        }
        at, cursor := step.value, next;
      }
    }

    /** The directory of the last name, with a reference, and that name. */
    method WalkParent(path: string) returns (r: Result<(nat, string)>)
      modifies this
      ensures root.None? || Names(path) == [] ==> r == Err(-EINVAL)
      ensures root.Some? && Names(path) != [] ==>
                r == match Parent(w, Place(root.value.root, root.value), Names(path))
                     case Err(code) => Err(code)
                     case Ok(dir) => Ok((dir.ino, Names(path)[|Names(path)| - 1]))
      ensures OneMore(old(refs), refs, if r.Ok? then Some(r.value.0) else None)
    {
      if root.None? {
        return Err(-EINVAL);
      }
      var at := Place(root.value.root, root.value);
      ghost var start, all := at, Names(path);
      Get(at.ino);
      var cursor := 0;
      assert path[0..] == path;
      while true
        invariant cursor <= |path| && OneMore(old(refs), refs, Some(at.ino))
        invariant var left := Names(path[cursor..]);
                  if all == [] then left == []
                  else left != [] && left[|left| - 1] == all[|all| - 1] && Parent(w, at, left) == Parent(w, start, all)
        decreases |path| - cursor
      {
        ghost var left := Names(path[cursor..]);
        var found, name, next := PathIterate(path, cursor);
        if !found {
          Release(at.ino, old(refs));
          return Err(-EINVAL);
        }
        assert left[1..] == Names(path[next..]);
        var more, _, _ := PathIterate(path, next);
        if !more {
          assert left == [name] && left[..0] == [];
          return Ok((at.ino, name));
        }
        assert left[..|left| - 1][1..] == left[1..][..|left| - 2];
        var step := Move(at, name, old(refs));
        if step.Err? {
          return Err(step.code);
        }
        at, cursor := step.value, next;
      }
    }
  }
}
