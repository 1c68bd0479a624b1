/**
  Reading and seeking a file of a FAT volume: a chain of clusters and a position, with the cluster that holds the
  position. A read gives the bytes of one flat string, and a seek goes wrong in exactly two places.
 */
module FatFile {
  import opened Common
  import opened Fat

  // ----- Clusters in a row

  /** Every cluster of the chain is on the disk. */
  ghost predicate OnDisk(data: map<nat, seq<Byte>>, chain: seq<nat>, cs: nat)
  {
    forall k :: 0 <= k < |chain| ==> chain[k] in data && |data[chain[k]]| == cs
  }

  /** Where cluster number `k` of a chain starts. */
  ghost function Start(cs: nat, k: nat): nat
  {
    if k == 0 then 0 else Start(cs, k - 1) + cs
  }

  lemma {:induction false} StartIs(cs: nat, k: nat)
    ensures Start(cs, k) == k * cs
  {
    if k > 0 {
      StartIs(cs, k - 1);
      assert k * cs == (k - 1) * cs + cs;
    }
  }

  lemma {:induction false} StartBelow(cs: nat, j: nat, k: nat)
    requires j <= k
    ensures Start(cs, j) <= Start(cs, k)
  {
    if j < k { StartBelow(cs, j, k - 1); }
  }

  /** The clusters of a chain, one behind the other. */
  ghost function Joined(data: map<nat, seq<Byte>>, chain: seq<nat>, cs: nat): (c: seq<Byte>)
    requires OnDisk(data, chain, cs)
    ensures |c| == Start(cs, |chain|)
  {
    if chain == [] then [] else Joined(data, chain[..|chain| - 1], cs) + data[chain[|chain| - 1]]
  }

  lemma {:induction false} JoinedAt(data: map<nat, seq<Byte>>, chain: seq<nat>, cs: nat, k: nat)
    requires OnDisk(data, chain, cs) && k < |chain|
    ensures Start(cs, k) + cs <= Start(cs, |chain|)
    ensures Joined(data, chain, cs)[Start(cs, k)..Start(cs, k) + cs] == data[chain[k]]
  {
    StartBelow(cs, k + 1, |chain|);
    var n, at := |chain| - 1, Start(cs, k);
    if k < n {
      JoinedAt(data, chain[..n], cs, k);
      assert Joined(data, chain, cs)[at..at + cs] == Joined(data, chain[..n], cs)[at..at + cs];
    }
  }

  lemma DivMod(x: nat, cs: nat, k: nat, o: nat)
    requires x == Start(cs, k) + o && o < cs
    ensures x / cs == k && x % cs == o
  {
    StartIs(cs, k);
    StartIs(cs, x / cs);
    StartIs(cs, k + 1);
    StartIs(cs, x / cs + 1);
    Quotient(x, cs);
    if x / cs < k { StartBelow(cs, x / cs + 1, k); } else if x / cs > k { StartBelow(cs, k + 1, x / cs); }
  }

  lemma Boundary(x: nat, cs: nat, k: nat, o: nat)
    requires x == Start(cs, k) + o && 0 < o <= cs
    ensures x % cs == 0 <==> o == cs
  {
    if o == cs { DivMod(x, cs, k + 1, 0); } else { DivMod(x, cs, k, o); }
  }

  lemma Joint(c: seq<Byte>, i: nat, j: nat, k: nat)
    requires i <= j <= k <= |c|
    ensures c[i..j] + c[j..k] == c[i..k]
  {
  }

  lemma SliceOfSlice(c: seq<Byte>, a: nat, b: nat, i: nat, j: nat)
    requires a <= b <= |c| && i <= j <= b - a
    ensures c[a..b][i..j] == c[a + i..a + j]
  {
    forall k | 0 <= k < j - i ensures c[a..b][i..j][k] == c[a + i..a + j][k] {}
  }

  lemma Quotient(x: nat, cs: nat)
    requires cs > 0
    ensures x == Start(cs, x / cs) + x % cs && x % cs < cs
  {
    StartIs(cs, x / cs);
  }

  /** A position inside the chain is in one of its clusters, and the end of the chain in none. */
  lemma InCluster(x: nat, cs: nat, n: nat)
    requires cs > 0 && x <= Start(cs, n)
    ensures x / cs < n <==> x < Start(cs, n)
    ensures x == Start(cs, n) ==> x / cs == n
  {
    if x == Start(cs, n) {
      DivMod(x, cs, n, 0);
    } else {
      Quotient(x, cs);
      var q := x / cs;
      if q >= n { StartBelow(cs, n, q); }
    }
  }

  /** The cluster that position `x` is in; behind the last one there is none, and the last one is kept. */
  function ClusterOf(chain: seq<nat>, cs: nat, x: nat): nat
    requires cs > 0 && chain != []
  {
    chain[if x / cs < |chain| then x / cs else |chain| - 1]
  }

  class File {
    const volume: Volume
    const memory: Memory
    const clusterSize: nat
    const first: nat
    const directory: bool
    /** The size in the directory entry, which reading goes by, and in the inode, which seeking goes by. */
    const size: nat
    const listed: nat
    /** The code that reports the end of the file. */
    const endOfFile: int
    const data: map<nat, seq<Byte>>
    ghost const chain: seq<nat>
    var pos: nat
    var current: nat

    /** What reading and seeking leave alone. */
    ghost predicate Sound()
      reads volume
    {
      && volume.Valid() && clusterSize > 0 && OnDisk(data, chain, clusterSize) && listed <= size < LIMIT
      && size <= End()
      && (chain != [] ==> IsChain(volume.Entries(), Eof(volume.table), chain) && chain[0] == first)
    }

    ghost predicate Valid()
      reads this, volume
    {
      Sound() && pos <= size && (chain != [] ==> current == ClusterOf(chain, clusterSize, pos))
    }

    /** A file as opened: at its start, in its first cluster. */
    constructor (volume: Volume, memory: Memory, clusterSize: nat, first: nat, directory: bool, size: nat, listed: nat,
            endOfFile: int, data: map<nat, seq<Byte>>, ghost chain: seq<nat>)
      requires volume.Valid() && clusterSize > 0 && OnDisk(data, chain, clusterSize)
      requires listed <= size < LIMIT && size <= Start(clusterSize, |chain|)
      requires chain != [] ==> IsChain(volume.Entries(), Eof(volume.table), chain) && chain[0] == first
      ensures Valid() && pos == 0 && this.volume == volume && this.memory == memory && this.data == data
              && this.chain == chain
      ensures this.clusterSize == clusterSize && this.size == size && this.listed == listed
              && this.endOfFile == endOfFile
      ensures this.first == first && this.directory == directory
    {
      this.volume, this.memory, this.clusterSize, this.first, this.directory := volume, memory, clusterSize, first,
          directory;
      this.size, this.listed, this.endOfFile, this.data, this.chain := size, listed, endOfFile, data, chain;
      pos, current := 0, first;
    }

    ghost function Bytes(): (c: seq<Byte>)
      requires OnDisk(data, chain, clusterSize) && size <= End()
      ensures |c| == size
    {
      Joined(data, chain, clusterSize)[..size]
    }

    /** Where the chain ends. */
    ghost function End(): nat
    {
      Start(clusterSize, |chain|)
    }

    /** A seek beyond the listed size fails, and so does one to the end of a chain that the file fills. */
    method Lseek(offset: int, whence: Whence) returns (r: int)
      requires Valid()
      modifies this`pos, this`current
      ensures Valid()
      ensures var target := Target(offset, whence, old(pos), listed) % LIMIT;
              if whence.OtherWhence? then r == -EINVAL && pos == old(pos)
              else if target > listed then r == -ERANGE && pos == old(pos)
              else if target > 0 && target == End() then r == endOfFile && pos == old(pos)
              else r == listed - target && pos == target
    {
      if whence.OtherWhence? {
        return -EINVAL;
      }
      var target := Target(offset, whence, pos, listed) % LIMIT;
      if target > listed {
        return -ERANGE;
      }
      InCluster(target, clusterSize, |chain|);
      var cluster := Follow(target / clusterSize);
      if cluster.None? {
        return endOfFile;
      }
      current, pos := cluster.value, target;
      r := listed - target;
    }

    /**
      The answer to a read: what is read, and the code; a file that fills its chain reports its end with its last bytes.
     */
    ghost predicate Reads(pos0: nat, count: nat, granted: bool, r: int, buf: seq<Byte>)
      requires Valid()
      reads this, volume
    {
      var c := FlatRead(Bytes(), pos0, count);
      if count == 0 then r == -EINVAL && buf == []
      else if directory then r == -EISDIR && buf == []
      else if c == [] then r == endOfFile && buf == []
      else if !granted then r == -ENOMEM && buf == []
      else buf == c && r == if pos0 + |c| == End() then endOfFile else |c|
    }

    method Read(count: nat) returns (r: int, buf: seq<Byte>)
      requires Valid()
      modifies this`pos, this`current, memory
      ensures Valid() && pos == old(pos) + |buf|
      ensures memory.asked == old(memory.asked) +
                if count > 0 && !directory && FlatRead(Bytes(), old(pos), count) != [] then 1 else 0
      ensures Reads(old(pos), count, Granted(memory.grants, old(memory.asked)), r, buf)
    {
      if count == 0 {
        return -EINVAL, [];
      }
      if directory {
        return -EISDIR, [];
      }
      var remaining := count;
      if remaining > size - pos {
        remaining := size - pos;
        if remaining == 0 {
          return endOfFile, [];
        }
      }
      var ok := memory.Request();
      if !ok {
        return -ENOMEM, [];
      }
      InCluster(pos, clusterSize, |chain|);
      r, buf := ReadClusters(remaining);
    }

    /** Position `x` is at offset `o` of cluster number `k`. */
    ghost predicate At(k: nat, o: nat, x: nat)
    {
      k < |chain| && o < clusterSize && x == Start(clusterSize, k) + o
    }

    lemma AtFacts(k: nat, o: nat, x: nat)
      requires At(k, o, x)
      ensures x / clusterSize == k && x % clusterSize == o && x < End()
    {
      StartBelow(clusterSize, k + 1, |chain|);
      DivMod(x, clusterSize, k, o);
    }

    /** Going on by `n` bytes: within the cluster, to the next one, or to the end of file and chain. */
    lemma AtNext(k: nat, o: nat, n: nat, x: nat)
      requires At(k, o, x) && 0 < n <= clusterSize - o && x + n <= size <= End()
      ensures (x + n) % clusterSize == 0 <==> o + n == clusterSize
      ensures if o + n < clusterSize then At(k, o + n, x + n)
              else if k + 1 < |chain| then At(k + 1, 0, x + n)
              else x + n == size == End() && (x + n) / clusterSize == |chain|
    {
      Boundary(x + n, clusterSize, k, o + n);
      if o + n == clusterSize && k + 1 == |chain| { InCluster(x + n, clusterSize, |chain|); }
    }

    /** The loop over clusters. */
    method ReadClusters(count: nat) returns (r: int, buf: seq<Byte>)
      requires Sound() && 0 < count && pos + count <= size && chain != []
               && current == ClusterOf(chain, clusterSize, pos)
      modifies this`pos, this`current
      ensures pos == old(pos) + count && current == ClusterOf(chain, clusterSize, pos)
      ensures buf == Bytes()[old(pos)..old(pos) + count]
      ensures r == if pos == End() then endOfFile else count
    {
      InCluster(pos, clusterSize, |chain|);
      Quotient(pos, clusterSize);
      ghost var k: nat, c := pos / clusterSize, Bytes();
      var o: nat := pos % clusterSize;
      var cursor, remaining: nat := pos, count;
      buf := [];
      while remaining > 0
        invariant |buf| + remaining == count && cursor == pos + |buf| && pos == old(pos)
        invariant At(k, o, cursor) && current == chain[k]
        invariant buf == c[pos..cursor]
      {
        var piece, next, ended;
        ghost var k1;
        piece, next, ended, k1 := ReadCluster(k, o, remaining, cursor);
        Joint(c, pos, cursor, cursor + |piece|);
        buf := buf + piece;
        if ended {
          pos := size;
          return endOfFile, buf;
        }
        cursor, remaining, k, o := cursor + |piece|, remaining - |piece|, k1, next;
      }
      AtFacts(k, o, cursor);
      pos := cursor;
      r := count;
    }

    method NextCluster(ghost k: nat) returns (next: Option<nat>)
      requires Sound() && k < |chain| && current == chain[k]
      ensures next.Some? <==> k + 1 < |chain|
      ensures next.Some? ==> next.value == chain[k + 1]
    {
      assert k < |chain| - 1 ==> LinkAt(volume.Entries(), chain, k);
      var v := volume.GetEntry(current);
      return if v >= Eof(volume.table) then None else Some(v);
    }

    /** The body of the loop: copies out what the current cluster holds of the file, and goes on behind it. */
    method ReadCluster(ghost k: nat, o: nat, remaining: nat, cursor: nat)
        returns (piece: seq<Byte>, next: nat, ended: bool, ghost k1: nat)
      requires Sound() && At(k, o, cursor) && current == chain[k] && 0 < remaining && cursor + remaining <= size
      modifies this`current
      ensures 0 < |piece| <= remaining && piece == Bytes()[cursor..cursor + |piece|]
      ensures ended ==> cursor + |piece| == size == End() && current == ClusterOf(chain, clusterSize, size)
      ensures !ended ==> At(k1, next, cursor + |piece|) && current == chain[k1]
    {
      var n: nat := if remaining < clusterSize - o then remaining else clusterSize - o;
      AtNext(k, o, n, cursor);
      TakePiece(k, o, n, cursor);
      piece := data[current][o..o + n];
      if (cursor + n) % clusterSize != 0 {
        return piece, o + n, false, k;
      }
      var cluster := NextCluster(k);
      if cluster.None? {
        return piece, 0, true, k;
      }
      current := cluster.value;
      return piece, 0, false, k + 1;
    }

    /** What is copied from one cluster are the bytes of the file at the position. */
    lemma TakePiece(k: nat, o: nat, n: nat, cursor: nat)
      requires OnDisk(data, chain, clusterSize) && size <= End() && At(k, o, cursor)
      requires o + n <= clusterSize && cursor + n <= size
      ensures data[chain[k]][o..o + n] == Bytes()[cursor..cursor + n]
    {
      var c := Joined(data, chain, clusterSize);
      JoinedAt(data, chain, clusterSize, k);
      var at := Start(clusterSize, k);
      SliceOfSlice(c, at, at + clusterSize, o, o + n);
      SliceOfSlice(c, 0, size, cursor, cursor + n);
      assert c[0..size] == Bytes();
    }

    /** The cluster `n` links behind the first. */
    method Follow(n: nat) returns (cluster: Option<nat>)
      requires Valid() && (chain == [] ==> n == 0)
      ensures cluster.Some? <==> chain == [] || n < |chain|
      ensures cluster.Some? && chain != [] ==> cluster.value == chain[n]
    {
      var at: nat := first;
      for i := 0 to n
        invariant chain != [] ==> i < |chain| && at == chain[i]
      {
        assert i < |chain| - 1 ==> LinkAt(volume.Entries(), chain, i);
        at := volume.GetEntry(at);
        if at >= Eof(volume.table) {
          return None;
        }
      }
      return Some(at);
    }
  }

  // ----- What seeking means, by what can be read afterwards

  /** After a seek by zero from the end of a file that ends inside a cluster there is nothing to read. */
  method ReadAtEnd(f: File, count: nat) returns (r: int, buf: seq<Byte>)
    requires f.Valid() && f.listed == f.size < f.End() && !f.directory && count > 0
    modifies f, f.memory
    ensures f.Valid() && f.pos == f.size && r == f.endOfFile && buf == []
  {
    SmallMod(f.listed);
    r := f.Lseek(0, SeekEnd);
    assert f.pos == f.size;
    assert FlatRead(f.Bytes(), f.size, count) == [];
    r, buf := f.Read(count);
  }

  lemma SmallMod(x: nat)
    ensures x < LIMIT ==> x % LIMIT == x
  {
  }

  lemma ReadTwice(c: seq<Byte>, pos: nat, count: nat)
    ensures var b := FlatRead(c, pos, count);
            FlatRead(c, pos, |b|) == b && (b != [] ==> count > 0 && pos + |b| <= |c|)
  {
  }

  /**
    What was just read can be read again after a seek back by its length from the current position, if it does not start
    beyond the listed size; else the seek fails and the next bytes are read.
   */
  method ReadAgain(f: File, count: nat) returns (first: seq<Byte>, again: seq<Byte>)
    requires f.Valid() && !f.directory
    modifies f, f.memory
    ensures f.Valid()
    ensures !f.memory.Denied(old(f.memory.asked)) ==>
              && first == FlatRead(f.Bytes(), old(f.pos), count)
              && (first != [] && old(f.pos) <= f.listed ==> again == first && f.pos == old(f.pos) + |first|)
              && (first != [] && old(f.pos) > f.listed ==> again == FlatRead(f.Bytes(), old(f.pos) + |first|, |first|))
  {
    var r;
    ghost var c, p := f.Bytes(), f.pos;
    ReadTwice(c, p, count);
    SmallMod(p);
    r, first := f.Read(count);
    assert !f.memory.Denied(old(f.memory.asked)) ==> first == FlatRead(c, p, count);
    r := f.Lseek(0 - |first|, SeekCur);
    assert f.pos == if p <= f.listed && !(p > 0 && p == f.End()) then p else p + |first|;
    r, again := f.Read(|first|);
  }
}
