/**
  What the parts of the kernel share: bytes, the page size, error numbers, and results that may be absent.
 */
module Common {

  const PAGE_SIZE := 4096

  /** Addresses and sizes are 32-bit. */
  const LIMIT := 0x1_0000_0000

  newtype Byte = x: int | 0 <= x < 256

  const ENOMEM := 12
  const EISDIR := 21
  const EINVAL := 22
  const ERANGE := 34

  datatype Option<T> = None | Some(value: T)

  // ----- Files

  /** What a read of `count` bytes at `pos` finds in file `c`. */
  function FlatRead(c: seq<Byte>, pos: nat, count: nat): seq<Byte>
  {
    if pos >= |c| then [] else if pos + count <= |c| then c[pos..pos + count] else c[pos..]
  }

  datatype Whence = SeekSet | SeekCur | SeekEnd | OtherWhence

  function Target(offset: int, whence: Whence, pos: nat, size: nat): int
  {
    match whence
    case SeekSet => offset
    case SeekCur => pos + offset
    case SeekEnd => size + offset
    case OtherWhence => -1
  }

  // ----- Requests for memory

  /** The answer to request number `n`; requests beyond the list are granted. */
  predicate Granted(grants: seq<bool>, n: nat)
  {
    n < |grants| ==> grants[n]
  }

  predicate AllGranted(grants: seq<bool>, from: nat, to: nat)
  {
    forall n :: from <= n < to ==> Granted(grants, n)
  }

  /** The requests from `from` up to `to` end with the first that was refused. */
  predicate Stopped(grants: seq<bool>, from: nat, to: nat)
  {
    from < to && AllGranted(grants, from, to - 1) && !Granted(grants, to - 1)
  }

  /** Where memory comes from: `grants` says which requests succeed. */
  class Memory {
    const grants: seq<bool>
    var asked: nat

    constructor (grants: seq<bool>)
      ensures this.grants == grants && asked == 0
    {
      this.grants := grants;
      asked := 0;
    }

    /** Some request since number `from` was refused. */
    predicate Denied(from: nat)
      reads this
    {
      !AllGranted(grants, from, asked)
    }

    method Request() returns (ok: bool)
      modifies this
      ensures ok == Granted(grants, old(asked)) && asked == old(asked) + 1
    {
      ok := Granted(grants, asked);
      asked := asked + 1;
    }
  }
}
