/**
  The terminal line discipline: received bytes go into a ring of 512 bytes that backspace and control keys
  edit, and reads take whole lines out of it. The ring is proved to hold an editable bounded sequence.
 */
module Tty {
  import opened Common

  const SIZE := 512

  const BACKSPACE: Byte := 8
  const NEWLINE: Byte := 10
  const RETURN: Byte := 13

  predicate EndsLine(ch: Byte)
  {
    ch == NEWLINE || ch == RETURN
  }

  /** Control keys other than backspace and the line ends; tab is one of them. */
  predicate Control(ch: Byte)
  {
    0x01 <= ch <= 0x1A && ch != BACKSPACE && !EndsLine(ch)
  }

  // ----- The sequence

  /** What one received byte does to the pending input. */
  function Receive(q: seq<Byte>, ch: Byte): seq<Byte>
  {
    if ch == BACKSPACE then if |q| > 0 then q[..|q| - 1] else q
    else if Control(ch) then []
    else if |q| < SIZE then q + [ch] else q
  }

  /** What it sends back to the screen. */
  function Echo(q: seq<Byte>, ch: Byte): seq<Byte>
  {
    if ch == BACKSPACE then if |q| > 0 then [8, 0x20, 8] else []
    else if Control(ch) then [0x5E, 0x41 + (ch - 1), NEWLINE]
    else if |q| < SIZE then [ch] else []
  }

  function ReceiveAll(q: seq<Byte>, data: seq<Byte>): seq<Byte>
  {
    if data == [] then q else Receive(ReceiveAll(q, data[..|data| - 1]), data[|data| - 1])
  }

  function EchoAll(q: seq<Byte>, data: seq<Byte>): seq<Byte>
  {
    if data == [] then []
    else EchoAll(q, data[..|data| - 1]) + Echo(ReceiveAll(q, data[..|data| - 1]), data[|data| - 1])
  }

  lemma ReceiveStep(q: seq<Byte>, data: seq<Byte>, i: nat)
    requires i < |data|
    ensures ReceiveAll(q, data[..i + 1]) == Receive(ReceiveAll(q, data[..i]), data[i])
    ensures EchoAll(q, data[..i + 1]) == EchoAll(q, data[..i]) + Echo(ReceiveAll(q, data[..i]), data[i])
  {
    assert data[..i + 1][..i] == data[..i];
  }

  /** Input arriving in two parts is input arriving at once. */
  lemma {:induction false} ReceiveSplit(q: seq<Byte>, a: seq<Byte>, b: seq<Byte>)
    ensures ReceiveAll(q, a + b) == ReceiveAll(ReceiveAll(q, a), b)
    decreases |b|
  {
    if b == [] {
      assert a + b == a;
    } else {
      ReceiveSplit(q, a, b[..|b| - 1]);
      assert (a + b)[..|a + b| - 1] == a + b[..|b| - 1];
    }
  }

  // ----- What the keys do

  predicate Printable(ch: Byte)
  {
    ch as int >= ' ' as int
  }

  /** The line ends are carriage return and line feed. */
  lemma LineEnds(ch: Byte)
    ensures EndsLine(ch) <==> ch as int == '\n' as int || ch as int == '\r' as int
  {
  }

  /** A control key with any letter but H, J and M drops the pending input and shows as that letter behind a caret. */
  lemma ControlKey(q: seq<Byte>, ch: Byte, letter: char)
    requires 'A' <= letter <= 'Z' && letter != 'H' && letter != 'J' && letter != 'M' && ch as int == letter as int - 64
    ensures Receive(q, ch) == [] && |Echo(q, ch)| == 3
    ensures Echo(q, ch)[0] as int == '^' as int && Echo(q, ch)[1] as int == letter as int
            && Echo(q, ch)[2] as int == '\n' as int
  {
  }

  /** Printable text is appended as far as there is room. */
  lemma {:induction false} Typed(q: seq<Byte>, text: seq<Byte>)
    requires |q| <= SIZE && forall i :: 0 <= i < |text| ==> Printable(text[i])
    ensures ReceiveAll(q, text) == if |q| + |text| <= SIZE then q + text else (q + text)[..SIZE]
    decreases |text|
  {
    if text == [] {
      assert q + text == q;
    } else {
      var n := |text| - 1;
      Typed(q, text[..n]);
      assert text == text[..n] + [text[n]];
      assert q + text == q + text[..n] + [text[n]];
    }
  }

  function Backspaces(n: nat): (data: seq<Byte>)
    ensures |data| == n
  {
    seq(n, _ => 8)
  }

  /** `n` backspaces take the last `n` bytes away. */
  lemma {:induction false} Erased(q: seq<Byte>, n: nat)
    ensures ReceiveAll(q, Backspaces(n)) == if n <= |q| then q[..|q| - n] else []
  {
    if n > 0 {
      Erased(q, n - 1);
      assert Backspaces(n)[..n - 1] == Backspaces(n - 1);
    }
  }

  /**
    Text that is typed and then erased with as many backspaces leaves the pending input as it was if and only if there
    was room for it or there was none; what did not fit is taken from the input that was there.
   */
  lemma TypedAndErased(q: seq<Byte>, text: seq<Byte>)
    requires |q| <= SIZE && text != [] && forall i :: 0 <= i < |text| ==> Printable(text[i])
    ensures ReceiveAll(q, text + Backspaces(|text|)) == q <==> |q| + |text| <= SIZE || q == []
  {
    Typed(q, text);
    ReceiveSplit(q, text, Backspaces(|text|));
    Erased(ReceiveAll(q, text), |text|);
    Remains(q, text, ReceiveAll(q, text));
  }

  lemma Remains(q: seq<Byte>, text: seq<Byte>, typed: seq<Byte>)
    requires |q| <= SIZE && text != [] && typed == if |q| + |text| <= SIZE then q + text else (q + text)[..SIZE]
    ensures (if |text| <= |typed| then typed[..|typed| - |text|] else []) == q <==> |q| + |text| <= SIZE || q == []
  {
    assert (q + text)[..|q|] == q;
  }

  /** A read of at most `n` bytes takes the first `k`: up to a line end, the limit, or the last byte. */
  predicate Line(q: seq<Byte>, n: nat, k: nat)
  {
    && 0 < k <= |q| && k <= n && (forall i :: 0 <= i < k - 1 ==> !EndsLine(q[i]))
    && (k == n || k == |q| || EndsLine(q[k - 1]))
  }

  /** There is exactly one such prefix. */
  lemma LineUnique(q: seq<Byte>, n: nat, k: nat, k': nat)
    requires Line(q, n, k) && Line(q, n, k')
    ensures k == k'
  {
  }

  // ----- The ring

  function Slot(tail: nat, i: nat): (s: nat)
    ensures s < SIZE
  {
    (tail + i) % SIZE
  }

  lemma SlotsDiffer(tail: nat, i: nat, j: nat)
    requires i < j < i + SIZE
    ensures Slot(tail, i) != Slot(tail, j)
  {
  }

  lemma SlotNext(tail: nat, i: nat)
    requires tail < SIZE
    ensures (Slot(tail, i) + 1) % SIZE == Slot(tail, i + 1) && Slot((tail + 1) % SIZE, i) == Slot(tail, i + 1)
    ensures (Slot(tail, i + 1) + SIZE - 1) % SIZE == Slot(tail, i)
  {
    RingStep(tail + i);
    if tail + 1 == SIZE { Wrap(i); }
  }

  lemma RingStep(x: nat)
    ensures (x % SIZE + 1) % SIZE == (x + 1) % SIZE && ((x + 1) % SIZE + SIZE - 1) % SIZE == x % SIZE
  {
    var q, r := x / SIZE, x % SIZE;
    assert x == q * SIZE + r;
    if r + 1 == SIZE {
      assert x + 1 == (q + 1) * SIZE;
      assert (x + 1) % SIZE == 0;
    } else {
      assert x + 1 == q * SIZE + (r + 1);
      assert (x + 1) % SIZE == r + 1;
    }
  }

  lemma Wrap(i: nat)
    ensures (SIZE + i) % SIZE == i % SIZE
  {
  }

  /** The ring holds `q`: byte `i` stands `i` places behind the tail. */
  ghost predicate Holds(ring: seq<Byte>, tail: nat, q: seq<Byte>)
  {
    |ring| == SIZE && |q| <= SIZE && forall i {:trigger Slot(tail, i)} :: 0 <= i < |q| ==> ring[Slot(tail, i)] == q[i]
  }

  lemma HoldsAppend(ring: seq<Byte>, tail: nat, q: seq<Byte>, ch: Byte)
    requires Holds(ring, tail, q) && |q| < SIZE
    ensures Holds(ring[Slot(tail, |q|) := ch], tail, q + [ch])
  {
    forall i | 0 <= i < |q| ensures ring[Slot(tail, |q|) := ch][Slot(tail, i)] == q[i] { SlotsDiffer(tail, i, |q|); }
  }

  lemma HoldsErase(ring: seq<Byte>, tail: nat, q: seq<Byte>, ch: Byte)
    requires Holds(ring, tail, q) && |q| > 0
    ensures Holds(ring[Slot(tail, |q| - 1) := ch], tail, q[..|q| - 1])
  {
    var n := |q| - 1;
    forall i | 0 <= i < n ensures ring[Slot(tail, n) := ch][Slot(tail, i)] == q[i] { SlotsDiffer(tail, i, n); }
  }

  lemma HoldsTake(ring: seq<Byte>, tail: nat, q: seq<Byte>)
    requires Holds(ring, tail, q) && |q| > 0 && tail < SIZE
    ensures ring[tail] == q[0] && Holds(ring, (tail + 1) % SIZE, q[1..])
  {
    assert Slot(tail, 0) == tail;
    var next, rest := (tail + 1) % SIZE, q[1..];
    forall i | 0 <= i < |rest| ensures ring[Slot(next, i)] == rest[i] { SlotNext(tail, i); }
  }

  /** One of the first `n` bytes ends a line. */
  ghost predicate HasLineEnd(data: seq<Byte>, n: nat)
    requires n <= |data|
  {
    exists i :: 0 <= i < n && EndsLine(data[i])
  }

  lemma LineEndStep(data: seq<Byte>, n: nat)
    requires n < |data|
    ensures HasLineEnd(data, n + 1) <==> HasLineEnd(data, n) || EndsLine(data[n])
  {
    if i :| 0 <= i < n && EndsLine(data[i]) { assert 0 <= i < n + 1; }
  }

  class Ldisc {
    var head: nat
    var tail: nat
    var count: nat
    const buffer: array<Byte>
    /** The pending input. */
    ghost var queue: seq<Byte>

    ghost predicate Valid()
      reads this, buffer
    {
      && buffer.Length == SIZE && tail < SIZE && count == |queue| && head == Slot(tail, count)
      && Holds(buffer[..], tail, queue)
    }

    constructor ()
      ensures Valid() && queue == [] && fresh(buffer) && buffer.Length == 512
    {
      head, tail, count, queue := 0, 0, 0, [];
      buffer := new Byte[SIZE](_ => 0);
    }

    method ReceiveByte(ch: Byte) returns (echo: seq<Byte>)
      requires Valid()
      modifies this, buffer
      ensures Valid() && queue == Receive(old(queue), ch) && echo == Echo(old(queue), ch)
    {
      if ch == BACKSPACE {
        if count > 0 {
          SlotNext(tail, count - 1);
          HoldsErase(buffer[..], tail, queue, 0);
          ghost var ring := buffer[..];
          head := (head + SIZE - 1) % SIZE;
          count := count - 1;
          buffer[head] := 0;
          assert buffer[..] == ring[head := 0];
          queue := queue[..|queue| - 1];
          return [8, 0x20, 8];
        }
        return [];
      }
      if !EndsLine(ch) && 0x01 <= ch <= 0x1A {
        head, tail, count, queue := 0, 0, 0, [];
        return [0x5E, 0x41 + (ch - 1), NEWLINE];
      }
      if count < SIZE {
        SlotNext(tail, count);
        HoldsAppend(buffer[..], tail, queue, ch);
        ghost var ring := buffer[..];
        buffer[head] := ch;
        assert buffer[..] == ring[head := ch];
        head := (head + 1) % SIZE;
        count := count + 1;
        queue := queue + [ch];
        return [ch];
      }
      return [];
    }

    /** Readers are woken when a line ends. */
    method ReceiveBuf(data: seq<Byte>) returns (echo: seq<Byte>, wake: bool)
      requires Valid()
      modifies this, buffer
      ensures Valid() && queue == ReceiveAll(old(queue), data) && echo == EchoAll(old(queue), data)
      ensures wake <==> exists i :: 0 <= i < |data| && EndsLine(data[i])
    {
      echo, wake := [], false;
      for i := 0 to |data|
        invariant Valid() && queue == ReceiveAll(old(queue), data[..i]) && echo == EchoAll(old(queue), data[..i])
        invariant wake <==> HasLineEnd(data, i)
      {
        LineEndStep(data, i);
        ReceiveStep(old(queue), data, i);
        var e := ReceiveByte(data[i]);
        echo := echo + e;
        wake := wake || EndsLine(data[i]);
      }
      assert data[..|data|] == data;
    }

    /** A read of at most `len` bytes when there is input; with none the reader sleeps. */
    method Read(len: nat) returns (r: Option<seq<Byte>>)
      requires Valid()
      modifies this
      ensures Valid() && (r.None? <==> len > 0 && old(queue) == [])
      ensures r.None? ==> queue == old(queue)
      ensures r.Some? ==>
                r.value + queue == old(queue) && if len == 0 then r.value == [] else Line(old(queue), len, |r.value|)
    {
      if len == 0 {
        return Some([]);
      }
      if count == 0 {
        return None;
      }
      var out := TakeLine(len);
      return Some(out);
    }

    /** Takes bytes up to a line end, the limit or the last byte. */
    method TakeLine(len: nat) returns (out: seq<Byte>)
      requires Valid() && len > 0 && queue != []
      modifies this
      ensures Valid() && out + queue == old(queue) && Line(old(queue), len, |out|)
    {
      out := [];
      var left := len;
      while count > 0 && left > 0
        invariant Valid() && out + queue == old(queue) && |out| + left == len
        invariant forall i :: 0 <= i < |out| ==> !EndsLine(out[i])
        decreases count
      {
        HoldsTake(buffer[..], tail, queue);
        SlotNext(tail, count - 1);
        var ch := buffer[tail];
        tail := (tail + 1) % SIZE;
        count := count - 1;
        assert out + queue == out + [ch] + queue[1..];
        queue := queue[1..];
        out := out + [ch];
        left := left - 1;
        if EndsLine(ch) {
          break;
        }
      }
    }
  }
}
