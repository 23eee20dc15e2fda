/**
  The receive ring between the UART interrupt and the protocol thread: a bounded FIFO that drops the newest
  octet when it is full.
 */
module RxRing {
  import opened Bytes

  const CAPACITY := 4096

  class Ring {
    var buf: array<Byte>
    var head: nat
    var tail: nat
    var count: nat

    ghost predicate Valid()
      reads this
    {
      && buf.Length == CAPACITY
      && head < CAPACITY && tail < CAPACITY && count <= CAPACITY
      && head == (tail + count) % CAPACITY
    }

    function Slot(i: nat): nat
      reads this
    {
      if tail + i < CAPACITY then tail + i else tail + i - CAPACITY
    }

    /** The octets still to be read, oldest first. */
    ghost function Contents(): (s: seq<Byte>)
      reads this, buf
      requires Valid()
      ensures |s| == count
      ensures forall i :: 0 <= i < count ==> s[i] == buf[Slot(i)]
    {
      seq(count, i requires 0 <= i < count && Valid() reads this, buf => buf[Slot(i)])
    }

    constructor ()
      ensures Valid() && fresh(buf)
      ensures Contents() == []
    {
      buf := new Byte[CAPACITY](_ => 0);
      head, tail, count := 0, 0, 0;
    }

    method Push(b: Byte) returns (ok: bool)
      requires Valid()
      modifies this, buf
      ensures Valid() && buf == old(buf)
      ensures ok == (|old(Contents())| < CAPACITY)
      ensures Contents() == if ok then old(Contents()) + [b] else old(Contents())
    {
      if count >= CAPACITY {
        return false;
      }
      assert head == Slot(count);
      buf[head] := b;
      head := (head + 1) % CAPACITY;
      count := count + 1;
      ok := true;
    }

    method Pop() returns (ok: bool, b: Byte)
      requires Valid()
      modifies this
      ensures Valid() && buf == old(buf)
      ensures ok == (old(Contents()) != [])
      ensures ok ==> [b] + Contents() == old(Contents())
      ensures !ok ==> Contents() == []
    {
      if count == 0 {
        return false, 0;
      }
      b := buf[tail];
      tail := (tail + 1) % CAPACITY;
      count := count - 1;
      ok := true;
    }
  }
}
