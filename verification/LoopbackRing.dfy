/** net_loopback.c: a ring of 16 packet slots, one of them always unused. */
module LoopbackRing {
  import opened Bytes
  import opened TcpModel

  const SLOTS: nat := 16

  function Slot(head: nat, i: nat): nat {
    if head + i < SLOTS then head + i else head + i - SLOTS
  }

  class Loopback {
    const buf: array2<Byte>
    const len: array<nat>
    var head: nat
    var tail: nat
    ghost var queue: seq<Packet>

    /** The packets between head and tail, oldest first. */
    ghost predicate Valid()
      reads this, buf, len
    {
      && buf.Length0 == SLOTS && buf.Length1 == MTU && len.Length == SLOTS
      && head < SLOTS && tail < SLOTS && |queue| < SLOTS && tail == Slot(head, |queue|)
      && (forall i :: 0 <= i < |queue| ==> 0 < |queue[i]| <= MTU && len[Slot(head, i)] == |queue[i]|)
      && (forall i, j :: 0 <= i < |queue| && 0 <= j < |queue[i]| ==> buf[Slot(head, i), j] == queue[i][j])
    }

    constructor ()
      ensures Valid() && queue == [] && fresh(buf) && fresh(len)
    {
      buf := new Byte[SLOTS, MTU];
      len := new nat[SLOTS](_ => 0);
      head, tail, queue := 0, 0, [];
    }

    method Xmit(ip: seq<Byte>)
      requires Valid()
      modifies this, buf, len
      ensures Valid() && queue == TcpModel.Xmit(old(queue), ip)
    {
      if |ip| <= 0 || |ip| > MTU {
        return;
      }
      var next := (tail + 1) % SLOTS;
      if next == head {
        return;
      }
      for i := 0 to |ip|
        modifies buf
        invariant forall j :: 0 <= j < i ==> buf[tail, j] == ip[j]
        invariant forall k, j :: 0 <= k < SLOTS && 0 <= j < MTU && k != tail ==> buf[k, j] == old(buf[k, j])
      {
        buf[tail, i] := ip[i];
      }
      len[tail] := |ip|;
      assert forall i :: 0 <= i < |queue| ==> Slot(head, i) != tail;
      queue := queue + [ip];
      tail := next;
    }

    /** Copies the oldest packet out, cut to max bytes, and releases its slot; 0 when empty. */
    method Fetch(out: array<Byte>, max: nat) returns (n: nat)
      requires Valid() && max <= out.Length && out as object != len
      modifies this, out
      ensures Valid()
      ensures n <= max
      ensures old(queue) == [] ==> n == 0 && queue == []
      ensures old(queue) != [] ==>
                && n == (if |old(queue)[0]| > max then max else |old(queue)[0]|)
                && out[..n] == old(queue)[0][..n] && queue == old(queue)[1..]
    {
      if head == tail {
        return 0;
      }
      n := len[head];
      if n > max {
        n := max;
      }
      for i := 0 to n
        modifies out
        invariant forall j :: 0 <= j < i ==> out[j] == queue[0][j]
      {
        assert Slot(head, 0) == head;
        out[i] := buf[head, i];
      }
      var next := (head + 1) % SLOTS;
      assert forall i {:trigger Slot(next, i)} :: 0 <= i < |queue| - 1 ==> Slot(next, i) == Slot(head, i + 1);
      head := next;
      queue := queue[1..];
    }

    method Clear()
      requires Valid()
      modifies this
      ensures Valid() && queue == []
    {
      head, tail, queue := 0, 0, [];
    }
  }
}
