/** The receive ring of the TCP connection: a circular buffer of 65536 bytes that stands for a queue. */
module TcpRing {
  import opened ByteStrings
  import opened TcpSpec

  class Ring {
    var head: int
    var tail: int
    var count: int
    const buf: array<byte>
    ghost var queue: seq<byte>

    /** `queue` is what lies from head on, wrapping at the end, and tail is where the next byte goes. */
    ghost predicate Valid()
      reads this, buf
    {
      && buf.Length == RECV_CAP && 0 <= count <= RECV_CAP && 0 <= head < RECV_CAP && tail == At(head, count)
      && |queue| == count && forall k :: 0 <= k < count ==> queue[k] == buf[At(head, k)]
    }

    constructor ()
      ensures Valid() && queue == [] && fresh(buf)
    {
      head, tail, count := 0, 0, 0;
      buf := new byte[RECV_CAP];
      queue := [];
    }

    /** The ring's part of clks_net_tcp_reset. */
    method Clear()
      requires buf.Length == RECV_CAP
      modifies this
      ensures Valid() && queue == []
    {
      head, tail, count := 0, 0, 0;
      queue := [];
    }

    /** clks_net_tcp_recv_push */
    method Push(payload: seq<byte>)
      requires Valid()
      modifies this, buf
      ensures Valid() && queue == TcpSpec.Push(old(queue), payload)
    {
      assert payload[..0] == [];
      for i := 0 to |payload|
        invariant Valid() && queue == TcpSpec.Push(old(queue), payload[..i])
      {
        if count >= RECV_CAP {
          DropOldest();
        }
        Append(payload[i]);
        assert payload[..i + 1][..i] == payload[..i];
      }
      assert payload[..|payload|] == payload;
    }

    /** Gives up the oldest byte. */
    method DropOldest()
      requires Valid() && count > 0
      modifies this
      ensures Valid() && queue == old(queue)[1..]
    {
      head := (head + 1) % RECV_CAP;
      count := count - 1;
      queue := queue[1..];
    }

    method Append(b: byte)
      requires Valid() && count < RECV_CAP
      modifies this, buf
      ensures Valid() && queue == old(queue) + [b]
    {
      DistinctPlaces(head, count);
      buf[tail] := b;
      tail := (tail + 1) % RECV_CAP;
      count := count + 1;
      queue := queue + [b];
    }

    /** clks_net_tcp_recv_pop */
    method Pop(capacity: nat) returns (out: seq<byte>)
      requires Valid()
      modifies this
      ensures Valid() && out == Popped(old(queue), capacity) && queue == old(queue)[|out|..]
    {
      hide At;
      out := [];
      while |out| < capacity && count > 0
        invariant Valid() && old(queue) == out + queue && |out| <= capacity
        decreases count
      {
        FirstPlace(head);
        out := out + [buf[head]];
        DropOldest();
      }
    }
  }

  /** The place of the k-th byte of a ring that starts at `head`. */
  function At(head: int, k: int): int { (head + k) % RECV_CAP }

  lemma FirstPlace(head: int)
    requires 0 <= head < RECV_CAP
    ensures At(head, 0) == head
  {
  }

  lemma DistinctPlaces(head: int, count: int)
    requires 0 <= head < RECV_CAP && 0 <= count < RECV_CAP
    ensures forall k :: 0 <= k < count ==> At(head, k) != At(head, count)
  {
  }
}
