/** The TCP engine of clks_net: one connection, its receive ring, and the polling loops around them. */
module TcpEngine {
  import opened ByteStrings
  import opened TcpSpec
  import opened TcpRuns
  import opened TcpRing

  /**
   A segment handed to the device, with the window it advertises, the numbers snd_nxt and rcv_nxt at that moment, and
   whether the device took it.
   */
  datatype Sent = Sent(seqNo: u32, ackNo: u32, window: nat, syn: bool, fin: bool, payload: seq<byte>,
                       nxt: u32, rcv: u32, taken: bool)

  /** The numbers a segment takes up: its bytes, and one for a SYN or a FIN. */
  function Numbers(syn: bool, fin: bool, payload: seq<byte>): nat { |payload| + if syn || fin then 1 else 0 }

  /** Every segment ends with the last number claimed, and acknowledges exactly what was taken in. */
  ghost predicate Orderly(wire: seq<Sent>) {
    forall k :: 0 <= k < |wire| ==>
      var s := wire[k]; Add32(s.seqNo, Numbers(s.syn, s.fin, s.payload)) == s.nxt && s.ackNo == s.rcv
  }

  const DESC_COUNT := 128
  const RETRY_COUNT := 4
  const DEFAULT_POLL_LOOPS := 300000
  const MIN_POLL_LOOPS := 5000000
  const FRESH := World(RESET_CONN, [], [], 0)

  /** Segments were added to the wire, none of which carries data or a FIN. */
  ghost predicate Grew(wire: seq<Sent>, wire': seq<Sent>) {
    wire <= wire' && OnlySignals(wire', |wire|)
  }

  /** What this side answers to a segment that takes it from `c` to `c'`. */
  predicate Answers(c: Conn, s: Segment, c': Conn) {
    c.active &&
      if c.state == Listen then c'.state == SynReceived
      else if c.state == SynSent then c'.state == Established
      else Processes(c, s) && (s.payload != [] || s.fin) && c'.active
  }

  /** The answer, if one is due, is the only segment handed out: it acknowledges all that was taken in. */
  ghost predicate Answered(c: Conn, s: Segment, c': Conn, wire: seq<Sent>, wire': seq<Sent>) {
    if Answers(c, s, c')
    then |wire'| == |wire| + 1 && wire' == wire + [Reply(c', c.state == Listen, wire'[|wire|].taken)]
    else wire' == wire
  }

  function Reply(c: Conn, syn: bool, taken: bool): Sent {
    Sent(if syn then c.iss else c.nxt, c.rcv, Window(c), syn, false, [], c.nxt, c.rcv, taken)
  }

  /** The segments from place `from` on carry no data and no FIN. */
  ghost predicate OnlySignals(wire: seq<Sent>, from: nat) {
    forall k :: from <= k < |wire| ==> wire[k].payload == [] && !wire[k].fin
  }

  /** The segment carries bytes of `data`, at the sequence numbers they have when its first byte has number `base`. */
  ghost predicate CarriesFrom(sent: Sent, base: u32, data: seq<byte>) {
    exists o: nat :: o + |sent.payload| <= |data| && sent.payload == data[o..o + |sent.payload|]
      && sent.seqNo == Add32(base, o)
  }

  /** Segments were added to the wire, and those with data all carry `data` at `seqNo`. */
  ghost predicate OnlyPiece(wire: seq<Sent>, wire': seq<Sent>, data: seq<byte>, seqNo: u32) {
    && wire <= wire'
    && forall k :: |wire| <= k < |wire'| && wire'[k].payload != [] ==>
         wire'[k].payload == data && wire'[k].seqNo == seqNo
  }

  ghost predicate OnlyData(wire: seq<Sent>, from: nat, base: u32, data: seq<byte>) {
    forall k :: from <= k < |wire| && wire[k].payload != [] ==> CarriesFrom(wire[k], base, data)
  }

  /** What a segment is sent for: opening, closing at a number, or bytes at a number. */
  datatype Kind = Syn | Fin(seqNo: u32) | Data(seqNo: u32, bytes: seq<byte>)

  predicate OfKind(s: Sent, kind: Kind) {
    match kind
    case Syn => s.syn
    case Fin(n) => !s.syn && s.fin && s.seqNo == n && s.payload == []
    case Data(n, bytes) => !s.syn && !s.fin && s.seqNo == n && s.payload == bytes
  }

  /** How often such a segment was handed to the device. */
  function Tries(wire: seq<Sent>, kind: Kind): nat {
    if wire == [] then 0 else Tries(wire[..|wire| - 1], kind) + if OfKind(wire[|wire| - 1], kind) then 1 else 0
  }

  lemma TriedOnce(wire: seq<Sent>, s: Sent, kind: Kind)
    requires OfKind(s, kind)
    ensures Tries(wire + [s], kind) == Tries(wire, kind) + 1
  {
    assert (wire + [s])[..|wire|] == wire;
  }

  lemma {:induction false} TriesGrow(wire: seq<Sent>, wire': seq<Sent>, kind: Kind)
    requires wire <= wire'
    ensures Tries(wire, kind) <= Tries(wire', kind)
    decreases |wire'|
  {
    if |wire| < |wire'| {
      TriesGrow(wire, wire'[..|wire'| - 1], kind);
    } else {
      assert wire == wire';
    }
  }

  /** A segment was tried, and if that has not brought about what the caller waits for, four times. */
  ghost predicate Tried(wire: seq<Sent>, wire': seq<Sent>, kind: Kind, done: bool) {
    Tries(wire', kind) >= Tries(wire, kind) + if done then 1 else 4
  }

  /** The last `n` segments were refused by the device. */
  ghost predicate LastRefused(wire: seq<Sent>, n: nat) {
    n <= |wire| && forall k :: |wire| - n <= k < |wire| ==> !wire[k].taken
  }

  /** What was sent up to `seqEnd` is not acknowledged, or none of the tries got past the device. */
  ghost predicate GivenUp(c: Conn, wire: seq<Sent>, seqEnd: u32) { !SeqGe(c.una, seqEnd) || LastRefused(wire, 4) }

  /** Every sequence number still in flight lies behind the first `n` after `base`. */
  predicate Covered(c: Conn, base: u32, n: nat) { InFlight(c) <= Sub32(c.nxt, Add32(base, n)) }

  /** The first `n` bytes after the number `was` had next are acknowledged, and a segment of the peer says so. */
  ghost predicate Confirmed(was: World, end: World, es: seq<Event>, n: nat) {
    Covered(end.c, was.c.nxt, n) && Acknowledged(was, es, Add32(was.c.nxt, n))
  }

  /** How often connect and accept poll: as asked, but at least five million times, and 300000 times if not asked. */
  function PollsFor(asked: nat): (n: nat)
    ensures asked >= 5000000 ==> n == asked
    ensures n > 0
  {
    if asked == 0 then DEFAULT_POLL_LOOPS else if asked < MIN_POLL_LOOPS then MIN_POLL_LOOPS else asked
  }

  class Tcp {
    var active: bool
    var peerFin: bool
    var resetSeen: bool
    var state: State
    var remoteIp: u32
    var remoteAlt: u32
    var remotePort: nat
    var localPort: nat
    var iss: u32
    var una: u32
    var nxt: u32
    var rcv: u32
    var stale: bool
    const ring: Ring

    ghost var w: World
    ghost var wire: seq<Sent>
    /** How often the network was polled. */
    ghost var polls: nat

    /** The connection as a value. */
    ghost function View(): Conn
      reads this, ring
    {
      Conn(active, peerFin, resetSeen, state, remoteIp, remoteAlt, remotePort, localPort, iss, una, nxt, rcv, stale,
        ring.queue)
    }

    ghost predicate Valid()
      reads this, ring, ring.buf
    {
      ring.Valid() && w.c == View() && StateInv(w.c) && Orderly(wire)
    }

    constructor ()
      ensures Valid() && View() == RESET_CONN && w == FRESH && fresh(ring) && fresh(ring.buf)
    {
      active, peerFin, resetSeen, state, stale := false, false, false, Closed, false;
      remoteIp, remoteAlt, remotePort, localPort := 0, 0, 0, 0;
      iss, una, nxt, rcv := 0, 0, 0, 0;
      ring := new Ring();
      wire, w, polls := [], FRESH, 0;
    }

    /** clks_net_tcp_reset: the history of the connection starts over. */
    method Reset()
      requires ring.Valid() && Orderly(wire)
      modifies this, ring
      ensures Valid() && View() == RESET_CONN && w == FRESH && wire == old(wire) && polls == old(polls)
    {
      ResetState();
      hide StateInv;
      ring.Clear();
      assert View().queue == [];
      hide Tcp.View;
      ClearState();
      ClearPeer();
      ClearNumbers();
      w := FRESH;
    }

    method ClearState()
      modifies this`active, this`peerFin, this`resetSeen, this`state, this`stale
      ensures View() == old(View()).(active := false, peerFin := false, resetSeen := false, state := Closed,
                                     stale := false)
    {
      active, peerFin, resetSeen, state, stale := false, false, false, Closed, false;
    }

    method ClearPeer()
      modifies this`remoteIp, this`remoteAlt, this`remotePort, this`localPort
      ensures View() == old(View()).(remoteIp := 0, remoteAlt := 0, remotePort := 0, localPort := 0)
    {
      remoteIp, remoteAlt, remotePort, localPort := 0, 0, 0, 0;
    }

    method ClearNumbers()
      modifies this`iss, this`una, this`nxt, this`rcv
      ensures View() == old(View()).(iss := 0, una := 0, nxt := 0, rcv := 0)
    {
      iss, una, nxt, rcv := 0, 0, 0, 0;
    }

    /** clks_net_send_tcp_segment_raw: the device may refuse the segment; the window is what the ring has free. */
    method SendSegment(seqNo: u32, ackNo: u32, syn: bool, fin: bool, payload: seq<byte>)
      returns (ok: bool, ghost es: seq<Event>)
      requires Valid() && Add32(seqNo, Numbers(syn, fin, payload)) == nxt && ackNo == rcv
      modifies this`w, this`wire
      ensures Valid() && w == Run(old(w), es) && es == if ok then [Transmit] else []
      ensures wire == old(wire) + [Sent(seqNo, ackNo, Window(View()), syn, fin, payload, nxt, rcv, ok)]
      ensures localPort == 0 || remotePort == 0 || |payload| > (if syn then 1456 else 1460) ==> !ok
    {
      hide Add32;
      hide Run;
      hide StateInv;
      hide Window;
      es := [];
      ok := *;
      if localPort == 0 || remotePort == 0 || |payload| > 1480 - (if syn then 24 else 20) {
        ok := false;
      }
      var window := FreeWindow();
      wire := wire + [Sent(seqNo, ackNo, window, syn, fin, payload, nxt, rcv, ok)];
      RunTransmit(w);
      if ok {
        es := [Transmit];
        w := Next(w, Transmit);
      }
    }

    /** The window clks_net_send_tcp_segment_raw advertises. */
    method FreeWindow() returns (window: nat)
      requires ring.Valid()
      ensures window == Window(View())
    {
      window := DEFAULT_WINDOW;
      if RECV_CAP - ring.count < window {
        window := RECV_CAP - ring.count;
      }
    }

    method AckStage(s: Segment)
      requires ring.Valid()
      modifies this`una
      ensures View() == AckStep(old(View()), s)
    {
      if s.ack {
        if SeqGe(s.ackNo, una) && SeqLe(s.ackNo, nxt) {
          una := s.ackNo;
        }
      }
    }

    method PayloadStage(s: Segment) returns (ackNeeded: bool)
      requires ring.Valid()
      modifies this`rcv, ring, ring.buf
      ensures ring.Valid() && View() == PayloadStep(old(View()), s) && (ackNeeded <==> s.payload != [])
    {
      ackNeeded := false;
      if |s.payload| > 0 {
        if s.seqNo == rcv {
          ring.Push(s.payload);
          rcv := Add32(rcv, |s.payload|);
        }
        ackNeeded := true;
      }
    }

    method FinStage(s: Segment)
      requires ring.Valid()
      modifies this`rcv, this`peerFin, this`state, this`active
      ensures View() == FinStep(old(View()), s)
    {
      if s.fin {
        var finSeq := Add32(s.seqNo, |s.payload|);
        if finSeq == rcv {
          rcv := Add32(rcv, 1);
        }
        peerFin := true;
        if state == Established {
          state := CloseWait;
        } else if state == FinWait2 {
          state, active := Closed, false;
        }
      }
    }

    method OwnFinStage()
      requires ring.Valid()
      modifies this`state, this`active
      ensures View() == OwnFinStep(old(View()))
    {
      if state == FinWait1 && SeqGe(una, nxt) {
        if peerFin {
          state, active := Closed, false;
        } else {
          state := FinWait2;
        }
      }
      if state == LastAck && SeqGe(una, nxt) {
        state, active := Closed, false;
      }
    }

    /** clks_net_tcp_make_iss: any number but zero. */
    method MakeIss() returns (n: u32)
      ensures n != 0
    {
      n := *;
      if n == 0 {
        n := 1;
      }
    }

    /** Records that a segment was taken in. */
    ghost method Delivered(s: Segment, picked: u32, was: World)
      requires ring.Valid() && StateInv(was.c) && View() == Receive(was.c, s, picked) && Orderly(wire)
      modifies this`w
      ensures Valid() && w == Next(was, Deliver(s, picked)) && w == Run(was, [Deliver(s, picked)])
    {
      hide Receive;
      RunOneMore(was, [], Deliver(s, picked));
      ReceiveKeepsState(was.c, s, picked);
      w := Next(was, Deliver(s, picked));
    }

    /** The LISTEN branch of clks_net_process_tcp, up to the answer. */
    method TakeSyn(s: Segment)
      requires active && state == Listen && s.syn && s.dstPort == localPort
      modifies this`remoteIp, this`remoteAlt, this`remotePort, this`iss, this`una, this`nxt, this`rcv, this`state
      ensures View() == Receive(old(View()), s, iss)
    {
      hide Synchronized;
      hide Add32;
      TakePeer(s.srcIp, s.srcPort);
      var picked := MakeIss();
      TakeNumbers(picked);
      hide Receive;
      rcv := Add32(s.seqNo, 1);
      state := SynReceived;
      ListenReceives(old(View()), s, picked);
    }

    method TakePeer(ip: u32, port: nat)
      modifies this`remoteIp, this`remoteAlt, this`remotePort
      ensures View() == old(View()).(remoteIp := ip, remoteAlt := 0, remotePort := port)
    {
      remoteIp, remoteAlt, remotePort := ip, 0, port;
    }

    /** A fresh initial sequence number, which only the own SYN has used up so far. */
    method TakeNumbers(picked: u32)
      modifies this`iss, this`una, this`nxt
      ensures View() == old(View()).(iss := picked, una := picked, nxt := Add32(picked, 1))
    {
      hide Add32;
      iss := picked;
      una := picked;
      nxt := Add32(picked, 1);
    }

    method AcceptSyn(s: Segment) returns (ghost es: seq<Event>)
      requires Valid() && active && state == Listen
      modifies this
      ensures Valid() && Heard(es) && w == Run(old(w), es) && Answered(old(View()), s, View(), old(wire), wire)
      ensures |es| > 0 && es[0].Deliver? && es[0].s == s && polls == old(polls)
    {
      if s.syn && s.dstPort == localPort {
        TakeSyn(s);
        es := [Deliver(s, iss)];
        hide Receive;
        hide Tcp.View;
        Delivered(s, iss, old(w));
        ghost var ok, more := SendSegment(iss, rcv, true, false, []);
        RunConcat(old(w), es, more);
        es := es + more;
      } else {
        es := [Deliver(s, 0)];
        Delivered(s, 0, w);
      }
    }

    /** clks_net_send_tcp_ack */
    method SendAck() returns (ok: bool, ghost es: seq<Event>)
      requires Valid()
      modifies this`w, this`wire
      ensures Valid() && Heard(es) && w == Run(old(w), es)
      ensures wire == if active then old(wire) + [Reply(View(), false, ok)] else old(wire)
    {
      ok, es := false, [];
      if active {
        ok, es := SendSegment(nxt, rcv, false, false, []);
      }
    }

    /** The part of clks_net_process_tcp behind the handshake states. */
    method Synchronize(s: Segment) returns (ackNeeded: bool)
      requires ring.Valid()
      modifies this`una, this`rcv, this`peerFin, this`state, this`active, ring, ring.buf
      ensures ring.Valid() && View() == Synchronized(old(View()), s) && (ackNeeded <==> s.payload != [] || s.fin)
    {
      hide Tcp.View;
      hide AckStep;
      hide PayloadStep;
      hide FinStep;
      hide OwnFinStep;
      AckStage(s);
      ackNeeded := PayloadStage(s);
      FinStage(s);
      if s.fin {
        ackNeeded := true;
      }
      OwnFinStage();
    }

    /** The reset and SYN_SENT branches, and the one that completes a passive handshake. */
    method Early(s: Segment) returns (done: bool, ackNow: bool)
      requires active && state != Listen && FromPeer(View(), s)
      modifies this`resetSeen, this`active, this`state, this`una, this`rcv, this`stale
      ensures !done <==> Processes(old(View()), s)
      ensures done ==> View() == Receive(old(View()), s, 0)
      ensures !done ==> Receive(old(View()), s, 0) == Synchronized(View(), s)
      ensures ackNow <==> old(state) == SynSent && state == Established
    {
      hide Synchronized;
      done, ackNow := true, false;
      if s.rst {
        resetSeen, active, state := true, false, Closed;
      } else if state == SynSent {
        if s.syn && s.ack && s.ackNo == nxt {
          una := s.ackNo;
          rcv := Add32(s.seqNo, 1);
          state := Established;
          ackNow := true;
        } else if !s.syn && s.ack {
          stale := true;
        }
      } else if state == SynReceived {
        if s.ack && s.ackNo == nxt {
          una := s.ackNo;
          state := Established;
          done := false;
        }
      } else {
        done := false;
      }
    }

    /** clks_net_process_tcp for the peer's segments, up to the acknowledgement. */
    method Apply(s: Segment) returns (ackNeeded: bool)
      requires ring.Valid() && active && state != Listen && FromPeer(View(), s)
      modifies this`resetSeen, this`active, this`state, this`una, this`rcv, this`stale, this`peerFin, ring, ring.buf
      ensures ring.Valid() && View() == Receive(old(View()), s, 0)
      ensures Answers(old(View()), s, View()) <==> ackNeeded && active
    {
      var done, ackNow := Early(s);
      hide Synchronized;
      ackNeeded := ackNow;
      if !done {
        ackNeeded := Synchronize(s);
      }
    }

    /** clks_net_process_tcp: the segment has exactly the effect Receive gives it, and is acknowledged if it must be. */
    method ProcessTcp(s: Segment) returns (ghost es: seq<Event>)
      requires Valid()
      modifies this, ring, ring.buf
      ensures Valid() && Heard(es) && w == Run(old(w), es) && Answered(old(View()), s, View(), old(wire), wire)
      ensures |es| > 0 && es[0].Deliver? && es[0].s == s && polls == old(polls)
    {
      es := [Deliver(s, 0)];
      if !active {
        Delivered(s, 0, w);
      } else if state == Listen {
        es := AcceptSyn(s);
      } else if !((remoteIp == s.srcIp || (remoteAlt != 0 && remoteAlt == s.srcIp)) && remotePort == s.srcPort
        && localPort == s.dstPort) {
        Delivered(s, 0, w);
      } else {
        es := ProcessFromPeer(s);
      }
    }

    method ProcessFromPeer(s: Segment) returns (ghost es: seq<Event>)
      requires Valid() && active && state != Listen && FromPeer(View(), s)
      modifies this, ring, ring.buf
      ensures Valid() && Heard(es) && w == Run(old(w), es) && Answered(old(View()), s, View(), old(wire), wire)
      ensures |es| > 0 && es[0].Deliver? && es[0].s == s && polls == old(polls)
    {
      hide Receive;
      hide Answers;
      es := [Deliver(s, 0)];
      var ackNeeded := Apply(s);
      assert old(View()).state != Listen && (ackNeeded && active <==> Answers(old(View()), s, View()));
      hide Tcp.View;
      Delivered(s, 0, old(w));
      if ackNeeded && active {
        ghost var ok, more := SendAck();
        RunConcat(old(w), es, more);
        es := es + more;
      }
    }

    /** clks_net_poll_internal: at most 128 segments are waiting, and nothing is known about them. */
    method Poll() returns (ghost es: seq<Event>)
      requires Valid()
      modifies this, ring, ring.buf
      ensures Valid() && Heard(es) && w == Run(old(w), es) && Grew(old(wire), wire) && polls == old(polls) + 1
    {
      es := [];
      polls := polls + 1;
      for processed := 0 to DESC_COUNT
        invariant Valid() && Heard(es) && w == Run(old(w), es) && Grew(old(wire), wire) && polls == old(polls) + 1
      {
        var waiting: bool := *;
        if !waiting {
          break;
        }
        es := Step(es, old(w));
      }
    }

    method Step(ghost so: seq<Event>, ghost start: World) returns (ghost es: seq<Event>)
      requires Valid() && Heard(so) && w == Run(start, so)
      modifies this, ring, ring.buf
      ensures Valid() && Heard(es) && w == Run(start, es) && Grew(old(wire), wire) && polls == old(polls)
    {
      hide Receive;
      hide Answers;
      hide Tcp.Valid;
      var s: Segment := *;
      ghost var more := ProcessTcp(s);
      RunConcat(start, so, more);
      es := so + more;
    }

    /** The inner loop of clks_net_tcp_send. */
    method AwaitAck(seqEnd: u32, budget: nat) returns (acked: bool, reset: bool, ghost es: seq<Event>)
      requires Valid() && !w.c.resetSeen
      modifies this, ring, ring.buf
      ensures Valid() && Heard(es) && w == Run(old(w), es) && Grew(old(wire), wire)
      ensures (reset <==> w.c.resetSeen) && (acked ==> !reset && SeqGe(w.c.una, seqEnd))
      ensures budget > 0 && !reset && !acked ==> !SeqGe(w.c.una, seqEnd)
      ensures !reset && !acked ==> polls == old(polls) + budget
    {
      hide SeqGe;
      hide Ring.Valid;
      hide StateInv;
      acked, reset, es := false, false, [];
      for i := 0 to budget
        invariant Valid() && Heard(es) && w == Run(old(w), es) && Grew(old(wire), wire) && !w.c.resetSeen && !acked
                  && !reset && polls == old(polls) + i && (i > 0 ==> !SeqGe(w.c.una, seqEnd))
      {
        ghost var more := Poll();
        RunConcat(old(w), es, more);
        es := es + more;
        if resetSeen {
          reset := true;
          return;
        }
        if SeqGe(una, seqEnd) {
          acked := true;
          return;
        }
      }
    }

    /** clks_net_tcp_reset when the peer has torn the connection down; says whether it did. */
    method ResetIfSeen() returns (seen: bool)
      requires Valid()
      modifies this, ring
      ensures Valid() && seen == old(w.c.resetSeen) && wire == old(wire) && w == if seen then FRESH else old(w)
      ensures polls == old(polls)
    {
      seen := resetSeen;
      if seen {
        Reset();
      }
    }

    /** Claims the sequence numbers of a chunk. */
    method Claim(length: nat)
      requires Valid() && CanSend(View())
      modifies this`nxt, this`w
      ensures Valid() && w == Next(old(w), SendStart(length)) && w == Run(old(w), [SendStart(length)])
      ensures nxt == Add32(old(nxt), length)
    {
      hide Add32;
      RunOneMore(w, [], SendStart(length));
      nxt := Add32(nxt, length);
      w := Next(w, SendStart(length));
    }

    /** One turn of clks_net_tcp_send: a chunk is sent up to four times until it is acknowledged. */
    method SendChunk(data: seq<byte>, budget: nat) returns (acked: bool, ghost es: seq<Event>)
      requires Valid() && CanSend(w.c)
      modifies this, ring, ring.buf
      ensures Valid() && Heard(es) && w == Run(Next(old(w), SendStart(|data|)), es)
      ensures acked ==> !w.c.resetSeen && SeqGe(w.c.una, Add32(old(w.c.nxt), |data|))
      ensures OnlyPiece(old(wire), wire, data, old(w.c.nxt))
      ensures Tried(old(wire), wire, Data(old(w.c.nxt), data), acked || w.c.resetSeen)
      ensures !acked && !w.c.resetSeen ==> GivenUp(w.c, wire, Add32(old(w.c.nxt), |data|))
    {
      hide Tcp.View;
      hide SeqGe;
      hide Add32;
      hide Run;
      hide StateInv;
      CanSendNotReset(w.c);
      var seqStart := NextNumber();
      Claim(|data|);
      var seqEnd := NextNumber();
      var perTry := PerTry(budget);
      acked, es := SendTries(data, seqStart, seqEnd, perTry);
    }

    /** snd_nxt */
    method NextNumber() returns (n: u32)
      ensures n == View().nxt
    {
      n := nxt;
    }

    /** The tries of clks_net_tcp_send for one chunk. */
    method SendTries(data: seq<byte>, seqStart: u32, seqEnd: u32, perTry: nat)
      returns (acked: bool, ghost es: seq<Event>)
      requires Valid() && !w.c.resetSeen && PeerKnown(w.c) && Add32(seqStart, |data|) == w.c.nxt
      modifies this, ring, ring.buf
      ensures Valid() && Heard(es) && w == Run(old(w), es)
      ensures acked ==> !w.c.resetSeen && SeqGe(w.c.una, seqEnd)
      ensures OnlyPiece(old(wire), wire, data, seqStart)
      ensures Tried(old(wire), wire, Data(seqStart, data), acked || w.c.resetSeen)
      ensures !acked && !w.c.resetSeen && perTry > 0 ==> GivenUp(w.c, wire, seqEnd)
    {
      acked, es := false, [];
      assert w == Run(old(w), es);
      hide Tcp.Valid;
      hide SeqGe;
      hide Run;
      hide Tries;
      ghost var kind := Data(seqStart, data);
      hide OnlyPiece;
      NoPieceYet(wire, data, seqStart);
      for tryIndex := 0 to RETRY_COUNT
        invariant Valid() && Heard(es) && w == Run(old(w), es) && !acked && !w.c.resetSeen
        invariant OnlyPiece(old(wire), wire, data, seqStart) && Tries(wire, kind) >= Tries(old(wire), kind) + tryIndex
        invariant perTry > 0 && tryIndex > 0 ==> !SeqGe(w.c.una, seqEnd) || LastRefused(wire, tryIndex)
      {
        ghost var more, before;
        var reset;
        before := wire;
        RunKeepsNumbers(old(w), es);
        acked, reset, more := SendTry(data, seqStart, seqEnd, perTry);
        PieceTwice(old(wire), before, wire, data, seqStart);
        OneMoreRefused(before, wire, tryIndex);
        RunConcat(old(w), es, more);
        es := es + more;
        if reset || acked {
          return;
        }
      }
    }

    /** One try: a segment with the chunk, and if it could be sent, a wait for its acknowledgement. */
    method SendTry(data: seq<byte>, seqStart: u32, seqEnd: u32, perTry: nat)
      returns (acked: bool, reset: bool, ghost es: seq<Event>)
      requires Valid() && !w.c.resetSeen && PeerKnown(w.c) && Add32(seqStart, |data|) == w.c.nxt
      modifies this, ring, ring.buf
      ensures Valid() && Heard(es) && w == Run(old(w), es)
      ensures (reset <==> w.c.resetSeen) && (acked ==> !reset && SeqGe(w.c.una, seqEnd))
      ensures OnlyPiece(old(wire), wire, data, seqStart)
      ensures Tries(wire, Data(seqStart, data)) > Tries(old(wire), Data(seqStart, data))
      ensures |wire| > |old(wire)|
      ensures !reset && !acked ==>
        if wire[|old(wire)|].taken then (perTry > 0 ==> !SeqGe(w.c.una, seqEnd)) && polls == old(polls) + perTry
        else |wire| == |old(wire)| + 1 && old(wire) <= wire && w.c.una == old(w.c.una)
    {
      hide SeqGe;
      hide Run;
      hide Tries;
      acked, reset := false, false;
      var ok;
      ok, es := SendSegment(seqStart, rcv, false, false, data);
      TriedOnce(old(wire), wire[|old(wire)|], Data(seqStart, data));
      assert !w.c.resetSeen;
      if ok {
        ghost var more;
        ghost var out, so := wire, es;
        acked, reset, more := AwaitAck(seqEnd, perTry);
        TriesGrow(out, wire, Data(seqStart, data));
        RunConcat(old(w), so, more);
        es := so + more;
      }
    }

    /** How much clks_net_tcp_send takes next. */
    method CutChunk(remaining: nat) returns (chunk: nat)
      ensures chunk == ChunkLength(remaining) && chunk <= remaining && chunk <= SEND_MAX_SEGMENT
      ensures 0 < remaining < 0x1_0000 ==> 0 < chunk
    {
      chunk := remaining % 0x1_0000;
      if chunk > SEND_MAX_SEGMENT {
        chunk := SEND_MAX_SEGMENT;
      }
    }

    /** The body of the loop of clks_net_tcp_send: the next piece of the payload. */
    method SendNext(payload: seq<byte>, n: nat, budget: nat, ghost was: World, ghost so: seq<Event>, ghost from: nat)
      returns (acked: bool, chunk: nat, ghost es: seq<Event>)
      requires Valid() && n < |payload| && CanSend(w.c) && Progress(was, w, so, payload, n)
      requires from <= |wire| && OnlyData(wire, from, was.c.nxt, payload)
      modifies this, ring, ring.buf
      ensures Valid() && w == Run(was, es) && Sending(w.c) && chunk == ChunkLength(|payload| - n) <= |payload| - n
      ensures |payload| - n < 0x1_0000 ==> 0 < chunk
      ensures n > 0 && InFlight(was.c) + |payload| < HALF ==> Confirmed(was, w, es, n)
      ensures acked ==> !w.c.resetSeen && Progress(was, w, es, payload, n + chunk)
      ensures old(wire) <= wire && OnlyData(wire, from, was.c.nxt, payload)
      ensures PieceTried(old(wire), wire, was.c.nxt, payload, n, acked || w.c.resetSeen)
      ensures !acked && !w.c.resetSeen ==> GivenUp(w.c, wire, Add32(Add32(was.c.nxt, n), chunk))
    {
      hide Tried;
      hide GivenUp;
      hide Tcp.Valid;
      hide Add32;
      hide SeqGe;
      hide OnlyData;
      hide OnlyPiece;
      hide Sending;
      hide CanSend;
      hide InFlight;
      hide Heard;
      hide Progress;
      hide Run;
      hide Covered;
      hide Confirmed;
      hide ChunkLength;
      chunk := CutChunk(|payload| - n);
      ProgressNext(was, w, so, payload, n);
      ghost var more;
      acked, more := SendChunk(payload[n..n + chunk], budget);
      es := so + [SendStart(chunk)] + more;
      PiecesOut(from, old(wire), wire, was.c.nxt, payload, n, chunk);
      ChunkProgress(was, old(w), so, payload, n, chunk, more);
    }

    /**
     clks_net_tcp_send: `end` is the connection when the call stops. The data goes out in pieces at their own sequence
     numbers, and a result `n` above zero means that nothing before byte `n` is still unacknowledged, and that a segment
     of the peer has acknowledged exactly the numbers before byte `n`. The loop is
     watched for `turns` turns only, as a call for 65536 bytes or more may never end; a shorter one ends within as many
     turns as it has bytes.
     */
    method Send(payload: seq<byte>, pollBudget: nat, turns: nat)
      returns (n: nat, ended: bool, ghost end: World, ghost es: seq<Event>)
      requires Valid()
      modifies this, ring, ring.buf
      ensures Valid() && n <= |payload| && end == Run(old(w), es)
      ensures |payload| < 0x1_0000 && |payload| <= turns ==> ended
      ensures w == if end.c.resetSeen && end != old(w) then FRESH else end
      ensures payload == [] || !CanSend(old(View())) ==> n == 0 && es == [] && wire == old(wire)
      ensures old(wire) <= wire && OnlyData(wire, |old(wire)|, old(nxt), payload)
      ensures n > 0 && InFlight(old(View())) + |payload| < HALF ==>
        Covered(end.c, old(nxt), n) && Acknowledged(old(w), es, Add32(old(nxt), n))
      ensures turns > 0 && payload != [] && old(active) && old(state) in {Established, CloseWait} ==>
        && PieceTried(old(wire), wire, old(nxt), payload, 0, true)
        && (ended && n < |payload| ==> PieceTried(old(wire), wire, old(nxt), payload, n, end.c.resetSeen))
        && (ended && n < |payload| && !end.c.resetSeen ==>
              GivenUp(end.c, wire, Add32(Add32(old(nxt), n), ChunkLength(|payload| - n))))
    {
      hide Run;
      hide OnlyData;
      hide Acknowledged;
      hide PieceTried;
      hide GivenUp;
      hide ChunkLength;
      hide Covered;
      hide InFlight;
      hide Add32;
      RunTransmit(w);
      Started(w, payload, wire);
      n, ended, end, es := 0, true, w, [];
      if !active || (state != Established && state != CloseWait) || |payload| == 0 {
        return;
      }
      n, ended, end, es := SendAll(payload, if pollBudget == 0 then DEFAULT_POLL_LOOPS else pollBudget, turns);
    }

    /** The loop of clks_net_tcp_send. */
    method SendAll(payload: seq<byte>, budget: nat, turns: nat)
      returns (n: nat, ended: bool, ghost end: World, ghost es: seq<Event>)
      requires Valid() && CanSend(w.c) && !w.c.resetSeen
      modifies this, ring, ring.buf
      ensures Valid() && n <= |payload| && end == Run(old(w), es) && (w == if end.c.resetSeen then FRESH else end)
      ensures |payload| < 0x1_0000 && |payload| <= turns ==> ended
      ensures old(wire) <= wire && OnlyData(wire, |old(wire)|, old(w).c.nxt, payload)
      ensures n > 0 && InFlight(old(w).c) + |payload| < HALF ==> Confirmed(old(w), end, es, n)
      ensures turns > 0 && payload != [] ==> PieceTried(old(wire), wire, old(w).c.nxt, payload, 0, true)
      ensures ended && n < |payload| ==> PieceTried(old(wire), wire, old(w).c.nxt, payload, n, end.c.resetSeen)
      ensures ended && n < |payload| && !end.c.resetSeen ==>
        GivenUp(end.c, wire, Add32(Add32(old(w).c.nxt, n), ChunkLength(|payload| - n)))
    {
      hide *;
      ghost var was := w;
      n, ended, end, es := 0, true, w, [];
      var turn := 0;
      Started(was, payload, wire);
      while n < |payload| && turn < turns
        invariant n <= |payload| && Valid() && CanSend(w.c) && !w.c.resetSeen && end == w && old(wire) <= wire
        invariant Progress(was, w, es, payload, n) && OnlyData(wire, |old(wire)|, was.c.nxt, payload)
        invariant |payload| < 0x1_0000 ==> turn <= n
        invariant if turn == 0 then n == 0 else PieceTried(old(wire), wire, was.c.nxt, payload, 0, true)
        decreases turns - turn
      {
        var acked, chunk;
        ghost var before := wire;
        acked, chunk, es := SendNext(payload, n, budget, was, es, |old(wire)|);
        PieceOut(old(wire), before, wire, was.c.nxt, payload, n, turn == 0, acked || w.c.resetSeen);
        end := w;
        SendingOn(w.c);
        var seen := ResetIfSeen();
        if seen || !acked {
          return;
        }
        n, turn := n + chunk, turn + 1;
      }
      ended := n == |payload|;
      Finished(was, w, es, payload, n);
    }

    /** clks_net_tcp_recv_pop */
    method Pop(capacity: nat) returns (out: seq<byte>)
      requires Valid()
      modifies this`w, ring
      ensures Valid() && out == Popped(old(w.c.queue), capacity)
      ensures w == Next(old(w), Read(capacity)) && w.read == old(w.read) + out && wire == old(wire)
      ensures capacity > 0 && out == [] ==> w.c.queue == []
    {
      out := ring.Pop(capacity);
      w := Next(w, Read(capacity));
    }

    /** clks_net_tcp_recv: every byte it returns is the next one the application had not read. */
    method Recv(capacity: nat, pollBudget: nat) returns (out: seq<byte>, ghost es: seq<Event>)
      requires Valid()
      modifies this, ring, ring.buf
      ensures Valid() && |out| <= capacity && w == Run(old(w), es) && w.read == old(w.read) + out
      ensures capacity > 0 && old(w.c.queue) != [] ==>
        out <= old(w.c.queue) && |out| == (if capacity < |old(w.c.queue)| then capacity else |old(w.c.queue)|)
      ensures Grew(old(wire), wire)
      ensures capacity > 0 && out == [] ==>
        w.c.queue == [] && (polls == old(polls) + (if pollBudget == 0 then 150000 else pollBudget) || !w.c.active)
    {
      out, es := [], [];
      if capacity == 0 {
        return;
      }
      var budget := if pollBudget == 0 then DEFAULT_POLL_LOOPS / 2 else pollBudget;
      out, es := PopOnce(capacity, [], w);
      PoppedIs(old(w.c.queue), capacity);
      hide Tcp.View;
      hide Popped;
      hide Run;
      hide Orderly;
      hide StateInv;
      hide Ring.Valid;
      if |out| > 0 {
        return;
      }
      for i := 0 to budget
        invariant Valid() && w == Run(old(w), es) && w.read == old(w.read) && out == [] && old(w.c.queue) == []
        invariant Grew(old(wire), wire) && w.c.queue == [] && polls == old(polls) + i
      {
        out, es := PollAndPop(capacity, es, old(w));
        if |out| > 0 || !active {
          return;
        }
      }
    }

    /** One turn of clks_net_tcp_recv's loop. */
    method PollAndPop(capacity: nat, ghost so: seq<Event>, ghost start: World)
      returns (out: seq<byte>, ghost es: seq<Event>)
      requires Valid() && w == Run(start, so)
      modifies this, ring, ring.buf
      ensures Valid() && |out| <= capacity && w == Run(start, es) && w.read == old(w.read) + out
      ensures Grew(old(wire), wire) && polls == old(polls) + 1 && (capacity > 0 && out == [] ==> w.c.queue == [])
    {
      hide Run;
      hide Tcp.View;
      hide Tcp.Valid;
      ghost var before, more := w, [];
      more := Poll();
      RunReadsNothing(before, more);
      RunConcat(start, so, more);
      ghost var queue := w.c.queue;
      out, es := PopOnce(capacity, so + more, start);
      PoppedIs(queue, capacity);
    }

    method PopOnce(capacity: nat, ghost so: seq<Event>, ghost start: World)
      returns (out: seq<byte>, ghost es: seq<Event>)
      requires Valid() && w == Run(start, so)
      modifies this`w, ring
      ensures Valid() && out == Popped(old(w.c.queue), capacity) && w == Run(start, es)
      ensures w.read == old(w.read) + out && wire == old(wire) && (capacity > 0 && out == [] ==> w.c.queue == [])
    {
      out := Pop(capacity);
      hide *;
      RunOneMore(start, so, Read(capacity));
      es := so + [Read(capacity)];
    }

    /** The inner loop of clks_net_tcp_close. */
    method AwaitClosed(budget: nat) returns (ended: bool, ghost es: seq<Event>)
      requires Valid()
      modifies this, ring, ring.buf
      ensures Valid() && Heard(es) && w == Run(old(w), es) && Grew(old(wire), wire)
      ensures ended ==> w.c.state == Closed
      ensures !ended ==> polls == old(polls) + budget && (budget > 0 ==> w.c.state != Closed)
    {
      ended, es := false, [];
      for i := 0 to budget
        invariant Valid() && Heard(es) && w == Run(old(w), es) && Grew(old(wire), wire)
        invariant !ended && polls == old(polls) + i && (i > 0 ==> w.c.state != Closed)
      {
        ghost var more := Poll();
        RunConcat(old(w), es, more);
        es := es + more;
        if state == Closed || !active {
          ended := true;
          return;
        }
      }
    }

    /** clks_net_tcp_close claims the number of its FIN. */
    method ClaimFin()
      requires Valid() && CanSend(w.c)
      modifies this`nxt, this`state, this`w
      ensures Valid() && w == Next(old(w), CloseStart) && wire == old(wire)
    {
      hide Add32;
      nxt := Add32(nxt, 1);
      state := if state == CloseWait then LastAck else FinWait1;
      w := Next(w, CloseStart);
    }

    /** The tries of clks_net_tcp_close: a FIN with the claimed number goes out up to four times. */
    method SendFin(finSeq: u32, budget: nat) returns (ended: bool, ghost es: seq<Event>)
      requires Valid() && PeerKnown(w.c) && Add32(finSeq, 1) == w.c.nxt
      modifies this, ring, ring.buf
      ensures Valid() && Heard(es) && w == Run(old(w), es) && OnlyFins(old(wire), wire, finSeq)
      ensures ended ==> w.c.state == Closed
      ensures Tried(old(wire), wire, Fin(finSeq), ended) && (!ended ==> w.c.state != Closed)
    {
      var perTry := PerTry(budget);
      ended, es := false, [];
      assert Run(w, []) == w;
      hide Tcp.Valid;
      hide Run;
      hide Add32;
      hide Tries;
      hide OnlyFins;
      NoFinYet(wire, finSeq);
      for tryIndex := 0 to RETRY_COUNT
        invariant Valid() && Heard(es) && w == Run(old(w), es) && OnlyFins(old(wire), wire, finSeq) && !ended
        invariant Tries(wire, Fin(finSeq)) >= Tries(old(wire), Fin(finSeq)) + tryIndex
        invariant tryIndex > 0 ==> w.c.state != Closed
      {
        ghost var before, more := wire, [];
        RunKeepsNumbers(old(w), es);
        ended, more := FinTry(finSeq, perTry);
        FinsTwice(old(wire), before, wire, finSeq);
        RunConcat(old(w), es, more);
        es := es + more;
        if ended {
          return;
        }
      }
    }

    /** One try: a FIN, and a wait for the end of the connection. */
    method FinTry(finSeq: u32, perTry: nat) returns (ended: bool, ghost es: seq<Event>)
      requires Valid() && PeerKnown(w.c) && Add32(finSeq, 1) == w.c.nxt
      modifies this, ring, ring.buf
      ensures Valid() && Heard(es) && w == Run(old(w), es) && OnlyFins(old(wire), wire, finSeq)
      ensures ended ==> w.c.state == Closed
      ensures Tries(wire, Fin(finSeq)) > Tries(old(wire), Fin(finSeq))
      ensures !ended && perTry > 0 ==> w.c.state != Closed && polls == old(polls) + perTry
    {
      hide Run;
      hide Tries;
      var ok;
      ghost var so, more;
      ok, so := SendSegment(finSeq, rcv, false, true, []);
      TriedOnce(old(wire), wire[|old(wire)|], Fin(finSeq));
      ghost var out := wire;
      ended, more := AwaitClosed(perTry);
      TriesGrow(out, wire, Fin(finSeq));
      RunConcat(old(w), so, more);
      es := so + more;
    }

    /** A quarter of the polling budget, and at least 10000 turns. */
    method PerTry(budget: nat) returns (n: nat)
      ensures n >= 10000 && (budget >= 40000 ==> 4 * n <= budget < 4 * n + 4) && (budget < 40000 ==> n == 10000)
    {
      n := if budget / RETRY_COUNT < 10000 then 10000 else budget / RETRY_COUNT;
    }

    /**
     clks_net_tcp_close: `end` is the connection before it is wiped. Success means that the peer has acknowledged the
     FIN, unless it reset the connection; the call gives up only after the FIN was sent four times.
     */
    method Close(pollBudget: nat) returns (ok: bool, ghost end: World, ghost es: seq<Event>)
      requires Valid()
      modifies this, ring, ring.buf
      ensures Valid() && end == Run(old(w), es)
      ensures if old(w.c.state) == Closed then ok && end == w == old(w) else View() == RESET_CONN && w == FRESH
      ensures old(w.c.state) != Closed && !CanSend(old(w.c)) ==> !ok && es == []
      ensures CanSend(old(w.c)) ==> (ok <==> end.c.state == Closed)
      ensures ok && CanSend(old(w.c)) && InFlight(old(w.c)) + 1 < HALF && !end.c.resetSeen
              ==> end.c.una == end.c.nxt == Add32(old(w.c.nxt), 1) && Acknowledged(old(w), es, end.c.nxt)
      ensures OnlyFins(old(wire), wire, old(w.c.nxt))
      ensures old(active) && old(state) in {Established, CloseWait} ==> Tried(old(wire), wire, Fin(old(nxt)), ok)
    {
      hide Tried;
      ok, end, es := true, w, [];
      if !active && state == Closed {
        return;
      }
      ok := false;
      if active && (state == Established || state == CloseWait) {
        var finSeq := nxt;
        ghost var was := w;
        ClaimFin();
        ok, es := SendFin(finSeq, if pollBudget == 0 then DEFAULT_POLL_LOOPS else pollBudget);
        FinOut(was, es);
        es := [CloseStart] + es;
        end := w;
      }
      hide *;
      Reset();
    }

    /** clks_net_tcp_listen */
    method StartListening(port: nat) returns (ok: bool)
      requires Valid()
      modifies this, ring
      ensures Valid() && ok == (port != 0) && wire == old(wire)
      ensures if ok then w == World(RESET_CONN.(active := true, state := Listen, localPort := port), [], [], 0)
              else w == old(w)
    {
      ok := port != 0;
      if ok {
        Reset();
        OpenState(Listen, port);
        w := World(View(), [], [], 0);
      }
    }

    /** How long connect and accept poll. */
    method PollBudget(asked: nat) returns (budget: nat)
      ensures budget == PollsFor(asked)
    {
      budget := if asked == 0 then DEFAULT_POLL_LOOPS else if asked < MIN_POLL_LOOPS then MIN_POLL_LOOPS else asked;
    }

    /** clks_net_tcp_accept: a result true means that a segment has acknowledged the own SYN. */
    method Accept(pollBudget: nat) returns (ok: bool, ghost end: World, ghost es: seq<Event>)
      requires Valid()
      modifies this, ring, ring.buf
      ensures Valid() && Heard(es) && end == Run(old(w), es) && Grew(old(wire), wire)
      ensures old(w.c.state) != Listen ==> !ok && w == old(w)
      ensures w == if end.c.resetSeen && old(w.c.state) == Listen then FRESH else end
      ensures ok ==> w.c.state == Established && !w.c.resetSeen && w.c.una == w.c.nxt == Add32(w.c.iss, 1)
      ensures ok ==> Acknowledged(old(w), es, w.c.nxt)
      ensures old(w.c.state) == Listen && !ok ==> end.c.resetSeen || end.c.state != Established
      ensures old(w.c.state) == Listen && !ok && !end.c.resetSeen ==> polls == old(polls) + PollsFor(pollBudget)
    {
      ok, end, es := false, w, [];
      if !active || state != Listen {
        return;
      }
      var budget := PollBudget(pollBudget);
      assert Run(w, es) == w;
      hide Run;
      for i := 0 to budget
        invariant Valid() && Heard(es) && end == w == Run(old(w), es) && Grew(old(wire), wire) && !w.c.resetSeen
        invariant polls == old(polls) + i && w.c.state != Established
      {
        ghost var more := Poll();
        RunConcat(old(w), es, more);
        end, es := w, es + more;
        var seen := ResetIfSeen();
        if seen {
          return;
        }
        if state == Established {
          RunAccepting(old(w), es);
          RunAcceptedBy(old(w), es);
          ok := true;
          return;
        }
      }
    }

    /** clks_net_tcp_connect sets up the connection after its address is resolved. */
    method OpenTo(dstIp: u32, alt: u32, dstPort: nat, port: nat)
      requires Valid()
      modifies this, ring
      ensures Valid() && wire == old(wire)
      ensures w == World(RESET_CONN.(active := true, state := SynSent, remoteIp := dstIp, remoteAlt := alt,
                                     remotePort := dstPort, localPort := port), [], [], 0)
    {
      Reset();
      OpenState(SynSent, port);
      remoteIp, remoteAlt, remotePort := dstIp, alt, dstPort;
      w := World(View(), [], [], 0);
    }

    method OpenState(first: State, port: nat)
      modifies this`active, this`state, this`localPort
      ensures View() == old(View()).(active := true, state := first, localPort := port)
    {
      active, state, localPort := true, first, port;
    }

    /** clks_net_tcp_next_ephemeral_port: some port of the dynamic range. */
    method EphemeralPort() returns (port: nat)
      ensures 43000 <= port <= 60000
    {
      port := *;
      if port < 43000 || port > 60000 {
        port := 43000;
      }
    }

    /** A try of clks_net_tcp_connect begins: new numbers, on whatever connection there is. */
    method Restart(port: nat)
      requires Valid()
      modifies this`localPort, this`iss, this`una, this`nxt, this`rcv, this`stale, this`w
      ensures Valid() && w == World(Restarted(old(w.c), port, iss), [], [], 0)
    {
      hide Add32;
      hide StateInv;
      hide Orderly;
      localPort := port;
      var picked := MakeIss();
      TakeNumbers(picked);
      rcv, stale := 0, false;
      w := World(View(), [], [], 0);
      assert StateInv(old(w.c)) ==> StateInv(w.c) by {
        RestartKeepsState(old(w.c), port, picked);
      }
    }

    /**
     The inner loop of clks_net_tcp_connect, which ends at a reset, at a stale acknowledgement or with the connection
     up; `over` says that no further try is made, and `end` is the connection before a reset wipes it.
     */
    method AwaitAnswer(budget: nat) returns (ok: bool, over: bool, ghost end: World, ghost es: seq<Event>)
      requires Valid() && !w.c.resetSeen && budget > 0
      modifies this, ring, ring.buf
      ensures Valid() && Heard(es) && Grew(old(wire), wire) && end == Run(old(w), es)
      ensures (ok <==> Up(end.c)) && (over <==> ok || end.c.resetSeen)
      ensures w == if end.c.resetSeen then FRESH else end
      ensures !over && !end.c.stale ==> polls == old(polls) + budget
    {
      ok, over, end, es := false, false, w, [];
      assert Run(w, es) == w;
      hide Run;
      for i := 0 to budget
        invariant Valid() && Heard(es) && end == w == Run(old(w), es) && Grew(old(wire), wire)
        invariant !w.c.resetSeen && !over && !ok && (i > 0 ==> !Up(w.c)) && polls == old(polls) + i
      {
        ghost var more := Poll();
        RunConcat(old(w), es, more);
        end, es := w, es + more;
        var seen := ResetIfSeen();
        if seen {
          over := true;
          return;
        }
        if stale {
          return;
        }
        if state == Established {
          ok, over := true, true;
          return;
        }
      }
    }

    /**
     clks_net_tcp_connect: `start` is the connection as the last try found it, `es` what that try heard and `end` what
     came of it. The call succeeds exactly if the try's SYN went out and the connection is up at the end; and then the
     SYN was answered if and only if the try began waiting for an answer.
     */
    method Connect(dstIp: u32, dstPort: nat, srcPort: nat, alt: u32, resolved: bool, pollBudget: nat)
      returns (ok: bool, ghost start: World, ghost sent: bool, ghost end: World, ghost es: seq<Event>)
      requires Valid()
      modifies this, ring, ring.buf
      ensures Valid() && Grew(old(wire), wire)
      ensures dstIp == 0 || dstPort == 0 || !resolved ==> !ok && w == old(w)
      ensures !(dstIp == 0 || dstPort == 0 || !resolved) ==>
        && IsTry(start) && Heard(es) && end == Run(start, es) && (ok <==> sent && Up(end.c))
        && w == (if ok then end else FRESH)
      ensures ok ==> start.c.state in {SynSent, Established}
      ensures ok ==> (SynAnswered(start, es) <==> start.c.state == SynSent)
      ensures ok && start.c.state == SynSent ==> w.c.una == w.c.nxt == Add32(w.c.iss, 1)
      ensures !(dstIp == 0 || dstPort == 0 || !resolved) ==>
        Tried(old(wire), wire, Syn, ok || end.c.resetSeen) && Dials(start.c, dstIp, alt, dstPort, srcPort)
    {
      ok, start, sent, end, es := false, w, false, w, [];
      if dstIp == 0 || dstPort == 0 || !resolved {
        return;
      }
      var budget := PollBudget(pollBudget);
      var port := srcPort;
      if srcPort == 0 {
        port := EphemeralPort();
      }
      OpenTo(dstIp, alt, dstPort, port);
      var perTry := PerTryConnect(budget);
      hide Tried;
      hide Tries;
      hide Grew;
      GrewNot(old(wire));
      var over := false;
      hide *;
      for tryIndex := 0 to RETRY_COUNT
        invariant Valid() && Grew(old(wire), wire) && !over && !ok && !w.c.resetSeen && Dialing(w.c)
        invariant tryIndex > 0 ==> IsTry(start) && Heard(es) && end == Run(start, es) && !(sent && Up(end.c))
        invariant tryIndex > 0 ==> Dials(start.c, dstIp, alt, dstPort, srcPort)
        invariant PortFor(port, srcPort)
        invariant Dials(w.c, dstIp, alt, dstPort, srcPort) && Tries(wire, Syn) >= Tries(old(wire), Syn) + tryIndex
      {
        if srcPort == 0 && tryIndex > 0 {
          port := EphemeralPort();
        }
        ghost var before, c := wire, w.c;
        ok, over, start, sent, end, es := Dial(port, perTry);
        GrewTwice(old(wire), before, wire);
        DialsOn(c, start.c, end.c, dstIp, alt, dstPort, srcPort, port);
        if over {
          EnoughTries(old(wire), wire, Syn, tryIndex + 1, true);
          return;
        }
      }
      EnoughTries(old(wire), wire, Syn, RETRY_COUNT, false);
      Reset();
    }

    /** A try of clks_net_tcp_connect: new numbers, and what comes of them. */
    method Dial(port: nat, budget: nat)
      returns (ok: bool, over: bool, ghost start: World, ghost sent: bool, ghost end: World, ghost es: seq<Event>)
      requires Valid() && !w.c.resetSeen && budget > 0 && Dialing(w.c)
      modifies this, ring, ring.buf
      ensures Valid() && IsTry(start) && Heard(es) && Grew(old(wire), wire) && end == Run(start, es) && Dialing(w.c)
      ensures (ok <==> sent && Up(end.c)) && (over <==> ok || end.c.resetSeen)
      ensures w == if end.c.resetSeen then FRESH else end
      ensures ok ==> start.c.state in {SynSent, Established}
      ensures ok ==> (SynAnswered(start, es) <==> start.c.state == SynSent)
      ensures ok && start.c.state == SynSent ==> w.c.una == w.c.nxt == Add32(w.c.iss, 1)
      ensures Tries(wire, Syn) > Tries(old(wire), Syn)
      ensures start.c.localPort == port && SamePeer(old(w.c).(localPort := port), start.c) && SamePeer(start.c, end.c)
    {
      hide SynAnswered;
      hide Tries;
      hide Run;
      hide Add32;
      Restart(port);
      start := w;
      ok, over, sent, end, es := Try(budget);
    }

    /** One try of clks_net_tcp_connect after its numbers are chosen. */
    method Try(budget: nat) returns (ok: bool, over: bool, ghost sent: bool, ghost end: World, ghost es: seq<Event>)
      requires Valid() && !w.c.resetSeen && budget > 0 && IsTry(w)
      modifies this, ring, ring.buf
      ensures Valid() && Heard(es) && Grew(old(wire), wire) && end == Run(old(w), es) && Dialing(w.c)
      ensures (ok <==> sent && Up(end.c)) && (over <==> ok || end.c.resetSeen)
      ensures w == if end.c.resetSeen then FRESH else end
      ensures ok ==> old(w.c.state) in {SynSent, Established}
      ensures ok ==> (SynAnswered(old(w), es) <==> old(w.c.state) == SynSent)
      ensures ok && old(w.c.state) == SynSent ==> w.c.una == w.c.nxt == Add32(w.c.iss, 1)
      ensures Tries(wire, Syn) > Tries(old(wire), Syn) && SamePeer(old(w.c), end.c)
    {
      hide Tries;
      hide Run;
      hide SynAnswered;
      hide Add32;
      hide StateInv;
      hide Orderly;
      hide Ring.Valid;
      TryNumbers(w);
      ghost var start := w;
      var taken;
      ok, over, end := false, false, w;
      taken, es := SendSegment(iss, 0, true, false, []);
      TriedOnce(old(wire), wire[|old(wire)|], Syn);
      sent := taken;
      if taken {
        ghost var more;
        ghost var so, out := es, wire;
        ok, over, end, more := AwaitAnswer(budget);
        TriesGrow(out, wire, Syn);
        RunConcat(start, so, more);
        es := so + more;
      }
      TryEnds(start, es);
      RunKeepsPeer(start, es);
    }

    /** A quarter of the polling budget, and at least 20000 turns. */
    method PerTryConnect(budget: nat) returns (n: nat)
      ensures n >= 20000 && (budget >= 80000 ==> 4 * n <= budget < 4 * n + 4) && (budget < 80000 ==> n == 20000)
    {
      n := if budget / RETRY_COUNT < 20000 then 20000 else budget / RETRY_COUNT;
    }
  }

  lemma ListenReceives(c: Conn, s: Segment, picked: u32)
    requires c.active && c.state == Listen && s.syn && s.dstPort == c.localPort
    ensures Receive(c, s, picked) ==
            c.(remoteIp := s.srcIp, remoteAlt := 0, remotePort := s.srcPort, iss := picked, una := picked,
               nxt := Add32(picked, 1), rcv := Add32(s.seqNo, 1), state := SynReceived)
  {
    hide Synchronized;
    hide Add32;
  }

  lemma ResetState()
    ensures StateInv(RESET_CONN)
  {
  }

  lemma RunTransmit(w: World)
    ensures Run(w, []) == w && Run(w, [Transmit]) == Next(w, Transmit)
  {
    RunOneMore(w, [], Transmit);
    assert [] + [Transmit] == [Transmit];
  }

  /** The connection can be used: up, and neither reset nor given up for a stale acknowledgement. */
  predicate Up(c: Conn) { c.state == Established && !c.stale && !c.resetSeen }

  /** The port asked for, or one of the dynamic range if none is. */
  predicate PortFor(port: nat, srcPort: nat) { if srcPort != 0 then port == srcPort else 43000 <= port <= 60000 }

  /** The connection is one to that address and port, from such a port. */
  predicate Dials(c: Conn, dstIp: u32, alt: u32, dstPort: nat, srcPort: nat) {
    && c.remoteIp == dstIp && c.remoteAlt == alt && c.remotePort == dstPort && PortFor(c.localPort, srcPort)
  }

  lemma DialsOn(c: Conn, start: Conn, end: Conn, dstIp: u32, alt: u32, dstPort: nat, srcPort: nat, port: nat)
    requires Dials(c, dstIp, alt, dstPort, srcPort) && PortFor(port, srcPort)
    requires SamePeer(c.(localPort := port), start) && SamePeer(start, end)
    ensures Dials(start, dstIp, alt, dstPort, srcPort) && Dials(end, dstIp, alt, dstPort, srcPort)
  {
  }

  lemma GrewNot(wire: seq<Sent>)
    ensures Grew(wire, wire)
  {
  }

  lemma GrewTwice(wire: seq<Sent>, wire': seq<Sent>, wire'': seq<Sent>)
    requires Grew(wire, wire') && Grew(wire', wire'')
    ensures Grew(wire, wire'')
  {
  }

  lemma EnoughTries(wire: seq<Sent>, wire': seq<Sent>, kind: Kind, n: nat, done: bool)
    requires Tries(wire', kind) >= Tries(wire, kind) + n && n >= if done then 1 else 4
    ensures Tried(wire, wire', kind, done)
  {
    hide Tries;
  }

  /** The start of a try: new numbers, nothing acknowledged, and no number expected yet. */
  predicate IsTry(w: World) {
    && Dialing(w.c) && !w.c.resetSeen && !w.c.stale && w.c.una == w.c.iss && w.c.nxt == Add32(w.c.iss, 1)
    && w.c.rcv == 0 && w.delivered == [] && w.read == []
  }

  lemma TryNumbers(w: World)
    requires IsTry(w)
    ensures Add32(w.c.iss, Numbers(true, false, [])) == w.c.nxt && w.c.rcv == 0
    ensures w == Run(w, [])
  {
  }

  /** What a try that ends with the connection up has heard. */
  lemma TryEnds(start: World, es: seq<Event>)
    requires IsTry(start) && Heard(es)
    ensures var c := Run(start, es).c;
      && Dialing(c)
      && (Up(c) ==> start.c.state in {SynSent, Established} && (SynAnswered(start, es) <==> start.c.state == SynSent))
      && (Up(c) && start.c.state == SynSent ==> c.una == c.nxt == Add32(c.iss, 1))
  {
    RunDialing(start, es);
    if Up(Run(start, es).c) {
      SynAnsweredIff(start, es);
      if start.c.state == SynSent {
        RunOpening(start, es);
      }
    }
  }

  /**
   The race makes clks_net_tcp_connect succeed without an answer: the try after a batch of a bare acknowledgement and
   the answer begins with the connection up, and if it hears nothing more, it ends so, which is what the call reports.
   */
  lemma StaleAckConnects(w: World, bare: Segment, answer: Segment, port: nat, picked: u32, es: seq<Event>)
    requires w.c.active && w.c.state == SynSent && !w.c.resetSeen && FromPeer(w.c, bare) && FromPeer(w.c, answer)
    requires bare.ack && !bare.syn && !bare.rst
    requires answer.syn && answer.ack && !answer.rst && answer.ackNo == w.c.nxt
    requires forall k :: 0 <= k < |es| ==> es[k] == Transmit
    ensures var batch := Run(w, [Deliver(bare, 0), Deliver(answer, 0)]);
      var start := World(Restarted(batch.c, port, picked), [], [], 0);
      && !Up(batch.c) && IsTry(start) && Up(Run(start, es).c) && !SynAnswered(start, es) && Run(start, es).c.rcv == 0
      && InFlight(Run(start, es).c) == 1
  {
    hide Receive;
    hide FromPeer;
    hide SynAnswered;
    StaleAckRace(w, bare, answer, port, picked);
    var batch := Run(w, [Deliver(bare, 0), Deliver(answer, 0)]);
    var start := World(Restarted(batch.c, port, picked), [], [], 0);
    Quiet(start, es);
    SynAnsweredIff(start, es);
  }

  lemma {:induction false} Quiet(w: World, es: seq<Event>)
    requires forall k :: 0 <= k < |es| ==> es[k] == Transmit
    ensures Run(w, es).c == w.c && Heard(es)
    decreases |es|
  {
    if es != [] {
      Quiet(w, es[..|es| - 1]);
    }
  }

  lemma RestartKeepsState(c: Conn, port: nat, picked: u32)
    requires StateInv(c)
    ensures StateInv(Restarted(c, port, picked))
  {
  }

  /** Segments without data were added to the wire, and every FIN among them has the number `finSeq`. */
  ghost predicate OnlyFins(wire: seq<Sent>, wire': seq<Sent>, finSeq: u32) {
    && wire <= wire'
    && forall k :: |wire| <= k < |wire'| ==> wire'[k].payload == [] && (wire'[k].fin ==> wire'[k].seqNo == finSeq)
  }

  lemma NoFinYet(wire: seq<Sent>, finSeq: u32)
    ensures OnlyFins(wire, wire, finSeq)
  {
  }

  lemma FinsTwice(wire: seq<Sent>, wire': seq<Sent>, wire'': seq<Sent>, finSeq: u32)
    requires OnlyFins(wire, wire', finSeq) && OnlyFins(wire', wire'', finSeq)
    ensures OnlyFins(wire, wire'', finSeq)
  {
  }

  /** What has become of a connection by the time the tries to close it are over. */
  lemma FinOut(w: World, es: seq<Event>)
    requires CanSend(w.c) && StateInv(w.c) && Heard(es)
    ensures var end := Run(Next(w, CloseStart), es);
      && end == Run(w, [CloseStart] + es)
      && (InFlight(w.c) + 1 < HALF && end.c.state == Closed && !end.c.resetSeen
          ==> end.c.una == end.c.nxt == Add32(w.c.nxt, 1) && Acknowledged(w, [CloseStart] + es, end.c.nxt))
  {
    var start := Next(w, CloseStart);
    RunOneMore(w, [], CloseStart);
    RunConcat(w, [CloseStart], es);
    assert [] + [CloseStart] == [CloseStart];
    var end := Run(start, es);
    FinClaimed(w.c);
    if InFlight(w.c) + 1 < HALF {
      RunClosing(start, es);
      RunAcknowledged(start, es);
      RunKeepsNumbers(start, es);
      NothingLeft(start.c, end.c);
      NothingBetween(end.c.nxt);
      hide Add32;
      hide Sub32;
      hide Acknowledged;
      hide Run;
      if Acknowledged(start, es, end.c.una) {
        AcknowledgedLater(w, [CloseStart], es, end.c.una);
      }
    }
  }

  lemma FinClaimed(c: Conn)
    requires CanSend(c)
    ensures var c' := StartClose(c);
      && c'.nxt == Add32(c.nxt, 1) && (InFlight(c) + 1 < HALF ==> InFlight(c') == InFlight(c) + 1)
  {
  }

  lemma CanSendNotReset(c: Conn)
    requires StateInv(c)
    ensures CanSend(c) ==> !c.resetSeen
  {
  }

  lemma SendingOn(c: Conn)
    requires Sending(c)
    ensures c.resetSeen || CanSend(c)
  {
  }

  /**
   Between two chunks: everything before byte `n` went out and was acknowledged, if the numbers were in order at
   first.
   */
  ghost predicate Progress(was: World, w: World, es: seq<Event>, data: seq<byte>, n: nat) {
    && w == Run(was, es) && w.c.nxt == Add32(was.c.nxt, n)
    && (InFlight(was.c) + |data| < HALF ==>
          if n == 0 then InFlight(w.c) <= InFlight(was.c)
          else InFlight(w.c) == 0 && Acknowledged(was, es, Add32(was.c.nxt, n)))
  }

  lemma Started(was: World, data: seq<byte>, wire: seq<Sent>)
    ensures Progress(was, was, [], data, 0) && OnlyData(wire, |wire|, was.c.nxt, data)
  {
  }

  /** The piece of the payload that starts at byte `n` was tried. */
  ghost predicate PieceTried(wire: seq<Sent>, wire': seq<Sent>, base: u32, data: seq<byte>, n: nat, done: bool)
    requires n <= |data|
  {
    Tried(wire, wire', Data(Add32(base, n), data[n..n + ChunkLength(|data| - n)]), done)
  }

  /** One turn of the loop: its own piece was tried, and the first one was, be it now or before. */
  lemma PieceOut(wire: seq<Sent>, wire': seq<Sent>, wire'': seq<Sent>, base: u32, data: seq<byte>, n: nat,
                 first: bool, done: bool)
    requires n <= |data| && wire <= wire' <= wire'' && PieceTried(wire', wire'', base, data, n, done)
    requires if first then n == 0 else PieceTried(wire, wire', base, data, 0, true)
    ensures PieceTried(wire, wire'', base, data, n, done) && PieceTried(wire, wire'', base, data, 0, true)
  {
    hide ChunkLength;
    hide Add32;
    TriesGrow(wire, wire', Data(Add32(base, n), data[n..n + ChunkLength(|data| - n)]));
    TriesGrow(wire', wire'', Data(Add32(base, 0), data[0..0 + ChunkLength(|data| - 0)]));
    hide Tries;
  }

  lemma OneMoreRefused(wire: seq<Sent>, wire': seq<Sent>, n: nat)
    requires wire <= wire' && |wire'| > |wire|
    ensures |wire'| == |wire| + 1 && !wire'[|wire|].taken && LastRefused(wire, n) ==> LastRefused(wire', n + 1)
    ensures LastRefused(wire, 0)
  {
  }

  lemma NoPieceYet(wire: seq<Sent>, data: seq<byte>, seqNo: u32)
    ensures OnlyPiece(wire, wire, data, seqNo)
  {
  }

  lemma PieceTwice(wire: seq<Sent>, wire': seq<Sent>, wire'': seq<Sent>, data: seq<byte>, seqNo: u32)
    requires OnlyPiece(wire, wire', data, seqNo) && OnlyPiece(wire', wire'', data, seqNo)
    ensures OnlyPiece(wire, wire'', data, seqNo)
  {
  }

  lemma ProgressNext(was: World, w: World, es: seq<Event>, data: seq<byte>, n: nat)
    requires Progress(was, w, es, data, n)
    ensures w == Run(was, es) && w.c.nxt == Add32(was.c.nxt, n)
  {
  }

  lemma Finished(was: World, w: World, es: seq<Event>, data: seq<byte>, n: nat)
    requires Progress(was, w, es, data, n)
    ensures w == Run(was, es)
    ensures n > 0 && InFlight(was.c) + |data| < HALF ==> Confirmed(was, w, es, n)
  {
  }

  lemma ChunkProgress(was: World, w: World, es: seq<Event>, data: seq<byte>, n: nat, length: nat, more: seq<Event>)
    requires Progress(was, w, es, data, n) && length < HALF && n + length <= |data| && CanSend(w.c) && Heard(more)
    ensures var w' := Run(Next(w, SendStart(length)), more);
      && w' == Run(was, es + [SendStart(length)] + more) && Sending(w'.c)
      && (n > 0 && InFlight(was.c) + |data| < HALF ==> Confirmed(was, w', es + [SendStart(length)] + more, n))
      && (SeqGe(w'.c.una, Add32(w.c.nxt, length))
          ==> Progress(was, w', es + [SendStart(length)] + more, data, n + length))
  {
    hide Run;
    hide SeqGe;
    hide Acknowledged;
    hide InFlight;
    hide Add32;
    hide Covered;
    hide CanSend;
    hide Sending;
    var w' := Run(Next(w, SendStart(length)), more);
    ChunkRun(was, es, length, more);
    ChunkOut(w, length, more);
    AddTwice(was.c.nxt, n, length);
    if InFlight(was.c) + |data| < HALF {
      InFlightAtMost(w.c, was.c, n, length, |data|);
      ChunkAcknowledged(was, w, es, length, more);
      if n > 0 {
        StillCovered(w.c, w'.c, was.c.nxt, n, length);
        AcknowledgedBefore(was, es, [SendStart(length)] + more, Add32(was.c.nxt, n));
        assert es + ([SendStart(length)] + more) == es + [SendStart(length)] + more;
      }
    }
  }

  lemma InFlightAtMost(c: Conn, was: Conn, n: nat, length: nat, total: nat)
    requires InFlight(was) + total < HALF && n + length <= total
    requires if n == 0 then InFlight(c) <= InFlight(was) else InFlight(c) == 0
    ensures InFlight(c) + length < HALF && (length == 0 ==> InFlight(c) <= InFlight(was))
  {
  }

  /** A chunk of some length that leaves nothing in flight was acknowledged by a segment. */
  lemma ChunkAcknowledged(was: World, w: World, es: seq<Event>, length: nat, more: seq<Event>)
    requires w == Run(was, es) && CanSend(w.c) && Heard(more) && InFlight(w.c) + length < HALF
    ensures var w' := Run(Next(w, SendStart(length)), more);
      length > 0 && InFlight(w'.c) == 0
      ==> Acknowledged(was, es + [SendStart(length)] + more, Add32(w.c.nxt, length))
  {
    var start := Next(w, SendStart(length));
    var w' := Run(start, more);
    ClaimInFlight(w.c, length);
    RunAcknowledged(start, more);
    RunAdvances(start, more);
    RunOneMore(was, es, SendStart(length));
    RunKeepsNumbers(start, more);
    NothingLeft(start.c, w'.c);
    hide *;
    if length > 0 && InFlight(w'.c) == 0 {
      AcknowledgedLater(was, es + [SendStart(length)], more, w'.c.una);
    }
  }

  /** When nothing is in flight any more, the last number acknowledged is the last one claimed. */
  lemma NothingLeft(c: Conn, c': Conn)
    requires c'.nxt == c.nxt
    ensures InFlight(c) > 0 && InFlight(c') == 0 ==> c'.una == c'.nxt && c'.una != c.una
  {
    SubIs(c'.nxt, c'.una);
    SubIs(c.nxt, c.una);
    hide Sub32;
  }

  lemma ChunkRun(w: World, es: seq<Event>, length: nat, more: seq<Event>)
    ensures Run(w, es + [SendStart(length)] + more) == Run(Next(Run(w, es), SendStart(length)), more)
  {
    RunOneMore(w, es, SendStart(length));
    RunConcat(w, es + [SendStart(length)], more);
  }

  lemma PiecesOut(from: nat, wire: seq<Sent>, wire': seq<Sent>, base: u32, data: seq<byte>, o: nat, length: nat)
    requires from <= |wire| && OnlyData(wire, from, base, data) && o + length <= |data|
    requires OnlyPiece(wire, wire', data[o..o + length], Add32(base, o))
    ensures wire <= wire' && OnlyData(wire', from, base, data)
  {
    forall k | from <= k < |wire'| && wire'[k].payload != [] ensures CarriesFrom(wire'[k], base, data) {
      if k < |wire| {
        assert wire'[k] == wire[k];
      } else {
        assert o + |wire'[k].payload| <= |data|;
      }
    }
  }

  /** With nothing in flight before a chunk, at most the chunk is in flight after it. */
  lemma StillCovered(c: Conn, c': Conn, base: u32, n: nat, length: nat)
    requires c.nxt == Add32(base, n) && c'.nxt == Add32(c.nxt, length) && InFlight(c') <= length < TWO_TO_THE_32
    ensures Covered(c', base, n)
  {
  }
}
