/** One TCP connection as a value: sequence arithmetic, the segment step, and what whole runs guarantee. */
module TcpSpec {
  import opened ByteStrings

  const TWO_TO_THE_32 := 0x1_0000_0000
  const HALF := 0x8000_0000
  type u32 = n: int | 0 <= n < TWO_TO_THE_32

  const RECV_CAP := 65536
  const DEFAULT_WINDOW := 16384

  function Add32(a: u32, b: int): u32 { (a + b) % TWO_TO_THE_32 }

  function Sub32(a: u32, b: u32): u32 { (a - b) % TWO_TO_THE_32 }

  /** clks_net_tcp_seq_ge: the sign of the wrapped difference, read as a 32-bit two's complement number. */
  predicate SeqGe(left: u32, right: u32) { Sub32(left, right) < HALF }

  /** clks_net_tcp_seq_le */
  predicate SeqLe(left: u32, right: u32) { Sub32(left, right) == 0 || Sub32(left, right) >= HALF }

  /** A 32-bit number read as a signed one. */
  function Signed(n: u32): int { if n < HALF then n else n - TWO_TO_THE_32 }

  /** Both tests are comparisons of the signed difference with zero. */
  lemma SignedTests(left: u32, right: u32)
    ensures SeqGe(left, right) <==> Signed(Sub32(left, right)) >= 0
    ensures SeqLe(left, right) <==> Signed(Sub32(left, right)) <= 0
    ensures -HALF <= Signed(Sub32(left, right)) < HALF
    ensures (left - right - Signed(Sub32(left, right))) % TWO_TO_THE_32 == 0
  {
  }

  datatype State =
    Closed | SynSent | Established | FinWait1 | FinWait2 | CloseWait | LastAck | Listen | SynReceived

  datatype Segment = Segment(srcIp: u32, srcPort: nat, dstPort: nat, seqNo: u32, ackNo: u32,
                             fin: bool, syn: bool, rst: bool, ack: bool, payload: seq<byte>)

  /** struct clks_net_tcp_conn, with the receive ring as the queue of its unread bytes. */
  datatype Conn = Conn(active: bool, peerFin: bool, resetSeen: bool, state: State,
                       remoteIp: u32, remoteAlt: u32, remotePort: nat, localPort: nat,
                       iss: u32, una: u32, nxt: u32, rcv: u32, stale: bool, queue: seq<byte>)

  const RESET_CONN := Conn(false, false, false, Closed, 0, 0, 0, 0, 0, 0, 0, 0, false, [])

  /** clks_net_tcp_recv_push for one byte: a full ring forgets its oldest byte. */
  function PushByte(queue: seq<byte>, b: byte): seq<byte> {
    if |queue| >= RECV_CAP then queue[1..] + [b] else queue + [b]
  }

  function Push(queue: seq<byte>, payload: seq<byte>): seq<byte>
    decreases |payload|
  {
    if payload == [] then queue else PushByte(Push(queue, payload[..|payload| - 1]), payload[|payload| - 1])
  }

  /** The window every outgoing segment advertises. */
  function Window(c: Conn): nat {
    var free := RECV_CAP - |c.queue|;
    if 0 <= free < DEFAULT_WINDOW then free else if free < 0 then 0 else DEFAULT_WINDOW
  }

  /** Past the handshake's first segment: the peer's initial sequence number is known. */
  predicate PeerKnown(c: Conn) { c.state != Listen && c.state != SynSent }

  predicate FromPeer(c: Conn, s: Segment) {
    (c.remoteIp == s.srcIp || (c.remoteAlt != 0 && c.remoteAlt == s.srcIp))
    && c.remotePort == s.srcPort && c.localPort == s.dstPort
  }

  function AckStep(c: Conn, s: Segment): Conn {
    if s.ack && SeqGe(s.ackNo, c.una) && SeqLe(s.ackNo, c.nxt) then c.(una := s.ackNo) else c
  }

  function PayloadStep(c: Conn, s: Segment): Conn {
    if s.payload != [] && s.seqNo == c.rcv
    then c.(queue := Push(c.queue, s.payload), rcv := Add32(c.rcv, |s.payload|)) else c
  }

  function FinStep(c: Conn, s: Segment): Conn {
    if !s.fin then c
    else
      var counted := if Add32(s.seqNo, |s.payload|) == c.rcv then c.(rcv := Add32(c.rcv, 1)) else c;
      var seen := counted.(peerFin := true);
      if c.state == Established then seen.(state := CloseWait)
      else if c.state == FinWait2 then seen.(state := Closed, active := false)
      else seen
  }

  function OwnFinStep(c: Conn): Conn {
    if c.state == FinWait1 && SeqGe(c.una, c.nxt) then
      if c.peerFin then c.(state := Closed, active := false) else c.(state := FinWait2)
    else if c.state == LastAck && SeqGe(c.una, c.nxt) then c.(state := Closed, active := false)
    else c
  }

  function Synchronized(c: Conn, s: Segment): Conn {
    OwnFinStep(FinStep(PayloadStep(AckStep(c, s), s), s))
  }

  /** clks_net_process_tcp on a well-formed segment; `iss` is the initial sequence number it would pick. */
  function Receive(c: Conn, s: Segment, iss: u32): Conn {
    if !c.active then c
    else if c.state == Listen then
      if s.syn && s.dstPort == c.localPort
      then c.(remoteIp := s.srcIp, remoteAlt := 0, remotePort := s.srcPort, iss := iss, una := iss,
              nxt := Add32(iss, 1), rcv := Add32(s.seqNo, 1), state := SynReceived)
      else c
    else if !FromPeer(c, s) then c
    else if s.rst then c.(resetSeen := true, active := false, state := Closed)
    else if c.state == SynSent then
      if s.syn && s.ack && s.ackNo == c.nxt
      then c.(una := s.ackNo, rcv := Add32(s.seqNo, 1), state := Established)
      else if !s.syn && s.ack then c.(stale := true) else c
    else if c.state == SynReceived then
      if s.ack && s.ackNo == c.nxt then Synchronized(c.(una := s.ackNo, state := Established), s) else c
    else Synchronized(c, s)
  }

  /** Whether a segment reaches the acknowledgement, payload and FIN processing. */
  predicate Processes(c: Conn, s: Segment) {
    && c.active && PeerKnown(c) && FromPeer(c, s) && !s.rst
    && (c.state == SynReceived ==> s.ack && s.ackNo == c.nxt)
  }

  /** Whether the step takes the segment's payload into the ring. */
  predicate Accepts(c: Conn, s: Segment) { Processes(c, s) && s.payload != [] && s.seqNo == c.rcv }

  // ---------- sequence arithmetic ----------

  function InFlight(c: Conn): u32 { Sub32(c.nxt, c.una) }

  /**
   The two signed comparisons accept exactly the acknowledgements from una to nxt, modulo 2^32, if and only if
   fewer than 2^31 sequence numbers are in flight.
   */
  lemma AckWindowExactIff(una: u32, nxt: u32)
    ensures (forall a: u32 :: SeqGe(a, una) && SeqLe(a, nxt) <==> Sub32(a, una) <= Sub32(nxt, una))
            <==> Sub32(nxt, una) < HALF
  {
    if Sub32(nxt, una) >= HALF {
      assert !SeqGe(nxt, una) && Sub32(nxt, una) <= Sub32(nxt, una);
    } else {
      forall a: u32 ensures SeqGe(a, una) && SeqLe(a, nxt) <==> Sub32(a, una) <= Sub32(nxt, una) {
        AckInWindow(a, una, nxt);
      }
    }
  }

  /** The wrapped difference, spelled out. */
  lemma SubIs(a: u32, b: u32)
    ensures Sub32(a, b) == if a >= b then a - b else a - b + TWO_TO_THE_32
  {
  }

  lemma AckInWindow(a: u32, una: u32, nxt: u32)
    requires Sub32(nxt, una) < HALF
    ensures SeqGe(a, una) && SeqLe(a, nxt) <==> Sub32(a, una) <= Sub32(nxt, una)
    ensures Sub32(a, una) <= Sub32(nxt, una) ==> Sub32(nxt, a) == Sub32(nxt, una) - Sub32(a, una)
  {
    hide Sub32;
    SubIs(a, una);
    SubIs(nxt, una);
    SubIs(a, nxt);
    SubIs(nxt, a);
  }

  // ---------- runs ----------

  /**
   What can happen to a connection: the network delivers, the application reads, sends or closes, a segment leaves.
   */
  datatype Event =
    | Deliver(s: Segment, iss: u32)
    | Read(limit: nat)
    | Transmit
    | SendStart(length: nat)
    | CloseStart

  /**
   A connection with its history: bytes taken in, bytes handed to the application, furthest window edge advertised.
   */
  datatype World = World(c: Conn, delivered: seq<byte>, read: seq<byte>, edge: nat)

  function Max(a: nat, b: nat): nat { if a < b then b else a }

  /** clks_net_tcp_recv_pop */
  function Popped(queue: seq<byte>, limit: nat): seq<byte> {
    if limit < |queue| then queue[..limit] else queue
  }

  /** A read gets the oldest bytes, as many as there are and as it has room for. */
  lemma PoppedIs(queue: seq<byte>, limit: nat)
    ensures Popped(queue, limit) <= queue
    ensures |Popped(queue, limit)| == if limit < |queue| then limit else |queue|
  {
  }

  /** The window is what the ring has free, up to 16384, so it is closed only when the ring is full. */
  lemma WindowIs(c: Conn)
    requires |c.queue| <= RECV_CAP
    ensures Window(c) <= DEFAULT_WINDOW && Window(c) <= RECV_CAP - |c.queue|
    ensures Window(c) == DEFAULT_WINDOW || Window(c) == RECV_CAP - |c.queue|
  {
  }

  function Next(w: World, e: Event): World {
    match e
    case Deliver(s, iss) =>
      World(Receive(w.c, s, iss), w.delivered + (if Accepts(w.c, s) then s.payload else []), w.read, w.edge)
    case Read(limit) =>
      var out := Popped(w.c.queue, limit);
      w.(c := w.c.(queue := w.c.queue[|out|..]), read := w.read + out)
    case Transmit => w.(edge := Max(w.edge, |w.delivered| + Window(w.c)))
    case SendStart(length) => w.(c := StartSend(w.c, length))
    case CloseStart => w.(c := StartClose(w.c))
  }

  predicate CanSend(c: Conn) { c.active && (c.state == Established || c.state == CloseWait) }

  /** clks_net_tcp_send claims sequence numbers for one chunk. */
  function StartSend(c: Conn, length: nat): Conn {
    if CanSend(c) then c.(nxt := Add32(c.nxt, length)) else c
  }

  /** clks_net_tcp_close claims the sequence number of the FIN. */
  function StartClose(c: Conn): Conn {
    if CanSend(c)
    then c.(nxt := Add32(c.nxt, 1), state := if c.state == CloseWait then LastAck else FinWait1) else c
  }

  function Run(w: World, es: seq<Event>): World
    decreases |es|
  {
    if es == [] then w else Next(Run(w, es[..|es| - 1]), es[|es| - 1])
  }

  // ---------- the receiving side ----------

  /** The segment carries the bytes of `stream` from offset `o`, and a FIN only at its end. */
  predicate Carries(s: Segment, irs: u32, stream: seq<byte>, o: nat) {
    && o + |s.payload| <= |stream| && s.payload == stream[o..o + |s.payload|]
    && s.seqNo == Add32(irs, 1 + o) && (s.fin ==> o + |s.payload| == |stream|)
  }

  /** What an honest peer may send in state `w`; with `flow`, only inside the window edges it has seen. */
  ghost predicate Honest(w: World, s: Segment, irs: u32, stream: seq<byte>, flow: bool) {
    (s.payload == [] && !s.fin)
    || exists o: nat :: Carries(s, irs, stream, o) && (flow && s.payload != [] ==> o + |s.payload| <= w.edge)
  }

  ghost predicate HonestRun(w: World, es: seq<Event>, irs: u32, stream: seq<byte>, flow: bool)
    decreases |es|
  {
    es == [] ||
    (var before := Run(w, es[..|es| - 1]);
     var e := es[|es| - 1];
     && HonestRun(w, es[..|es| - 1], irs, stream, flow)
     && (e.Deliver? && FromPeer(before.c, e.s) ==> Honest(before, e.s, irs, stream, flow)))
  }

  /** The connection took in a prefix of the stream, and rcv_nxt counts it, plus one once the FIN is counted. */
  ghost predicate InSequence(w: World, irs: u32, stream: seq<byte>) {
    && PeerKnown(w.c)
    && w.delivered <= stream
    && Counts(w.c.rcv, irs, |w.delivered|, |stream|)
  }

  /** Nothing the connection took in is lost: it was read, or waits in the ring, and the ring never overflows. */
  ghost predicate NothingLost(w: World) {
    && w.read + w.c.queue == w.delivered && |w.c.queue| <= RECV_CAP && w.edge <= |w.read| + RECV_CAP
  }

  /** The handshake segment leaves a connection that has received nothing yet and expects the peer's first byte. */
  lemma HandshakeStarts(w: World, s: Segment, iss: u32, stream: seq<byte>)
    requires !PeerKnown(w.c) && w.delivered == []
    requires PeerKnown(Receive(w.c, s, iss)) && Receive(w.c, s, iss).active
    ensures InSequence(Next(w, Deliver(s, iss)), s.seqNo, stream)
    ensures NothingLost(w) ==> NothingLost(Next(w, Deliver(s, iss)))
  {
  }

  /** The bound 2^32 - 1 on the stream makes the wrapped sequence number name one offset only. */
  lemma SameOffset(irs: u32, a: nat, b: nat)
    requires a < TWO_TO_THE_32 && b < TWO_TO_THE_32 && Add32(irs, 1 + a) == Add32(irs, 1 + b)
    ensures a == b
  {
  }

  lemma AddTwice(a: u32, x: nat, y: nat)
    ensures Add32(Add32(a, x), y) == Add32(a, x + y)
  {
  }

  /** `rcv` counts `n` bytes of a stream of `total`, plus one if the FIN behind them is counted. */
  predicate Counts(rcv: u32, irs: u32, n: nat, total: nat) {
    rcv == Add32(irs, 1 + n) || (n == total && rcv == Add32(irs, 2 + n))
  }

  /** A payload that starts at the expected number is the next piece of the stream, and is counted exactly. */
  lemma PayloadCounts(rcv: u32, irs: u32, n: nat, total: nat, o: nat, length: nat)
    requires Counts(rcv, irs, n, total) && n <= total < TWO_TO_THE_32 - 1 && 0 < length && o + length <= total
    requires rcv == Add32(irs, 1 + o)
    ensures o == n && Counts(Add32(rcv, length), irs, n + length, total)
  {
    SameOffset(irs, o, if rcv == Add32(irs, 1 + n) then n else n + 1);
    AddTwice(irs, 1 + n, length);
  }

  /** A FIN at the end of the stream is counted when all bytes before it are, and only once. */
  lemma FinCounts(rcv: u32, irs: u32, n: nat, total: nat)
    requires Counts(rcv, irs, n, total) && n <= total < TWO_TO_THE_32 - 1
    ensures rcv == Add32(irs, 1 + total) ==> n == total && Counts(Add32(rcv, 1), irs, n, total)
  {
    if rcv == Add32(irs, 1 + total) {
      SameOffset(irs, total, if rcv == Add32(irs, 1 + n) then n else n + 1);
      AddTwice(irs, 1 + n, 1);
    }
  }

  /** The acknowledgement only moves una. */
  lemma AckStepOnly(c: Conn, s: Segment)
    ensures AckStep(c, s) == c.(una := AckStep(c, s).una)
  {
  }

  /** Acknowledging the own FIN only moves the state. */
  lemma OwnFinStepOnly(c: Conn)
    requires PeerKnown(c)
    ensures OwnFinStep(c) == c.(state := OwnFinStep(c).state, active := OwnFinStep(c).active)
    ensures PeerKnown(OwnFinStep(c))
  {
  }

  function RcvAfterFin(rcv: u32, s: Segment): u32 {
    if s.fin && Add32(s.seqNo, |s.payload|) == rcv then Add32(rcv, 1) else rcv
  }

  lemma FinStepReceives(c: Conn, s: Segment)
    requires PeerKnown(c)
    ensures var c' := FinStep(c, s);
      c'.queue == c.queue && c'.rcv == RcvAfterFin(c.rcv, s) && PeerKnown(c') && FromPeer(c', s) == FromPeer(c, s)
  {
    hide Add32;
    FinStepOnly(c, s);
    hide FinStep;
  }

  /** A FIN moves the number expected next, and otherwise only the state. */
  lemma FinStepOnly(c: Conn, s: Segment)
    requires PeerKnown(c)
    ensures var c' := FinStep(c, s);
      && c' == c.(rcv := c'.rcv, peerFin := c'.peerFin, state := c'.state, active := c'.active)
      && c'.rcv == RcvAfterFin(c.rcv, s) && PeerKnown(c')
  {
    hide Add32;
    FinCounted(c, s);
    hide RcvAfterFin;
  }

  lemma FinCounted(c: Conn, s: Segment)
    ensures s.fin ==> (if Add32(s.seqNo, |s.payload|) == c.rcv then c.(rcv := Add32(c.rcv, 1)) else c)
                      == c.(rcv := RcvAfterFin(c.rcv, s))
    ensures !s.fin ==> RcvAfterFin(c.rcv, s) == c.rcv
  {
    hide Add32;
  }

  lemma PayloadStepReceives(c: Conn, s: Segment)
    requires PeerKnown(c)
    ensures var took, c' := s.payload != [] && s.seqNo == c.rcv, PayloadStep(c, s);
      && c'.queue == (if took then Push(c.queue, s.payload) else c.queue)
      && c'.rcv == (if took then Add32(c.rcv, |s.payload|) else c.rcv)
      && PeerKnown(c') && FromPeer(c', s) == FromPeer(c, s)
  {
    hide Add32;
    hide Push;
  }

  /** What the synchronized states do to the receive side, whatever the send side does. */
  lemma SynchronizedReceives(c: Conn, s: Segment)
    requires PeerKnown(c)
    ensures var took, c' := s.payload != [] && s.seqNo == c.rcv, Synchronized(c, s);
      && c'.queue == (if took then Push(c.queue, s.payload) else c.queue)
      && c'.rcv == RcvAfterFin(if took then Add32(c.rcv, |s.payload|) else c.rcv, s)
      && PeerKnown(c') && FromPeer(c', s) == FromPeer(c, s)
  {
    AckStepOnly(c, s);
    PayloadStepReceives(AckStep(c, s), s);
    FinStepReceives(PayloadStep(AckStep(c, s), s), s);
    OwnFinStepOnly(FinStep(PayloadStep(AckStep(c, s), s), s));
    hide AckStep;
    hide PayloadStep;
    hide FinStep;
    hide OwnFinStep;
    hide Add32;
    hide Push;
    hide RcvAfterFin;
  }

  /** The receive side after any segment: payload and FIN count when the segment is processed, and only then. */
  lemma ReceiveReceives(c: Conn, s: Segment, iss: u32)
    requires PeerKnown(c)
    ensures var c' := Receive(c, s, iss);
      && PeerKnown(c') && c'.queue == (if Accepts(c, s) then Push(c.queue, s.payload) else c.queue)
      && c'.rcv == if Processes(c, s)
                   then RcvAfterFin(if Accepts(c, s) then Add32(c.rcv, |s.payload|) else c.rcv, s) else c.rcv
  {
    var d := if c.state == SynReceived then c.(una := s.ackNo, state := Established) else c;
    if Processes(c, s) {
      SynchronizedReceives(d, s);
    }
    hide Synchronized;
    hide Add32;
    hide Push;
    hide RcvAfterFin;
  }

  lemma DeliverInSequence(w: World, s: Segment, iss: u32, irs: u32, stream: seq<byte>)
    requires InSequence(w, irs, stream) && |stream| < TWO_TO_THE_32 - 1
    requires FromPeer(w.c, s) ==> Honest(w, s, irs, stream, false)
    ensures InSequence(Next(w, Deliver(s, iss)), irs, stream)
  {
    ReceiveReceives(w.c, s, iss);
    if Processes(w.c, s) {
      SynchronizedInSequence(w, s, irs, stream);
    }
    hide Receive;
    hide Add32;
    hide Push;
    hide RcvAfterFin;
    hide Counts;
    hide Honest;
  }

  lemma SynchronizedInSequence(w: World, s: Segment, irs: u32, stream: seq<byte>)
    requires InSequence(w, irs, stream) && |stream| < TWO_TO_THE_32 - 1 && Honest(w, s, irs, stream, false)
    ensures var took := s.payload != [] && s.seqNo == w.c.rcv;
      var rcv := if took then Add32(w.c.rcv, |s.payload|) else w.c.rcv;
      var rcv' := RcvAfterFin(rcv, s);
      var delivered := w.delivered + (if took then s.payload else []);
      delivered <= stream && Counts(rcv', irs, |delivered|, |stream|)
  {
    if s.payload != [] || s.fin {
      var o: nat :| Carries(s, irs, stream, o);
      var n, took := |w.delivered|, s.payload != [] && s.seqNo == w.c.rcv;
      if took {
        PayloadCounts(w.c.rcv, irs, n, |stream|, o, |s.payload|);
        assert w.delivered + s.payload == stream[..n + |s.payload|];
      }
      if s.fin {
        AddTwice(irs, 1 + o, |s.payload|);
        FinCounts(if took then Add32(w.c.rcv, |s.payload|) else w.c.rcv, irs, if took then n + |s.payload| else n,
          |stream|);
      }
    }
  }

  /** Whatever is lost, repeated or reordered on the way, the bytes taken in are a prefix of the stream. */
  lemma {:induction false} DeliversPrefix(w: World, es: seq<Event>, irs: u32, stream: seq<byte>)
    requires InSequence(w, irs, stream) && |stream| < TWO_TO_THE_32 - 1 && HonestRun(w, es, irs, stream, false)
    ensures InSequence(Run(w, es), irs, stream)
  {
    if es != [] {
      DeliversPrefix(w, es[..|es| - 1], irs, stream);
      var before, e := Run(w, es[..|es| - 1]), es[|es| - 1];
      if e.Deliver? {
        DeliverInSequence(before, e.s, e.iss, irs, stream);
      }
    }
  }

  // ---------- flow control ----------

  /** What the ring keeps of old and new bytes together is the last 65536 of them. */
  lemma {:induction false} PushKeepsLast(queue: seq<byte>, payload: seq<byte>)
    requires |queue| <= RECV_CAP
    ensures var all := queue + payload;
      Push(queue, payload) == if |all| <= RECV_CAP then all else all[|all| - RECV_CAP..]
  {
    if payload == [] {
      assert queue + payload == queue;
    } else {
      var shorter, last := payload[..|payload| - 1], payload[|payload| - 1];
      PushKeepsLast(queue, shorter);
      assert queue + payload == queue + shorter + [last];
    }
  }

  /** An accepted payload from a peer that keeps to the advertised edges fits behind the unread bytes. */
  lemma AcceptedFits(w: World, s: Segment, irs: u32, stream: seq<byte>)
    requires InSequence(w, irs, stream) && NothingLost(w) && |stream| < TWO_TO_THE_32 - 1
    requires Accepts(w.c, s) && Honest(w, s, irs, stream, true)
    ensures Push(w.c.queue, s.payload) == w.c.queue + s.payload && |w.c.queue| + |s.payload| <= RECV_CAP
  {
    var o: nat :| Carries(s, irs, stream, o) && o + |s.payload| <= w.edge;
    PayloadCounts(w.c.rcv, irs, |w.delivered|, |stream|, o, |s.payload|);
    PushKeepsLast(w.c.queue, s.payload);
  }

  /** A peer that keeps to the advertised edges never makes the ring overwrite an unread byte. */
  lemma DeliverLosesNothing(w: World, s: Segment, iss: u32, irs: u32, stream: seq<byte>)
    requires InSequence(w, irs, stream) && NothingLost(w) && |stream| < TWO_TO_THE_32 - 1
    requires FromPeer(w.c, s) ==> Honest(w, s, irs, stream, true)
    ensures NothingLost(Next(w, Deliver(s, iss)))
  {
    assert PeerKnown(w.c);
    hide Receive;
    hide Add32;
    hide Push;
    hide RcvAfterFin;
    hide Honest;
    hide InSequence;
    ReceiveReceives(w.c, s, iss);
    if Accepts(w.c, s) {
      AcceptedFits(w, s, irs, stream);
      assert w.read + (w.c.queue + s.payload) == (w.read + w.c.queue) + s.payload;
    }
  }

  lemma StepLosesNothing(w: World, e: Event)
    requires NothingLost(w) && !e.Deliver?
    ensures NothingLost(Next(w, e))
  {
    match e
    case Read(limit) =>
      var out := Popped(w.c.queue, limit);
      assert w.c.queue == out + w.c.queue[|out|..];
    case _ =>
  }

  lemma HonestWithoutEdges(w: World, es: seq<Event>, irs: u32, stream: seq<byte>)
    requires HonestRun(w, es, irs, stream, true)
    ensures HonestRun(w, es, irs, stream, false)
    decreases |es|
  {
    if es != [] {
      HonestWithoutEdges(w, es[..|es| - 1], irs, stream);
    }
  }

  /**
   With a peer that keeps to the advertised window, what the application has read and what still waits in the ring
   concatenate to exactly the bytes taken in, which are a prefix of what the peer sent.
   */
  lemma {:induction false} ReadsConcatenateToPrefix(w: World, es: seq<Event>, irs: u32, stream: seq<byte>)
    requires InSequence(w, irs, stream) && NothingLost(w) && |stream| < TWO_TO_THE_32 - 1
    requires HonestRun(w, es, irs, stream, true)
    ensures NothingLost(Run(w, es)) && Run(w, es).delivered <= stream && Run(w, es).read <= stream
  {
    HonestWithoutEdges(w, es, irs, stream);
    DeliversPrefix(w, es, irs, stream);
    if es != [] {
      var shorter, e := es[..|es| - 1], es[|es| - 1];
      HonestWithoutEdges(w, shorter, irs, stream);
      DeliversPrefix(w, shorter, irs, stream);
      ReadsConcatenateToPrefix(w, shorter, irs, stream);
      if e.Deliver? {
        DeliverLosesNothing(Run(w, shorter), e.s, e.iss, irs, stream);
      } else {
        StepLosesNothing(Run(w, shorter), e);
      }
    }
    var end := Run(w, es);
    assert end.read <= end.delivered;
  }

  // ---------- the sending side ----------

  /** `c'` acknowledges at least what `c` did and at most what was sent: una moved forward, never past nxt. */
  predicate Advanced(c: Conn, c': Conn) {
    c'.nxt == c.nxt && Sub32(c'.una, c.una) <= InFlight(c) && InFlight(c') == InFlight(c) - Sub32(c'.una, c.una)
  }

  lemma AckStepAdvances(c: Conn, s: Segment)
    requires InFlight(c) < HALF
    ensures Advanced(c, AckStep(c, s))
  {
    AckInWindow(s.ackNo, c.una, c.nxt);
  }

  lemma LaterStepsKeepSendSide(c: Conn, s: Segment)
    ensures PayloadStep(c, s).una == c.una && PayloadStep(c, s).nxt == c.nxt
    ensures FinStep(c, s).una == c.una && FinStep(c, s).nxt == c.nxt
    ensures OwnFinStep(c).una == c.una && OwnFinStep(c).nxt == c.nxt
  {
  }

  lemma SynchronizedAdvances(c: Conn, s: Segment)
    requires InFlight(c) < HALF
    ensures Advanced(c, Synchronized(c, s))
  {
    AckStepAdvances(c, s);
    var c1 := AckStep(c, s);
    LaterStepsKeepSendSide(c1, s);
    LaterStepsKeepSendSide(PayloadStep(c1, s), s);
    LaterStepsKeepSendSide(FinStep(PayloadStep(c1, s), s), s);
    hide AckStep;
    hide PayloadStep;
    hide FinStep;
    hide OwnFinStep;
    hide Sub32;
  }

  /** No segment, whatever it acknowledges, moves una backwards or past nxt. */
  lemma ReceiveAdvances(c: Conn, s: Segment, iss: u32)
    requires PeerKnown(c) && InFlight(c) < HALF
    ensures Advanced(c, Receive(c, s, iss))
  {
    var d := if c.state == SynReceived then c.(una := s.ackNo, state := Established) else c;
    if Processes(c, s) {
      SynchronizedAdvances(d, s);
    }
    hide Synchronized;
  }

  /**
   What a segment leaves as the last number acknowledged: its own, if it lies between what was acknowledged and what was
   sent, and otherwise the one before.
   */
  lemma ReceiveAcknowledges(c: Conn, s: Segment, iss: u32)
    requires PeerKnown(c) && InFlight(c) < HALF
    ensures Receive(c, s, iss).una
            == if Processes(c, s) && s.ack && Sub32(s.ackNo, c.una) <= InFlight(c) then s.ackNo else c.una
  {
    hide Add32;
    if Processes(c, s) {
      var d := if c.state == SynReceived then c.(una := s.ackNo, state := Established) else c;
      AckInWindow(s.ackNo, c.una, c.nxt);
      AckInWindow(s.ackNo, d.una, d.nxt);
      NothingBetween(s.ackNo);
      SynchronizedUna(d, s);
    }
    hide Synchronized;
    hide SeqGe;
    hide SeqLe;
    hide Sub32;
  }

  lemma NothingBetween(a: u32)
    ensures Sub32(a, a) == 0
  {
  }

  lemma SynchronizedUna(c: Conn, s: Segment)
    ensures Synchronized(c, s).una == AckStep(c, s).una
  {
    var c1 := AckStep(c, s);
    LaterStepsKeepSendSide(c1, s);
    LaterStepsKeepSendSide(PayloadStep(c1, s), s);
    LaterStepsKeepSendSide(FinStep(PayloadStep(c1, s), s), s);
    hide AckStep;
    hide PayloadStep;
    hide FinStep;
    hide OwnFinStep;
  }

  // ---------- states ----------

  /** What holds of the state fields between any two events of a connection's life. */
  predicate StateInv(c: Conn) {
    && (c.active <==> c.state != Closed) && (c.resetSeen ==> !c.active)
    && (c.peerFin ==> c.state in {CloseWait, FinWait1, LastAck, Closed})
  }

  lemma FinStepKeepsState(c: Conn, s: Segment)
    requires StateInv(c) && c.state !in {Closed, Listen, SynSent, SynReceived}
    ensures StateInv(FinStep(c, s)) && FinStep(c, s).state in {c.state, CloseWait, Closed}
  {
    hide Add32;
  }

  lemma ReceiveKeepsState(c: Conn, s: Segment, iss: u32)
    requires StateInv(c)
    ensures StateInv(Receive(c, s, iss))
  {
    if Processes(c, s) {
      var d := if c.state == SynReceived then c.(una := s.ackNo, state := Established) else c;
      var d1 := PayloadStep(AckStep(d, s), s);
      assert d1.state == d.state && d1.active == d.active && d1.peerFin == d.peerFin;
      FinStepKeepsState(d1, s);
      hide FinStep;
      hide PayloadStep;
      hide AckStep;
      assert StateInv(Synchronized(d, s));
    }
    hide Synchronized;
    hide Add32;
  }

  /** Every event keeps active in step with the state, and a seen FIN only where the state machine can be. */
  lemma StepKeepsState(w: World, e: Event)
    requires StateInv(w.c)
    ensures StateInv(Next(w, e).c)
  {
    if e.Deliver? {
      ReceiveKeepsState(w.c, e.s, e.iss);
    }
    hide Receive;
    hide Add32;
  }

  /**
   Without a reset, FIN_WAIT1 and LAST_ACK are left exactly when everything sent, the own FIN included, is
   acknowledged.
   */
  lemma OwnFinAcked(c: Conn, s: Segment, iss: u32)
    requires c.active && c.state in {FinWait1, LastAck} && InFlight(c) < HALF && FromPeer(c, s) && !s.rst
    ensures Receive(c, s, iss).state != c.state <==> Receive(c, s, iss).una == Receive(c, s, iss).nxt
  {
    SynchronizedAdvances(c, s);
    var d := FinStep(PayloadStep(AckStep(c, s), s), s);
    LaterStepsKeepSendSide(d, s);
    assert d.state == c.state by {
      hide Add32;
    }
    assert SeqGe(d.una, d.nxt) <==> d.una == d.nxt by {
      GeMeansEqual(d.una, d.nxt);
    }
    hide AckStep;
    hide PayloadStep;
    hide FinStep;
    hide SeqGe;
  }

  /**
   The transitions of section 3.9 of RFC 793 for a segment that is processed, once the connection is up: by the FIN it
   carries, and by whether everything sent is acknowledged behind it.
   */
  lemma StateTable(c: Conn, s: Segment, iss: u32)
    requires StateInv(c) && Processes(c, s) && InFlight(c) < HALF && c.state != SynReceived
    ensures var c' := Receive(c, s, iss);
      var acked := c'.una == c'.nxt;
      && c'.peerFin == (c.peerFin || s.fin) && c'.resetSeen == c.resetSeen && c'.stale == c.stale
      && c'.state == (match c.state
                      case Established => if s.fin then CloseWait else Established
                      case FinWait1 => if !acked then FinWait1 else if c'.peerFin then Closed else FinWait2
                      case FinWait2 => if s.fin then Closed else FinWait2
                      case LastAck => if acked then Closed else LastAck
                      case _ => c.state)
      && (c'.active <==> c'.state != Closed)
  {
    var c1 := AckStep(c, s);
    var c2 := PayloadStep(c1, s);
    var c3 := FinStep(c2, s);
    LaterStepsKeepSendSide(c1, s);
    LaterStepsKeepSendSide(c2, s);
    LaterStepsKeepSendSide(c3, s);
    AckStepAdvances(c, s);
    SameStates(c, s);
    SameStates(c1, s);
    FinTable(c2, s);
    GeMeansEqual(c3.una, c3.nxt);
    hide AckStep;
    hide PayloadStep;
    hide FinStep;
    hide SeqGe;
    hide Sub32;
    OwnFinTable(c3);
    hide OwnFinStep;
  }

  lemma SameStates(c: Conn, s: Segment)
    ensures var a := AckStep(c, s); a == c.(una := a.una)
    ensures var p := PayloadStep(c, s); p == c.(rcv := p.rcv, queue := p.queue)
  {
    hide Add32;
    hide Push;
  }

  lemma FinTable(c: Conn, s: Segment)
    ensures var c' := FinStep(c, s);
      && c'.peerFin == (c.peerFin || s.fin) && c'.resetSeen == c.resetSeen && c'.stale == c.stale
      && c'.state == (if s.fin && c.state == Established then CloseWait
                      else if s.fin && c.state == FinWait2 then Closed else c.state)
      && c'.active == (c.active && !(s.fin && c.state == FinWait2))
  {
    hide Add32;
  }

  lemma OwnFinTable(c: Conn)
    ensures var c' := OwnFinStep(c);
      && c'.peerFin == c.peerFin && c'.resetSeen == c.resetSeen && c'.stale == c.stale
      && c'.state == (if c.state == FinWait1 && SeqGe(c.una, c.nxt) then (if c.peerFin then Closed else FinWait2)
                      else if c.state == LastAck && SeqGe(c.una, c.nxt) then Closed else c.state)
      && c'.active == (c.active && (c'.state == c.state || c'.state == FinWait2))
  {
    hide SeqGe;
  }

  /** A reset from the peer ends whatever is going on, and is remembered. */
  lemma ResetEnds(c: Conn, s: Segment, iss: u32)
    requires c.active && c.state != Listen && FromPeer(c, s) && s.rst
    ensures Receive(c, s, iss) == c.(resetSeen := true, active := false, state := Closed)
  {
    hide Synchronized;
  }

  /** The other end, and the own port. */
  predicate SamePeer(c: Conn, c': Conn) {
    && c'.remoteIp == c.remoteIp && c'.remoteAlt == c.remoteAlt && c'.remotePort == c.remotePort
    && c'.localPort == c.localPort
  }

  /** No segment turns a connection over to somebody else, or makes it listen again. */
  lemma PeerStays(c: Conn, s: Segment, iss: u32)
    requires c.state != Listen
    ensures Receive(c, s, iss).state != Listen && SamePeer(c, Receive(c, s, iss))
  {
    SynchronizedPeer(c, s);
    SynchronizedPeer(c.(una := s.ackNo, state := Established), s);
    hide Synchronized;
    hide FromPeer;
  }

  lemma SynchronizedPeer(c: Conn, s: Segment)
    requires c.state != Listen
    ensures Synchronized(c, s).state != Listen && SamePeer(c, Synchronized(c, s))
  {
    var c1 := AckStep(c, s);
    var c2 := PayloadStep(c1, s);
    FinTable(c2, s);
    OwnFinTable(FinStep(c2, s));
    FinPeers(c2, s);
    hide FinStep;
    hide OwnFinStep;
  }

  lemma FinPeers(c: Conn, s: Segment)
    ensures SamePeer(c, FinStep(c, s)) && SamePeer(FinStep(c, s), OwnFinStep(FinStep(c, s)))
  {
    hide Add32;
    hide SeqGe;
  }

  /** A segment that is sent advertises the end of the window, which only moves on. */
  lemma EdgeMoves(w: World)
    ensures var edge, told := Next(w, Transmit).edge, |w.delivered| + Window(w.c);
      edge >= w.edge && edge >= told && (edge == w.edge || edge == told)
  {
  }

  /**
   Sending claims numbers, in ESTABLISHED and CLOSE_WAIT alone; closing leads from the one to FIN_WAIT1 and from the
   other to LAST_ACK, as in section 3.5 of RFC 793.
   */
  lemma CallTable(c: Conn, length: nat)
    requires c.active
    ensures var s, f := StartSend(c, length), StartClose(c);
      && s.state == c.state && SamePeer(c, s) && SamePeer(c, f) && s.una == f.una == c.una && s.rcv == f.rcv == c.rcv
      && f.state == (match c.state case Established => FinWait1 case CloseWait => LastAck case _ => c.state)
      && s.nxt == (if c.state in {Established, CloseWait} then Add32(c.nxt, length) else c.nxt)
      && f.nxt == (if c.state in {Established, CloseWait} then Add32(c.nxt, 1) else c.nxt)
  {
    hide Add32;
  }

  /** A listening connection becomes one with the sender of the first SYN to its port, and with nobody else. */
  lemma ListenTakes(c: Conn, s: Segment, iss: u32, t: Segment)
    requires c.active && c.state == Listen && s.syn && s.dstPort == c.localPort
    ensures FromPeer(Receive(c, s, iss), t)
            <==> t.srcIp == s.srcIp && t.srcPort == s.srcPort && t.dstPort == c.localPort
    ensures Receive(c, s, iss).state == SynReceived && Receive(c, s, iss).queue == c.queue
  {
    hide Synchronized;
    hide Add32;
  }

  /** What this side acknowledges is the number behind the bytes it has taken in, or behind the FIN after them. */
  lemma AcksCount(w: World, irs: u32, stream: seq<byte>)
    requires InSequence(w, irs, stream)
    ensures w.c.rcv == Add32(irs, 1 + |w.delivered|)
            || (w.delivered == stream && w.c.rcv == Add32(irs, 2 + |stream|))
  {
  }

  lemma GeMeansEqual(una: u32, nxt: u32)
    requires Sub32(nxt, una) < HALF
    ensures SeqGe(una, nxt) <==> una == nxt
  {
  }

  // ---------- chunking ----------

  const SEND_MAX_SEGMENT := 1200

  /** The chunk clks_net_tcp_send cuts next: the remainder is narrowed to 16 bits before it is capped. */
  function ChunkLength(remaining: nat): (length: nat)
    ensures length <= remaining && length <= SEND_MAX_SEGMENT
  {
    if remaining % 0x1_0000 > SEND_MAX_SEGMENT then SEND_MAX_SEGMENT else remaining % 0x1_0000
  }

  /** What is left to send after so many acknowledged chunks. */
  function LeftAfter(length: nat, chunks: nat): nat {
    if chunks == 0 then length else LeftAfter(length, chunks - 1) - ChunkLength(LeftAfter(length, chunks - 1))
  }

  /**
   Even if the peer acknowledges every chunk, sending comes to an end exactly for payloads below 65536 bytes:
   longer ones run into a remainder whose low 16 bits are zero, and from there every chunk is empty.
   */
  lemma SendFinishesIff(length: nat)
    ensures (exists chunks :: LeftAfter(length, chunks) == 0) <==> length < 0x1_0000
  {
    if length < 0x1_0000 {
      EachChunkCounts(length, length);
      assert LeftAfter(length, length) == 0;
    } else {
      forall chunks ensures LeftAfter(length, chunks) != 0 {
        LongPayloadStalls(length, chunks);
      }
    }
  }

  lemma {:induction false} EachChunkCounts(length: nat, chunks: nat)
    requires length < 0x1_0000
    ensures LeftAfter(length, chunks) <= if chunks <= length then length - chunks else 0
  {
    if chunks > 0 {
      EachChunkCounts(length, chunks - 1);
    }
  }

  lemma {:induction false} LongPayloadStalls(length: nat, chunks: nat)
    requires length >= 0x1_0000
    ensures LeftAfter(length, chunks) >= 0x1_0000
  {
    if chunks > 0 {
      LongPayloadStalls(length, chunks - 1);
    }
  }
}
