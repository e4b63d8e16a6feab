/** What stretches of polling do to a connection: lemmas over runs of delivered segments. */
module TcpRuns {
  import opened ByteStrings
  import opened TcpSpec

  lemma RunOneMore(w: World, es: seq<Event>, e: Event)
    ensures Run(w, es + [e]) == Next(Run(w, es), e)
  {
    assert (es + [e])[..|es + [e]| - 1] == es;
  }

  lemma {:induction false} RunConcat(w: World, es: seq<Event>, fs: seq<Event>)
    ensures Run(w, es + fs) == Run(Run(w, es), fs)
    decreases |fs|
  {
    hide Next;
    if fs == [] {
      assert es + fs == es;
    } else {
      var shorter, last := fs[..|fs| - 1], fs[|fs| - 1];
      RunConcat(w, es, shorter);
      RunOneMore(w, es + shorter, last);
      assert es + fs == es + shorter + [last];
    }
  }

  /** Polling only: segments come in and acknowledgements go out. */
  ghost predicate Heard(es: seq<Event>) {
    forall k :: 0 <= k < |es| ==> es[k].Deliver? || es[k].Transmit?
  }

  lemma AdvancedTwice(a: Conn, b: Conn, c: Conn)
    requires Advanced(a, b) && Advanced(b, c)
    ensures Advanced(a, c)
  {
    hide Sub32;
    SubIs(b.una, a.una);
    SubIs(c.una, b.una);
    SubIs(c.una, a.una);
    SubIs(a.nxt, a.una);
  }

  lemma NextAdvances(w: World, e: Event)
    requires PeerKnown(w.c) && InFlight(w.c) < HALF && (e.Deliver? || e.Transmit?)
    ensures PeerKnown(Next(w, e).c) && Advanced(w.c, Next(w, e).c)
  {
    hide Receive;
    if e.Deliver? {
      ReceiveReceives(w.c, e.s, e.iss);
      ReceiveAdvances(w.c, e.s, e.iss);
    }
  }

  /** However long the polling, una only moves forward and never passes nxt. */
  lemma {:induction false} RunAdvances(w: World, es: seq<Event>)
    requires PeerKnown(w.c) && InFlight(w.c) < HALF && Heard(es)
    ensures PeerKnown(Run(w, es).c) && Advanced(w.c, Run(w, es).c)
    decreases |es|
  {
    if es != [] {
      var shorter := es[..|es| - 1];
      RunAdvances(w, shorter);
      NextAdvances(Run(w, shorter), es[|es| - 1]);
      AdvancedTwice(w.c, Run(w, shorter).c, Run(w, es).c);
      hide Advanced;
      hide InFlight;
    }
  }

  /** Event `k` is a segment from the peer that was processed and acknowledges exactly the numbers before `n`. */
  predicate AckedBy(w: World, es: seq<Event>, k: nat, n: u32) {
    k < |es| && es[k].Deliver? && es[k].s.ack && es[k].s.ackNo == n && Processes(Run(w, es[..k]).c, es[k].s)
  }

  ghost predicate Acknowledged(w: World, es: seq<Event>, n: u32) { exists k: nat :: AckedBy(w, es, k, n) }

  lemma AcknowledgedBefore(w: World, es: seq<Event>, more: seq<Event>, n: u32)
    requires Acknowledged(w, es, n)
    ensures Acknowledged(w, es + more, n)
  {
    hide Processes;
    var k: nat :| AckedBy(w, es, k, n);
    assert (es + more)[..k] == es[..k];
    assert AckedBy(w, es + more, k, n);
  }

  lemma AcknowledgedLater(w: World, es: seq<Event>, more: seq<Event>, n: u32)
    requires Acknowledged(Run(w, es), more, n)
    ensures Acknowledged(w, es + more, n)
  {
    hide Processes;
    var k: nat :| AckedBy(Run(w, es), more, k, n);
    assert (es + more)[..|es| + k] == es + more[..k];
    RunConcat(w, es, more[..k]);
    hide Run;
    assert AckedBy(w, es + more, |es| + k, n);
  }

  /** Over any polling, the last number acknowledged is what it was, or what some segment of the peer acknowledged. */
  lemma {:induction false} RunAcknowledged(w: World, es: seq<Event>)
    requires PeerKnown(w.c) && InFlight(w.c) < HALF && Heard(es)
    ensures Run(w, es).c.una == w.c.una || Acknowledged(w, es, Run(w, es).c.una)
    decreases |es|
  {
    if es != [] {
      var shorter, e := es[..|es| - 1], es[|es| - 1];
      RunAcknowledged(w, shorter);
      RunAdvances(w, shorter);
      var before := Run(w, shorter);
      assert shorter + [e] == es;
      if e.Deliver? {
        ReceiveAcknowledges(before.c, e.s, e.iss);
        hide Receive;
        hide Processes;
        if Run(w, es).c.una != before.c.una {
          assert AckedBy(w, es, |es| - 1, e.s.ackNo);
        } else if before.c.una != w.c.una {
          AcknowledgedBefore(w, shorter, [e], before.c.una);
        }
      } else if before.c.una != w.c.una {
        AcknowledgedBefore(w, shorter, [e], before.c.una);
      }
    }
  }

  /** Polling claims no numbers. */
  lemma {:induction false} RunKeepsNumbers(w: World, es: seq<Event>)
    requires PeerKnown(w.c) && Heard(es)
    ensures PeerKnown(Run(w, es).c) && Run(w, es).c.nxt == w.c.nxt && Run(w, es).c.iss == w.c.iss
    decreases |es|
  {
    hide Receive;
    if es != [] {
      var shorter, e := es[..|es| - 1], es[|es| - 1];
      RunKeepsNumbers(w, shorter);
      if e.Deliver? {
        ReceiveStatus(Run(w, shorter).c, e.s, e.iss);
        ReceiveReceives(Run(w, shorter).c, e.s, e.iss);
      }
    }
  }

  /** Whatever is polled, a connection that does not listen stays one with its peer. */
  lemma {:induction false} RunKeepsPeer(w: World, es: seq<Event>)
    requires w.c.state != Listen && Heard(es)
    ensures Run(w, es).c.state != Listen && SamePeer(w.c, Run(w, es).c)
    decreases |es|
  {
    hide Receive;
    if es != [] {
      var shorter, e := es[..|es| - 1], es[|es| - 1];
      RunKeepsPeer(w, shorter);
      if e.Deliver? {
        PeerStays(Run(w, shorter).c, e.s, e.iss);
      }
    }
  }

  /** A connection that can send stays able to while segments come in, unless it is reset. */
  predicate Sending(c: Conn) { PeerKnown(c) && (CanSend(c) || (c.resetSeen && !c.active)) }

  predicate Waiting(c: Conn) { c.state in {FinWait1, LastAck} }

  lemma FinStepStatus(c: Conn, s: Segment)
    requires PeerKnown(c)
    ensures var c' := FinStep(c, s);
      && c'.resetSeen == c.resetSeen && c'.iss == c.iss && c'.nxt == c.nxt && PeerKnown(c')
      && (CanSend(c) ==> CanSend(c')) && (Waiting(c) ==> c'.state == c.state && c'.active == c.active)
  {
    hide Add32;
  }

  /** What processing a segment leaves of the connection's identity, and how it may move the state. */
  lemma SynchronizedStatus(c: Conn, s: Segment)
    requires PeerKnown(c)
    ensures var c' := Synchronized(c, s);
      && c'.resetSeen == c.resetSeen && c'.iss == c.iss && c'.nxt == c.nxt && (CanSend(c) ==> CanSend(c'))
      && (c.active && Waiting(c) && c'.state == c.state ==> c'.active)
  {
    var c1 := AckStep(c, s);
    var c2 := PayloadStep(c1, s);
    var c3 := FinStep(c2, s);
    hide FinStep;
    hide Push;
    hide Add32;
    hide SeqGe;
    assert OwnFinStep(c3) == c3 || Waiting(c3);
    assert Waiting(c3) ==> OwnFinStep(c3) == c3 || OwnFinStep(c3).state != c3.state;
    hide OwnFinStep;
    assert c2 == c1.(queue := c2.queue, rcv := c2.rcv);
    hide PayloadStep;
    AckStepOnly(c, s);
    hide AckStep;
    FinStepStatus(c2, s);
    OwnFinStepOnly(c3);
  }

  lemma ReceiveStatus(c: Conn, s: Segment, iss: u32)
    requires PeerKnown(c)
    ensures var c' := Receive(c, s, iss);
      && c'.iss == c.iss && c'.nxt == c.nxt && (c.resetSeen ==> c'.resetSeen)
      && (CanSend(c) ==> CanSend(c') || (c'.resetSeen && !c'.active)) && (!c.active ==> c' == c)
      && (c.active && Waiting(c) && c'.state == c.state ==> c'.active)
      && (!FromPeer(c, s) || s.rst ==> c' == c || c'.resetSeen)
  {
    var d := if c.state == SynReceived then c.(una := s.ackNo, state := Established) else c;
    if Processes(c, s) {
      SynchronizedStatus(d, s);
    }
    hide Synchronized;
  }

  lemma ReceiveKeepsSending(c: Conn, s: Segment, iss: u32)
    requires Sending(c)
    ensures Sending(Receive(c, s, iss)) && Receive(c, s, iss).nxt == c.nxt
  {
    hide Receive;
    ReceiveStatus(c, s, iss);
    ReceiveReceives(c, s, iss);
  }

  lemma {:induction false} RunKeepsSending(w: World, es: seq<Event>)
    requires Sending(w.c) && Heard(es)
    ensures Sending(Run(w, es).c) && Run(w, es).c.nxt == w.c.nxt
    decreases |es|
  {
    if es != [] {
      var shorter, e := es[..|es| - 1], es[|es| - 1];
      RunKeepsSending(w, shorter);
      if e.Deliver? {
        ReceiveKeepsSending(Run(w, shorter).c, e.s, e.iss);
      }
      hide Receive;
      hide Sending;
    }
  }

  /**
   Once a chunk is out: acknowledged in full it leaves nothing in flight, and otherwise at most itself and what was.
   */
  lemma ChunkOut(w: World, length: nat, es: seq<Event>)
    requires CanSend(w.c) && length < HALF && Heard(es)
    ensures var end := Run(Next(w, SendStart(length)), es).c;
      && Sending(end) && end.nxt == Add32(w.c.nxt, length)
      && (InFlight(w.c) + length < HALF ==> InFlight(end) <= InFlight(w.c) + length)
      && (InFlight(w.c) + length < HALF && SeqGe(end.una, end.nxt) ==> InFlight(end) == 0)
  {
    var start := Next(w, SendStart(length));
    RunKeepsSending(start, es);
    if InFlight(w.c) + length < HALF {
      ClaimInFlight(w.c, length);
      RunAdvances(start, es);
      GeMeansEqual(Run(start, es).c.una, Run(start, es).c.nxt);
    }
    hide SeqGe;
    hide Add32;
    hide Run;
  }

  lemma ClaimInFlight(c: Conn, length: nat)
    requires CanSend(c) && InFlight(c) + length < HALF
    ensures InFlight(StartSend(c, length)) == InFlight(c) + length
  {
  }

  /** Closing: the own FIN is sent and waited for, acknowledged, or cut off by a reset. */
  predicate Closing(c: Conn) {
    c.resetSeen || (c.active && c.state in {FinWait1, LastAck}) || (PeerKnown(c) && c.una == c.nxt)
  }

  lemma ReceiveKeepsClosing(c: Conn, s: Segment, iss: u32)
    requires Closing(c) && InFlight(c) < HALF && PeerKnown(c)
    ensures Closing(Receive(c, s, iss))
  {
    hide Receive;
    ReceiveAdvances(c, s, iss);
    ReceiveReceives(c, s, iss);
    ReceiveStatus(c, s, iss);
    if c.active && c.state in {FinWait1, LastAck} && FromPeer(c, s) && !s.rst {
      OwnFinAcked(c, s, iss);
    }
  }

  /** After the own FIN is out, the connection ends only by a reset or with everything acknowledged. */
  lemma {:induction false} RunClosing(w: World, es: seq<Event>)
    requires Closing(w.c) && PeerKnown(w.c) && InFlight(w.c) < HALF && Heard(es)
    ensures Closing(Run(w, es).c)
    decreases |es|
  {
    if es != [] {
      var shorter, e := es[..|es| - 1], es[|es| - 1];
      RunClosing(w, shorter);
      RunAdvances(w, shorter);
      if e.Deliver? {
        ReceiveKeepsClosing(Run(w, shorter).c, e.s, e.iss);
      }
      hide Receive;
      hide Closing;
    }
  }

  /** The handshake this side opened: still waiting, or answered for exactly the number that was sent. */
  predicate Opening(c: Conn) {
    (c.resetSeen && !c.active) || AwaitsAnswer(c)
  }

  predicate AwaitsAnswer(c: Conn) {
    && c.state != Listen && c.nxt == Add32(c.iss, 1)
    && ((c.state == SynSent && c.una == c.iss) || (c.state != SynSent && c.una == c.nxt))
  }

  lemma AnswerCompletes(c: Conn, s: Segment, iss: u32)
    requires AwaitsAnswer(c) && c.state == SynSent
    ensures Opening(Receive(c, s, iss))
  {
    hide Synchronized;
    hide Add32;
    hide FromPeer;
  }

  lemma ReceiveKeepsOpening(c: Conn, s: Segment, iss: u32)
    requires Opening(c)
    ensures Opening(Receive(c, s, iss))
  {
    hide Synchronized;
    hide FromPeer;
    assert !c.active ==> Receive(c, s, iss) == c;
    hide Receive;
    if !c.active {
    } else if c.state == SynSent {
      AnswerCompletes(c, s, iss);
    } else {
      assert InFlight(c) == 0;
      ReceiveStatus(c, s, iss);
      ReceiveAdvances(c, s, iss);
      ReceiveReceives(c, s, iss);
    }
  }

  /** Polling completes the handshake only by an acknowledgement of the SYN's own sequence number. */
  lemma {:induction false} RunOpening(w: World, es: seq<Event>)
    requires Opening(w.c) && Heard(es)
    ensures Opening(Run(w, es).c)
    decreases |es|
  {
    if es != [] {
      RunOpening(w, es[..|es| - 1]);
      if es[|es| - 1].Deliver? {
        ReceiveKeepsOpening(Run(w, es[..|es| - 1]).c, es[|es| - 1].s, es[|es| - 1].iss);
      }
      hide Receive;
      hide Opening;
    }
  }

  /** Polling hands nothing to the application. */
  lemma {:induction false} RunReadsNothing(w: World, es: seq<Event>)
    requires Heard(es)
    ensures Run(w, es).read == w.read
    decreases |es|
  {
    hide Receive;
    if es != [] {
      RunReadsNothing(w, es[..|es| - 1]);
    }
  }

  /** clks_net_tcp_connect at the start of a try: new numbers on whatever connection there is. */
  function Restarted(c: Conn, port: nat, picked: u32): Conn {
    c.(localPort := port, iss := picked, una := picked, nxt := Add32(picked, 1), rcv := 0, stale := false)
  }

  /**
   If a bare acknowledgement and then the answer to the SYN arrive in one batch, the try is given up although the
   connection is up: the next try starts out ESTABLISHED, with its own SYN unacknowledged and expecting number 0.
   */
  lemma StaleAckRace(w: World, bare: Segment, answer: Segment, port: nat, picked: u32)
    requires w.c.active && w.c.state == SynSent && FromPeer(w.c, bare) && FromPeer(w.c, answer)
    requires bare.ack && !bare.syn && !bare.rst
    requires answer.syn && answer.ack && !answer.rst && answer.ackNo == w.c.nxt
    ensures var batch := Run(w, [Deliver(bare, 0), Deliver(answer, 0)]).c;
      && batch.stale && batch.state == Established && batch.una == batch.nxt && batch.rcv == Add32(answer.seqNo, 1)
      && batch.resetSeen == w.c.resetSeen
      && Restarted(batch, port, picked).state == Established && Restarted(batch, port, picked).rcv == 0
      && InFlight(Restarted(batch, port, picked)) == 1
  {
    var first := w.c.(stale := true);
    BareAck(w.c, bare);
    AnswerAfterBare(first, answer);
    hide Receive;
    hide FromPeer;
    hide Add32;
    RunOneMore(w, [Deliver(bare, 0)], Deliver(answer, 0));
    RunOneMore(w, [], Deliver(bare, 0));
    assert [] + [Deliver(bare, 0)] == [Deliver(bare, 0)];
    assert [Deliver(bare, 0)] + [Deliver(answer, 0)] == [Deliver(bare, 0), Deliver(answer, 0)];
    assert Run(w, []) == w;
    hide Run;
    OneInFlight(picked);
  }

  lemma OneInFlight(picked: u32)
    ensures Sub32(Add32(picked, 1), picked) == 1
  {
  }

  lemma BareAck(c: Conn, bare: Segment)
    requires c.active && c.state == SynSent && FromPeer(c, bare) && bare.ack && !bare.syn && !bare.rst
    ensures Receive(c, bare, 0) == c.(stale := true)
  {
    hide Synchronized;
    hide Add32;
  }

  lemma AnswerAfterBare(c: Conn, answer: Segment)
    requires c.active && c.state == SynSent && FromPeer(c, answer)
    requires answer.syn && answer.ack && !answer.rst && answer.ackNo == c.nxt
    ensures Receive(c, answer, 0) == c.(una := answer.ackNo, rcv := Add32(answer.seqNo, 1), state := Established)
  {
    hide Synchronized;
    hide Add32;
  }

  // ---------- the answer to the SYN ----------

  /** The step that completes the handshake this side opened. */
  predicate AnswersSyn(w: World, e: Event) {
    && e.Deliver? && w.c.active && w.c.state == SynSent && FromPeer(w.c, e.s)
    && e.s.syn && e.s.ack && !e.s.rst && e.s.ackNo == w.c.nxt
  }

  ghost predicate SynAnsweredAt(start: World, es: seq<Event>, k: nat) {
    k < |es| && AnswersSyn(Run(start, es[..k]), es[k])
  }

  /** Somewhere on the way the SYN was answered; the number expected next was then set behind the answering SYN. */
  ghost predicate SynAnswered(start: World, es: seq<Event>) { exists k: nat :: SynAnsweredAt(start, es, k) }

  lemma AnswerSets(w: World, e: Event)
    requires AnswersSyn(w, e)
    ensures var c' := Next(w, e).c;
      c' == w.c.(una := w.c.nxt, rcv := Add32(e.s.seqNo, 1), state := Established)
  {
    hide Synchronized;
    hide Add32;
  }

  /** A connection that clks_net_tcp_connect works on. */
  predicate Dialing(c: Conn) { c.state != Listen && c.state != SynReceived }

  lemma DialingStep(w: World, e: Event)
    requires Dialing(w.c) && (e.Deliver? || e.Transmit?)
    ensures var c' := Next(w, e).c;
      && Dialing(c') && c'.localPort == w.c.localPort
      && (c'.state == SynSent ==> w.c.state == SynSent && Next(w, e).delivered == w.delivered)
      && (c'.state == Established ==> w.c.state == Established || AnswersSyn(w, e))
      && (PeerKnown(w.c) ==> c'.stale == w.c.stale)
  {
    if e.Deliver? && Processes(w.c, e.s) {
      SynchronizedDials(w.c, e.s);
    }
    hide Synchronized;
    hide Add32;
  }

  lemma FinStepDials(c: Conn, s: Segment)
    requires Dialing(c) && PeerKnown(c)
    ensures var c' := FinStep(c, s);
      && Dialing(c') && PeerKnown(c') && (c'.state == Established ==> c.state == Established) && c'.stale == c.stale
      && c'.localPort == c.localPort
  {
    hide Add32;
  }

  lemma PayloadStepOnly(c: Conn, s: Segment)
    ensures PayloadStep(c, s) == c.(queue := PayloadStep(c, s).queue, rcv := PayloadStep(c, s).rcv)
  {
    hide Add32;
    hide Push;
  }

  lemma OwnFinStepDials(c: Conn)
    requires Dialing(c) && PeerKnown(c)
    ensures Dialing(OwnFinStep(c)) && (OwnFinStep(c).state == Established ==> c.state == Established)
  {
    hide SeqGe;
  }

  lemma SynchronizedDials(c: Conn, s: Segment)
    requires Dialing(c) && PeerKnown(c)
    ensures var c' := Synchronized(c, s);
      && Dialing(c') && PeerKnown(c') && (c'.state == Established ==> c.state == Established) && c'.stale == c.stale
      && c'.localPort == c.localPort
  {
    hide AckStep;
    hide PayloadStep;
    hide FinStep;
    hide OwnFinStep;
    var c1 := AckStep(c, s);
    var c2 := PayloadStep(c1, s);
    AckStepOnly(c, s);
    PayloadStepOnly(c1, s);
    FinStepDials(c2, s);
    OwnFinStepOnly(FinStep(c2, s));
    OwnFinStepDials(FinStep(c2, s));
  }

  lemma {:induction false} RunDialing(w: World, es: seq<Event>)
    requires Dialing(w.c) && Heard(es)
    ensures var end := Run(w, es);
      && Dialing(end.c) && end.c.localPort == w.c.localPort
      && (end.c.state == SynSent ==> w.c.state == SynSent && end.delivered == w.delivered)
      && (end.c.state == Established ==> w.c.state == Established || SynAnswered(w, es))
      && (PeerKnown(w.c) ==> PeerKnown(end.c) && end.c.stale == w.c.stale)
    decreases |es|
  {
    if es != [] {
      var shorter, e := es[..|es| - 1], es[|es| - 1];
      RunDialing(w, shorter);
      DialingStep(Run(w, shorter), e);
      hide Receive;
      hide AnswersSyn;
      if SynAnswered(w, shorter) {
        var k: nat :| SynAnsweredAt(w, shorter, k);
        assert es[..k] == shorter[..k] && SynAnsweredAt(w, es, k);
      }
      if AnswersSyn(Run(w, shorter), e) {
        assert SynAnsweredAt(w, es, |es| - 1);
      }
    }
  }

  /** A try that ends with the connection up had its own SYN answered exactly if it began waiting for an answer. */
  lemma SynAnsweredIff(start: World, es: seq<Event>)
    requires Dialing(start.c) && Heard(es) && Run(start, es).c.state == Established
    ensures SynAnswered(start, es) <==> start.c.state == SynSent
    ensures start.c.state in {SynSent, Established}
  {
    RunDialing(start, es);
    hide Dialing;
    if SynAnswered(start, es) {
      var k: nat :| SynAnsweredAt(start, es, k);
      RunDialing(start, es[..k]);
    }
  }

  /** The answered try is in sequence with any honest peer, whatever it sends behind its answer. */
  lemma AnsweredInSequence(start: World, es: seq<Event>, k: nat, stream: seq<byte>)
    requires Dialing(start.c) && Heard(es) && start.delivered == [] && SynAnsweredAt(start, es, k)
    requires |stream| < TWO_TO_THE_32 - 1
    requires HonestRun(Run(start, es[..k + 1]), es[k + 1..], es[k].s.seqNo, stream, false)
    ensures InSequence(Run(start, es), es[k].s.seqNo, stream)
  {
    hide InSequence;
    hide Receive;
    hide FromPeer;
    hide HonestRun;
    var before, e := Run(start, es[..k]), es[k];
    RunDialing(start, es[..k]);
    AnswerSets(before, e);
    HandshakeStarts(before, e.s, e.iss, stream);
    SplitRun(start, es, k);
    DeliversPrefix(Run(start, es[..k + 1]), es[k + 1..], e.s.seqNo, stream);
  }

  lemma SplitRun(w: World, es: seq<Event>, k: nat)
    requires k < |es|
    ensures Run(w, es[..k + 1]) == Next(Run(w, es[..k]), es[k])
    ensures Run(w, es) == Run(Run(w, es[..k + 1]), es[k + 1..])
  {
    hide Run;
    hide Next;
    RunOneMore(w, es[..k], es[k]);
    assert es[..k] + [es[k]] == es[..k + 1];
    assert es[..k + 1] + es[k + 1..] == es;
    RunConcat(w, es[..k + 1], es[k + 1..]);
  }

  /**
   Having begun at byte `d` of a stream of `total`, the connection took in `n` bytes, or waits for one that never comes.
   */
  predicate AtOffset(rcv: u32, irs: u32, d: nat, n: nat, total: nat) {
    if d <= total then d + n <= total && Counts(rcv, irs, d + n, total) else n == 0 && rcv == Add32(irs, 1 + d)
  }

  lemma SegmentAtOffset(w: World, s: Segment, irs: u32, stream: seq<byte>, d: nat)
    requires AtOffset(w.c.rcv, irs, d, |w.delivered|, |stream|) && d < TWO_TO_THE_32
    requires |stream| < TWO_TO_THE_32 - 1 && Honest(w, s, irs, stream, false)
    ensures var took := s.payload != [] && s.seqNo == w.c.rcv;
      var rcv := if took then Add32(w.c.rcv, |s.payload|) else w.c.rcv;
      AtOffset(RcvAfterFin(rcv, s), irs, d, |w.delivered| + (if took then |s.payload| else 0), |stream|)
  {
    hide Add32;
    hide Counts;
    if s.payload != [] || s.fin {
      var o: nat :| Carries(s, irs, stream, o);
      var n, took := |w.delivered|, s.payload != [] && s.seqNo == w.c.rcv;
      AddTwice(irs, 1 + o, |s.payload|);
      if d > |stream| {
        NeverComes(irs, d, o);
        NeverComes(irs, d, |stream|);
      } else {
        if took {
          PayloadCounts(w.c.rcv, irs, d + n, |stream|, o, |s.payload|);
        }
        if s.fin {
          FinCounts(if took then Add32(w.c.rcv, |s.payload|) else w.c.rcv, irs,
                    d + n + if took then |s.payload| else 0, |stream|);
        }
      }
    }
  }

  lemma NeverComes(irs: u32, d: nat, o: nat)
    requires o < d < TWO_TO_THE_32
    ensures Add32(irs, 1 + o) != Add32(irs, 1 + d)
  {
    if Add32(irs, 1 + o) == Add32(irs, 1 + d) {
      SameOffset(irs, o, d);
    }
  }

  lemma {:induction false} RunAtOffset(w: World, es: seq<Event>, irs: u32, stream: seq<byte>, d: nat)
    requires PeerKnown(w.c) && AtOffset(w.c.rcv, irs, d, |w.delivered|, |stream|) && d < TWO_TO_THE_32
    requires |stream| < TWO_TO_THE_32 - 1 && Heard(es) && HonestRun(w, es, irs, stream, false)
    ensures var end := Run(w, es); PeerKnown(end.c) && AtOffset(end.c.rcv, irs, d, |end.delivered|, |stream|)
    decreases |es|
  {
    hide Receive;
    hide AtOffset;
    hide Honest;
    hide FromPeer;
    if es != [] {
      var shorter, e := es[..|es| - 1], es[|es| - 1];
      RunAtOffset(w, shorter, irs, stream, d);
      var before := Run(w, shorter);
      if e.Deliver? {
        ReceiveReceives(before.c, e.s, e.iss);
        if Processes(before.c, e.s) {
          SegmentAtOffset(before, e.s, irs, stream, d);
        }
      }
    }
  }

  /** Bytes taken in from a later place on are not counted from the first. */
  lemma OffsetIsLost(rcv: u32, irs: u32, d: nat, n: nat, total: nat)
    requires AtOffset(rcv, irs, d, n, total) && 0 < d < TWO_TO_THE_32 && total < TWO_TO_THE_32 - 1
    requires !(total == 0 && d == 1) && n <= total
    ensures !Counts(rcv, irs, n, total)
  {
    var m := d + n;
    if Counts(rcv, irs, n, total) {
      var mine := if d > total then d else if rcv == Add32(irs, 1 + m) then m else m + 1;
      SameOffset(irs, mine, if rcv == Add32(irs, 1 + n) then n else n + 1);
    }
  }

  /**
   A try that begins with the connection already up expects number 0. However long it then listens to an honest peer, at
   its end it is in sequence with the peer in the two cases only where that number happens to be right.
   */
  lemma StaleTryInSequenceIff(start: World, es: seq<Event>, irs: u32, stream: seq<byte>)
    requires PeerKnown(start.c) && start.c.rcv == 0 && start.delivered == [] && Heard(es)
    requires |stream| < TWO_TO_THE_32 - 1 && HonestRun(start, es, irs, stream, false)
    ensures InSequence(Run(start, es), irs, stream)
            <==> irs == TWO_TO_THE_32 - 1 || (stream == [] && irs == TWO_TO_THE_32 - 2)
  {
    var d := TWO_TO_THE_32 - 1 - irs;
    var end := Run(start, es);
    assert Add32(irs, 1 + d) == 0;
    if d == 0 || (stream == [] && d == 1) {
      assert InSequence(start, irs, stream);
      DeliversPrefix(start, es, irs, stream);
    } else {
      RunAtOffset(start, es, irs, stream, d);
      if |end.delivered| <= |stream| {
        OffsetIsLost(end.c.rcv, irs, d, |end.delivered|, |stream|);
      }
    }
  }

  // ---------- accepting ----------

  /** The handshake the peer opened: not begun, waiting for the acknowledgement of the own SYN, or acknowledged. */
  predicate Accepting(c: Conn) {
    || (c.resetSeen && !c.active) || c.state == Listen
    || (PeerKnown(c) && c.nxt == Add32(c.iss, 1) && (c.una == c.nxt || (c.una == c.iss && c.state == SynReceived)))
  }

  lemma ReceiveKeepsAccepting(c: Conn, s: Segment, iss: u32)
    requires Accepting(c)
    ensures Accepting(Receive(c, s, iss))
  {
    hide Synchronized;
    hide FromPeer;
    hide Add32;
    if !c.active || c.state == Listen {
    } else if Processes(c, s) {
      var d := if c.state == SynReceived then c.(una := s.ackNo, state := Established) else c;
      assert d.una == d.nxt && PeerKnown(d);
      NothingInFlight(d);
      SynchronizedStatus(d, s);
      SynchronizedAdvances(d, s);
      SynchronizedReceives(d, s);
      StillNothing(d, Synchronized(d, s));
    }
  }

  /** A connection that the peer opened leaves SYN_RECEIVED for a segment that acknowledges the own SYN, or a reset. */
  lemma {:induction false} RunAcceptedBy(w: World, es: seq<Event>)
    requires w.c.state == Listen && !w.c.resetSeen && Heard(es)
    ensures var c := Run(w, es).c;
      && c.state != SynSent
      && (c.state in {Listen, SynReceived} || c.resetSeen || (PeerKnown(c) && Acknowledged(w, es, c.nxt)))
    decreases |es|
  {
    if es != [] {
      var shorter, e := es[..|es| - 1], es[|es| - 1];
      RunAcceptedBy(w, shorter);
      var before := Run(w, shorter);
      assert shorter + [e] == es;
      if e.Deliver? {
        AcceptedStep(before.c, e.s, e.iss);
        hide Receive;
        hide Processes;
        if before.c.state == SynReceived && Processes(before.c, e.s) {
          assert AckedBy(w, es, |es| - 1, before.c.nxt);
        } else if PeerKnown(before.c) && before.c.state != SynReceived && !before.c.resetSeen {
          AcknowledgedBefore(w, shorter, [e], before.c.nxt);
        }
      } else if PeerKnown(before.c) && before.c.state != SynReceived && !before.c.resetSeen {
        AcknowledgedBefore(w, shorter, [e], before.c.nxt);
      }
    }
  }

  lemma AcceptedStep(c: Conn, s: Segment, iss: u32)
    requires c.state != SynSent
    ensures var c' := Receive(c, s, iss);
      && c'.state != SynSent && (c.resetSeen ==> c'.resetSeen)
      && (c.state == Listen ==> c'.state in {Listen, SynReceived})
      && (PeerKnown(c) ==> PeerKnown(c') && c'.nxt == c.nxt)
      && (c.state == SynReceived && !Processes(c, s) ==> c'.state == SynReceived || c'.resetSeen)
      && (Processes(c, s) && c.state == SynReceived ==> s.ack && s.ackNo == c.nxt)
  {
    if PeerKnown(c) {
      ReceiveStatus(c, s, iss);
      ReceiveReceives(c, s, iss);
    }
    hide Synchronized;
    hide Add32;
  }

  lemma NothingInFlight(c: Conn)
    requires c.una == c.nxt
    ensures InFlight(c) == 0
  {
  }

  lemma StillNothing(c: Conn, c': Conn)
    requires Advanced(c, c') && c.una == c.nxt
    ensures c'.una == c'.nxt
  {
  }

  lemma {:induction false} RunAccepting(w: World, es: seq<Event>)
    requires Accepting(w.c) && Heard(es)
    ensures Accepting(Run(w, es).c)
    decreases |es|
  {
    if es != [] {
      RunAccepting(w, es[..|es| - 1]);
      if es[|es| - 1].Deliver? {
        ReceiveKeepsAccepting(Run(w, es[..|es| - 1]).c, es[|es| - 1].s, es[|es| - 1].iss);
      }
      hide Receive;
      hide Accepting;
    }
  }
}
