// The HTTPS peer's windowed sender (tools/https_network_fixture.py). The TLS engine is an arbitrary
// source of bytes: each advance may add output and may report that the connection is finished.

module TcpPeer {
  import opened Bytes
  import opened TcpReassembly

  const SERVER_ISN := 0x6300_0000
  const TCP_CHUNK := 1200
  const TCP_SEND_WINDOW := 4800
  const HTTP_IP: seq<Byte> := [10, 0, 2, 20]
  const GUEST_IP: seq<Byte> := [10, 0, 2, 15]
  const FIN: Byte := 0x01
  const SYN_ACK: Byte := 0x12
  const ACK: Byte := 0x10
  const PSH_ACK: Byte := 0x18
  const FIN_ACK: Byte := 0x11

  function SequenceDistance(start: int, end: int): (d: nat) {
    Wrap(end - start)
  }

  function PeerKey(port: nat): (k: FlowKey) {
    FlowKey(HTTP_IP, TLS_PORT, GUEST_IP, port)
  }

  /** One connection: `incoming` is everything handed to the TLS engine, `outgoing` what it wrote and is not sent. */
  datatype Peer = Peer(clientPort: nat, clientNext: nat, serverNext: nat, serverAcked: nat, clientWindow: nat,
                       incoming: seq<Byte>, outgoing: seq<Byte>, finished: bool, finSent: bool)

  /** What one advance of the TLS engine did: the output it left, whether the connection is finished, and
      whether it ended in an exception, which leaves the handler before anything is sent. */
  datatype Engine = Engine(produced: seq<Byte>, done: bool, raised: bool)

  /** A parsed client segment for the TLS port. */
  datatype ClientSegment = ClientSegment(port: nat, sequence: nat, acknowledgement: nat, flags: Byte, window: nat,
                                         payload: seq<Byte>)
  {
    predicate Has(bit: nat)
      requires bit > 0
    {
      flags / bit % 2 == 1
    }
  }

  function NewPeer(port: nat, sequence: nat, window: nat): (p: Peer) {
    var isn := Wrap(SERVER_ISN + port);
    Peer(port, Wrap(sequence + 1), isn, isn, window, [], [], false, false)
  }

  /** The segment a send emits, and the peer after it. */
  function Emit(p: Peer, flags: Byte, payload: seq<Byte>): (s: Segment) {
    Segment(PeerKey(p.clientPort), p.serverNext, p.clientNext, flags, payload)
  }

  function AfterSend(p: Peer, flags: Byte, payload: seq<Byte>): (r: Peer) {
    p.(serverNext := Wrap(p.serverNext + |payload| + if flags % 4 != 0 then 1 else 0))
  }

  function Min(a: int, b: int): int {
    if a < b then a else b
  }

  /** Sends queued output while the window has room; `inFlight` bytes are already unacknowledged. */
  function Drain(p: Peer, inFlight: nat): (r: (Peer, seq<Segment>))
    decreases |p.outgoing|
  {
    var window := Min(TCP_SEND_WINDOW, p.clientWindow);
    if p.outgoing == [] || inFlight >= window then (p, [])
    else
      var n := Min(TCP_CHUNK, Min(window - inFlight, |p.outgoing|));
      var block := p.outgoing[..n];
      var q := AfterSend(p.(outgoing := p.outgoing[n..]), PSH_ACK, block);
      var (r, rest) := Drain(q, inFlight + n);
      (r, [Emit(p, PSH_ACK, block)] + rest)
  }

  lemma DrainUnfolds(p: Peer, inFlight: nat)
    ensures Drain(p, inFlight) ==
            var window := Min(TCP_SEND_WINDOW, p.clientWindow);
            if p.outgoing == [] || inFlight >= window then (p, [])
            else
              var n := Min(TCP_CHUNK, Min(window - inFlight, |p.outgoing|));
              var q := AfterSend(p.(outgoing := p.outgoing[n..]), PSH_ACK, p.outgoing[..n]);
              var (r, rest) := Drain(q, inFlight + n);
              (r, [Emit(p, PSH_ACK, p.outgoing[..n])] + rest)
  {
  }

  function DrainTls(p: Peer): (r: (Peer, seq<Segment>)) {
    Drain(p, SequenceDistance(p.serverAcked, p.serverNext))
  }

  function AcknowledgeServer(p: Peer, acknowledgement: nat): (r: Peer) {
    var outstanding := SequenceDistance(p.serverAcked, p.serverNext);
    var advanced := SequenceDistance(p.serverAcked, acknowledgement);
    if advanced <= outstanding then p.(serverAcked := acknowledgement) else p
  }

  function FinishHttps(p: Peer): (r: (Peer, seq<Segment>)) {
    var (q, out) := DrainTls(p);
    if q.finished && !q.finSent && q.outgoing == [] then
      (AfterSend(q, FIN_ACK, []).(finSent := true), out + [Emit(q, FIN_ACK, [])])
    else (q, out)
  }

  function AdvanceTls(p: Peer, e: Engine): (r: (Peer, seq<Segment>)) {
    var q := p.(outgoing := p.outgoing + e.produced, finished := p.finished || e.done);
    if e.raised then (q, []) else FinishHttps(q)
  }

  /** One client segment for an existing connection. */
  function PeerStep(p: Peer, c: ClientSegment, e: Engine): (r: (Peer, seq<Segment>)) {
    var q := p.(clientWindow := c.window);
    var q := if c.Has(0x10) then AcknowledgeServer(q, c.acknowledgement) else q;
    if c.payload != [] then
      if c.sequence != q.clientNext then (AfterSend(q, ACK, []), [Emit(q, ACK, [])])
      else
        var q := q.(clientNext := Wrap(c.sequence + |c.payload|), incoming := q.incoming + c.payload);
        var (r, out) := AdvanceTls(AfterSend(q, ACK, []), e);
        (r, [Emit(q, ACK, [])] + out)
    else if c.Has(0x01) then
      var q := q.(clientNext := Wrap(c.sequence + 1));
      (AfterSend(q, ACK, []), [Emit(q, ACK, [])])
    else FinishHttps(q)
  }

  /** Every connection by client port, and everything sent so far. */
  datatype Fixture = Fixture(peers: map<nat, Peer>, capture: seq<Segment>)

  const EMPTY_FIXTURE := Fixture(map[], [])

  function HandleTcp(f: Fixture, c: ClientSegment, e: Engine): (r: Fixture) {
    if c.Has(0x02) && !c.Has(0x10) then
      var p := NewPeer(c.port, c.sequence, c.window);
      Fixture(f.peers[c.port := AfterSend(p, SYN_ACK, [])], f.capture + [Emit(p, SYN_ACK, [])])
    else if c.port !in f.peers then f
    else
      var (p, out) := PeerStep(f.peers[c.port], c, e);
      Fixture(f.peers[c.port := p], f.capture + out)
  }

  // A reference sender with unbounded counters

  /** One connection counted in plain integers from its initial sequence number: how much sequence space
      was sent and acknowledged, which bytes left the TLS engine's output, and whether any of them left
      after the FIN. */
  datatype Ref = Ref(isn: nat, sent: nat, acked: nat, window: nat, queue: seq<Byte>, drained: seq<Byte>,
                     finished: bool, finSent: bool, late: bool)

  function NewRef(port: nat, window: nat): (r: Ref) {
    Ref(Wrap(SERVER_ISN + port), 1, 0, window, [], [], false, false, false)
  }

  /** As much of the queue as the window takes, at once. */
  function RefRoom(r: Ref): (n: nat)
    ensures n <= |r.queue|
  {
    var room := Min(TCP_SEND_WINDOW, r.window) - (r.sent - r.acked);
    if room <= 0 then 0 else Min(room, |r.queue|)
  }

  function RefDrain(r: Ref): (q: Ref) {
    var n := RefRoom(r);
    r.(sent := r.sent + n, queue := r.queue[n..], drained := r.drained + r.queue[..n],
       late := r.late || (n > 0 && r.finSent))
  }

  /** An acknowledgement number names the nearest position at or after the last one acknowledged. */
  function RefAcknowledge(r: Ref, acknowledgement: nat): (q: Ref) {
    var position := r.acked + Wrap(acknowledgement - (r.isn + r.acked));
    if position <= r.sent then r.(acked := position) else r
  }

  function RefFinish(r: Ref): (q: Ref) {
    var q := RefDrain(r);
    if q.finished && !q.finSent && q.queue == [] then q.(sent := q.sent + 1, finSent := true) else q
  }

  function RefStep(r: Ref, clientNext: nat, c: ClientSegment, e: Engine): (q: Ref) {
    var q := r.(window := c.window);
    var q := if c.Has(0x10) then RefAcknowledge(q, c.acknowledgement) else q;
    if c.payload != [] then
      if c.sequence != clientNext then q
      else
        var q := q.(queue := q.queue + e.produced, finished := q.finished || e.done);
        if e.raised then q else RefFinish(q)
    else if c.Has(0x01) then q
    else RefFinish(q)
  }

  // The modular sender refines it

  ghost predicate Counters(r: Ref) {
    && r.isn < SEQUENCE_SPACE
    && r.acked <= r.sent
    && r.sent == 1 + |r.drained| + (if r.finSent then 1 else 0)
    && r.sent - r.acked <= TCP_SEND_WINDOW + (if r.finSent then 1 else 0)
  }

  ghost predicate Simulates(p: Peer, r: Ref) {
    && Counters(r)
    && p.serverNext == Wrap(r.isn + r.sent) && p.serverAcked == Wrap(r.isn + r.acked)
    && p.clientWindow == r.window && p.outgoing == r.queue
    && p.finished == r.finished && p.finSent == r.finSent
  }

  lemma WrapAdd(a: int, b: int)
    ensures Wrap(Wrap(a) + b) == Wrap(a + b)
  {
  }

  lemma DistanceExact(isn: int, a: int, b: int)
    requires 0 <= b - a < SEQUENCE_SPACE
    ensures SequenceDistance(Wrap(isn + a), Wrap(isn + b)) == b - a
  {
  }

  /** Draining in chunks is draining at once: same bytes, same counters. */
  lemma {:induction false} DrainRefines(p: Peer, r: Ref)
    requires Simulates(p, r)
    ensures var (q, out) := Drain(p, r.sent - r.acked);
            && Simulates(q, RefDrain(r))
            && q.clientPort == p.clientPort && q.clientNext == p.clientNext
    decreases |p.outgoing|
  {
    hide Wrap, RefDrain;
    var window := Min(TCP_SEND_WINDOW, p.clientWindow);
    var inFlight := r.sent - r.acked;
    if p.outgoing == [] || inFlight >= window {
      DrainNothing(r);
    } else {
      var n := Min(TCP_CHUNK, Min(window - inFlight, |p.outgoing|));
      var block := p.outgoing[..n];
      var q := AfterSend(p.(outgoing := p.outgoing[n..]), PSH_ACK, block);
      WrapAdd(r.isn + r.sent, n);
      var s := r.(sent := r.sent + n, queue := r.queue[n..], drained := r.drained + block, late := r.late || r.finSent);
      DrainRefines(q, s);
      DrainTwice(r, s, n);
    }
  }

  lemma DrainNothing(r: Ref)
    requires RefRoom(r) == 0
    ensures RefDrain(r) == r
  {
    assert r.queue[0..] == r.queue && r.drained + r.queue[..0] == r.drained;
  }

  lemma DrainTwice(r: Ref, s: Ref, n: nat)
    requires 0 < n <= RefRoom(r)
    requires s == r.(sent := r.sent + n, queue := r.queue[n..], drained := r.drained + r.queue[..n], late := r.late || r.finSent)
    ensures RefDrain(s) == RefDrain(r)
  {
    var m := RefRoom(r);
    assert RefRoom(s) == m - n;
    assert r.queue[..m] == r.queue[..n] + r.queue[n..][..m - n];
    assert r.queue[m..] == r.queue[n..][m - n..];
    assert r.drained + r.queue[..m] == (r.drained + r.queue[..n]) + r.queue[n..][..m - n];
  }

  lemma FinishRefines(p: Peer, r: Ref)
    requires Simulates(p, r)
    ensures var (q, out) := FinishHttps(p);
            && Simulates(q, RefFinish(r))
            && q.clientPort == p.clientPort && q.clientNext == p.clientNext
  {
    hide Drain, RefDrain;
    DistanceExact(r.isn, r.acked, r.sent);
    DrainRefines(p, r);
    var q := RefDrain(r);
    WrapAdd(q.isn + q.sent, 1);
    if !r.finSent {
      FinRoom(r);
    }
  }

  /** A FIN goes out only within one past the window. */
  lemma FinRoom(r: Ref)
    requires Counters(r) && !r.finSent
    ensures Counters(RefDrain(r)) && RefDrain(r).sent - RefDrain(r).acked <= TCP_SEND_WINDOW
  {
  }

  lemma AcknowledgeRefines(p: Peer, r: Ref, acknowledgement: nat)
    requires Simulates(p, r) && acknowledgement < SEQUENCE_SPACE
    ensures Simulates(AcknowledgeServer(p, acknowledgement), RefAcknowledge(r, acknowledgement))
    ensures var q := AcknowledgeServer(p, acknowledgement); q.clientPort == p.clientPort && q.clientNext == p.clientNext
  {
    hide Wrap;
    DistanceExact(r.isn, r.acked, r.sent);
    WrapBack(r.isn + r.acked, acknowledgement);
    WrapForward(r.isn + r.acked, acknowledgement);
  }

  lemma WrapBack(b: int, ack: int)
    ensures Wrap(ack - Wrap(b)) == Wrap(ack - b)
  {
  }

  lemma WrapForward(b: int, ack: int)
    requires 0 <= ack < SEQUENCE_SPACE
    ensures Wrap(b + Wrap(ack - b)) == ack
  {
  }

  /** Every step of every connection keeps the relation; in particular an acknowledgement never moves
      back or past what was sent, and what is in flight stays within the send window, plus one once the
      FIN is out. */
  lemma StepRefines(p: Peer, r: Ref, c: ClientSegment, e: Engine)
    requires Simulates(p, r) && c.acknowledgement < SEQUENCE_SPACE
    ensures var (q, s) := (PeerStep(p, c, e).0, RefStep(r, p.clientNext, c, e));
            && Simulates(q, s) && q.clientPort == p.clientPort
            && r.acked <= s.acked <= s.sent && r.sent <= s.sent && r.isn == s.isn
            && r.drained <= s.drained
  {
    hide FinishHttps, RefFinish, AcknowledgeServer, RefAcknowledge, Wrap;
    var p1, r1 := p.(clientWindow := c.window), r.(window := c.window);
    if c.Has(0x10) {
      AcknowledgeRefines(p1, r1, c.acknowledgement);
      RefAckMoves(r1, c.acknowledgement);
    }
    var p2 := if c.Has(0x10) then AcknowledgeServer(p1, c.acknowledgement) else p1;
    var r2 := if c.Has(0x10) then RefAcknowledge(r1, c.acknowledgement) else r1;
    KeepsNext(p2, r2);
    if c.payload != [] {
      if c.sequence == p.clientNext {
        var p3 := p2.(clientNext := Wrap(c.sequence + |c.payload|), incoming := p2.incoming + c.payload,
                      outgoing := p2.outgoing + e.produced, finished := p2.finished || e.done);
        var r3 := r2.(queue := r2.queue + e.produced, finished := r2.finished || e.done);
        if !e.raised {
          FinishRefines(p3, r3);
          RefFinishMoves(r3);
        }
      }
    } else if !c.Has(0x01) {
      FinishRefines(p2, r2);
      RefFinishMoves(r2);
    }
  }

  lemma KeepsNext(p: Peer, r: Ref)
    requires Simulates(p, r)
    ensures AfterSend(p, ACK, []) == p
    ensures forall n :: AfterSend(p.(clientNext := n), ACK, []) == p.(clientNext := n)
  {
  }

  lemma RefAckMoves(r: Ref, acknowledgement: nat)
    requires Counters(r)
    ensures var q := RefAcknowledge(r, acknowledgement);
            r.acked <= q.acked <= q.sent == r.sent && q.drained == r.drained && q.isn == r.isn
  {
  }

  lemma RefFinishMoves(r: Ref)
    ensures var q := RefFinish(r);
            && q.acked == r.acked && r.sent <= q.sent && q.isn == r.isn && r.drained <= q.drained
            && (r.finSent ==> q.finSent) && (r.late ==> q.late)
  {
  }

  // The window

  /** The payload bytes of some segments, in order. */
  function DataOf(segments: seq<Segment>): (data: seq<Byte>) {
    if segments == [] then [] else segments[0].payload + DataOf(segments[1..])
  }

  lemma {:induction false} DataAppend(a: seq<Segment>, b: seq<Segment>)
    ensures DataOf(a + b) == DataOf(a) + DataOf(b)
    decreases |a|
  {
    if a == [] {
      assert a + b == b;
    } else {
      assert (a + b)[1..] == a[1..] + b;
      DataAppend(a[1..], b);
    }
  }

  lemma DataFirst(s: Segment, rest: seq<Segment>)
    ensures DataOf([s] + rest) == s.payload + DataOf(rest)
  {
    assert ([s] + rest)[1..] == rest;
  }

  lemma Rejoin(all: seq<Byte>, n: nat, a: seq<Byte>, b: seq<Byte>)
    requires n <= |all| && a + b == all[n..]
    ensures all[..n] + a + b == all
  {
    assert all[..n] + a + b == all[..n] + (a + b);
  }

  /** Draining moves bytes from the front of the queue to the wire and loses none. */
  lemma {:induction false} DrainConserves(p: Peer, inFlight: nat)
    ensures var (q, out) := Drain(p, inFlight); DataOf(out) + q.outgoing == p.outgoing
    decreases |p.outgoing|
  {
    hide Drain, DataOf, Wrap;
    DrainUnfolds(p, inFlight);
    var window := Min(TCP_SEND_WINDOW, p.clientWindow);
    if p.outgoing != [] && inFlight < window {
      var n := Min(TCP_CHUNK, Min(window - inFlight, |p.outgoing|));
      var q := AfterSend(p.(outgoing := p.outgoing[n..]), PSH_ACK, p.outgoing[..n]);
      var (r, rest) := Drain(q, inFlight + n);
      DrainConserves(q, inFlight + n);
      DataFirst(Emit(p, PSH_ACK, p.outgoing[..n]), rest);
      Rejoin(p.outgoing, n, DataOf(rest), r.outgoing);
    } else {
      NoData();
    }
  }

  lemma FinishConserves(p: Peer)
    ensures var (q, out) := FinishHttps(p);
            DataOf(out) + q.outgoing == p.outgoing && q.serverAcked == DrainTls(p).0.serverAcked
  {
    hide Drain;
    DrainConserves(p, SequenceDistance(p.serverAcked, p.serverNext));
    var (q, out) := DrainTls(p);
    DataAppend(out, [Emit(q, FIN_ACK, [])]);
    assert DataOf([Emit(q, FIN_ACK, [])]) == [];
  }

  /** What a step gives the queue. */
  function Given(p: Peer, c: ClientSegment, e: Engine): (data: seq<Byte>) {
    if c.payload != [] && c.sequence == p.clientNext then e.produced else []
  }

  /** A step that reaches the draining loop. */
  predicate Drains(p: Peer, c: ClientSegment, e: Engine) {
    if c.payload != [] then c.sequence == p.clientNext && !e.raised else !c.Has(0x01)
  }

  /** Sequence space outstanding after a step, without a FIN that the step itself sent. */
  function Outstanding(p: Peer, q: Peer): int {
    SequenceDistance(q.serverAcked, q.serverNext) - if q.finSent && !p.finSent then 1 else 0
  }

  /** No step loses, repeats or reorders a byte: what it put on the wire and what it leaves queued are what was
      queued and what the TLS engine produced. Only a step that reaches the draining loop puts data on the wire. */
  lemma StepConserves(p: Peer, c: ClientSegment, e: Engine)
    ensures var (q, out) := PeerStep(p, c, e);
            && DataOf(out) + q.outgoing == p.outgoing + Given(p, c, e)
            && (DataOf(out) != [] ==> Drains(p, c, e))
  {
    hide FinishHttps, AcknowledgeServer, DataOf;
    var p2 := AfterWindow(p, c);
    AckKeepsQueue(p.(clientWindow := c.window), c.acknowledgement);
    var p3 := p2.(clientNext := Wrap(c.sequence + |c.payload|), incoming := p2.incoming + c.payload);
    AckCarriesNothing(p2);
    AckCarriesNothing(p2.(clientNext := Wrap(c.sequence + 1)));
    AckCarriesNothing(p3);
    if c.payload != [] && c.sequence == p.clientNext {
      var (q, out) := AdvanceTls(AfterSend(p3, ACK, []), e);
      DataAppend([Emit(p3, ACK, [])], out);
      if e.raised {
        NoData();
      } else {
        FinishConserves(AfterSend(p3, ACK, []).(outgoing := p.outgoing + e.produced, finished := p.finished || e.done));
      }
    } else if c.payload == [] && !c.Has(0x01) {
      FinishConserves(p2);
    }
  }

  /** The peer once the segment's window and acknowledgement are taken in. */
  function AfterWindow(p: Peer, c: ClientSegment): (q: Peer) {
    var q := p.(clientWindow := c.window);
    if c.Has(0x10) then AcknowledgeServer(q, c.acknowledgement) else q
  }

  lemma AckKeepsQueue(p: Peer, acknowledgement: nat)
    ensures var q := AcknowledgeServer(p, acknowledgement);
            q.outgoing == p.outgoing && q.clientNext == p.clientNext && q.finished == p.finished
  {
  }

  lemma AckCarriesNothing(p: Peer)
    ensures DataOf([Emit(p, ACK, [])]) == [] && AfterSend(p, ACK, []).outgoing == p.outgoing
    ensures AfterSend(p, ACK, []).finished == p.finished
  {
  }

  lemma NoData()
    ensures DataOf([]) == []
  {
  }

  /** One round of finish_https fills the window and never exceeds it. */
  lemma FinishWindow(p: Peer, r: Ref)
    requires Simulates(p, r)
    ensures var (q, out) := FinishHttps(p);
            var window := Min(TCP_SEND_WINDOW, p.clientWindow);
            && (DataOf(out) != [] ==> Outstanding(p, q) <= window)
            && (q.outgoing != [] ==> Outstanding(p, q) >= window)
            && (q.finSent && !p.finSent ==> q.outgoing == [])
  {
    hide FinishHttps, Drain, RefDrain, Wrap, DataOf;
    FinishConserves(p);
    FinishRefines(p, r);
    var s, d := RefFinish(r), RefDrain(r);
    DistanceExact(s.isn, s.acked, s.sent);
    RefWindow(r);
  }

  lemma RefWindow(r: Ref)
    requires Counters(r)
    ensures var (s, window) := (RefFinish(r), Min(TCP_SEND_WINDOW, r.window));
            var outstanding := s.sent - s.acked - if s.finSent && !r.finSent then 1 else 0;
            && (s.queue != r.queue ==> outstanding <= window)
            && (s.queue != [] ==> outstanding >= window)
            && (s.finSent && !r.finSent ==> s.queue == [])
  {
    if RefRoom(r) == 0 {
      DrainNothing(r);
    }
  }

  /** Data leaves only within the smaller of the send window and the window the client has just advertised,
      counted from the client's latest acknowledgement. */
  lemma StepWithinWindow(p: Peer, r: Ref, c: ClientSegment, e: Engine)
    requires Simulates(p, r) && c.acknowledgement < SEQUENCE_SPACE
    ensures var (q, out) := PeerStep(p, c, e);
            DataOf(out) != [] ==> Outstanding(p, q) <= Min(TCP_SEND_WINDOW, c.window)
  {
    StepWindow(p, r, c, e);
  }

  /** And a step that drains stops only at an empty queue or a full window. */
  lemma StepFillsWindow(p: Peer, r: Ref, c: ClientSegment, e: Engine)
    requires Simulates(p, r) && c.acknowledgement < SEQUENCE_SPACE
    ensures var (q, out) := PeerStep(p, c, e);
            Drains(p, c, e) && q.outgoing != [] ==> Outstanding(p, q) >= Min(TCP_SEND_WINDOW, c.window)
  {
    StepWindow(p, r, c, e);
  }

  lemma StepWindow(p: Peer, r: Ref, c: ClientSegment, e: Engine)
    requires Simulates(p, r) && c.acknowledgement < SEQUENCE_SPACE
    ensures var (q, out) := PeerStep(p, c, e);
            && (DataOf(out) != [] ==> Outstanding(p, q) <= Min(TCP_SEND_WINDOW, c.window))
            && (Drains(p, c, e) && q.outgoing != [] ==> Outstanding(p, q) >= Min(TCP_SEND_WINDOW, c.window))
  {
    hide FinishHttps, AcknowledgeServer, RefAcknowledge, DataOf, Wrap, Outstanding;
    var p1, r1 := p.(clientWindow := c.window), r.(window := c.window);
    if c.Has(0x10) {
      AcknowledgeRefines(p1, r1, c.acknowledgement);
      AckKeepsFin(p1, c.acknowledgement);
    }
    var p2, r2 := AfterWindow(p, c), if c.Has(0x10) then RefAcknowledge(r1, c.acknowledgement) else r1;
    KeepsNext(p2, r2);
    StepConserves(p, c, e);
    if c.payload != [] && c.sequence == p.clientNext && !e.raised {
      var p3 := p2.(clientNext := Wrap(c.sequence + |c.payload|), incoming := p2.incoming + c.payload,
                    outgoing := p2.outgoing + e.produced, finished := p2.finished || e.done);
      var r3 := r2.(queue := r2.queue + e.produced, finished := r2.finished || e.done);
      FinishWindow(p3, r3);
      var (q, out) := FinishHttps(p3);
      AckCarriesNothing(p2.(clientNext := Wrap(c.sequence + |c.payload|), incoming := p2.incoming + c.payload));
      DataAppend([Emit(p2.(clientNext := Wrap(c.sequence + |c.payload|), incoming := p2.incoming + c.payload), ACK, [])], out);
      SameOutstanding(p, p3, q);
    } else if c.payload == [] && !c.Has(0x01) {
      FinishWindow(p2, r2);
      SameOutstanding(p, p2, FinishHttps(p2).0);
    }
  }

  lemma AckKeepsFin(p: Peer, acknowledgement: nat)
    ensures var q := AcknowledgeServer(p, acknowledgement);
            q.finSent == p.finSent && q.clientWindow == p.clientWindow
  {
  }

  lemma SameOutstanding(p: Peer, p2: Peer, q: Peer)
    requires p.finSent == p2.finSent
    ensures Outstanding(p, q) == Outstanding(p2, q)
  {
  }

  // What the auditor makes of it

  /** The auditor's live stream of this port starts at the connection's first data byte and holds exactly
      the bytes drained so far. */
  ghost predicate Tracks(a: Audit, port: nat, r: Ref) {
    && a.Valid() && PeerKey(port) in a.active
    && a.streams[a.active[PeerKey(port)]] == Stream(Wrap(r.isn + 1), r.drained)
  }

  ghost function WithData(a: Audit, port: nat, data: seq<Byte>): (b: Audit)
    requires a.Valid() && PeerKey(port) in a.active
    ensures b.Valid()
  {
    var i := a.active[PeerKey(port)];
    a.(streams := a.streams[i := a.streams[i].(data := data)])
  }

  /** Segments without payload and SYN change nothing. */
  lemma PureSegment(a: Audit, p: Peer, flags: Byte)
    requires a.Valid() && flags / 2 % 2 == 0
    ensures AuditSegment(a, Emit(p, flags, [])) == a
  {
  }

  lemma {:induction false} AuditCons(a: Audit, s: Segment, rest: seq<Segment>)
    requires a.Valid()
    ensures AuditAll(a, [s] + rest) == AuditAll(AuditSegment(a, s), rest)
  {
    RunSplit(a, [s], rest);
    assert [s][..0] == [];
  }

  lemma BlockAudited(a: Audit, p: Peer, r: Ref, block: seq<Byte>)
    requires Simulates(p, r) && Tracks(a, p.clientPort, r) && block != []
    requires |r.drained| + |block| <= SEQUENCE_SPACE
    requires !r.finSent
    ensures AuditSegment(a, Emit(p, PSH_ACK, block)) == WithData(a, p.clientPort, r.drained + block)
  {
    var s, truth := Emit(p, PSH_ACK, block), r.drained + block;
    WrapAdd(r.isn + 1, |r.drained|);
    AppendedSlice(r.drained, block);
    TrueStep(a, PeerKey(p.clientPort), truth, s, |r.drained|);
  }

  lemma LateBlockRefused(a: Audit, p: Peer, r: Ref, block: seq<Byte>)
    requires Simulates(p, r) && Tracks(a, p.clientPort, r) && block != []
    requires r.finSent && |r.drained| + 1 < SEQUENCE_SPACE
    ensures AuditSegment(a, Emit(p, PSH_ACK, block)).errors != []
  {
    var s, initial := Emit(p, PSH_ACK, block), Wrap(r.isn + 1);
    WrapAdd(r.isn + 1, |r.drained| + 1);
    WrapShift(initial, |r.drained| + 1);
    assert Position(s, initial) == |r.drained| + 1;
  }

  lemma NothingAudited(a: Audit)
    requires a.Valid()
    ensures AuditAll(a, []) == a
  {
  }

  lemma {:induction false} DrainAudited(a: Audit, p: Peer, r: Ref)
    requires Simulates(p, r) && Tracks(a, p.clientPort, r) && !r.finSent
    requires |RefDrain(r).drained| <= SEQUENCE_SPACE
    ensures AuditAll(a, Drain(p, r.sent - r.acked).1) == WithData(a, p.clientPort, RefDrain(r).drained)
    decreases |p.outgoing|
  {
    hide Wrap, AuditSegment, AuditAll, Drain, RefDrain;
    var window := Min(TCP_SEND_WINDOW, p.clientWindow);
    var inFlight := r.sent - r.acked;
    DrainUnfolds(p, inFlight);
    if p.outgoing == [] || inFlight >= window {
      DrainNothing(r);
      NothingAudited(a);
      assert a.streams[a.active[PeerKey(p.clientPort)] := Stream(Wrap(r.isn + 1), r.drained)] == a.streams;
    } else {
      var n := Min(TCP_CHUNK, Min(window - inFlight, |p.outgoing|));
      var block := p.outgoing[..n];
      var q := AfterSend(p.(outgoing := p.outgoing[n..]), PSH_ACK, block);
      WrapAdd(r.isn + r.sent, n);
      var s := r.(sent := r.sent + n, queue := r.queue[n..], drained := r.drained + block, late := r.late || r.finSent);
      DrainTwice(r, s, n);
      DrainGrows(s);
      BlockAudited(a, p, r, block);
      var b := WithData(a, p.clientPort, r.drained + block);
      DrainAudited(b, q, s);
      AuditCons(a, Emit(p, PSH_ACK, block), Drain(q, inFlight + n).1);
    }
  }

  lemma DrainGrows(r: Ref)
    ensures |r.drained| <= |RefDrain(r).drained|
  {
  }

  /** Data drained after the FIN shows as a gap. */
  lemma LateAudited(a: Audit, p: Peer, r: Ref)
    requires Simulates(p, r) && Tracks(a, p.clientPort, r) && r.finSent && RefRoom(r) > 0
    requires |RefDrain(r).drained| < SEQUENCE_SPACE
    ensures AuditAll(a, Drain(p, r.sent - r.acked).1).errors != []
  {
    hide Wrap, AuditSegment;
    var window := Min(TCP_SEND_WINDOW, p.clientWindow);
    var inFlight := r.sent - r.acked;
    var n := Min(TCP_CHUNK, Min(window - inFlight, |p.outgoing|));
    var block := p.outgoing[..n];
    var q := AfterSend(p.(outgoing := p.outgoing[n..]), PSH_ACK, block);
    LateBlockRefused(a, p, r, block);
    var b := AuditSegment(a, Emit(p, PSH_ACK, block));
    AuditCons(a, Emit(p, PSH_ACK, block), Drain(q, inFlight + n).1);
    RunExtends(b, Drain(q, inFlight + n).1);
  }

  lemma SameData(a: Audit, port: nat, r: Ref)
    requires Tracks(a, port, r)
    ensures WithData(a, port, r.drained) == a
  {
    var i := a.active[PeerKey(port)];
    assert a.streams[i := a.streams[i].(data := r.drained)] == a.streams;
  }

  /** One round of finish_https, audited: either exactly the newly drained bytes were appended, or data left
      after the FIN and the auditor says so. */
  lemma FinishAudited(a: Audit, p: Peer, r: Ref)
    requires Simulates(p, r) && Tracks(a, p.clientPort, r) && !r.late
    requires |RefFinish(r).drained| < SEQUENCE_SPACE
    ensures var b := AuditAll(a, FinishHttps(p).1);
            if RefFinish(r).late then b.errors != [] else b == WithData(a, p.clientPort, RefFinish(r).drained)
  {
    hide Wrap, AuditSegment, Drain;
    DistanceExact(r.isn, r.acked, r.sent);
    DrainRefines(p, r);
    var (q, out) := DrainTls(p);
    if !r.finSent {
      DrainAudited(a, p, r);
      var b := WithData(a, p.clientPort, RefDrain(r).drained);
      PureSegment(b, q, FIN_ACK);
      RunSplit(a, out, [Emit(q, FIN_ACK, [])]);
      AuditOne(b, Emit(q, FIN_ACK, []));
    } else if RefRoom(r) > 0 {
      LateAudited(a, p, r);
    } else {
      DrainNothing(r);
      NothingDrained(p, r);
      SameData(a, p.clientPort, r);
    }
  }

  lemma AuditOne(a: Audit, s: Segment)
    requires a.Valid()
    ensures AuditAll(a, [s]) == AuditSegment(a, s)
  {
    assert [s][..0] == [];
  }

  lemma NothingDrained(p: Peer, r: Ref)
    requires Simulates(p, r) && RefRoom(r) == 0
    ensures Drain(p, r.sent - r.acked) == (p, [])
  {
  }

  /** The acknowledgement of new data and the advance it causes, audited. */
  lemma AdvanceAudited(a: Audit, p: Peer, r: Ref, e: Engine)
    requires Simulates(p, r) && Tracks(a, p.clientPort, r) && !r.late
    requires var t := r.(queue := r.queue + e.produced, finished := r.finished || e.done);
             |(if e.raised then t else RefFinish(t)).drained| < SEQUENCE_SPACE
    ensures var t := r.(queue := r.queue + e.produced, finished := r.finished || e.done);
            var s := if e.raised then t else RefFinish(t);
            var b := AuditAll(a, [Emit(p, ACK, [])] + AdvanceTls(p, e).1);
            if s.late then b.errors != [] else b == WithData(a, p.clientPort, s.drained)
  {
    hide FinishHttps, RefFinish, Wrap, AuditSegment, AuditAll;
    var q := p.(outgoing := p.outgoing + e.produced, finished := p.finished || e.done);
    var t := r.(queue := r.queue + e.produced, finished := r.finished || e.done);
    PureSegment(a, p, ACK);
    if e.raised {
      AuditOne(a, Emit(p, ACK, []));
      SameData(a, p.clientPort, r);
      assert [Emit(p, ACK, [])] + [] == [Emit(p, ACK, [])];
    } else {
      FinishAudited(a, q, t);
      AuditCons(a, Emit(p, ACK, []), FinishHttps(q).1);
    }
  }

  /** One client segment, audited. */
  lemma StepAudited(a: Audit, p: Peer, r: Ref, c: ClientSegment, e: Engine)
    requires Simulates(p, r) && Tracks(a, p.clientPort, r) && !r.late && c.acknowledgement < SEQUENCE_SPACE
    requires |RefStep(r, p.clientNext, c, e).drained| < SEQUENCE_SPACE
    ensures var b, s := AuditAll(a, PeerStep(p, c, e).1), RefStep(r, p.clientNext, c, e);
            if s.late then b.errors != [] else b == WithData(a, p.clientPort, s.drained)
  {
    hide FinishHttps, RefFinish, AcknowledgeServer, RefAcknowledge, Wrap, AuditSegment;
    var p1, r1 := p.(clientWindow := c.window), r.(window := c.window);
    if c.Has(0x10) {
      AcknowledgeRefines(p1, r1, c.acknowledgement);
      RefAckKeeps(r1, c.acknowledgement);
    }
    var p2 := if c.Has(0x10) then AcknowledgeServer(p1, c.acknowledgement) else p1;
    var r2 := if c.Has(0x10) then RefAcknowledge(r1, c.acknowledgement) else r1;
    KeepsNext(p2, r2);
    SameData(a, p.clientPort, r);
    if c.payload != [] {
      var p3 := p2.(clientNext := Wrap(c.sequence + |c.payload|), incoming := p2.incoming + c.payload);
      PureSegment(a, p2, ACK);
      if c.sequence == p.clientNext {
        AdvanceAudited(a, p3, r2, e);
      } else {
        AuditOne(a, Emit(p2, ACK, []));
      }
    } else if c.Has(0x01) {
      var p3 := p2.(clientNext := Wrap(c.sequence + 1));
      PureSegment(a, p3, ACK);
      AuditOne(a, Emit(p3, ACK, []));
    } else {
      FinishAudited(a, p2, r2);
    }
  }

  lemma RefAckKeeps(r: Ref, acknowledgement: nat)
    ensures var q := RefAcknowledge(r, acknowledgement);
            q == r.(acked := q.acked)
  {
  }
}
