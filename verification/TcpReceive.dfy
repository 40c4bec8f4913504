// The receiving half of the HTTPS peer (handle_tcp in tools/https_network_fixture.py): which client bytes it takes,
// what it acknowledges and what reaches the TLS engine, over whole runs.

module TcpReceive {
  import opened Bytes
  import opened TcpReassembly
  import opened TcpPeer
  import opened TcpRuns

  // A receiver with unbounded counters, fed with nothing but the client's segments

  /** One connection: the number of the client's first data byte, the bytes taken in so far, and how many FINs
      came in sequence. */
  datatype Receiver = Receiver(first: nat, accepted: seq<Byte>, fins: nat) {
    /** The number the client is expected to send next. */
    function Expected(): (n: nat) {
      first + |accepted| + fins
    }
  }

  datatype Listener = Closed | Listening(receiver: Receiver)

  predicate Opens(c: ClientSegment) {
    c.Has(0x02) && !c.Has(0x10)
  }

  /** Data counts only at the expected number; so does a FIN without data. */
  function Take(r: Receiver, c: ClientSegment): (s: Receiver) {
    if c.sequence != Wrap(r.Expected()) then r
    else if c.payload != [] then r.(accepted := r.accepted + c.payload)
    else if c.Has(0x01) then r.(fins := r.fins + 1)
    else r
  }

  /** The latest connection of a port. */
  function Receive(events: seq<Event>, port: nat): (l: Listener) {
    if events == [] then Closed
    else
      var k := |events| - 1;
      var (before, c) := (Receive(events[..k], port), events[k].segment);
      if c.port != port then before
      else if Opens(c) then Listening(Receiver(c.sequence + 1, [], 0))
      else if before.Closed? then Closed
      else Listening(Take(before.receiver, c))
  }

  // One step

  /** A FIN without data is at the expected number, or repeats the one before it. */
  predicate Tidy(r: Receiver, c: ClientSegment) {
    c.payload == [] && c.Has(0x01) ==> c.sequence == Wrap(r.Expected()) || c.sequence == Wrap(r.Expected() - 1)
  }

  /** The peer stands where the receiver does, and has handed its bytes to the engine. */
  ghost predicate Agrees(p: Peer, r: Receiver) {
    p.clientNext == Wrap(r.Expected()) && p.incoming == r.accepted
  }

  ghost predicate Acknowledge(segments: seq<Segment>, number: nat) {
    forall i :: 0 <= i < |segments| ==> segments[i].acknowledgement == number
  }

  lemma {:induction false} DrainAcknowledges(p: Peer, inFlight: nat)
    ensures var (q, out) := Drain(p, inFlight);
            Acknowledge(out, p.clientNext) && q.clientNext == p.clientNext && q.incoming == p.incoming
    decreases |p.outgoing|
  {
    hide Drain, Wrap;
    DrainUnfolds(p, inFlight);
    var window := Min(TCP_SEND_WINDOW, p.clientWindow);
    if p.outgoing != [] && inFlight < window {
      var n := Min(TCP_CHUNK, Min(window - inFlight, |p.outgoing|));
      DrainAcknowledges(AfterSend(p.(outgoing := p.outgoing[n..]), PSH_ACK, p.outgoing[..n]), inFlight + n);
    }
  }

  lemma FinishAcknowledges(p: Peer)
    ensures var (q, out) := FinishHttps(p);
            Acknowledge(out, p.clientNext) && q.clientNext == p.clientNext && q.incoming == p.incoming
  {
    hide Drain, Wrap;
    DrainAcknowledges(p, SequenceDistance(p.serverAcked, p.serverNext));
  }

  lemma WindowKeeps(p: Peer, c: ClientSegment)
    ensures AfterWindow(p, c).clientNext == p.clientNext && AfterWindow(p, c).incoming == p.incoming
  {
    hide Wrap;
  }

  lemma SendKeeps(p: Peer, flags: Byte, payload: seq<Byte>)
    ensures var q := AfterSend(p, flags, payload); q.clientNext == p.clientNext && q.incoming == p.incoming
    ensures Emit(p, flags, payload).acknowledgement == p.clientNext
  {
  }

  /** A tidy segment moves peer and receiver alike, and everything sent acknowledges what the receiver expects. */
  lemma StepReceives(p: Peer, r: Receiver, c: ClientSegment, e: Engine)
    requires Agrees(p, r) && Tidy(r, c)
    ensures var (q, out) := PeerStep(p, c, e);
            Agrees(q, Take(r, c)) && Acknowledge(out, Wrap(Take(r, c).Expected()))
  {
    hide FinishHttps, AcknowledgeServer, AfterSend, Emit, Wrap;
    var p2 := AfterWindow(p, c);
    WindowKeeps(p, c);
    var p3 := p2.(clientNext := Wrap(c.sequence + |c.payload|), incoming := p2.incoming + c.payload);
    SendKeeps(p2, ACK, []);
    SendKeeps(p3, ACK, []);
    if c.payload != [] {
      if c.sequence == p.clientNext {
        WrapAdd(r.Expected(), |c.payload|);
        var p4 := AfterSend(p3, ACK, []);
        FinishAcknowledges(p4.(outgoing := p4.outgoing + e.produced, finished := p4.finished || e.done));
      }
    } else if c.Has(0x01) {
      SendKeeps(p2.(clientNext := Wrap(c.sequence + 1)), ACK, []);
      FinNumber(r.Expected(), c.sequence);
    } else {
      FinishAcknowledges(p2);
    }
  }

  /** Which FIN numbers leave the peer at the number after the expected one, or at the expected one. */
  lemma FinNumber(expected: nat, sequence: nat)
    ensures sequence == Wrap(expected) ==> Wrap(sequence + 1) == Wrap(expected + 1)
    ensures sequence < SEQUENCE_SPACE ==> (sequence == Wrap(expected - 1) <==> Wrap(sequence + 1) == Wrap(expected))
    ensures sequence == Wrap(expected - 1) ==> Wrap(sequence + 1) == Wrap(expected)
  {
  }

  /** A stray FIN is acknowledged with a number the receiver does not expect. */
  lemma StrayStep(p: Peer, r: Receiver, c: ClientSegment, e: Engine)
    requires Agrees(p, r) && !Tidy(r, c) && c.sequence < SEQUENCE_SPACE
    ensures var out := PeerStep(p, c, e).1; out != [] && out[0].acknowledgement != Wrap(Take(r, c).Expected())
  {
    hide FinishHttps, AcknowledgeServer, AfterSend, Wrap;
    WindowKeeps(p, c);
    FinNumber(r.Expected(), c.sequence);
  }

  // Whole runs

  /** Every FIN without data on an open connection of this port is tidy. */
  ghost predicate Orderly(events: seq<Event>, port: nat) {
    forall k :: 0 <= k < |events| && events[k].segment.port == port ==> TidyAt(events, k)
  }

  ghost predicate TidyAt(events: seq<Event>, k: nat)
    requires k < |events|
  {
    var (c, l) := (events[k].segment, Receive(events[..k], events[k].segment.port));
    l.Listening? && !Opens(c) ==> Tidy(l.receiver, c)
  }

  /** What event `k` adds to the capture acknowledges exactly what its connection has taken in by then. */
  ghost predicate ExactAt(events: seq<Event>, k: nat)
    requires k < |events|
  {
    var (f, g, l) := (Run(events[..k]), Run(events[..k + 1]), Receive(events[..k + 1], events[k].segment.port));
    && f.capture <= g.capture
    && (f.capture < g.capture ==> l.Listening?)
    && (l.Listening? ==> Acknowledge(g.capture[|f.capture|..], Wrap(l.receiver.Expected())))
  }

  ghost predicate Exact(events: seq<Event>, port: nat) {
    forall k :: 0 <= k < |events| && events[k].segment.port == port ==> ExactAt(events, k)
  }

  /** Peer and receiver of a port agree. */
  ghost predicate Stands(events: seq<Event>, port: nat) {
    var (f, l) := (Run(events), Receive(events, port));
    (port in f.peers <==> l.Listening?) && (l.Listening? ==> Agrees(f.peers[port], l.receiver))
  }

  lemma ReceiveStep(events: seq<Event>, port: nat)
    requires events != []
    ensures var k := |events| - 1;
            var (before, c) := (Receive(events[..k], port), events[k].segment);
            Receive(events, port) ==
            if c.port != port then before
            else if Opens(c) then Listening(Receiver(c.sequence + 1, [], 0))
            else if before.Closed? then Closed
            else Listening(Take(before.receiver, c))
  {
    hide Take;
  }

  /** One event on this port: agreement and exactness continue exactly when the event is tidy. */
  lemma EventReceives(events: seq<Event>, port: nat)
    requires events != [] && Wire(events) && Stands(events[..|events| - 1], port)
    requires events[|events| - 1].segment.port == port
    ensures var k := |events| - 1;
            && (TidyAt(events, k) <==> ExactAt(events, k))
            && (TidyAt(events, k) ==> Stands(events, port))
  {
    hide Run, Receive, PeerStep, Take, Agrees, Tidy, Acknowledge, NewPeer, Emit, AfterSend;
    var k := |events| - 1;
    var (init, c, e) := (events[..k], events[k].segment, events[k].engine);
    assert events[..k + 1] == events;
    NextRun(events);
    ReceiveStep(events, port);
    var f := Run(init);
    if Opens(c) {
      Opened(c);
      AddedTail(f.capture, [Emit(NewPeer(c.port, c.sequence, c.window), SYN_ACK, [])]);
    } else if port in f.peers {
      var (p, r) := (f.peers[port], Receive(init, port).receiver);
      var out := PeerStep(p, c, e).1;
      AddedTail(f.capture, out);
      if Tidy(r, c) {
        StepReceives(p, r, c, e);
      } else {
        StrayStep(p, r, c, e);
        NotAcknowledged(out, Wrap(Take(r, c).Expected()));
      }
    } else {
      AddedTail(f.capture, []);
    }
  }

  lemma Opened(c: ClientSegment)
    ensures var (p, r) := (NewPeer(c.port, c.sequence, c.window), Receiver(c.sequence + 1, [], 0));
            && Agrees(AfterSend(p, SYN_ACK, []), r)
            && Acknowledge([Emit(p, SYN_ACK, [])], Wrap(r.Expected()))
  {
  }

  lemma AddedTail(a: seq<Segment>, b: seq<Segment>)
    ensures a <= a + b && (a + b)[|a|..] == b && (b != [] ==> a < a + b) && a + [] == a
    ensures Acknowledge([], 0) && forall n :: Acknowledge([], n)
  {
  }

  lemma NotAcknowledged(out: seq<Segment>, number: nat)
    requires out != [] && out[0].acknowledgement != number
    ensures !Acknowledge(out, number)
  {
  }

  /** Another port's event leaves this port as it is. */
  lemma OtherEvent(events: seq<Event>, port: nat)
    requires events != [] && Stands(events[..|events| - 1], port) && events[|events| - 1].segment.port != port
    ensures Stands(events, port)
  {
    hide Run, Receive, PeerStep, Take, Agrees;
    NextRun(events);
    ReceiveStep(events, port);
  }

  lemma SamePrefix(events: seq<Event>, k: nat)
    requires k < |events| - 1
    ensures var init := events[..|events| - 1];
            (TidyAt(init, k) <==> TidyAt(events, k)) && (ExactAt(init, k) <==> ExactAt(events, k))
  {
    hide Run, Receive, Tidy, Acknowledge;
    var init := events[..|events| - 1];
    assert init[..k] == events[..k] && init[..k + 1] == events[..k + 1];
  }

  /** In every run, for every port: each segment its connections send acknowledges exactly the client bytes taken in
      by then, one more for the SYN and one for each FIN in sequence, if and only if every FIN without data arrives
      at the expected number or repeats the one before it. The bytes taken in are then exactly those handed to the
      TLS engine, in order. */
  lemma {:induction false} RunReceives(events: seq<Event>, port: nat)
    requires Wire(events)
    ensures Orderly(events, port) <==> Exact(events, port)
    ensures Orderly(events, port) ==> Stands(events, port)
    decreases |events|
  {
    hide TidyAt, ExactAt, Stands;
    if events == [] {
      NothingStands(port);
    } else {
      var k := |events| - 1;
      var init := events[..k];
      assert forall j :: 0 <= j < k ==> init[j] == events[j];
      RunReceives(init, port);
      forall j | 0 <= j < k
        ensures (TidyAt(init, j) <==> TidyAt(events, j)) && (ExactAt(init, j) <==> ExactAt(events, j))
      {
        SamePrefix(events, j);
      }
      if Orderly(init, port) {
        if events[k].segment.port == port {
          EventReceives(events, port);
        } else {
          OtherEvent(events, port);
        }
      }
    }
  }

  lemma NothingStands(port: nat)
    ensures Stands([], port)
  {
  }

  // Clients that send one stream

  /** The data a port's segments carry, in the order sent. */
  function Sent(events: seq<Event>, port: nat): (data: seq<Byte>) {
    if events == [] then []
    else
      var k := |events| - 1;
      Sent(events[..k], port) + if events[k].segment.port == port then events[k].segment.payload else []
  }

  /** Segments of a port that neither open nor close it. */
  ghost predicate Carries(c: ClientSegment) {
    !Opens(c) && (c.payload == [] ==> !c.Has(0x01))
  }

  /** Each data segment of the port takes up where the one before it ended. */
  ghost predicate Consecutive(events: seq<Event>, port: nat, first: nat) {
    forall k :: 0 <= k < |events| && events[k].segment.port == port ==>
      && Carries(events[k].segment)
      && (events[k].segment.payload != [] ==> events[k].segment.sequence == Wrap(first + |Sent(events[..k], port)|))
  }

  /** A client that sends its stream in consecutive pieces has each piece taken in once: after every piece the
      receiver holds exactly what was sent, however long the stream and whatever other connections do. */
  lemma {:induction false} ConsecutiveAccepted(before: seq<Event>, syn: Event, after: seq<Event>)
    requires Opens(syn.segment) && Consecutive(after, syn.segment.port, syn.segment.sequence + 1)
    ensures var port := syn.segment.port;
            Receive(before + [syn] + after, port) == Listening(Receiver(syn.segment.sequence + 1, Sent(after, port), 0))
    decreases |after|
  {
    hide Receive, Opens, Wrap;
    var (port, first) := (syn.segment.port, syn.segment.sequence + 1);
    var events := before + [syn] + after;
    ReceiveStep(events, port);
    if after == [] {
      assert events == before + [syn];
      assert events[|events| - 1] == syn;
    } else {
      var n := |after| - 1;
      var init := after[..n];
      assert forall j :: 0 <= j < n ==> init[j] == after[j] && init[..j] == after[..j];
      ConsecutiveAccepted(before, syn, init);
      assert events[..|events| - 1] == before + [syn] + init;
      assert events[|events| - 1] == after[n];
      assert Sent(init, port) + [] == Sent(init, port);
    }
  }

  /** Each data segment of the port is a slice of one stream. */
  ghost predicate Slices(events: seq<Event>, port: nat, first: nat, truth: seq<Byte>, offsets: seq<nat>)
    requires |offsets| == |events|
  {
    forall k :: 0 <= k < |events| && events[k].segment.port == port ==>
      var c := events[k].segment;
      && Carries(c)
      && (c.payload != [] ==>
            && offsets[k] + |c.payload| <= |truth|
            && c.payload == truth[offsets[k]..offsets[k] + |c.payload|] && c.sequence == Wrap(first + offsets[k]))
  }

  /** How far the stream is taken in: a piece counts when it starts exactly there. */
  ghost function Reached(events: seq<Event>, port: nat, offsets: seq<nat>): (n: nat)
    requires |offsets| == |events|
  {
    if events == [] then 0
    else
      var k := |events| - 1;
      var (n, c) := (Reached(events[..k], port, offsets[..k]), events[k].segment);
      if c.port == port && c.payload != [] && offsets[k] == n then n + |c.payload| else n
  }

  /** Whatever pieces of one stream of under 2^32 bytes a client sends, repeated or out of order, the receiver holds a
      prefix of the stream: no byte twice, none out of place, and a piece is taken in exactly when it starts where
      that prefix ends. */
  lemma {:induction false} SlicesAccepted(before: seq<Event>, syn: Event, after: seq<Event>, truth: seq<Byte>,
                                          offsets: seq<nat>)
    requires Opens(syn.segment) && |offsets| == |after| && |truth| < SEQUENCE_SPACE
    requires Slices(after, syn.segment.port, syn.segment.sequence + 1, truth, offsets)
    ensures var (port, first) := (syn.segment.port, syn.segment.sequence + 1);
            var n := Reached(after, port, offsets);
            n <= |truth| && Receive(before + [syn] + after, port) == Listening(Receiver(first, truth[..n], 0))
    decreases |after|
  {
    hide Receive, Opens, Wrap, Take;
    var (port, first) := (syn.segment.port, syn.segment.sequence + 1);
    var events := before + [syn] + after;
    ReceiveStep(events, port);
    if after == [] {
      assert events == before + [syn];
      assert events[|events| - 1] == syn;
    } else {
      var k := |after| - 1;
      var (init, c, offset) := (after[..k], after[k].segment, offsets[k]);
      assert forall j :: 0 <= j < k ==> init[j] == after[j] && offsets[..k][j] == offsets[j];
      SlicesAccepted(before, syn, init, truth, offsets[..k]);
      assert events[..|events| - 1] == before + [syn] + init;
      assert events[|events| - 1] == after[k];
      if c.port == port {
        SliceTaken(truth, first, Reached(init, port, offsets[..k]), c, offset);
      }
    }
  }

  /** One piece: taken in exactly when it starts where the prefix ends. */
  lemma SliceTaken(truth: seq<Byte>, first: nat, n: nat, c: ClientSegment, offset: nat)
    requires |truth| < SEQUENCE_SPACE && n <= |truth| && Carries(c)
    requires c.payload != [] ==>
               && offset + |c.payload| <= |truth| && c.payload == truth[offset..offset + |c.payload|]
               && c.sequence == Wrap(first + offset)
    ensures var m := if c.payload != [] && offset == n then n + |c.payload| else n;
            m <= |truth| && Take(Receiver(first, truth[..n], 0), c) == Receiver(first, truth[..m], 0)
  {
    hide Wrap;
    if c.payload != [] {
      SamePlace(first, offset, n);
      assert offset == n ==> truth[..n] + c.payload == truth[..n + |c.payload|];
    }
  }

  lemma SamePlace(first: nat, a: nat, b: nat)
    requires a < SEQUENCE_SPACE && b < SEQUENCE_SPACE
    ensures Wrap(first + a) == Wrap(first + b) <==> a == b
  {
  }

  /** A SYN puts peer and receiver in agreement, whatever came before. */
  lemma OpeningStands(events: seq<Event>)
    requires events != [] && Opens(events[|events| - 1].segment)
    ensures Stands(events, events[|events| - 1].segment.port)
  {
    hide Run, Receive, Agrees, NewPeer, AfterSend, Emit;
    var c := events[|events| - 1].segment;
    NextRun(events);
    ReceiveStep(events, c.port);
    Opened(c);
  }

  /** Without FINs they stay in agreement, and everything sent acknowledges exactly what was taken in. */
  lemma {:induction false} CarriedStands(before: seq<Event>, syn: Event, after: seq<Event>)
    requires Wire(before + [syn] + after) && Opens(syn.segment)
    requires forall k :: 0 <= k < |after| && after[k].segment.port == syn.segment.port ==> Carries(after[k].segment)
    ensures Stands(before + [syn] + after, syn.segment.port)
    ensures var events := before + [syn] + after;
            forall k :: |before| < k < |events| && events[k].segment.port == syn.segment.port ==> ExactAt(events, k)
    decreases |after|
  {
    hide Stands, ExactAt, TidyAt, Opens;
    var (events, port) := (before + [syn] + after, syn.segment.port);
    if after == [] {
      assert events == before + [syn];
      OpeningStands(events);
    } else {
      var n := |events| - 1;
      var init := after[..|after| - 1];
      assert events[..n] == before + [syn] + init;
      assert forall j :: 0 <= j < n ==> events[..n][j] == events[j];
      CarriedStands(before, syn, init);
      forall k | |before| < k < n && events[k].segment.port == port
        ensures ExactAt(events, k)
      {
        SamePrefix(events, k);
      }
      assert events[n] == after[|after| - 1];
      if events[n].segment.port == port {
        CarriedIsTidy(events, n);
        EventReceives(events, port);
      } else {
        OtherEvent(events, port);
      }
    }
  }

  lemma CarriedIsTidy(events: seq<Event>, k: nat)
    requires k < |events| && Carries(events[k].segment)
    ensures TidyAt(events, k)
  {
    hide Receive, Wrap;
  }

  /** What reaches the TLS engine of a client that sends consecutive pieces, whatever came before its SYN and whatever
      other connections do: exactly the bytes sent, in order; and every segment it is sent acknowledges exactly the
      bytes taken in by then. */
  lemma StreamDelivered(before: seq<Event>, syn: Event, after: seq<Event>)
    requires Wire(before + [syn] + after) && Opens(syn.segment)
    requires Consecutive(after, syn.segment.port, syn.segment.sequence + 1)
    ensures var (events, port) := (before + [syn] + after, syn.segment.port);
            && port in Run(events).peers && Run(events).peers[port].incoming == Sent(after, port)
            && Run(events).peers[port].clientNext == Wrap(syn.segment.sequence + 1 + |Sent(after, port)|)
            && forall k :: |before| < k < |events| && events[k].segment.port == port ==> ExactAt(events, k)
  {
    hide Run, Receive, Opens, Wrap, ExactAt;
    ConsecutiveCarries(after, syn.segment.port, syn.segment.sequence + 1);
    CarriedStands(before, syn, after);
    ConsecutiveAccepted(before, syn, after);
  }

  lemma ConsecutiveCarries(events: seq<Event>, port: nat, first: nat)
    requires Consecutive(events, port, first)
    ensures forall k :: 0 <= k < |events| && events[k].segment.port == port ==> Carries(events[k].segment)
  {
  }

  // A FIN out of sequence

  const STRAY_SYN := Event(ClientSegment(40000, 1000, 0, 0x02, 8192, []), Engine([], false, false))
  const STRAY_FIN := Event(ClientSegment(40000, 5000, 0, 0x11, 8192, []), Engine([], false, false))

  /** A FIN at 5000, where 1001 is expected, is acknowledged as if everything before it had come. */
  lemma StrayFinAcknowledged()
    ensures Wire([STRAY_SYN, STRAY_FIN]) && !Exact([STRAY_SYN, STRAY_FIN], 40000)
  {
    hide Exact, Run;
    var events := [STRAY_SYN, STRAY_FIN];
    assert events[..1] == [STRAY_SYN] && [STRAY_SYN][..0] == [];
    assert Receive([STRAY_SYN], 40000) == Listening(Receiver(1001, [], 0));
    assert !TidyAt(events, 1);
    RunReceives(events, 40000);
  }
}
