// The segments the HTTPS peer puts on the wire (send_https, drain_tls and handle_tcp in
// tools/https_network_fixture.py): addresses, flags, sequence numbers and sizes, over whole runs.

module TcpShape {
  import opened Bytes
  import opened TcpReassembly
  import opened TcpPeer
  import opened TcpRuns

  /** From the server's address and port 443 to the guest: 1 to 1200 bytes pushed, or nothing with an ACK or a FIN. */
  ghost predicate Shaped(s: Segment, port: nat) {
    && s.key == FlowKey([10, 0, 2, 20], 443, [10, 0, 2, 15], port)
    && if s.payload != [] then s.flags == 0x18 && |s.payload| <= 1200 else s.flags == 0x10 || s.flags == 0x11
  }

  /** The sequence space segments take: their bytes, and one for each FIN. */
  ghost function Length(out: seq<Segment>): (n: nat) {
    if out == [] then 0 else |out[0].payload| + (if out[0].flags == 0x11 then 1 else 0) + Length(out[1..])
  }

  /** Segments that start at number `start` and follow each other without gap or overlap. */
  ghost predicate Follow(out: seq<Segment>, port: nat, start: int)
    decreases |out|
  {
    out == [] || (
      && Shaped(out[0], port) && out[0].sequence == start % 0x1_0000_0000
      && Follow(out[1..], port, start + Length([out[0]])))
  }

  /** Only the last of the data segments is short, and nothing follows a FIN. */
  ghost predicate Packed(out: seq<Segment>) {
    && (forall i, j :: 0 <= i < j < |out| && out[i].payload != [] && out[j].payload != [] ==> |out[i].payload| == 1200)
    && (forall i :: 0 <= i < |out| && out[i].flags == 0x11 ==> i == |out| - 1)
  }

  lemma Single(s: Segment)
    ensures Length([s]) == |s.payload| + if s.flags == 0x11 then 1 else 0
  {
    assert [s][1..] == [];
  }

  lemma {:induction false} FollowFrom(out: seq<Segment>, port: nat, a: int, b: int)
    requires Follow(out, port, a) && a % 0x1_0000_0000 == b % 0x1_0000_0000
    ensures Follow(out, port, b)
    decreases |out|
  {
    if out != [] {
      var n := Length([out[0]]);
      Shift(a, b, n);
      FollowFrom(out[1..], port, a + n, b + n);
    }
  }

  lemma Shift(a: int, b: int, n: int)
    requires a % 0x1_0000_0000 == b % 0x1_0000_0000
    ensures (a + n) % 0x1_0000_0000 == (b + n) % 0x1_0000_0000
  {
  }

  lemma {:induction false} FollowJoin(a: seq<Segment>, b: seq<Segment>, port: nat, start: int)
    requires Follow(a, port, start) && Follow(b, port, start + Length(a))
    ensures Follow(a + b, port, start) && Length(a + b) == Length(a) + Length(b)
    decreases |a|
  {
    if a == [] {
      assert a + b == b;
    } else {
      Single(a[0]);
      assert (a + b)[1..] == a[1..] + b;
      FollowJoin(a[1..], b, port, start + Length([a[0]]));
    }
  }

  // Sends

  lemma Sent(p: Peer, flags: Byte, payload: seq<Byte>)
    requires (payload != [] && flags == 0x18 && |payload| <= 1200) || (payload == [] && (flags == 0x10 || flags == 0x11))
    requires p.serverNext < 0x1_0000_0000
    ensures var s := Emit(p, flags, payload);
            && Follow([s], p.clientPort, p.serverNext)
            && AfterSend(p, flags, payload).serverNext == (p.serverNext + Length([s])) % 0x1_0000_0000
  {
    Single(Emit(p, flags, payload));
  }

  lemma {:induction false} DrainShapes(p: Peer, inFlight: nat)
    requires p.serverNext < 0x1_0000_0000
    ensures var (q, out) := Drain(p, inFlight);
            && q.clientPort == p.clientPort
            && Follow(out, p.clientPort, p.serverNext) && q.serverNext == (p.serverNext + Length(out)) % 0x1_0000_0000
            && Packed(out) && (forall i :: 0 <= i < |out| ==> out[i].payload != [])
    decreases |p.outgoing|
  {
    hide Drain, Follow, Length, Packed, AfterSend, Emit;
    DrainUnfolds(p, inFlight);
    var window := Min(TCP_SEND_WINDOW, p.clientWindow);
    if p.outgoing == [] || inFlight >= window {
      NoneShaped(p.clientPort, p.serverNext);
    } else {
      var n := Min(TCP_CHUNK, Min(window - inFlight, |p.outgoing|));
      var (block, less) := (p.outgoing[..n], p.(outgoing := p.outgoing[n..]));
      var q := AfterSend(less, PSH_ACK, block);
      var s := Emit(p, PSH_ACK, block);
      SendKeepsRest(p, less, PSH_ACK, block);
      Sent(p, PSH_ACK, block);
      DrainShapes(q, inFlight + n);
      var rest := Drain(q, inFlight + n).1;
      FollowFrom(rest, p.clientPort, q.serverNext, p.serverNext + Length([s]));
      FollowJoin([s], rest, p.clientPort, p.serverNext);
      DrainStops(q, inFlight + n, window);
      PackFirst(s, rest);
      ModAdd(p.serverNext + Length([s]), Length(rest));
    }
  }

  lemma NoneShaped(port: nat, start: int)
    requires 0 <= start < 0x1_0000_0000
    ensures Follow([], port, start) && Length([]) == 0 && Packed([]) && start % 0x1_0000_0000 == start
  {
  }

  lemma SendKeepsRest(p: Peer, less: Peer, flags: Byte, payload: seq<Byte>)
    requires less == p.(outgoing := less.outgoing)
    ensures var q := AfterSend(less, flags, payload);
            && q.serverNext == AfterSend(p, flags, payload).serverNext < 0x1_0000_0000
            && q.clientPort == p.clientPort && q.clientWindow == p.clientWindow && q.outgoing == less.outgoing
    ensures Emit(p, flags, payload).payload == payload && Emit(p, flags, payload).flags == flags
  {
  }

  lemma ModAdd(a: int, b: int)
    ensures (a % 0x1_0000_0000 + b) % 0x1_0000_0000 == (a + b) % 0x1_0000_0000
  {
  }

  /** With the window full or the queue empty nothing more is sent. */
  lemma DrainStops(p: Peer, inFlight: nat, window: int)
    requires window == Min(TCP_SEND_WINDOW, p.clientWindow)
    ensures p.outgoing == [] || inFlight >= window ==> Drain(p, inFlight).1 == []
  {
    hide Drain;
    DrainUnfolds(p, inFlight);
  }

  lemma PackFirst(s: Segment, rest: seq<Segment>)
    requires Packed(rest) && s.payload != [] && s.flags == 0x18 && (rest != [] ==> |s.payload| == 1200)
    ensures Packed([s] + rest)
  {
    var out := [s] + rest;
    forall i, j | 0 <= i < j < |out| && out[i].payload != [] && out[j].payload != []
      ensures |out[i].payload| == 1200
    {
      if i > 0 {
        assert out[i] == rest[i - 1] && out[j] == rest[j - 1];
      }
    }
    forall i | 0 <= i < |out| && out[i].flags == 0x11
      ensures i == |out| - 1
    {
      if i > 0 {
        assert out[i] == rest[i - 1];
      }
    }
  }

  /** An ACK without data in front, or a FIN behind. */
  lemma PackAck(s: Segment, rest: seq<Segment>)
    requires Packed(rest) && s.payload == [] && s.flags == 0x10
    ensures Packed([s] + rest)
  {
    var out := [s] + rest;
    forall i, j | 0 <= i < j < |out| && out[i].payload != [] && out[j].payload != []
      ensures |out[i].payload| == 1200
    {
      assert out[i] == rest[i - 1] && out[j] == rest[j - 1];
    }
    forall i | 0 <= i < |out| && out[i].flags == 0x11
      ensures i == |out| - 1
    {
      assert out[i] == rest[i - 1];
    }
  }

  lemma PackFin(out: seq<Segment>, s: Segment)
    requires Packed(out) && s.payload == [] && s.flags == 0x11 && forall i :: 0 <= i < |out| ==> out[i].flags != 0x11
    ensures Packed(out + [s])
  {
  }

  lemma {:induction false} FollowFlags(out: seq<Segment>, port: nat, start: int, i: nat)
    requires Follow(out, port, start) && i < |out|
    ensures Shaped(out[i], port)
    decreases |out|
  {
    if i > 0 {
      FollowFlags(out[1..], port, start + Length([out[0]]), i - 1);
    }
  }

  /** What one step of a connection sends. */
  ghost predicate Sends(p: Peer, q: Peer, out: seq<Segment>) {
    && q.clientPort == p.clientPort
    && Follow(out, p.clientPort, p.serverNext) && q.serverNext == (p.serverNext + Length(out)) % 0x1_0000_0000
    && Packed(out)
    && (p.finSent ==> q.finSent)
    && ((exists i :: 0 <= i < |out| && out[i].flags == 0x11) <==> q.finSent && !p.finSent)
  }

  lemma FinishShapes(p: Peer)
    requires p.serverNext < 0x1_0000_0000
    ensures var (q, out) := FinishHttps(p); Sends(p, q, out)
  {
    hide Drain, Follow, Length, Packed;
    var (d, out) := DrainTls(p);
    DrainShapes(p, SequenceDistance(p.serverAcked, p.serverNext));
    DrainKeepsFin(p, SequenceDistance(p.serverAcked, p.serverNext));
    forall i | 0 <= i < |out|
      ensures out[i].flags != 0x11
    {
      FollowFlags(out, p.clientPort, p.serverNext, i);
    }
    if d.finished && !d.finSent && d.outgoing == [] {
      var s := Emit(d, FIN_ACK, []);
      Sent(d, FIN_ACK, []);
      FollowFrom([s], p.clientPort, d.serverNext, p.serverNext + Length(out));
      FollowJoin(out, [s], p.clientPort, p.serverNext);
      ModAdd(p.serverNext + Length(out), Length([s]));
      PackFin(out, s);
      assert (out + [s])[|out|] == s;
    }
  }

  lemma {:induction false} DrainKeepsFin(p: Peer, inFlight: nat)
    ensures var q := Drain(p, inFlight).0; q.finSent == p.finSent && q.finished == p.finished
    decreases |p.outgoing|
  {
    hide Drain, Wrap;
    DrainUnfolds(p, inFlight);
    var window := Min(TCP_SEND_WINDOW, p.clientWindow);
    if p.outgoing != [] && inFlight < window {
      var n := Min(TCP_CHUNK, Min(window - inFlight, |p.outgoing|));
      DrainKeepsFin(AfterSend(p.(outgoing := p.outgoing[n..]), PSH_ACK, p.outgoing[..n]), inFlight + n);
    }
  }

  lemma AckSends(p: Peer)
    requires p.serverNext < 0x1_0000_0000
    ensures Sends(p, AfterSend(p, ACK, []), [Emit(p, ACK, [])])
    ensures AfterSend(p, ACK, []) == p
  {
    Sent(p, ACK, []);
    PackAck(Emit(p, ACK, []), []);
    assert [Emit(p, ACK, [])] + [] == [Emit(p, ACK, [])];
  }

  lemma AckThenSends(p: Peer, q: Peer, out: seq<Segment>)
    requires p.serverNext < 0x1_0000_0000 && Sends(p, q, out)
    ensures Sends(p, q, [Emit(p, ACK, [])] + out)
  {
    hide Follow, Length, Packed;
    var s := Emit(p, ACK, []);
    Sent(p, ACK, []);
    Single(s);
    FollowJoin([s], out, p.clientPort, p.serverNext);
    PackAck(s, out);
    assert forall i :: 0 <= i < |out| ==> ([s] + out)[i + 1] == out[i];
  }

  ghost predicate SameServer(p: Peer, q: Peer) {
    q.clientPort == p.clientPort && q.serverNext == p.serverNext && q.finSent == p.finSent
  }

  lemma SendsAlike(p: Peer, p': Peer, q: Peer, out: seq<Segment>)
    requires SameServer(p, p') && Sends(p, q, out)
    ensures Sends(p', q, out)
  {
    hide Follow, Length, Packed;
  }

  lemma NothingSent(p: Peer, q: Peer)
    requires SameServer(p, q) && p.serverNext < 0x1_0000_0000
    ensures Sends(p, q, [])
  {
    NoneShaped(p.clientPort, p.serverNext);
  }

  lemma WindowKeepsServer(p: Peer, c: ClientSegment)
    ensures SameServer(p, AfterWindow(p, c)) && AfterWindow(p, c).clientNext == p.clientNext
  {
    hide Wrap;
  }

  /** A segment taken in: acknowledged, and whatever the engine then had to say. */
  lemma TakeShapes(p: Peer, p3: Peer, e: Engine)
    requires SameServer(p, p3) && p.serverNext < 0x1_0000_0000
    ensures var (q, out) := AdvanceTls(p3, e); Sends(p, q, [Emit(p3, ACK, [])] + out)
  {
    hide FinishHttps, Sends, Emit;
    var p4 := p3.(outgoing := p3.outgoing + e.produced, finished := p3.finished || e.done);
    var (q, out) := AdvanceTls(p3, e);
    if e.raised {
      NothingSent(p3, p4);
    } else {
      FinishShapes(p4);
      SendsAlike(p4, p3, q, out);
    }
    AckThenSends(p3, q, out);
    SendsAlike(p3, p, q, [Emit(p3, ACK, [])] + out);
  }

  /** Every step of a connection sends well-formed segments whose numbers continue where the last one ended; it sends
      a FIN exactly when it is the step that closes, and nothing after it. */
  lemma StepShapes(p: Peer, c: ClientSegment, e: Engine)
    requires p.serverNext < 0x1_0000_0000
    ensures var (q, out) := PeerStep(p, c, e); Sends(p, q, out) && q.serverNext < 0x1_0000_0000
  {
    hide FinishHttps, AcknowledgeServer, AdvanceTls, Sends, AfterSend, Emit, Wrap;
    var p2 := AfterWindow(p, c);
    WindowKeepsServer(p, c);
    var (q, out) := PeerStep(p, c, e);
    AckSends(p2);
    if c.payload != [] {
      if c.sequence == p2.clientNext {
        var p3 := p2.(clientNext := Wrap(c.sequence + |c.payload|), incoming := p2.incoming + c.payload);
        AckSends(p3);
        TakeShapes(p2, p3, e);
      }
    } else if c.Has(0x01) {
      var p3 := p2.(clientNext := Wrap(c.sequence + 1));
      AckSends(p3);
      SendsAlike(p3, p2, q, out);
    } else {
      FinishShapes(p2);
    }
    SendsAlike(p2, p, q, out);
    SendsBounded(p, q, out);
  }

  lemma SendsBounded(p: Peer, q: Peer, out: seq<Segment>)
    requires Sends(p, q, out)
    ensures q.serverNext < 0x1_0000_0000
  {
    hide Follow, Length, Packed;
  }

  // Whole runs

  /** A SYN without an ACK. */
  ghost predicate Asks(c: ClientSegment) {
    c.flags % 4 >= 2 && c.flags % 32 < 16
  }

  lemma AsksIs(c: ClientSegment)
    ensures Asks(c) <==> c.Has(0x02) && !c.Has(0x10)
    ensures c.Has(0x01) <==> c.flags % 2 == 1
  {
    BitOne(c.flags);
    BitFour(c.flags);
  }

  lemma BitOne(f: int)
    ensures f / 0x02 % 2 == 1 <==> f % 4 >= 2
  {
  }

  lemma BitFour(f: int)
    ensures f / 0x10 % 2 == 1 <==> f % 32 >= 16
  {
  }

  /** The answer to a SYN: port-dependent initial number, the client's number plus one, SYN and ACK. */
  ghost predicate Answers(s: Segment, c: ClientSegment) {
    s == Segment(FlowKey([10, 0, 2, 20], 443, [10, 0, 2, 15], c.port), (0x6300_0000 + c.port) % 0x1_0000_0000,
                 (c.sequence + 1) % 0x1_0000_0000, 0x12, [])
  }

  lemma {:induction false} RunBounded(events: seq<Event>, port: nat)
    requires port in Run(events).peers
    ensures Run(events).peers[port].serverNext < 0x1_0000_0000 && Run(events).peers[port].clientPort == port
    decreases |events|
  {
    hide Run, PeerStep, NewPeer, AfterSend, Emit;
    if events == [] {
      NoRun();
    } else {
      var k := |events| - 1;
      var (f, c, e) := (Run(events[..k]), events[k].segment, events[k].engine);
      NextRun(events);
      if c.port != port || (!(c.Has(0x02) && !c.Has(0x10)) && c.port in f.peers) {
        RunBounded(events[..k], port);
        StepShapes(f.peers[port], c, e);
        SendsPort(f.peers[port], PeerStep(f.peers[port], c, e).0, PeerStep(f.peers[port], c, e).1);
      } else {
        NewBounded(c);
      }
    }
  }

  lemma NoRun()
    ensures Run([]).peers == map[]
  {
  }

  lemma SendsPort(p: Peer, q: Peer, out: seq<Segment>)
    requires Sends(p, q, out)
    ensures q.clientPort == p.clientPort
  {
    hide Follow, Length, Packed;
  }

  lemma NewBounded(c: ClientSegment)
    ensures var p := AfterSend(NewPeer(c.port, c.sequence, c.window), SYN_ACK, []);
            p.serverNext == (0x6300_0001 + c.port) % 0x1_0000_0000 && p.clientPort == c.port
    ensures Answers(Emit(NewPeer(c.port, c.sequence, c.window), SYN_ACK, []), c)
  {
    hide Wrap;
    WrapIs(0x6300_0000 + c.port);
    WrapIs(c.sequence + 1);
    WrapAdd(0x6300_0000 + c.port, 1);
    WrapIs(0x6300_0001 + c.port);
  }

  lemma WrapIs(n: int)
    ensures Wrap(n) == n % 0x1_0000_0000
  {
  }

  /** In every run, what each event adds to the capture: for a SYN its answer and nothing else; for an open connection
      well-formed segments that continue its numbers; for anything else nothing. */
  lemma RunShapes(events: seq<Event>, k: nat)
    requires k < |events|
    ensures var (f, g, c) := (Run(events[..k]), Run(events[..k + 1]), events[k].segment);
            && f.capture <= g.capture
            && var out := g.capture[|f.capture|..];
            && (Asks(c) ==>
                  && |out| == 1 && Answers(out[0], c)
                  && c.port in g.peers && g.peers[c.port].serverNext == (0x6300_0001 + c.port) % 0x1_0000_0000)
            && (!Asks(c) && c.port in f.peers ==> c.port in g.peers && Sends(f.peers[c.port], g.peers[c.port], out))
            && (!Asks(c) && c.port !in f.peers ==> out == [] && g == f)
  {
    hide Run, PeerStep, NewPeer, AfterSend, Emit, Sends, Asks;
    var (c, e) := (events[k].segment, events[k].engine);
    assert events[..k + 1][..k] == events[..k];
    NextRun(events[..k + 1]);
    AsksIs(c);
    var (f, g) := (Run(events[..k]), Run(events[..k + 1]));
    if Asks(c) {
      NewBounded(c);
      assert g.capture[|f.capture|..] == [Emit(NewPeer(c.port, c.sequence, c.window), SYN_ACK, [])];
    } else if c.port in f.peers {
      RunBounded(events[..k], c.port);
      StepShapes(f.peers[c.port], c, e);
      assert g.capture[|f.capture|..] == PeerStep(f.peers[c.port], c, e).1;
    }
  }
}
