// The HTTPS fixture as the objects it is made of: one mutable peer per client port and a growing capture
// (tools/https_network_fixture.py). Every method is proved against the value-level peer of TcpPeer.

module TcpFixture {
  import opened Bytes
  import InternetChecksum
  import opened TcpReassembly
  import P = TcpPeer
  import R = TcpRuns
  import opened Packets

  datatype Parsed = Nothing | Client(segment: P.ClientSegment)

  /** The handler's checks on the bytes of a segment. */
  function ParseClient(destinationIp: seq<Byte>, segment: seq<Byte>): (r: Parsed)
    ensures r.Client? ==> r.segment.port < 0x1_0000 && r.segment.sequence < SEQUENCE_SPACE
                          && r.segment.acknowledgement < SEQUENCE_SPACE
  {
    if |segment| < 20 || destinationIp != P.HTTP_IP then Nothing
    else
      var offset := segment[12] as int / 16 * 4;
      if offset < 20 || offset > |segment| || U16Be(segment, 2) != TLS_PORT then Nothing
      else Client(P.ClientSegment(U16Be(segment, 0), U32Be(segment, 4), U32Be(segment, 8), segment[13],
                                  U16Be(segment, 14), segment[offset..]))
  }

  class HttpsPeer {
    const clientPort: nat
    var clientNext: nat
    var serverNext: nat
    var serverAcked: nat
    var clientWindow: nat
    var incoming: seq<Byte>
    var outgoing: seq<Byte>
    var finished: bool
    var finSent: bool

    ghost function Value(): (p: P.Peer)
      reads this
    {
      P.Peer(clientPort, clientNext, serverNext, serverAcked, clientWindow, incoming, outgoing, finished, finSent)
    }

    constructor (port: nat, sequence: nat, window: nat)
      ensures Value() == P.NewPeer(port, sequence, window)
    {
      clientPort := port;
      clientNext := Wrap(sequence + 1);
      serverNext := Wrap(P.SERVER_ISN + port);
      serverAcked := Wrap(P.SERVER_ISN + port);
      clientWindow := window;
      incoming := [];
      outgoing := [];
      finished := false;
      finSent := false;
    }
  }

  lemma KeepsWindow(p: P.Peer, flags: Byte, payload: seq<Byte>)
    ensures P.AfterSend(p, flags, payload).clientWindow == p.clientWindow
    ensures P.AfterSend(p, flags, payload).outgoing == p.outgoing
  {
  }

  class HttpsFixture {
    var peers: map<nat, HttpsPeer>
    var capture: seq<Segment>

    /** Each port has its own peer object. */
    ghost predicate Valid()
      reads this
    {
      forall p, q :: p in peers && q in peers && peers[p] == peers[q] ==> p == q
    }

    ghost function State(): (f: P.Fixture)
      reads this, peers.Values
    {
      P.Fixture(map port | port in peers :: peers[port].Value(), capture)
    }

    constructor ()
      ensures Valid() && State() == P.EMPTY_FIXTURE && peers == map[]
    {
      peers, capture := map[], [];
    }

    method SendHttps(peer: HttpsPeer, flags: Byte, payload: seq<Byte>)
      modifies this`capture, peer`serverNext
      ensures capture == old(capture) + [P.Emit(old(peer.Value()), flags, payload)]
      ensures peer.Value() == P.AfterSend(old(peer.Value()), flags, payload)
    {
      capture := capture + [Segment(P.PeerKey(peer.clientPort), peer.serverNext, peer.clientNext, flags, payload)];
      peer.serverNext := Wrap(peer.serverNext + |payload| + if flags % 4 != 0 then 1 else 0);
    }

    method DrainTls(peer: HttpsPeer)
      modifies this`capture, peer
      ensures var (q, out) := P.DrainTls(old(peer.Value()));
              peer.Value() == q && capture == old(capture) + out
    {
      hide P.Drain, P.AfterSend;
      var inFlight := P.SequenceDistance(peer.serverAcked, peer.serverNext);
      var window := P.Min(P.TCP_SEND_WINDOW, peer.clientWindow);
      ghost var all := P.Drain(peer.Value(), inFlight);
      ghost var sent := [];
      assert sent + all.1 == all.1;
      while peer.outgoing != [] && inFlight < window
        invariant 0 <= inFlight && peer.clientWindow == old(peer.clientWindow)
        invariant capture == old(capture) + sent
        invariant var rest := P.Drain(peer.Value(), inFlight); rest.0 == all.0 && sent + rest.1 == all.1
        decreases |peer.outgoing|
      {
        var n := P.Min(P.TCP_CHUNK, P.Min(window - inFlight, |peer.outgoing|));
        var block := peer.outgoing[..n];
        ghost var before := peer.Value();
        P.DrainUnfolds(before, inFlight);
        peer.outgoing := peer.outgoing[n..];
        SendHttps(peer, P.PSH_ACK, block);
        inFlight := inFlight + |block|;
        ghost var emitted := [P.Emit(before, P.PSH_ACK, block)];
        assert sent + (emitted + P.Drain(peer.Value(), inFlight).1) == sent + emitted + P.Drain(peer.Value(), inFlight).1;
        sent := sent + emitted;
        KeepsWindow(before.(outgoing := before.outgoing[n..]), P.PSH_ACK, block);
      }
      P.DrainUnfolds(peer.Value(), inFlight);
      assert sent + [] == sent;
    }

    method AcknowledgeServer(peer: HttpsPeer, acknowledgement: nat)
      modifies peer`serverAcked
      ensures peer.Value() == P.AcknowledgeServer(old(peer.Value()), acknowledgement)
    {
      var outstanding := P.SequenceDistance(peer.serverAcked, peer.serverNext);
      var advanced := P.SequenceDistance(peer.serverAcked, acknowledgement);
      if advanced <= outstanding {
        peer.serverAcked := acknowledgement;
      }
    }

    method FinishHttps(peer: HttpsPeer)
      modifies this`capture, peer
      ensures var (q, out) := P.FinishHttps(old(peer.Value()));
              peer.Value() == q && capture == old(capture) + out
    {
      DrainTls(peer);
      if peer.finished && !peer.finSent && peer.outgoing == [] {
        SendHttps(peer, P.FIN_ACK, []);
        peer.finSent := true;
      }
    }

    method AdvanceTls(peer: HttpsPeer, engine: P.Engine)
      modifies this`capture, peer
      ensures var (q, out) := P.AdvanceTls(old(peer.Value()), engine);
              peer.Value() == q && capture == old(capture) + out
    {
      peer.outgoing := peer.outgoing + engine.produced;
      peer.finished := peer.finished || engine.done;
      if !engine.raised {
        FinishHttps(peer);
      }
    }

    /** The part of the handler that works on one existing connection. */
    method StepPeer(peer: HttpsPeer, c: P.ClientSegment, engine: P.Engine)
      modifies this`capture, peer
      ensures var (q, out) := P.PeerStep(old(peer.Value()), c, engine);
              peer.Value() == q && capture == old(capture) + out
    {
      hide P.FinishHttps, P.AcknowledgeServer;
      peer.clientWindow := c.window;
      if c.Has(0x10) {
        AcknowledgeServer(peer, c.acknowledgement);
      }
      if c.payload != [] {
        if c.sequence != peer.clientNext {
          SendHttps(peer, P.ACK, []);
          return;
        }
        peer.clientNext := Wrap(c.sequence + |c.payload|);
        SendHttps(peer, P.ACK, []);
        peer.incoming := peer.incoming + c.payload;
        AdvanceTls(peer, engine);
      } else if c.Has(0x01) {
        peer.clientNext := Wrap(c.sequence + 1);
        SendHttps(peer, P.ACK, []);
      } else {
        FinishHttps(peer);
      }
    }

    /** The handler's checks on raw bytes, then the step. */
    method HandleSegment(destinationIp: seq<Byte>, segment: seq<Byte>, engine: P.Engine)
      requires Valid()
      modifies this, peers.Values
      ensures Valid() && fresh(peers.Values - old(peers.Values))
      ensures State() == match ParseClient(destinationIp, segment)
                         case Nothing => old(State())
                         case Client(c) => P.HandleTcp(old(State()), c, engine)
    {
      var parsed := ParseClient(destinationIp, segment);
      if parsed.Client? {
        HandleTcp(parsed.segment, engine);
      }
    }

    /** A SYN opens a fresh connection in place of the port's old one. */
    method OpenPeer(c: P.ClientSegment)
      requires Valid()
      modifies this
      ensures Valid() && fresh(peers.Values - old(peers.Values))
      ensures var p := P.NewPeer(c.port, c.sequence, c.window);
              State() == P.Fixture(old(State()).peers[c.port := P.AfterSend(p, P.SYN_ACK, [])],
                                   old(State()).capture + [P.Emit(p, P.SYN_ACK, [])])
    {
      hide P.NewPeer, P.AfterSend, P.Emit;
      var peer := new HttpsPeer(c.port, c.sequence, c.window);
      ghost var begun := peer.Value();
      peers := peers[c.port := peer];
      SendHttps(peer, P.SYN_ACK, []);
      assert peer.Value() == P.AfterSend(begun, P.SYN_ACK, []);
      assert forall port :: port in old(peers) ==> old(peers)[port] != peer && old(peers)[port].Value() == old(peers[port].Value());
    }

    /** One client segment: the objects move exactly as the value-level fixture does. */
    method HandleTcp(c: P.ClientSegment, engine: P.Engine)
      requires Valid()
      modifies this, peers.Values
      ensures Valid() && State() == P.HandleTcp(old(State()), c, engine)
      ensures fresh(peers.Values - old(peers.Values))
    {
      hide P.PeerStep, P.NewPeer, P.AfterSend, P.Emit;
      if c.Has(0x02) && !c.Has(0x10) {
        OpenPeer(c);
        return;
      }
      if c.port !in peers {
        return;
      }
      assert peers[c.port] in peers.Values;
      StepPeer(peers[c.port], c, engine);
    }
  }

  /** Client segments as they arrive, with the advance of the TLS engine each one would cause. */
  datatype Arrival = Arrival(destinationIp: seq<Byte>, bytes: seq<Byte>, engine: P.Engine)

  /** The arrivals that pass the handler's checks. */
  function Accepted(arrivals: seq<Arrival>): (events: seq<R.Event>)
    ensures R.Wire(events)
  {
    if arrivals == [] then []
    else
      var k := |arrivals| - 1;
      var rest := Accepted(arrivals[..k]);
      match ParseClient(arrivals[k].destinationIp, arrivals[k].bytes)
      case Nothing => rest
      case Client(c) => rest + [R.Event(c, arrivals[k].engine)]
  }

  /** Whatever bytes arrive, the objects end in the state of a value-level run that meets the run theorems'
      field bounds. */
  method Serve(arrivals: seq<Arrival>) returns (fixture: HttpsFixture)
    ensures fixture.Valid() && R.Wire(Accepted(arrivals)) && fixture.State() == R.Run(Accepted(arrivals))
  {
    hide P.HandleTcp, ParseClient;
    fixture := new HttpsFixture();
    for i := 0 to |arrivals|
      invariant fixture.Valid() && fresh(fixture) && fresh(fixture.peers.Values)
      invariant fixture.State() == R.Run(Accepted(arrivals[..i]))
    {
      assert arrivals[..i + 1][..i] == arrivals[..i];
      RunStep(arrivals[..i + 1]);
      fixture.HandleSegment(arrivals[i].destinationIp, arrivals[i].bytes, arrivals[i].engine);
    }
    assert arrivals[..|arrivals|] == arrivals;
  }

  lemma RunStep(arrivals: seq<Arrival>)
    requires arrivals != []
    ensures var k := |arrivals| - 1;
            R.Run(Accepted(arrivals)) ==
            match ParseClient(arrivals[k].destinationIp, arrivals[k].bytes)
            case Nothing => R.Run(Accepted(arrivals[..k]))
            case Client(c) => P.HandleTcp(R.Run(Accepted(arrivals[..k])), c, arrivals[k].engine)
  {
    hide P.HandleTcp, ParseClient;
    var k := |arrivals| - 1;
    var rest := Accepted(arrivals[..k]);
    match ParseClient(arrivals[k].destinationIp, arrivals[k].bytes)
    case Nothing =>
    case Client(c) =>
      assert (rest + [R.Event(c, arrivals[k].engine)])[..|rest|] == rest;
  }

  /** A segment built by the fixture's own TCP encoder, addressed to the TLS port, reaches the handler with
      its fields intact. */
  lemma BuiltClientParses(s: Segment, options: seq<Byte>)
    requires Encodable(s, options)
    ensures ParseClient(s.key.destinationIp, Tcp(s, options)) ==
            if s.key.destinationIp == [10, 0, 2, 20] && s.key.destination == 443
            then Client(P.ClientSegment(s.key.source, s.sequence, s.acknowledgement, s.flags, 8192, s.payload))
            else Nothing
  {
    hide InternetChecksum.InternetSum, Pseudo, Patch, U16Be, U32Be;
    var padded := PadOptions(options);
    var rest := padded + s.payload;
    var header := TcpHeader(s, (20 + |padded|) / 4);
    var v := InternetChecksum.InternetSum(Pseudo(s.key.sourceIp, s.key.destinationIp, TCP, 20 + |rest|) + (header + rest));
    HeaderWords(header, 16, v, rest);
    assert Tcp(s, options)[20 + |padded|..] == rest[|padded|..] == s.payload;
  }
}
