// Whole runs of the HTTPS peer: any number of connections, any client behaviour, any TLS engine, and the
// auditor's verdict on everything that was sent.

module TcpRuns {
  import opened Bytes
  import opened TcpReassembly
  import opened TcpPeer

  datatype Event = Event(segment: ClientSegment, engine: Engine)

  function Run(events: seq<Event>): (f: Fixture) {
    if events == [] then EMPTY_FIXTURE
    else
      var k := |events| - 1;
      HandleTcp(Run(events[..k]), events[k].segment, events[k].engine)
  }

  /** Every connection ever opened, in order, and the live one of each port. */
  datatype RefFixture = RefFixture(live: map<nat, nat>, connections: seq<Ref>)

  ghost function RefHandle(rf: RefFixture, f: Fixture, c: ClientSegment, e: Engine): (r: RefFixture) {
    if c.Has(0x02) && !c.Has(0x10) then
      RefFixture(rf.live[c.port := |rf.connections|], rf.connections + [NewRef(c.port, c.window)])
    else if c.port in rf.live && c.port in f.peers && rf.live[c.port] < |rf.connections| then
      var i := rf.live[c.port];
      rf.(connections := rf.connections[i := RefStep(rf.connections[i], f.peers[c.port].clientNext, c, e)])
    else rf
  }

  ghost function RefRun(events: seq<Event>): (rf: RefFixture) {
    if events == [] then RefFixture(map[], [])
    else
      var k := |events| - 1;
      RefHandle(RefRun(events[..k]), Run(events[..k]), events[k].segment, events[k].engine)
  }

  /** Ports are 16-bit, sequence and acknowledgement numbers 32-bit fields. */
  ghost predicate Wire(events: seq<Event>) {
    forall k :: 0 <= k < |events| ==>
      && events[k].segment.port < 0x1_0000
      && events[k].segment.sequence < SEQUENCE_SPACE && events[k].segment.acknowledgement < SEQUENCE_SPACE
  }

  // Every run refines the unbounded senders

  ghost predicate Related(f: Fixture, rf: RefFixture) {
    && f.peers.Keys == rf.live.Keys
    && (forall port :: port in rf.live ==>
          && rf.live[port] < |rf.connections|
          && f.peers[port].clientPort == port
          && Simulates(f.peers[port], rf.connections[rf.live[port]]))
    && (forall p, q :: p in rf.live && q in rf.live && rf.live[p] == rf.live[q] ==> p == q)
    && (forall i :: 0 <= i < |rf.connections| ==> Counters(rf.connections[i]))
  }

  /** Connections only gain acknowledged and sent space, and drained bytes. */
  ghost predicate Grows(a: RefFixture, b: RefFixture) {
    && |a.connections| <= |b.connections|
    && forall i :: 0 <= i < |a.connections| ==>
         var (r, s) := (a.connections[i], b.connections[i]);
         r.isn == s.isn && r.acked <= s.acked && r.sent <= s.sent && r.drained <= s.drained
  }

  lemma HandleRelated(f: Fixture, rf: RefFixture, c: ClientSegment, e: Engine)
    requires Related(f, rf) && c.acknowledgement < SEQUENCE_SPACE
    ensures Related(HandleTcp(f, c, e), RefHandle(rf, f, c, e)) && Grows(rf, RefHandle(rf, f, c, e))
  {
    hide PeerStep, RefStep, Simulates, Counters;
    if c.Has(0x02) && !c.Has(0x10) {
      NewRelated(c.port, c.sequence, c.window);
      OpenRelated(f, rf, c.port, AfterSend(NewPeer(c.port, c.sequence, c.window), SYN_ACK, []), NewRef(c.port, c.window),
                  HandleTcp(f, c, e));
    } else if c.port in rf.live {
      var i := rf.live[c.port];
      var q, s := PeerStep(f.peers[c.port], c, e).0, RefStep(rf.connections[i], f.peers[c.port].clientNext, c, e);
      StepRefines(f.peers[c.port], rf.connections[i], c, e);
      SimulatesCounters(q, s);
      StepRelated(f, rf, c.port, q, s, HandleTcp(f, c, e));
    }
  }

  /** A fresh connection replaces the port's live one. */
  lemma OpenRelated(f: Fixture, rf: RefFixture, port: nat, p: Peer, r: Ref, after: Fixture)
    requires Related(f, rf) && Simulates(p, r) && Counters(r) && p.clientPort == port
    requires after.peers == f.peers[port := p]
    ensures var next := RefFixture(rf.live[port := |rf.connections|], rf.connections + [r]);
            Related(after, next) && Grows(rf, next)
  {
    hide Simulates, Counters;
    var next := RefFixture(rf.live[port := |rf.connections|], rf.connections + [r]);
    assert forall i :: 0 <= i < |rf.connections| ==> next.connections[i] == rf.connections[i];
  }

  /** A step of the port's live connection leaves the others alone. */
  lemma StepRelated(f: Fixture, rf: RefFixture, port: nat, p: Peer, r: Ref, after: Fixture)
    requires Related(f, rf) && port in rf.live && Simulates(p, r) && Counters(r) && p.clientPort == port
    requires after.peers == f.peers[port := p]
    requires var was := rf.connections[rf.live[port]];
             was.isn == r.isn && was.acked <= r.acked && was.sent <= r.sent && was.drained <= r.drained
    ensures var next := rf.(connections := rf.connections[rf.live[port] := r]);
            Related(after, next) && Grows(rf, next)
  {
    hide Simulates, Counters;
  }

  lemma SimulatesCounters(p: Peer, r: Ref)
    requires Simulates(p, r)
    ensures Counters(r)
  {
  }

  lemma NewRelated(port: nat, sequence: nat, window: nat)
    ensures var p := AfterSend(NewPeer(port, sequence, window), SYN_ACK, []);
            p.clientPort == port && Simulates(p, NewRef(port, window)) && Counters(NewRef(port, window))
  {
  }

  lemma {:induction false} RunRelated(events: seq<Event>)
    requires Wire(events)
    ensures Related(Run(events), RefRun(events))
    decreases |events|
  {
    hide HandleTcp, RefHandle, Related;
    if events == [] {
      NothingRelated();
    } else {
      var k := |events| - 1;
      assert forall j :: 0 <= j < k ==> events[..k][j] == events[j];
      RunRelated(events[..k]);
      HandleRelated(Run(events[..k]), RefRun(events[..k]), events[k].segment, events[k].engine);
    }
  }

  lemma NothingRelated()
    ensures Related(EMPTY_FIXTURE, RefFixture(map[], []))
  {
  }

  lemma {:induction false} RunGrows(events: seq<Event>, k: nat)
    requires Wire(events) && k <= |events|
    ensures Grows(RefRun(events[..k]), RefRun(events))
    decreases |events|
  {
    hide HandleTcp, RefHandle, Related;
    if k == |events| {
      assert events[..k] == events;
    } else {
      var n := |events| - 1;
      assert forall j :: 0 <= j < n ==> events[..n][j] == events[j];
      assert events[..n][..k] == events[..k];
      RunGrows(events[..n], k);
      RunRelated(events[..n]);
      HandleRelated(Run(events[..n]), RefRun(events[..n]), events[n].segment, events[n].engine);
      GrowsOn(RefRun(events[..k]), RefRun(events[..n]), RefRun(events));
    }
  }

  lemma GrowsOn(a: RefFixture, b: RefFixture, c: RefFixture)
    requires Grows(a, b) && Grows(b, c)
    ensures Grows(a, c)
  {
    forall i | 0 <= i < |a.connections|
      ensures var (r, s) := (a.connections[i], c.connections[i]);
              r.isn == s.isn && r.acked <= s.acked && r.sent <= s.sent && r.drained <= s.drained
    {
      var x, y, z := a.connections[i], b.connections[i], c.connections[i];
      assert x.drained <= y.drained <= z.drained;
    }
  }

  /** Every run: each connection's modular counters are its unbounded ones modulo 2^32, and from any moment of
      the run to a later one no connection's acknowledged or sent position moves back and no sent byte changes. */
  lemma RunRefines(events: seq<Event>)
    requires Wire(events)
    ensures Related(Run(events), RefRun(events))
    ensures forall k :: 0 <= k <= |events| ==> Grows(RefRun(events[..k]), RefRun(events))
  {
    hide Related, Grows, Run, RefRun;
    RunRelated(events);
    forall k | 0 <= k <= |events|
      ensures Grows(RefRun(events[..k]), RefRun(events))
    {
      RunGrows(events, k);
    }
  }

  // The window over whole runs

  /** Event `k` is for a connection that is already open. */
  ghost predicate Continues(events: seq<Event>, k: nat)
    requires k < |events|
  {
    var c := events[k].segment;
    !(c.Has(0x02) && !c.Has(0x10)) && c.port in Run(events[..k]).peers
  }

  /** In every run, at every event of an open connection: what the event adds to the capture carries data only
      within the smaller of the send window and the window that event advertises; if it drains and leaves
      output queued, that window is full; and the bytes it carries and leaves are those it found and was given. */
  lemma RunWithinWindow(events: seq<Event>, k: nat)
    requires Wire(events) && k < |events| && Continues(events, k)
    ensures var (f, g, c, e) := (Run(events[..k]), Run(events[..k + 1]), events[k].segment, events[k].engine);
            && f.capture <= g.capture && c.port in g.peers
            && var (p, q, data) := (f.peers[c.port], g.peers[c.port], DataOf(g.capture[|f.capture|..]));
            && (data != [] ==> Outstanding(p, q) <= Min(4800, c.window))
            && (Drains(p, c, e) && q.outgoing != [] ==> Outstanding(p, q) >= Min(4800, c.window))
            && data + q.outgoing == p.outgoing + Given(p, c, e)
  {
    hide PeerStep, Simulates, Counters, DataOf, Outstanding, Drains, Given, Run, RefRun;
    var init, c, e := events[..k], events[k].segment, events[k].engine;
    assert forall j :: 0 <= j < k ==> init[j] == events[j];
    assert events[..k + 1][..k] == init;
    NextRun(events[..k + 1]);
    RunRelated(init);
    var f, g := Run(init), Run(events[..k + 1]);
    var p := f.peers[c.port];
    var r := RefRun(init).connections[RefRun(init).live[c.port]];
    var (q, out) := PeerStep(p, c, e);
    assert g == Fixture(f.peers[c.port := q], f.capture + out);
    assert g.capture[|f.capture|..] == out;
    StepWindow(p, r, c, e);
    StepConserves(p, c, e);
  }

  // The auditor's verdict

  ghost predicate OnTime(rf: RefFixture) {
    forall i :: 0 <= i < |rf.connections| ==> !rf.connections[i].late
  }

  /** The auditor holds one stream per connection, with exactly the bytes that connection drained. */
  ghost predicate Mirrors(a: Audit, rf: RefFixture) {
    && a.Valid() && a.errors == []
    && |a.streams| == |rf.connections|
    && (forall i :: 0 <= i < |a.streams| ==>
          a.streams[i] == Stream(Wrap(rf.connections[i].isn + 1), rf.connections[i].drained))
    && (forall port :: port in rf.live ==> PeerKey(port) in a.active && a.active[PeerKey(port)] == rf.live[port])
  }

  ghost predicate Bounded(rf: RefFixture) {
    forall i :: 0 <= i < |rf.connections| ==> |rf.connections[i].drained| < SEQUENCE_SPACE
  }

  lemma SynMirrors(a: Audit, f: Fixture, rf: RefFixture, c: ClientSegment)
    requires Mirrors(a, rf) && Related(f, rf)
    ensures var p := NewPeer(c.port, c.sequence, c.window);
            Mirrors(AuditSegment(a, Emit(p, SYN_ACK, [])),
                    RefFixture(rf.live[c.port := |rf.connections|], rf.connections + [NewRef(c.port, c.window)]))
  {
    hide Related;
  }

  lemma StepMirrors(a: Audit, f: Fixture, rf: RefFixture, c: ClientSegment, e: Engine)
    requires Mirrors(a, rf) && Related(f, rf) && OnTime(rf) && c.port in rf.live && c.acknowledgement < SEQUENCE_SPACE
    requires var s := RefStep(rf.connections[rf.live[c.port]], f.peers[c.port].clientNext, c, e);
             |s.drained| < SEQUENCE_SPACE
    ensures var i := rf.live[c.port];
            var s := RefStep(rf.connections[i], f.peers[c.port].clientNext, c, e);
            var b := AuditAll(a, PeerStep(f.peers[c.port], c, e).1);
            if s.late then b.errors != [] else Mirrors(b, rf.(connections := rf.connections[i := s]))
  {
    hide PeerStep, RefStep, AuditAll, Simulates, Wrap;
    var i := rf.live[c.port];
    var p, r := f.peers[c.port], rf.connections[i];
    StepAudited(a, p, r, c, e);
    StepRefines(p, r, c, e);
  }

  ghost predicate Verdict(a: Audit, rf: RefFixture) {
    a.Valid() && if OnTime(rf) then Mirrors(a, rf) else a.errors != []
  }

  lemma HandleVerdict(a: Audit, f: Fixture, rf: RefFixture, c: ClientSegment, e: Engine, more: seq<Segment>)
    requires Verdict(a, rf) && Related(f, rf) && c.acknowledgement < SEQUENCE_SPACE
    requires HandleTcp(f, c, e).capture == f.capture + more
    requires Bounded(RefHandle(rf, f, c, e))
    ensures Verdict(AuditAll(a, more), RefHandle(rf, f, c, e))
  {
    hide PeerStep, RefStep, AuditSegment, Simulates, Mirrors, Wrap;
    RunExtends(a, more);
    if c.Has(0x02) && !c.Has(0x10) {
      var s := Emit(NewPeer(c.port, c.sequence, c.window), SYN_ACK, []);
      SameTail(f.capture, more, [s]);
      AuditOne(a, s);
      NewOnTime(rf, c);
      if OnTime(rf) {
        SynMirrors(a, f, rf, c);
      }
    } else if c.port !in f.peers {
      SameTail(f.capture, more, []);
    } else {
      var out := PeerStep(f.peers[c.port], c, e).1;
      SameTail(f.capture, more, out);
      var i := rf.live[c.port];
      var s := RefStep(rf.connections[i], f.peers[c.port].clientNext, c, e);
      StepLate(rf.connections[i], f.peers[c.port].clientNext, c, e);
      assert rf.connections[i := s][i] == s;
      StepOnTime(rf, i, s);
      if OnTime(rf) {
        StepMirrors(a, f, rf, c, e);
      }
    }
  }

  lemma SameTail(a: seq<Segment>, b: seq<Segment>, c: seq<Segment>)
    requires a + b == a + c || (c == [] && a + b == a)
    ensures b == c
  {
    assert (a + b)[|a|..] == b;
    assert (a + c)[|a|..] == c;
  }

  lemma NewOnTime(rf: RefFixture, c: ClientSegment)
    ensures OnTime(RefFixture(rf.live[c.port := |rf.connections|], rf.connections + [NewRef(c.port, c.window)])) <==> OnTime(rf)
  {
    var all := rf.connections + [NewRef(c.port, c.window)];
    assert forall i :: 0 <= i < |rf.connections| ==> all[i] == rf.connections[i];
  }

  lemma StepOnTime(rf: RefFixture, i: nat, s: Ref)
    requires i < |rf.connections| && (rf.connections[i].late ==> s.late)
    ensures OnTime(rf.(connections := rf.connections[i := s])) <==> OnTime(rf) && !s.late
  {
    var all := rf.connections[i := s];
    assert forall j :: 0 <= j < |all| ==> all[j] == if j == i then s else rf.connections[j];
  }

  lemma StepLate(r: Ref, clientNext: nat, c: ClientSegment, e: Engine)
    ensures r.late ==> RefStep(r, clientNext, c, e).late
  {
    hide Wrap;
  }

  lemma CaptureGrows(f: Fixture, c: ClientSegment, e: Engine) returns (more: seq<Segment>)
    ensures HandleTcp(f, c, e).capture == f.capture + more
  {
    hide PeerStep;
    more := HandleTcp(f, c, e).capture[|f.capture|..];
    assert f.capture + [] == f.capture;
  }

  /** For every run that sends fewer than 2^32 bytes on each connection, the auditor's reassembly of the
      emitted segments is free of errors exactly when no connection sent data after its FIN, and then holds,
      connection by connection, exactly the bytes drained from the TLS output, in order. */
  lemma {:induction false} RunAudited(events: seq<Event>)
    requires Wire(events) && Bounded(RefRun(events))
    ensures var a, rf := AuditAll(EMPTY_AUDIT, Run(events).capture), RefRun(events);
            && (a.errors == [] <==> OnTime(rf))
            && (OnTime(rf) ==> Mirrors(a, rf))
    decreases |events|
  {
    RunVerdict(events);
  }

  lemma {:induction false} RunVerdict(events: seq<Event>)
    requires Wire(events) && Bounded(RefRun(events))
    ensures Verdict(AuditAll(EMPTY_AUDIT, Run(events).capture), RefRun(events))
    decreases |events|
  {
    hide HandleTcp, RefHandle, Related, AuditSegment, Mirrors, OnTime;
    if events == [] {
      NothingMirrored();
    } else {
      var k := |events| - 1;
      var init, c, e := events[..k], events[k].segment, events[k].engine;
      var f, rf := Run(init), RefRun(init);
      assert forall j :: 0 <= j < k ==> init[j] == events[j];
      RunRelated(init);
      HandleRelated(f, rf, c, e);
      StillBounded(rf, RefRun(events));
      RunVerdict(init);
      var more := CaptureGrows(f, c, e);
      HandleVerdict(AuditAll(EMPTY_AUDIT, f.capture), f, rf, c, e, more);
      RunSplit(EMPTY_AUDIT, f.capture, more);
    }
  }

  lemma NothingMirrored()
    ensures OnTime(RefFixture(map[], [])) && Mirrors(EMPTY_AUDIT, RefFixture(map[], []))
  {
  }

  lemma StillBounded(a: RefFixture, b: RefFixture)
    requires Grows(a, b) && Bounded(b)
    ensures Bounded(a)
  {
    forall i | 0 <= i < |a.connections|
      ensures |a.connections[i].drained| < SEQUENCE_SPACE
    {
      assert a.connections[i].drained <= b.connections[i].drained;
    }
  }

  // An engine that stops writing once the FIN is out

  /** The TLS engine produces nothing on a connection whose FIN has been sent. */
  ghost predicate Quiet(events: seq<Event>) {
    forall k :: 0 <= k < |events| ==>
      var c := events[k].segment;
      var f := Run(events[..k]);
      c.port in f.peers && f.peers[c.port].finSent ==> events[k].engine.produced == []
  }

  /** After the FIN there is nothing left to send. */
  ghost predicate Flushed(r: Ref) {
    !r.late && (r.finSent ==> r.queue == [])
  }

  ghost predicate AllFlushed(rf: RefFixture) {
    forall i :: 0 <= i < |rf.connections| ==> Flushed(rf.connections[i])
  }

  lemma StepFlushed(r: Ref, clientNext: nat, c: ClientSegment, e: Engine)
    requires Flushed(r) && (r.finSent ==> e.produced == [])
    ensures Flushed(RefStep(r, clientNext, c, e))
  {
    hide Wrap;
    assert r.finSent ==> r.queue + e.produced == [];
  }

  lemma HandleFlushed(f: Fixture, rf: RefFixture, c: ClientSegment, e: Engine)
    requires Related(f, rf) && AllFlushed(rf)
    requires c.port in f.peers && f.peers[c.port].finSent ==> e.produced == []
    ensures AllFlushed(RefHandle(rf, f, c, e))
  {
    hide RefStep, Simulates, Counters;
    if !(c.Has(0x02) && !c.Has(0x10)) && c.port in rf.live {
      var i := rf.live[c.port];
      SimulatesFin(f.peers[c.port], rf.connections[i]);
      StepFlushed(rf.connections[i], f.peers[c.port].clientNext, c, e);
    }
  }

  lemma {:induction false} QuietFlushes(events: seq<Event>)
    requires Wire(events) && Quiet(events)
    ensures AllFlushed(RefRun(events))
    decreases |events|
  {
    hide HandleTcp, RefHandle, Related, AllFlushed;
    if events == [] {
      NothingFlushed();
    } else {
      var k := |events| - 1;
      var init := events[..k];
      assert forall j :: 0 <= j < k ==> init[j] == events[j] && init[..j] == events[..j];
      QuietFlushes(init);
      RunRelated(init);
      HandleFlushed(Run(init), RefRun(init), events[k].segment, events[k].engine);
    }
  }

  lemma NothingFlushed()
    ensures AllFlushed(RefFixture(map[], []))
  {
  }

  lemma SimulatesFin(p: Peer, r: Ref)
    requires Simulates(p, r)
    ensures p.finSent == r.finSent
  {
  }

  /** With such an engine the auditor accepts every run. */
  lemma QuietRunAccepted(events: seq<Event>)
    requires Wire(events) && Bounded(RefRun(events)) && Quiet(events)
    ensures Mirrors(AuditAll(EMPTY_AUDIT, Run(events).capture), RefRun(events))
  {
    hide Mirrors, Quiet, AuditAll;
    QuietFlushes(events);
    RunAudited(events);
  }

  const LATE_SYN := Event(ClientSegment(40000, 0, 0, 0x02, 8192, []), Engine([], false, false))
  const LATE_REQUEST := Event(ClientSegment(40000, 1, 0, 0x18, 8192, [7]), Engine([1], true, false))
  const LATE_AGAIN := Event(ClientSegment(40000, 2, 0, 0x18, 8192, [7]), Engine([2], true, false))

  /** An engine that writes after its FIN makes the auditor refuse the capture: the byte lands where the FIN
      was counted, one past the end of the stream. */
  lemma LateRunRefused()
    ensures AuditAll(EMPTY_AUDIT, Run([LATE_SYN, LATE_REQUEST, LATE_AGAIN]).capture).errors != []
  {
    hide AuditAll, RefStep, PeerStep, Run, RefRun;
    var e2, e3 := [LATE_SYN, LATE_REQUEST], [LATE_SYN, LATE_REQUEST, LATE_AGAIN];
    assert e3[..2] == e2;
    LateSecond();
    NextRun(e3);
    var r := RefStep(NewRef(40000, 8192), 1, LATE_REQUEST.segment, LATE_REQUEST.engine);
    LateStep(r);
    LateLate(r);
    assert RefRun(e3).connections[0].late;
    RunAudited(e3);
  }

  lemma NextRun(events: seq<Event>)
    requires events != []
    ensures var k := |events| - 1;
            && Run(events) == HandleTcp(Run(events[..k]), events[k].segment, events[k].engine)
            && RefRun(events) == RefHandle(RefRun(events[..k]), Run(events[..k]), events[k].segment, events[k].engine)
  {
  }

  lemma LateFirst()
    ensures var (f, rf) := (Run([LATE_SYN]), RefRun([LATE_SYN]));
            && f.peers == map[40000 := AfterSend(NewPeer(40000, 0, 8192), SYN_ACK, [])]
            && rf == RefFixture(map[40000 := 0], [NewRef(40000, 8192)])
  {
    NextRun([LATE_SYN]);
    assert [LATE_SYN][..0] == [];
  }

  lemma LateSecond()
    ensures var (f, rf) := (Run([LATE_SYN, LATE_REQUEST]), RefRun([LATE_SYN, LATE_REQUEST]));
            && 40000 in f.peers && f.peers[40000].clientNext == 2
            && rf == RefFixture(map[40000 := 0], [RefStep(NewRef(40000, 8192), 1, LATE_REQUEST.segment, LATE_REQUEST.engine)])
  {
    hide Run, RefRun, RefStep, FinishHttps;
    NextRun([LATE_SYN, LATE_REQUEST]);
    assert [LATE_SYN, LATE_REQUEST][..1] == [LATE_SYN];
    LateFirst();
    var p := Run([LATE_SYN]).peers[40000];
    var q := AfterSend(AcknowledgeServer(p, 0).(clientNext := 2, incoming := p.incoming + [7]), ACK, []);
    FinishKeepsClient(q.(outgoing := q.outgoing + [1], finished := true));
  }

  lemma {:induction false} DrainKeepsClient(p: Peer, inFlight: nat)
    ensures Drain(p, inFlight).0.clientNext == p.clientNext
    decreases |p.outgoing|
  {
    var window := Min(TCP_SEND_WINDOW, p.clientWindow);
    if p.outgoing != [] && inFlight < window {
      var n := Min(TCP_CHUNK, Min(window - inFlight, |p.outgoing|));
      DrainKeepsClient(AfterSend(p.(outgoing := p.outgoing[n..]), PSH_ACK, p.outgoing[..n]), inFlight + n);
    }
  }

  lemma FinishKeepsClient(p: Peer)
    ensures FinishHttps(p).0.clientNext == p.clientNext
  {
    DrainKeepsClient(p, SequenceDistance(p.serverAcked, p.serverNext));
  }

  lemma LateStep(r: Ref)
    requires r == RefStep(NewRef(40000, 8192), 1, LATE_REQUEST.segment, LATE_REQUEST.engine)
    ensures r == Ref(Wrap(SERVER_ISN + 40000), 3, 0, 8192, [], [1], true, true, false)
  {
  }

  lemma LateLate(r: Ref)
    requires r == Ref(Wrap(SERVER_ISN + 40000), 3, 0, 8192, [], [1], true, true, false)
    ensures RefStep(r, 2, LATE_AGAIN.segment, LATE_AGAIN.engine).late
    ensures RefStep(r, 2, LATE_AGAIN.segment, LATE_AGAIN.engine).drained == [1, 2]
  {
  }
}
