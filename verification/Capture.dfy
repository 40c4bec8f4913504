// The PCAP file between the fixture and the auditor (PcapWriter in tools/network_fixture.py, frames and
// audit in tools/network_packet_audit.py), and the whole path from the peer's segments to reassembled streams.

module Pcap {
  import opened Bytes

  type Frame = seq<Byte>

  const MAGIC := 0xA1B2_C3D4
  const ETHERNET_LINK := 1
  const MAX_FRAME := 1514
  const EPOCH := 1_700_000_000
  /** The writer's microsecond field overflows after this many frames. */
  const MAX_FRAMES := 4_294_967

  datatype PcapError = NotPcap | NotEthernet | TruncatedRecord | InvalidLength | TruncatedFrame

  function FileHeader(): (h: seq<Byte>)
    ensures |h| == 24 && U32(h, 0) == MAGIC && U32(h, 20) == ETHERNET_LINK
  {
    Le32(MAGIC) + ([2, 0, 4, 0] + Zeros(8)) + (Le32(65535) + Le32(ETHERNET_LINK))
  }

  function Record(index: nat, frame: Frame): (r: seq<Byte>)
    requires index <= MAX_FRAMES && |frame| < 0x1_0000_0000
  {
    Le32(EPOCH + index) + Le32(index * 1000) + Le32(|frame|) + Le32(|frame|) + frame
  }

  /** The records written after `written` earlier ones. */
  function Records(written: nat, frames: seq<Frame>): (r: seq<Byte>)
    requires written + |frames| <= MAX_FRAMES && forall k :: 0 <= k < |frames| ==> |frames[k]| < 0x1_0000_0000
    decreases |frames|
  {
    if frames == [] then [] else Record(written + 1, frames[0]) + Records(written + 1, frames[1..])
  }

  class PcapWriter {
    var stream: seq<Byte>
    var index: nat

    constructor ()
      ensures stream == FileHeader() && index == 0
    {
      stream, index := FileHeader(), 0;
    }

    method Write(frame: Frame)
      requires index < MAX_FRAMES && |frame| < 0x1_0000_0000
      modifies this
      ensures index == old(index) + 1 && stream == old(stream) + Record(index, frame)
    {
      index := index + 1;
      stream := stream + (Le32(EPOCH + index) + Le32(index * 1000) + Le32(|frame|) + Le32(|frame|));
      stream := stream + frame;
    }

    method WriteAll(frames: seq<Frame>)
      requires index + |frames| <= MAX_FRAMES && forall k :: 0 <= k < |frames| ==> |frames[k]| < 0x1_0000_0000
      modifies this
      ensures index == old(index) + |frames| && stream == old(stream) + Records(old(index), frames)
    {
      hide Record;
      ghost var whole := stream + Records(index, frames);
      for i := 0 to |frames|
        invariant index == old(index) + i
        invariant stream + Records(index, frames[i..]) == whole
      {
        assert frames[i..][1..] == frames[i + 1..];
        ghost var before := stream;
        Write(frames[i]);
        assert before + (Record(index, frames[i]) + Records(index, frames[i + 1..])) ==
               before + Record(index, frames[i]) + Records(index, frames[i + 1..]);
      }
      assert stream + Records(index, []) == stream;
    }
  }

  function ParseRecords(data: seq<Byte>): (r: Result<seq<Frame>, PcapError>) {
    if data == [] then Ok([])
    else if |data| < 16 then Err(TruncatedRecord)
    else
      var captured := U32(data, 8);
      if captured != U32(data, 12) || captured > MAX_FRAME then Err(InvalidLength)
      else if |data| - 16 < captured then Err(TruncatedFrame)
      else
        var rest :- ParseRecords(data[16 + captured..]);
        Ok([data[16..16 + captured]] + rest)
  }

  function ReadPcap(data: seq<Byte>): (r: Result<seq<Frame>, PcapError>) {
    if |data| < 24 || U32(data, 0) != MAGIC then Err(NotPcap)
    else if U32(data, 20) != ETHERNET_LINK then Err(NotEthernet)
    else ParseRecords(data[24..])
  }

  /** One record of a longer file. */
  lemma RecordAt(data: seq<Byte>, at: nat)
    requires at < |data|
    ensures ParseRecords(data[at..]) ==
            if |data| - at < 16 then Err(TruncatedRecord)
            else if U32(data, at + 8) != U32(data, at + 12) || U32(data, at + 8) > MAX_FRAME then Err(InvalidLength)
            else if |data| - at - 16 < U32(data, at + 8) then Err(TruncatedFrame)
            else
              var end := at + 16 + U32(data, at + 8);
              match ParseRecords(data[end..])
              case Ok(rest) => Ok([data[at + 16..end]] + rest)
              case Err(e) => Err(e)
  {
    var tail := data[at..];
    if |tail| >= 16 {
      assert U32(tail, 8) == U32(data, at + 8) && U32(tail, 12) == U32(data, at + 12);
      var captured := U32(tail, 8);
      if |tail| - 16 >= captured {
        assert tail[16..16 + captured] == data[at + 16..at + 16 + captured];
        assert tail[16 + captured..] == data[at + 16 + captured..];
      }
    }
  }

  lemma NoRecords(data: seq<Byte>)
    ensures ParseRecords(data[|data|..]) == Ok([])
  {
  }

  /** The reader's loop. */
  method Frames(data: seq<Byte>) returns (r: Result<seq<Frame>, PcapError>)
    ensures r == ReadPcap(data)
  {
    hide ParseRecords, U32;
    if |data| < 24 || U32(data, 0) != MAGIC {
      return Err(NotPcap);
    }
    if U32(data, 20) != ETHERNET_LINK {
      return Err(NotEthernet);
    }
    var at := 24;
    var frames: seq<Frame> := [];
    ghost var all := ParseRecords(data[24..]);
    assert all.Ok? ==> frames + all.value == all.value;
    while at < |data|
      invariant 24 <= at <= |data|
      invariant var rest := ParseRecords(data[at..]);
                if rest.Ok? then all == Ok(frames + rest.value) else all == rest
    {
      RecordAt(data, at);
      if |data| - at < 16 {
        return Err(TruncatedRecord);
      }
      var captured := U32(data, at + 8);
      if captured != U32(data, at + 12) || captured > MAX_FRAME {
        return Err(InvalidLength);
      }
      if |data| - at - 16 < captured {
        return Err(TruncatedFrame);
      }
      var frame := data[at + 16..at + 16 + captured];
      ghost var rest := ParseRecords(data[at + 16 + captured..]);
      assert rest.Ok? ==> frames + ([frame] + rest.value) == frames + [frame] + rest.value;
      frames := frames + [frame];
      at := at + 16 + captured;
    }
    NoRecords(data);
    assert frames + [] == frames;
    return Ok(frames);
  }

  lemma RecordParts(index: nat, frame: Frame, rest: seq<Byte>)
    requires index <= MAX_FRAMES && |frame| < 0x1_0000_0000
    ensures var data := Record(index, frame) + rest;
            && |data| == 16 + |frame| + |rest| && U32(data, 8) == |frame| && U32(data, 12) == |frame|
            && data[16..16 + |frame|] == frame && data[16 + |frame|..] == rest
  {
    hide Le32;
    var data := Record(index, frame) + rest;
    assert data[8..12] == Le32(|frame|) && data[12..16] == Le32(|frame|);
    SliceReads(data, 8);
    SliceReads(data, 12);
  }

  lemma SliceReads(data: seq<Byte>, at: nat)
    requires at + 4 <= |data|
    ensures U32(data, at) == U32(data[at..at + 4], 0)
  {
  }

  lemma FirstRecord(index: nat, frame: Frame, rest: seq<Byte>)
    requires index <= MAX_FRAMES && |frame| < 0x1_0000_0000
    ensures ParseRecords(Record(index, frame) + rest) ==
            if |frame| > MAX_FRAME then Err(InvalidLength)
            else if ParseRecords(rest).Ok? then Ok([frame] + ParseRecords(rest).value)
            else ParseRecords(rest)
  {
    hide Record, U32;
    RecordParts(index, frame, rest);
  }

  /** What the writer writes the reader reads back, unless some frame is longer than the reader allows. */
  lemma {:induction false} RecordsRoundTrip(written: nat, frames: seq<Frame>)
    requires written + |frames| <= MAX_FRAMES && forall k :: 0 <= k < |frames| ==> |frames[k]| < 0x1_0000_0000
    ensures ParseRecords(Records(written, frames)) ==
            if forall k :: 0 <= k < |frames| ==> |frames[k]| <= MAX_FRAME then Ok(frames) else Err(InvalidLength)
    decreases |frames|
  {
    hide Record, U32, ParseRecords;
    if frames == [] {
      NoRecords([]);
    } else {
      var rest := frames[1..];
      RecordsRoundTrip(written + 1, rest);
      FirstRecord(written + 1, frames[0], Records(written + 1, rest));
      assert frames == [frames[0]] + rest;
      assert (forall k :: 0 <= k < |frames| ==> |frames[k]| <= MAX_FRAME) <==>
             |frames[0]| <= MAX_FRAME && forall k :: 0 <= k < |rest| ==> |rest[k]| <= MAX_FRAME;
    }
  }

  lemma PcapRoundTrip(frames: seq<Frame>)
    requires |frames| <= MAX_FRAMES && forall k :: 0 <= k < |frames| ==> |frames[k]| < 0x1_0000_0000
    ensures ReadPcap(FileHeader() + Records(0, frames)) ==
            if forall k :: 0 <= k < |frames| ==> |frames[k]| <= 1514 then Ok(frames) else Err(InvalidLength)
  {
    hide FileHeader, Records, ParseRecords;
    var data := FileHeader() + Records(0, frames);
    assert data[24..] == Records(0, frames);
    RecordsRoundTrip(0, frames);
  }
}

module Capture {
  import opened Bytes
  import opened Packets
  import opened Pcap
  import opened TcpReassembly
  import P = TcpPeer
  import R = TcpRuns

  datatype Counts = Counts(guestTx: nat, peerTx: nat, arp: nat, ipv4: nat, icmp: nat, udp: nat, dhcp: nat, dns: nat,
                           tcp: nat, httpsTcp: nat, malformed: nat)

  const NO_COUNTS := Counts(0, 0, 0, 0, 0, 0, 0, 0, 0, 0, 0)

  datatype Report = Report(counts: Counts, tcp: Audit)

  const EMPTY_REPORT := Report(NO_COUNTS, EMPTY_AUDIT)

  function CountSender(c: Counts, frame: Frame): (r: Counts) {
    if |frame| < 14 then c
    else if frame[6..12] == GUEST_MAC then c.(guestTx := c.guestTx + 1)
    else if frame[6..12] == PEER_MAC then c.(peerTx := c.peerTx + 1)
    else c
  }

  function CountSeen(c: Counts, s: Seen): (r: Counts) {
    match s
    case Malformed(counted) => c.(malformed := c.malformed + 1, ipv4 := c.ipv4 + if counted then 1 else 0)
    case Ignored => c
    case Arp => c.(arp := c.arp + 1)
    case Icmp => c.(ipv4 := c.ipv4 + 1, icmp := c.icmp + 1)
    case UdpDatagram(source, destination) =>
      c.(ipv4 := c.ipv4 + 1, udp := c.udp + 1,
         dhcp := c.dhcp + (if {source, destination} == {67, 68} then 1 else 0),
         dns := c.dns + (if source == 53 || destination == 53 then 1 else 0))
    case TcpSegment(segment) =>
      c.(ipv4 := c.ipv4 + 1, tcp := c.tcp + 1, httpsTcp := c.httpsTcp + if segment.IsTls() then 1 else 0)
    case OtherIp => c.(ipv4 := c.ipv4 + 1)
  }

  function AuditFrame(r: Report, frame: Frame): (s: Report)
    requires r.tcp.Valid()
    ensures s.tcp.Valid()
  {
    var seen := See(frame);
    Report(CountSeen(CountSender(r.counts, frame), seen),
           if seen.TcpSegment? then AuditSegment(r.tcp, seen.segment) else r.tcp)
  }

  function AuditFrames(frames: seq<Frame>): (r: Report)
    ensures r.tcp.Valid()
  {
    if frames == [] then EMPTY_REPORT
    else AuditFrame(AuditFrames(frames[..|frames| - 1]), frames[|frames| - 1])
  }

  /** The audit loop over one capture file. */
  method AuditCapture(data: seq<Byte>) returns (r: Result<Report, PcapError>)
    ensures ReadPcap(data).Err? ==> r == Err(ReadPcap(data).error)
    ensures ReadPcap(data).Ok? ==> r == Ok(AuditFrames(ReadPcap(data).value))
  {
    var read := Frames(data);
    if read.Err? {
      return Err(read.error);
    }
    var frames := read.value;
    var counts := NO_COUNTS;
    var auditor := new Auditor();
    for i := 0 to |frames|
      invariant fresh(auditor) && auditor.State().Valid()
      invariant Report(counts, auditor.State()) == AuditFrames(frames[..i])
    {
      assert frames[..i + 1][..i] == frames[..i];
      var seen := See(frames[i]);
      counts := CountSeen(CountSender(counts, frames[i]), seen);
      if seen.TcpSegment? {
        auditor.Accept(seen.segment);
      }
    }
    assert frames[..|frames|] == frames;
    return Ok(Report(counts, Audit(auditor.active, auditor.streams, auditor.errors)));
  }

  // What the peer sends fits the packet builders

  predicate Sendable(s: Segment) {
    Encodable(s, []) && |s.payload| <= P.TCP_CHUNK && s.IsTls()
  }

  ghost predicate Ports(p: P.Peer) {
    p.clientPort < 0x1_0000 && p.clientNext < SEQUENCE_SPACE && p.serverNext < SEQUENCE_SPACE
  }

  predicate AllSendable(segments: seq<Segment>) {
    forall k :: 0 <= k < |segments| ==> Sendable(segments[k])
  }

  lemma EmitSendable(p: P.Peer, flags: Byte, payload: seq<Byte>)
    requires Ports(p) && |payload| <= P.TCP_CHUNK
    ensures Sendable(P.Emit(p, flags, payload)) && Ports(P.AfterSend(p, flags, payload))
  {
  }

  lemma {:induction false} DrainSendable(p: P.Peer, inFlight: nat)
    requires Ports(p)
    ensures Ports(P.Drain(p, inFlight).0) && AllSendable(P.Drain(p, inFlight).1)
    decreases |p.outgoing|
  {
    hide P.AfterSend, P.Emit, Sendable;
    var window := P.Min(P.TCP_SEND_WINDOW, p.clientWindow);
    if p.outgoing != [] && inFlight < window {
      var n := P.Min(P.TCP_CHUNK, P.Min(window - inFlight, |p.outgoing|));
      var shorter := p.(outgoing := p.outgoing[n..]);
      EmitSendable(p, P.PSH_ACK, p.outgoing[..n]);
      EmitSendable(shorter, P.PSH_ACK, p.outgoing[..n]);
      AfterSendKeeps(shorter, P.PSH_ACK, p.outgoing[..n]);
      DrainSendable(P.AfterSend(shorter, P.PSH_ACK, p.outgoing[..n]), inFlight + n);
    }
  }

  lemma AfterSendKeeps(p: P.Peer, flags: Byte, payload: seq<Byte>)
    ensures P.AfterSend(p, flags, payload).outgoing == p.outgoing
  {
  }

  lemma FinishSendable(p: P.Peer)
    requires Ports(p)
    ensures Ports(P.FinishHttps(p).0) && AllSendable(P.FinishHttps(p).1)
  {
    hide P.Drain, P.AfterSend, P.Emit, Sendable;
    DrainSendable(p, P.SequenceDistance(p.serverAcked, p.serverNext));
    EmitSendable(P.DrainTls(p).0, P.FIN_ACK, []);
  }

  lemma StepSendable(p: P.Peer, c: P.ClientSegment, e: P.Engine)
    requires Ports(p)
    ensures Ports(P.PeerStep(p, c, e).0) && AllSendable(P.PeerStep(p, c, e).1)
  {
    hide P.FinishHttps, P.AfterSend, P.Emit, P.AcknowledgeServer, Sendable;
    var q := p.(clientWindow := c.window);
    var q' := if c.Has(0x10) then P.AcknowledgeServer(q, c.acknowledgement) else q;
    AcknowledgeKeeps(q, c.acknowledgement);
    if c.payload != [] {
      if c.sequence != q'.clientNext {
        EmitSendable(q', P.ACK, []);
      } else {
        var r := q'.(clientNext := Wrap(c.sequence + |c.payload|), incoming := q'.incoming + c.payload);
        EmitSendable(r, P.ACK, []);
        var s := P.AfterSend(r, P.ACK, []);
        FinishSendable(s.(outgoing := s.outgoing + e.produced, finished := s.finished || e.done));
      }
    } else if c.Has(0x01) {
      EmitSendable(q'.(clientNext := Wrap(c.sequence + 1)), P.ACK, []);
    } else {
      FinishSendable(q');
    }
  }

  lemma AcknowledgeKeeps(p: P.Peer, acknowledgement: nat)
    ensures var q := P.AcknowledgeServer(p, acknowledgement);
            q.clientPort == p.clientPort && q.clientNext == p.clientNext && q.serverNext == p.serverNext
  {
  }

  ghost predicate WellAddressed(f: P.Fixture) {
    AllSendable(f.capture) && forall port :: port in f.peers ==> Ports(f.peers[port])
  }

  lemma HandleSendable(f: P.Fixture, c: P.ClientSegment, e: P.Engine)
    requires WellAddressed(f) && c.port < 0x1_0000
    ensures WellAddressed(P.HandleTcp(f, c, e))
  {
    hide P.PeerStep, P.AfterSend, P.Emit, Sendable, Ports;
    if c.Has(0x02) && !c.Has(0x10) {
      var p := P.NewPeer(c.port, c.sequence, c.window);
      NewPorts(c.port, c.sequence, c.window);
      EmitSendable(p, P.SYN_ACK, []);
    } else if c.port in f.peers {
      StepSendable(f.peers[c.port], c, e);
    }
  }

  lemma NewPorts(port: nat, sequence: nat, window: nat)
    requires port < 0x1_0000
    ensures Ports(P.NewPeer(port, sequence, window))
  {
  }

  lemma {:induction false} RunSendable(events: seq<R.Event>)
    requires R.Wire(events)
    ensures WellAddressed(R.Run(events))
    decreases |events|
  {
    hide P.HandleTcp;
    if events != [] {
      var k := |events| - 1;
      assert forall j :: 0 <= j < k ==> events[..k][j] == events[j];
      RunSendable(events[..k]);
      HandleSendable(R.Run(events[..k]), events[k].segment, events[k].engine);
    }
  }

  // The whole path

  /** The frames of a capture, numbered as the fixture's IPv4 identity counter does. */
  function FramesOf(segments: seq<Segment>): (frames: seq<Frame>)
    requires AllSendable(segments)
    ensures |frames| == |segments|
  {
    seq(|segments|, k requires 0 <= k < |segments| => TcpFrame(segments[k], 101 + k))
  }

  lemma SenderSeen(s: Segment, identity: nat)
    requires Encodable(s, [])
    ensures |TcpFrame(s, identity)| >= 14 && TcpFrame(s, identity)[6..12] == PEER_MAC
  {
    hide Tcp, Ipv4;
  }

  /** The auditor counts every sent frame once, calls none malformed, and reassembles exactly the sent segments. */
  lemma {:induction false} SentFramesAudited(segments: seq<Segment>)
    requires AllSendable(segments)
    ensures var n := |segments|;
            AuditFrames(FramesOf(segments)) ==
            Report(Counts(0, n, 0, n, 0, 0, 0, 0, n, n, 0), AuditAll(EMPTY_AUDIT, segments))
    decreases |segments|
  {
    hide Encodable, Tcp, TcpFrame, See, AuditSegment;
    if segments != [] {
      var k := |segments| - 1;
      var init, s := segments[..k], segments[k];
      assert forall j :: 0 <= j < k ==> init[j] == segments[j];
      SentFramesAudited(init);
      assert FramesOf(segments)[..k] == FramesOf(init);
      SentIsSeen(s, 101 + k);
      SenderSeen(s, 101 + k);
    }
  }

  /** From client segments to reassembled streams, through real bytes: for every run, the PCAP file of the
      peer's segments reads back, no frame is malformed, and reassembly is free of errors exactly when no
      connection sent data after its FIN; then each stream is exactly what that connection drained. */
  lemma RunCaptured(events: seq<R.Event>)
    requires R.Wire(events) && R.Bounded(R.RefRun(events)) && |R.Run(events).capture| <= MAX_FRAMES
    ensures AllSendable(R.Run(events).capture)
    ensures var frames := FramesOf(R.Run(events).capture);
            && (forall k :: 0 <= k < |frames| ==> |frames[k]| <= MAX_FRAME)
            && ReadPcap(FileHeader() + Records(0, frames)) == Ok(frames)
            && var report := AuditFrames(frames);
               && report.counts.malformed == 0 && report.counts.tcp == |frames|
               && (report.tcp.errors == [] <==> R.OnTime(R.RefRun(events)))
               && (R.OnTime(R.RefRun(events)) ==> R.Mirrors(report.tcp, R.RefRun(events)))
  {
    hide Encodable, Tcp, TcpFrame, See, AuditAll, R.Run, R.RefRun, R.Mirrors, R.OnTime, Records, FileHeader, ReadPcap;
    var segments := R.Run(events).capture;
    RunSendable(events);
    SentFramesAudited(segments);
    R.RunAudited(events);
    var frames := FramesOf(segments);
    forall k | 0 <= k < |frames|
      ensures |frames[k]| <= MAX_FRAME
    {
      SentIsSeen(segments[k], 101 + k);
    }
    PcapRoundTrip(frames);
  }
}
