// A capture as the fixture writes it: the peer's frames among every other frame, sent or received
// (tools/network_fixture.py, tools/network_packet_audit.py).

module CaptureAll {
  import opened Bytes
  import opened Packets
  import opened Pcap
  import opened Capture
  import opened TcpReassembly
  import opened TcpFlows
  import P = TcpPeer
  import R = TcpRuns

  /** The TCP segments a frame shows the auditor: one or none. */
  function SegmentIn(frame: Frame): (s: seq<Segment>) {
    var seen := See(frame);
    if seen.TcpSegment? then [seen.segment] else []
  }

  function SegmentsOf(frames: seq<Frame>): (s: seq<Segment>) {
    if frames == [] then [] else SegmentsOf(frames[..|frames| - 1]) + SegmentIn(frames[|frames| - 1])
  }

  predicate IsPeerFrame(frame: Frame) {
    var s := SegmentIn(frame);
    s != [] && FromPeer()(s[0].key)
  }

  function PeerFrames(frames: seq<Frame>): (r: seq<Frame>) {
    if frames == [] then []
    else
      var last := frames[|frames| - 1];
      PeerFrames(frames[..|frames| - 1]) + if IsPeerFrame(last) then [last] else []
  }

  /** Reassembly looks at a frame only through its segment. */
  lemma {:induction false} FramesReassembled(frames: seq<Frame>)
    ensures AuditFrames(frames).tcp == AuditAll(EMPTY_AUDIT, SegmentsOf(frames))
    decreases |frames|
  {
    hide See, AuditSegment;
    if frames != [] {
      var k := |frames| - 1;
      FramesReassembled(frames[..k]);
      var init, more := SegmentsOf(frames[..k]), SegmentIn(frames[k]);
      assert init + [] == init;
      if more != [] {
        assert (init + more)[..|init|] == init;
      }
    }
  }

  lemma {:induction false} PeerSegments(frames: seq<Frame>)
    ensures SegmentsOf(PeerFrames(frames)) == Only(SegmentsOf(frames), FromPeer())
    decreases |frames|
  {
    hide See, FromPeer;
    if frames != [] {
      var k := |frames| - 1;
      PeerSegments(frames[..k]);
      var init, more := SegmentsOf(frames[..k]), SegmentIn(frames[k]);
      var peers := PeerFrames(frames[..k]);
      assert init + [] == init && peers + [] == peers;
      if more != [] {
        assert (init + more)[..|init|] == init;
      }
      if IsPeerFrame(frames[k]) {
        assert (peers + [frames[k]])[..|peers|] == peers;
      }
    }
  }

  /** The frames of some segments, each with an IPv4 identity of its own. */
  function Framed(segments: seq<Segment>, identities: seq<nat>): (frames: seq<Frame>)
    requires AllSendable(segments) && |identities| == |segments|
    ensures |frames| == |segments|
  {
    seq(|segments|, k requires 0 <= k < |segments| => TcpFrame(segments[k], identities[k]))
  }

  lemma {:induction false} SentSegments(segments: seq<Segment>, identities: seq<nat>)
    requires AllSendable(segments) && |identities| == |segments|
    ensures SegmentsOf(Framed(segments, identities)) == segments
    decreases |segments|
  {
    hide Encodable, Tcp, TcpFrame, See;
    if segments != [] {
      var k := |segments| - 1;
      assert forall j :: 0 <= j < k ==> segments[..k][j] == segments[j];
      SentSegments(segments[..k], identities[..k]);
      assert Framed(segments, identities)[..k] == Framed(segments[..k], identities[..k]);
      SentIsSeen(segments[k], identities[k]);
      assert segments == segments[..k] + [segments[k]];
    }
  }

  /** For every run of the peer and every capture whose frames from the peer are those of the run, in order and
      with any identities, whatever other frames stand between them: the file reads back; reassembly is free of
      errors exactly when no connection sent data after its FIN and the other flows are clean; and then the
      peer's streams appear in order, each with exactly the bytes its connection drained. */
  lemma RunInCapture(events: seq<R.Event>, frames: seq<Frame>, identities: seq<nat>) returns (at: seq<nat>)
    requires R.Wire(events) && R.Bounded(R.RefRun(events))
    requires |frames| <= MAX_FRAMES && forall k :: 0 <= k < |frames| ==> |frames[k]| <= MAX_FRAME
    requires AllSendable(R.Run(events).capture) && |identities| == |R.Run(events).capture|
    requires PeerFrames(frames) == Framed(R.Run(events).capture, identities)
    ensures ReadPcap(FileHeader() + Records(0, frames)) == Ok(frames)
    ensures var (a, rf) := (AuditFrames(frames).tcp, R.RefRun(events));
            && (a.errors == [] <==>
                R.OnTime(rf) && AuditAll(EMPTY_AUDIT, Only(SegmentsOf(frames), Others(FromPeer()))).errors == [])
            && (R.OnTime(rf) ==>
                && |at| == |rf.connections| && (forall i, j :: 0 <= i < j < |at| ==> at[i] < at[j])
                && forall i :: 0 <= i < |at| ==> at[i] < |a.streams| && a.streams[at[i]].data == rf.connections[i].drained)
  {
    hide AuditAll, AuditFrames, Only, Others, R.Run, R.RefRun, R.OnTime, ReadPcap, Records, FileHeader, SegmentsOf, PeerFrames, Framed,
         FromPeer, Sendable;
    PcapRoundTrip(frames);
    FramesReassembled(frames);
    PeerSegments(frames);
    SentSegments(R.Run(events).capture, identities);
    at := RunAmongOthers(events, SegmentsOf(frames));
  }
}
