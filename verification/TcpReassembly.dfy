// The packet auditor's per-flow TCP reassembly (tools/network_packet_audit.py, audit).

module TcpReassembly {
  import opened Bytes

  /** Sequence numbers live modulo 2^32 (section 3.4 of RFC 9293). */
  const SEQUENCE_SPACE := 0x1_0000_0000
  const TLS_PORT := 443

  function Wrap(x: int): (r: nat)
    ensures r < SEQUENCE_SPACE
  {
    x % SEQUENCE_SPACE
  }

  datatype FlowKey = FlowKey(sourceIp: seq<Byte>, source: nat, destinationIp: seq<Byte>, destination: nat)

  datatype Segment = Segment(key: FlowKey, sequence: nat, acknowledgement: nat, flags: Byte, payload: seq<Byte>) {
    predicate IsSyn() {
      flags / 2 % 2 == 1
    }

    predicate IsTls() {
      key.source == TLS_PORT || key.destination == TLS_PORT
    }
  }

  datatype Stream = Stream(initial: nat, data: seq<Byte>)

  datatype ReassemblyError = NoCapturedSyn | SequenceGap | ContradictoryRetransmission

  /** Streams in capture order, the live stream of each flow as an index into them, and the errors. */
  datatype Audit = Audit(active: map<FlowKey, nat>, streams: seq<Stream>, errors: seq<ReassemblyError>) {
    ghost predicate Valid() {
      forall k :: k in active ==> active[k] < |streams|
    }
  }

  const EMPTY_AUDIT := Audit(map[], [], [])

  /** A SYN opens a stream for its flow, replacing the live one. */
  function Open(a: Audit, s: Segment): (r: Audit) {
    if s.IsSyn() then
      Audit(a.active[s.key := |a.streams|], a.streams + [Stream(Wrap(s.sequence + 1), [])], a.errors)
    else a
  }

  function Position(s: Segment, initial: nat): (p: nat) {
    Wrap(s.sequence + (if s.IsSyn() then 1 else 0) - initial)
  }

  datatype Placement = Placed(data: seq<Byte>) | Refused(error: ReassemblyError)

  /** Lays a payload at `position` over the bytes already reassembled. */
  function Place(data: seq<Byte>, position: nat, payload: seq<Byte>): (r: Placement) {
    if position > |data| then Refused(SequenceGap)
    else
      var overlap := if |payload| < |data| - position then |payload| else |data| - position;
      if data[position..position + overlap] != payload[..overlap] then Refused(ContradictoryRetransmission)
      else Placed(data + payload[overlap..])
  }

  function AuditSegment(a: Audit, s: Segment): (r: Audit)
    requires a.Valid()
    ensures r.Valid()
  {
    if !s.IsTls() then a
    else
      var o := Open(a, s);
      if s.payload == [] then o else AddData(o, s)
  }

  function AddData(o: Audit, s: Segment): (r: Audit)
    requires o.Valid()
    ensures r.Valid()
  {
    if s.key !in o.active then o.(errors := o.errors + [NoCapturedSyn])
    else
      var i := o.active[s.key];
      match Place(o.streams[i].data, Position(s, o.streams[i].initial), s.payload)
      case Refused(e) => o.(errors := o.errors + [e])
      case Placed(data) => o.(streams := o.streams[i := o.streams[i].(data := data)])
  }

  function AuditAll(a: Audit, segments: seq<Segment>): (r: Audit)
    requires a.Valid()
    ensures r.Valid()
  {
    if segments == [] then a
    else AuditSegment(AuditAll(a, segments[..|segments| - 1]), segments[|segments| - 1])
  }

  /** The auditor's mutable form. */
  class Auditor {
    var active: map<FlowKey, nat>
    var streams: seq<Stream>
    var errors: seq<ReassemblyError>

    ghost function State(): (a: Audit)
      reads this
    {
      Audit(active, streams, errors)
    }

    constructor ()
      ensures State() == EMPTY_AUDIT
    {
      active, streams, errors := map[], [], [];
    }

    method Accept(s: Segment)
      requires State().Valid()
      modifies this
      ensures State().Valid() && State() == AuditSegment(old(State()), s)
    {
      hide Wrap;
      if s.key.source != TLS_PORT && s.key.destination != TLS_PORT {
        return;
      }
      if s.IsSyn() {
        active := active[s.key := |streams|];
        streams := streams + [Stream(Wrap(s.sequence + 1), [])];
      }
      assert State() == Open(old(State()), s) && State().Valid();
      if s.payload != [] {
        AcceptData(s);
      }
    }

    /** The payload of a TLS segment whose SYN, if it is one, has been taken in. */
    method AcceptData(s: Segment)
      requires State().Valid() && s.payload != []
      modifies this`streams, this`errors
      ensures State().Valid() && State() == AddData(old(State()), s)
    {
      hide Wrap;
      if s.key !in active {
        errors := errors + [NoCapturedSyn];
        return;
      }
      var i := active[s.key];
      var position := Wrap(s.sequence + (if s.IsSyn() then 1 else 0) - streams[i].initial);
      var data := streams[i].data;
      if position > |data| {
        errors := errors + [SequenceGap];
        return;
      }
      var overlap := if |s.payload| < |data| - position then |s.payload| else |data| - position;
      if data[position..position + overlap] != s.payload[..overlap] {
        errors := errors + [ContradictoryRetransmission];
        return;
      }
      streams := streams[i := streams[i].(data := data + s.payload[overlap..])];
    }

    method AcceptAll(segments: seq<Segment>)
      requires State().Valid()
      modifies this
      ensures State().Valid() && State() == AuditAll(old(State()), segments)
    {
      for i := 0 to |segments|
        invariant State().Valid() && State() == AuditAll(old(State()), segments[..i])
      {
        assert segments[..i + 1][..i] == segments[..i];
        Accept(segments[i]);
      }
      assert segments[..|segments|] == segments;
    }
  }

  // Reassembly only ever appends

  /** Streams of `b` extend those of `a`. */
  ghost predicate Extends(a: Audit, b: Audit) {
    && |a.streams| <= |b.streams| && a.errors <= b.errors
    && forall i :: 0 <= i < |a.streams| ==>
         a.streams[i].initial == b.streams[i].initial && a.streams[i].data <= b.streams[i].data
  }

  lemma StepExtends(a: Audit, s: Segment)
    requires a.Valid()
    ensures Extends(a, AuditSegment(a, s))
  {
  }

  lemma ExtendsTransitive(a: Audit, b: Audit, c: Audit)
    requires Extends(a, b) && Extends(b, c)
    ensures Extends(a, c)
  {
    forall i | 0 <= i < |a.streams|
      ensures a.streams[i].initial == c.streams[i].initial && a.streams[i].data <= c.streams[i].data
    {
      assert a.streams[i].data <= b.streams[i].data <= c.streams[i].data;
    }
  }

  lemma {:induction false} RunExtends(a: Audit, segments: seq<Segment>)
    requires a.Valid()
    ensures Extends(a, AuditAll(a, segments))
    decreases |segments|
  {
    if segments != [] {
      var init := segments[..|segments| - 1];
      RunExtends(a, init);
      StepExtends(AuditAll(a, init), segments[|segments| - 1]);
      ExtendsTransitive(a, AuditAll(a, init), AuditAll(a, segments));
    }
  }

  lemma {:induction false} RunSplit(a: Audit, first: seq<Segment>, second: seq<Segment>)
    requires a.Valid()
    ensures AuditAll(a, first + second) == AuditAll(AuditAll(a, first), second)
    decreases |second|
  {
    if second == [] {
      assert first + second == first;
    } else {
      var n := |second| - 1;
      RunSplit(a, first, second[..n]);
      assert (first + second)[..|first| + n] == first + second[..n];
    }
  }

  /** A SYN opens a stream that starts with its own payload, numbered from the byte after the SYN, whatever came before. */
  lemma SynOpens(a: Audit, s: Segment)
    requires a.Valid() && s.flags % 4 >= 2 && (s.key.source == 443 || s.key.destination == 443)
    ensures AuditSegment(a, s) ==
            Audit(a.active[s.key := |a.streams|], a.streams + [Stream((s.sequence + 1) % 0x1_0000_0000, s.payload)], a.errors)
  {
    var f := s.flags as int;
    assert f / 2 % 2 == 1 <==> f % 4 >= 2;
    var o := Open(a, s);
    assert o.streams[..|a.streams|] == a.streams && [] + s.payload[0..] == s.payload;
    assert Position(s, Wrap(s.sequence + 1)) == 0;
  }

  /** A data segment the auditor did not complain about. */
  ghost predicate Accepted(a: Audit, s: Segment)
    requires a.Valid()
  {
    s.IsTls() && s.payload != [] && AuditSegment(a, s).errors == a.errors
  }

  /** Whatever segments follow, an accepted segment stays the slice of its stream at its offset. */
  lemma AcceptedStays(a: Audit, before: seq<Segment>, s: Segment, after: seq<Segment>)
    requires a.Valid() && Accepted(AuditAll(a, before), s)
    ensures var here := Open(AuditAll(a, before), s);
            var final := AuditAll(a, before + [s] + after);
            && s.key in here.active && here.active[s.key] < |final.streams|
            && var position := Position(s, here.streams[here.active[s.key]].initial);
               var data := final.streams[here.active[s.key]].data;
               position + |s.payload| <= |data| && data[position..position + |s.payload|] == s.payload
  {
    var mid := AuditAll(a, before);
    var next := AuditSegment(mid, s);
    RunSplit(a, before, [s]);
    assert [s][..0] == [];
    RunSplit(a, before + [s], after);
    RunExtends(next, after);
    AcceptedPlaced(mid, s);
    var i := Open(mid, s).active[s.key];
    var data, final := next.streams[i].data, AuditAll(next, after).streams[i].data;
    assert data <= final;
    var p := Position(s, Open(mid, s).streams[i].initial);
    assert final[p..p + |s.payload|] == data[p..p + |s.payload|];
  }

  lemma AcceptedPlaced(a: Audit, s: Segment)
    requires a.Valid() && Accepted(a, s)
    ensures var o := Open(a, s);
            && s.key in o.active && o.active[s.key] < |AuditSegment(a, s).streams|
            && var p := Position(s, o.streams[o.active[s.key]].initial);
               var data := AuditSegment(a, s).streams[o.active[s.key]].data;
               p + |s.payload| <= |data| && data[p..p + |s.payload|] == s.payload
  {
    var o := Open(a, s);
    var i := o.active[s.key];
    PlaceHolds(o.streams[i].data, Position(s, o.streams[i].initial), s.payload);
  }

  /** Placing succeeds exactly when the payload can be laid over the data without a gap or a conflict,
      and then only appends. */
  lemma PlaceHolds(data: seq<Byte>, position: nat, payload: seq<Byte>)
    ensures var r := Place(data, position, payload);
            && (r.Placed? ==>
                  && data <= r.data && position + |payload| <= |r.data|
                  && r.data[position..position + |payload|] == payload
                  && |r.data| == if |data| < position + |payload| then position + |payload| else |data|)
            && (r.Refused? <==> position > |data| || exists k :: 0 <= k < |payload| && position + k < |data| && data[position + k] != payload[k])
  {
    var r := Place(data, position, payload);
    if position <= |data| {
      var overlap := if |payload| < |data| - position then |payload| else |data| - position;
      if r.Placed? {
        assert forall k :: 0 <= k < overlap ==> data[position..position + overlap][k] == payload[..overlap][k];
        Overlaid(data, position, payload, overlap);
      } else {
        var k :| 0 <= k < overlap && data[position..position + overlap][k] != payload[..overlap][k];
        assert data[position + k] != payload[k];
      }
    }
  }

  lemma Overlaid(data: seq<Byte>, position: nat, payload: seq<Byte>, overlap: nat)
    requires position <= |data|
    requires overlap == if |payload| < |data| - position then |payload| else |data| - position
    requires data[position..position + overlap] == payload[..overlap]
    ensures var all := data + payload[overlap..];
            position + |payload| <= |all| && all[position..position + |payload|] == payload
  {
    var all := data + payload[overlap..];
    forall k | 0 <= k < |payload|
      ensures all[position + k] == payload[k]
    {
      if k < overlap {
        assert data[position..position + overlap][k] == payload[..overlap][k];
      }
    }
    assert all[position..position + |payload|] == payload;
  }

  // Segments that are slices of one true stream

  /** `s` is a data or pure segment of the connection with this key and first data byte. */
  ghost predicate SliceOf(s: Segment, key: FlowKey, initial: nat, truth: seq<Byte>, offset: nat) {
    && s.key == key && s.IsTls() && !s.IsSyn()
    && offset + |s.payload| <= |truth|
    && s.payload == truth[offset..offset + |s.payload|]
    && s.sequence == Wrap(initial + offset)
  }

  /** How far contiguous data reaches: a segment counts only if it starts within reach. */
  ghost function Reach(n: nat, segments: seq<Segment>, offsets: seq<nat>): (r: nat)
    requires |segments| == |offsets|
    decreases |segments|
  {
    if segments == [] then n
    else
      var k := |segments| - 1;
      var m := Reach(n, segments[..k], offsets[..k]);
      var end := offsets[k] + |segments[k].payload|;
      if segments[k].payload != [] && offsets[k] <= m < end then end else m
  }

  lemma WrapShift(initial: nat, offset: nat)
    requires offset < SEQUENCE_SPACE && initial < SEQUENCE_SPACE
    ensures Wrap(Wrap(initial + offset) - initial) == offset
  {
  }

  /** Segments cut, in any order and with any overlap, from one stream of at most 2^32 bytes never
      contradict each other, and reassemble to exactly the part of it that is contiguously in reach. */
  lemma {:induction false} TrueStream(a: Audit, key: FlowKey, truth: seq<Byte>, segments: seq<Segment>, offsets: seq<nat>)
    requires a.Valid() && key in a.active && |truth| <= SEQUENCE_SPACE
    requires var s := a.streams[a.active[key]]; s.data <= truth && s.initial < SEQUENCE_SPACE
    requires |segments| == |offsets|
    requires forall k :: 0 <= k < |segments| ==>
               SliceOf(segments[k], key, a.streams[a.active[key]].initial, truth, offsets[k])
    ensures var i, r := a.active[key], AuditAll(a, segments);
            var reach := Reach(|a.streams[i].data|, segments, offsets);
            && r.active == a.active && |r.streams| == |a.streams|
            && reach <= |truth| && r.streams[i] == a.streams[i].(data := truth[..reach])
            && (forall j :: 0 <= j < |a.streams| && j != i ==> r.streams[j] == a.streams[j])
            && (ContradictoryRetransmission in r.errors ==> ContradictoryRetransmission in a.errors)
    decreases |segments|
  {
    hide AuditSegment;
    var i := a.active[key];
    if segments == [] {
      assert a.streams[i].data == truth[..|a.streams[i].data|];
    } else {
      var k := |segments| - 1;
      var init, heads := segments[..k], offsets[..k];
      assert forall j :: 0 <= j < k ==> init[j] == segments[j] && heads[j] == offsets[j];
      TrueStream(a, key, truth, init, heads);
      var mid, s := AuditAll(a, init), segments[k];
      TrueStep(mid, key, truth, s, offsets[k]);
    }
  }

  lemma TrueStep(a: Audit, key: FlowKey, truth: seq<Byte>, s: Segment, offset: nat)
    requires a.Valid() && key in a.active && |truth| <= SEQUENCE_SPACE
    requires var t := a.streams[a.active[key]]; t.data <= truth && t.initial < SEQUENCE_SPACE
    requires SliceOf(s, key, a.streams[a.active[key]].initial, truth, offset)
    ensures var i, r := a.active[key], AuditSegment(a, s);
            var m, end := |a.streams[i].data|, offset + |s.payload|;
            var reach := if s.payload != [] && offset <= m < end then end else m;
            && r == a.(streams := a.streams[i := a.streams[i].(data := truth[..reach])],
                       errors := if s.payload != [] && offset > m then a.errors + [SequenceGap] else a.errors)
  {
    var i := a.active[key];
    var t := a.streams[i];
    if s.payload == [] {
      assert truth[..|t.data|] == t.data;
      assert a.streams[i := t] == a.streams;
    } else {
      WrapShift(t.initial, offset);
      assert Position(s, t.initial) == offset;
      PlaceHolds(t.data, offset, s.payload);
      if offset <= |t.data| {
        forall k | 0 <= k < |s.payload| && offset + k < |t.data|
          ensures t.data[offset + k] == s.payload[k]
        {
          assert s.payload[k] == truth[offset + k] == t.data[offset + k];
        }
        var r := Place(t.data, offset, s.payload).data;
        PlaceTruth(t.data, offset, s.payload, truth);
      } else {
        assert truth[..|t.data|] == t.data;
        assert a.streams[i := t] == a.streams;
      }
    }
  }

  lemma PlaceTruth(data: seq<Byte>, offset: nat, payload: seq<Byte>, truth: seq<Byte>)
    requires data <= truth && offset <= |data| && offset + |payload| <= |truth|
    requires payload == truth[offset..offset + |payload|] && Place(data, offset, payload).Placed?
    ensures Place(data, offset, payload).data
            == truth[..if |data| < offset + |payload| then offset + |payload| else |data|]
  {
    var r := Place(data, offset, payload).data;
    PlaceHolds(data, offset, payload);
    forall k | 0 <= k < |r|
      ensures r[k] == truth[k]
    {
      if k >= |data| {
        assert r[k] == r[offset..offset + |payload|][k - offset];
      }
    }
  }
}
