// Captures hold many flows at once: the auditor's verdict on an interleaving is its verdict on each part
// (the active streams of audit in tools/network_packet_audit.py are keyed by flow).

module TcpFlows {
  import opened Bytes
  import opened TcpReassembly
  import P = TcpPeer
  import R = TcpRuns

  type Side = FlowKey -> bool

  /** The segments of the flows on one side, in order. */
  function Only(segments: seq<Segment>, mine: Side): (r: seq<Segment>) {
    if segments == [] then []
    else
      var n := |segments| - 1;
      Only(segments[..n], mine) + if mine(segments[n].key) then [segments[n]] else []
  }

  function Others(mine: Side): (r: Side) {
    (k: FlowKey) => !mine(k)
  }

  /** `part` is the share of `all` that belongs to one side: its streams, in order, stand at the places `at`. */
  ghost predicate Share(all: Audit, part: Audit, mine: Side, at: seq<nat>) {
    && all.Valid() && part.Valid() && |at| == |part.streams|
    && (forall i, j :: 0 <= i < j < |at| ==> at[i] < at[j])
    && (forall i :: 0 <= i < |at| ==> at[i] < |all.streams| && all.streams[at[i]] == part.streams[i])
    && (forall k :: k in part.active ==> mine(k))
    && (forall k :: mine(k) ==>
          (k in all.active <==> k in part.active) && (k in part.active ==> all.active[k] == at[part.active[k]]))
  }

  /** Both sides together are everything, and no stream belongs to both. */
  ghost predicate Splits(all: Audit, a: Audit, b: Audit, mine: Side, left: seq<nat>, right: seq<nat>) {
    && Share(all, a, mine, left) && Share(all, b, Others(mine), right)
    && |left| + |right| == |all.streams|
    && (forall i, j :: 0 <= i < |left| && 0 <= j < |right| ==> left[i] != right[j])
    && |all.errors| == |a.errors| + |b.errors|
  }

  /** A segment opens its stream on its own side. */
  lemma OpenMine(all: Audit, a: Audit, b: Audit, mine: Side, left: seq<nat>, right: seq<nat>, s: Segment)
    requires Splits(all, a, b, mine, left, right) && mine(s.key)
    ensures Splits(Open(all, s), Open(a, s), b, mine, if s.IsSyn() then left + [|all.streams|] else left, right)
  {
    hide Share;
    if s.IsSyn() {
      OpenShare(all, a, mine, left, s);
      OpenElsewhere(all, b, Others(mine), right, s);
      ShareInside(all, b, Others(mine), right);
    }
  }

  lemma OpenShare(all: Audit, a: Audit, mine: Side, at: seq<nat>, s: Segment)
    requires Share(all, a, mine, at) && mine(s.key) && s.IsSyn()
    ensures Share(Open(all, s), Open(a, s), mine, at + [|all.streams|])
  {
    var more := at + [|all.streams|];
    assert forall i :: 0 <= i < |at| ==> more[i] == at[i];
  }

  lemma OpenElsewhere(all: Audit, b: Audit, theirs: Side, at: seq<nat>, s: Segment)
    requires Share(all, b, theirs, at) && !theirs(s.key)
    ensures Share(Open(all, s), b, theirs, at)
  {
  }

  lemma ShareInside(all: Audit, b: Audit, theirs: Side, at: seq<nat>)
    requires Share(all, b, theirs, at)
    ensures forall i :: 0 <= i < |at| ==> at[i] < |all.streams|
  {
  }

  /** Placing its payload changes one stream, on its own side. */
  lemma PlaceMine(all: Audit, a: Audit, b: Audit, mine: Side, left: seq<nat>, right: seq<nat>, key: FlowKey, data: seq<Byte>)
    requires Splits(all, a, b, mine, left, right) && mine(key) && key in a.active
    ensures var (i, j) := (all.active[key], a.active[key]);
            Splits(all.(streams := all.streams[i := all.streams[i].(data := data)]),
                   a.(streams := a.streams[j := a.streams[j].(data := data)]), b, mine, left, right)
  {
    var (i, j) := (all.active[key], a.active[key]);
    var all' := all.(streams := all.streams[i := all.streams[i].(data := data)]);
    var a' := a.(streams := a.streams[j := a.streams[j].(data := data)]);
    assert left[j] == i;
    assert Share(all', a', mine, left);
    assert Share(all', b, Others(mine), right);
  }

  lemma FailMine(all: Audit, a: Audit, b: Audit, mine: Side, left: seq<nat>, right: seq<nat>, e: ReassemblyError)
    requires Splits(all, a, b, mine, left, right)
    ensures Splits(all.(errors := all.errors + [e]), a.(errors := a.errors + [e]), b, mine, left, right)
  {
    assert Share(all.(errors := all.errors + [e]), a.(errors := a.errors + [e]), mine, left);
    assert Share(all.(errors := all.errors + [e]), b, Others(mine), right);
  }

  lemma SideFound(all: Audit, a: Audit, b: Audit, mine: Side, left: seq<nat>, right: seq<nat>, key: FlowKey)
    requires Splits(all, a, b, mine, left, right) && mine(key)
    ensures key in all.active <==> key in a.active
    ensures key in a.active ==>
              && a.active[key] < |a.streams| && all.active[key] < |all.streams|
              && all.streams[all.active[key]] == a.streams[a.active[key]]
  {
  }

  lemma StepMine(all: Audit, a: Audit, b: Audit, mine: Side, left: seq<nat>, right: seq<nat>, s: Segment)
    requires Splits(all, a, b, mine, left, right) && mine(s.key)
    ensures Splits(AuditSegment(all, s), AuditSegment(a, s), b, mine,
                   if s.IsTls() && s.IsSyn() then left + [|all.streams|] else left, right)
  {
    hide Splits, Place, Position;
    SplitsValid(all, a, b, mine, left, right);
    if s.IsTls() {
      OpenMine(all, a, b, mine, left, right, s);
      var (o, oa) := (Open(all, s), Open(a, s));
      var more := if s.IsSyn() then left + [|all.streams|] else left;
      if s.payload != [] {
        SideFound(o, oa, b, mine, more, right, s.key);
        if s.key !in oa.active {
          FailMine(o, oa, b, mine, more, right, NoCapturedSyn);
        } else {
          var t := oa.streams[oa.active[s.key]];
          match Place(t.data, Position(s, t.initial), s.payload)
          case Refused(e) => FailMine(o, oa, b, mine, more, right, e);
          case Placed(data) => PlaceMine(o, oa, b, mine, more, right, s.key, data);
        }
      }
    }
  }

  lemma SplitsValid(all: Audit, a: Audit, b: Audit, mine: Side, left: seq<nat>, right: seq<nat>)
    requires Splits(all, a, b, mine, left, right)
    ensures all.Valid() && a.Valid() && b.Valid()
  {
  }

  lemma SwapSides(all: Audit, a: Audit, b: Audit, mine: Side, theirs: Side, left: seq<nat>, right: seq<nat>)
    requires Splits(all, a, b, mine, left, right) && forall k :: theirs(k) == !mine(k)
    ensures Splits(all, b, a, theirs, right, left)
  {
    assert Share(all, b, theirs, right);
    assert Share(all, a, Others(theirs), left);
  }

  /** Auditing an interleaving is auditing both sides: the same streams in the same order on each side, and
      together as many errors. */
  lemma {:induction false} Interleaved(segments: seq<Segment>, mine: Side) returns (left: seq<nat>, right: seq<nat>)
    ensures Splits(AuditAll(EMPTY_AUDIT, segments), AuditAll(EMPTY_AUDIT, Only(segments, mine)),
                   AuditAll(EMPTY_AUDIT, Only(segments, Others(mine))), mine, left, right)
    decreases |segments|
  {
    hide Splits, AuditSegment;
    if segments == [] {
      left, right := [], [];
      NothingSplits(mine);
    } else {
      var n := |segments| - 1;
      var (init, s) := (segments[..n], segments[n]);
      left, right := Interleaved(init, mine);
      var theirs := Others(mine);
      var (all, a, b) := (AuditAll(EMPTY_AUDIT, init), AuditAll(EMPTY_AUDIT, Only(init, mine)),
                          AuditAll(EMPTY_AUDIT, Only(init, theirs)));
      OnlyLast(segments, mine);
      OnlyLast(segments, theirs);
      if mine(s.key) {
        StepMine(all, a, b, mine, left, right, s);
        left := if s.IsTls() && s.IsSyn() then left + [|all.streams|] else left;
      } else {
        SwapSides(all, a, b, mine, theirs, left, right);
        StepMine(all, b, a, theirs, right, left, s);
        right := if s.IsTls() && s.IsSyn() then right + [|all.streams|] else right;
        SwapSides(AuditSegment(all, s), AuditSegment(b, s), a, theirs, mine, right, left);
      }
    }
  }

  lemma NothingSplits(mine: Side)
    ensures Splits(EMPTY_AUDIT, EMPTY_AUDIT, EMPTY_AUDIT, mine, [], [])
  {
    assert Share(EMPTY_AUDIT, EMPTY_AUDIT, mine, []);
    assert Share(EMPTY_AUDIT, EMPTY_AUDIT, Others(mine), []);
  }

  /** One more segment goes to its own side. */
  lemma OnlyLast(segments: seq<Segment>, mine: Side)
    requires segments != []
    ensures var n := |segments| - 1;
            var before := Only(segments[..n], mine);
            AuditAll(EMPTY_AUDIT, Only(segments, mine)) ==
            if mine(segments[n].key) then AuditSegment(AuditAll(EMPTY_AUDIT, before), segments[n])
            else AuditAll(EMPTY_AUDIT, before)
  {
    hide AuditSegment;
    var n := |segments| - 1;
    var before := Only(segments[..n], mine);
    assert before + [] == before;
    assert (before + [segments[n]])[..|before|] == before;
  }

  // The peer's run among other traffic

  function FromPeer(): (mine: Side) {
    (k: FlowKey) => k.sourceIp == P.HTTP_IP && k.source == TLS_PORT && k.destinationIp == P.GUEST_IP
  }

  /** In a capture where the peer's segments are those of a run, among any segments of other flows, the auditor
      reports no error exactly when no connection sent data after its FIN and the other flows are clean; and then,
      whatever surrounds them, the peer's streams appear in order, each with exactly the bytes its connection
      drained. */
  lemma RunAmongOthers(events: seq<R.Event>, segments: seq<Segment>) returns (at: seq<nat>)
    requires R.Wire(events) && R.Bounded(R.RefRun(events)) && Only(segments, FromPeer()) == R.Run(events).capture
    ensures var (a, rf) := (AuditAll(EMPTY_AUDIT, segments), R.RefRun(events));
            && (a.errors == [] <==>
                R.OnTime(rf) && AuditAll(EMPTY_AUDIT, Only(segments, Others(FromPeer()))).errors == [])
            && (R.OnTime(rf) ==>
                && |at| == |rf.connections| && (forall i, j :: 0 <= i < j < |at| ==> at[i] < at[j])
                && forall i :: 0 <= i < |at| ==> at[i] < |a.streams| && a.streams[at[i]].data == rf.connections[i].drained)
  {
    hide AuditAll, Only, R.Run, R.RefRun, R.OnTime;
    R.RunAudited(events);
    var left, right := Interleaved(segments, FromPeer());
    at := left;
  }
}
