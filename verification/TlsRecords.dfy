// The auditor's TLS 1.2 record parser (audit_tls_streams in tools/network_packet_audit.py; section 6.2.1
// of RFC 5246).

module TlsRecords {
  import opened Bytes
  import opened TlsHandshake

  const CHANGE_CIPHER_SPEC: Byte := 20
  const ALERT: Byte := 21
  const HANDSHAKE: Byte := 22
  const APPLICATION: Byte := 23
  const MAX_RECORD := 18432
  const MAX_TRANSCRIPT := 131072

  datatype Record = Record(kind: Byte, payload: seq<Byte>) {
    predicate Valid() {
      20 <= kind <= 23 && 0 < |payload| <= 18432
    }
  }

  function EncodeRecord(r: Record): (data: seq<Byte>)
    requires r.Valid()
    ensures |data| == 5 + |r.payload|
  {
    [r.kind, 3, 3] + Be16(|r.payload|) + r.payload
  }

  ghost predicate AllValid(records: seq<Record>) {
    forall k :: 0 <= k < |records| ==> records[k].Valid()
  }

  function Encode(records: seq<Record>): (data: seq<Byte>)
    requires AllValid(records)
  {
    if records == [] then [] else EncodeRecord(records[0]) + Encode(records[1..])
  }

  datatype Read = Short | Bad | One(record: Record)

  /** The record at the front of the remaining bytes. */
  function ReadRecord(data: seq<Byte>): (r: Read)
    ensures r.One? ==> r.record.Valid() && 5 + |r.record.payload| <= |data|
  {
    if |data| < 5 then Short
    else
      var n := U16Be(data, 3);
      if || data[0] < CHANGE_CIPHER_SPEC || data[0] > APPLICATION || data[1..3] != TLS12
         || n == 0 || n > MAX_RECORD || n > |data| - 5
      then Bad
      else One(Record(data[0], data[5..5 + n]))
  }

  lemma RecordReadsBack(r: Record, rest: seq<Byte>)
    requires r.Valid()
    ensures ReadRecord(EncodeRecord(r) + rest) == One(r)
    ensures (EncodeRecord(r) + rest)[5 + |r.payload|..] == rest
  {
    hide Be16, U16Be;
    var data := EncodeRecord(r) + rest;
    assert data[0] == r.kind && data[1..3] == TLS12 && data[3..5] == Be16(|r.payload|);
    assert data[5..5 + |r.payload|] == r.payload;
    LengthReads(data, |r.payload|);
  }

  lemma LengthReads(data: seq<Byte>, n: nat)
    requires |data| >= 5 && n < 0x1_0000 && data[3..5] == Be16(n)
    ensures U16Be(data, 3) == n
  {
    assert data[3] == Be16(n)[0] && data[4] == Be16(n)[1];
  }

  lemma LengthBytes(data: seq<Byte>)
    requires |data| >= 5
    ensures data[3..5] == Be16(U16Be(data, 3))
  {
  }

  lemma ReadIsFront(data: seq<Byte>)
    requires ReadRecord(data).One?
    ensures var r := ReadRecord(data).record; data == EncodeRecord(r) + data[5 + |r.payload|..]
  {
    hide Be16, U16Be;
    var r := ReadRecord(data).record;
    var n := |r.payload|;
    LengthBytes(data);
    assert [data[0], 3, 3] == [data[0]] + data[1..3];
    assert data == [data[0]] + data[1..3] + data[3..5] + data[5..5 + n] + data[5 + n..];
  }

  // One stream

  datatype Summary = Summary(tally: Tally, cipherSpecs: nat, alerts: nat, handshakes: nat, application: nat,
                             guest: nat, peer: nat, maxRecord: nat, flows: nat, records: nat)
  {
    function Fail(e: TlsError): (s: Summary) {
      this.(tally := tally.Plus(Error(e)))
    }
  }

  const EMPTY_SUMMARY := Summary(NOTHING, 0, 0, 0, 0, 0, 0, 0, 0, 0)

  /** The loop's variables: the summary so far, the plaintext handshake bytes, whether the cipher has
      changed, and whether the loop was left. */
  datatype Scan = Scan(summary: Summary, transcript: seq<Byte>, encrypted: bool, stopped: bool)

  function Count(s: Summary, r: Record): (t: Summary) {
    var t := s.(records := s.records + 1, maxRecord := if |r.payload| > s.maxRecord then |r.payload| else s.maxRecord);
    if r.kind == CHANGE_CIPHER_SPEC then t.(cipherSpecs := t.cipherSpecs + 1)
    else if r.kind == ALERT then t.(alerts := t.alerts + 1)
    else if r.kind == HANDSHAKE then t.(handshakes := t.handshakes + 1)
    else t.(application := t.application + 1)
  }

  function Take(c: Scan, r: Record, guest: bool): (d: Scan) {
    var s := Count(c.summary, r);
    if r.kind == CHANGE_CIPHER_SPEC then
      c.(summary := if c.encrypted || r.payload != [1] then s.Fail(CipherSpecOrder) else s, encrypted := true)
    else if r.kind == HANDSHAKE && !c.encrypted then
      var transcript := c.transcript + r.payload;
      if |transcript| > MAX_TRANSCRIPT then Scan(s.Fail(TranscriptTooLarge), transcript, false, true)
      else c.(summary := s, transcript := transcript)
    else if r.kind == APPLICATION then
      var t := if !c.encrypted || |r.payload| < 16 then s.Fail(UnauthenticatedData) else s;
      c.(summary := if guest then t.(guest := t.guest + 1) else t.(peer := t.peer + 1))
    else c.(summary := s)
  }

  function ScanData(c: Scan, data: seq<Byte>, guest: bool): (d: Scan)
    decreases |data|
  {
    if data == [] || c.stopped then c
    else
      match ReadRecord(data)
      case Short => c.(summary := c.summary.Fail(TruncatedRecordHeader), stopped := true)
      case Bad => c.(summary := c.summary.Fail(InvalidRecord), stopped := true)
      case One(r) => ScanData(Take(c, r, guest), data[5 + |r.payload|..], guest)
  }

  datatype Stream = Stream(data: seq<Byte>, guest: bool)

  function Start(s: Summary): (c: Scan) {
    Scan(s.(flows := s.flows + 1), [], false, false)
  }

  function AuditStream(s: Summary, stream: Stream, sha: seq<Byte> -> seq<Byte>): (t: Summary) {
    if stream.data == [] then s
    else
      var c := ScanData(Start(s), stream.data, stream.guest);
      c.summary.(tally := c.summary.tally.Plus(HandshakeTally(c.transcript, sha)))
  }

  function AuditStreams(streams: seq<Stream>, sha: seq<Byte> -> seq<Byte>): (s: Summary) {
    if streams == [] then EMPTY_SUMMARY
    else AuditStream(AuditStreams(streams[..|streams| - 1], sha), streams[|streams| - 1], sha)
  }

  // The loops

  method ComputeStream(s: Summary, stream: Stream, sha: seq<Byte> -> seq<Byte>) returns (t: Summary)
    ensures t == AuditStream(s, stream, sha)
  {
    hide Take, ReadRecord, HandshakeTally;
    var data := stream.data;
    if data == [] {
      return s;
    }
    var c := Start(s);
    var at := 0;
    ghost var all := ScanData(c, data, stream.guest);
    assert data[0..] == data;
    while at < |data| && !c.stopped
      invariant at <= |data|
      invariant ScanData(c, data[at..], stream.guest) == all
      decreases |data| - at, !c.stopped
    {
      ghost var rest := data[at..];
      match ReadRecord(data[at..]) {
        case Short => c := c.(summary := c.summary.Fail(TruncatedRecordHeader), stopped := true);
        case Bad => c := c.(summary := c.summary.Fail(InvalidRecord), stopped := true);
        case One(r) =>
          assert rest[5 + |r.payload|..] == data[at + 5 + |r.payload|..];
          c := Take(c, r, stream.guest);
          at := at + 5 + |r.payload|;
      }
    }
    assert c == all;
    var tally := ComputeHandshakes(c.transcript, sha);
    t := c.summary.(tally := c.summary.tally.Plus(tally));
  }

  method ComputeStreams(streams: seq<Stream>, sha: seq<Byte> -> seq<Byte>) returns (s: Summary)
    ensures s == AuditStreams(streams, sha)
  {
    hide AuditStream;
    s := EMPTY_SUMMARY;
    for i := 0 to |streams|
      invariant s == AuditStreams(streams[..i], sha)
    {
      assert streams[..i + 1][..i] == streams[..i];
      s := ComputeStream(s, streams[i], sha);
    }
    assert streams[..|streams|] == streams;
  }

  // Records, not bytes

  function TakeAll(c: Scan, records: seq<Record>, guest: bool): (d: Scan)
    decreases |records|
  {
    if records == [] || c.stopped then c else TakeAll(Take(c, records[0], guest), records[1..], guest)
  }

  /** A concatenation of valid records is consumed exactly: record by record, with no framing error. */
  lemma {:induction false} ConsumesExactly(c: Scan, records: seq<Record>, guest: bool)
    requires AllValid(records)
    ensures ScanData(c, Encode(records), guest) == TakeAll(c, records, guest)
    decreases |records|
  {
    hide Take, ReadRecord, EncodeRecord;
    if records != [] && !c.stopped {
      var r, rest := records[0], records[1..];
      RecordReadsBack(r, Encode(rest));
      ConsumesExactly(Take(c, r, guest), rest, guest);
    }
  }

  /** The encoding determines the records. */
  lemma {:induction false} EncodeInjective(a: seq<Record>, b: seq<Record>)
    requires AllValid(a) && AllValid(b) && Encode(a) == Encode(b)
    ensures a == b
    decreases |a|
  {
    hide ReadRecord, EncodeRecord;
    if a != [] && b != [] {
      RecordReadsBack(a[0], Encode(a[1..]));
      RecordReadsBack(b[0], Encode(b[1..]));
      EncodeInjective(a[1..], b[1..]);
      assert a == [a[0]] + a[1..] && b == [b[0]] + b[1..];
    }
  }

  /** Plaintext handshake bytes: those of handshake records before the first ChangeCipherSpec. */
  function Transcript(records: seq<Record>): (t: seq<Byte>) {
    if records == [] || records[0].kind == 20 then []
    else (if records[0].kind == 22 then records[0].payload else []) + Transcript(records[1..])
  }

  /** The scanned transcript is the plaintext handshake bytes, however they are cut into records, as long as
      they stay within the limit. */
  lemma {:induction false} TranscriptKept(c: Scan, records: seq<Record>, guest: bool)
    requires !c.stopped && (c.encrypted || |c.transcript| + |Transcript(records)| <= MAX_TRANSCRIPT)
    ensures var d := TakeAll(c, records, guest);
            !d.stopped && d.transcript == if c.encrypted then c.transcript else c.transcript + Transcript(records)
    decreases |records|
  {
    hide Count;
    if records != [] {
      TranscriptKept(Take(c, records[0], guest), records[1..], guest);
    }
  }

  /** What the record layer alone reports. */
  function RecordSummary(s: Summary, records: seq<Record>, guest: bool): (t: Summary) {
    TakeAll(Start(s), records, guest).summary
  }

  /** Only errors reach the tally from the record layer. */
  lemma {:induction false} RecordLayerTally(c: Scan, records: seq<Record>, guest: bool)
    ensures var (t, u) := (c.summary.tally, TakeAll(c, records, guest).summary.tally);
            t.errors <= u.errors && u == t.(errors := u.errors)
    decreases |records|
  {
    if records != [] && !c.stopped {
      TakeTally(c, records[0], guest);
      RecordLayerTally(Take(c, records[0], guest), records[1..], guest);
    }
  }

  lemma TakeTally(c: Scan, r: Record, guest: bool)
    ensures var (t, u) := (c.summary.tally, Take(c, r, guest).summary.tally);
            t.errors <= u.errors && u == t.(errors := u.errors)
  {
  }

  function CountKind(records: seq<Record>, kind: Byte): (n: nat) {
    if records == [] then 0 else (if records[0].kind == kind then 1 else 0) + CountKind(records[1..], kind)
  }

  function Largest(records: seq<Record>): (n: nat) {
    if records == [] then 0
    else
      var rest := Largest(records[1..]);
      if |records[0].payload| > rest then |records[0].payload| else rest
  }

  /** `t` is `s` after these records: each counted once, by kind and by sender. */
  ghost predicate Counted(s: Summary, records: seq<Record>, guest: bool, t: Summary) {
    && t.records == s.records + |records| && t.flows == s.flows
    && t.cipherSpecs == s.cipherSpecs + CountKind(records, 20)
    && t.alerts == s.alerts + CountKind(records, 21)
    && t.handshakes == s.handshakes + CountKind(records, 22)
    && t.application == s.application + CountKind(records, 23)
    && t.guest == s.guest + (if guest then CountKind(records, 23) else 0)
    && t.peer == s.peer + (if guest then 0 else CountKind(records, 23))
    && t.maxRecord == if s.maxRecord > Largest(records) then s.maxRecord else Largest(records)
  }

  lemma TakeCounted(c: Scan, r: Record, guest: bool)
    requires r.Valid()
    ensures Counted(c.summary, [r], guest, Take(c, r, guest).summary)
    ensures !c.stopped && (c.encrypted || r.kind != HANDSHAKE || |c.transcript| + |r.payload| <= MAX_TRANSCRIPT) ==>
              !Take(c, r, guest).stopped
  {
    assert [r][1..] == [];
  }

  lemma CountedJoin(s: Summary, r: Record, t: Summary, rest: seq<Record>, u: Summary, guest: bool)
    requires Counted(s, [r], guest, t) && Counted(t, rest, guest, u)
    ensures Counted(s, [r] + rest, guest, u)
  {
    hide CountKind, Largest;
    CountCons(r, rest, CHANGE_CIPHER_SPEC);
    CountCons(r, rest, ALERT);
    CountCons(r, rest, HANDSHAKE);
    CountCons(r, rest, APPLICATION);
    LargestCons(r, rest);
  }

  lemma CountCons(r: Record, rest: seq<Record>, kind: Byte)
    ensures CountKind([r] + rest, kind) == CountKind([r], kind) + CountKind(rest, kind)
  {
    assert ([r] + rest)[1..] == rest && [r][1..] == [];
  }

  lemma LargestCons(r: Record, rest: seq<Record>)
    ensures Largest([r] + rest) == if Largest([r]) > Largest(rest) then Largest([r]) else Largest(rest)
  {
    assert ([r] + rest)[1..] == rest && [r][1..] == [];
  }

  lemma NothingCounted(s: Summary, guest: bool)
    ensures Counted(s, [], guest, s)
  {
  }

  /** Unless the transcript overflows, every record of a stream is counted. */
  lemma {:induction false} CountsExact(c: Scan, records: seq<Record>, guest: bool)
    requires AllValid(records) && !c.stopped
    requires c.encrypted || |c.transcript| + |Transcript(records)| <= MAX_TRANSCRIPT
    ensures Counted(c.summary, records, guest, TakeAll(c, records, guest).summary)
    decreases |records|
  {
    hide Counted;
    if records == [] {
      NothingCounted(c.summary, guest);
    } else {
      var (r, rest) := (records[0], records[1..]);
      var d := Take(c, r, guest);
      TakeCounted(c, r, guest);
      CountsExact(d, rest, guest);
      CountedJoin(c.summary, r, d.summary, rest, TakeAll(d, rest, guest).summary, guest);
      assert records == [r] + rest;
    }
  }

  // What the auditor accepts, declared

  /** The index of the first ChangeCipherSpec, or the number of records. */
  function FirstChange(records: seq<Record>): (k: nat)
    ensures k <= |records|
  {
    if records == [] || records[0].kind == 20 then 0 else 1 + FirstChange(records[1..])
  }

  /** One ChangeCipherSpec at most, holding a single 1; application data only after it and never shorter than
      an authentication tag. */
  ghost predicate Ordered(records: seq<Record>) {
    forall k :: 0 <= k < |records| ==>
      && (records[k].kind == 20 ==> k == FirstChange(records) && records[k].payload == [1])
      && (records[k].kind == 23 ==> k > FirstChange(records) && |records[k].payload| >= 16)
  }

  ghost predicate OrderedFrom(records: seq<Record>, encrypted: bool) {
    if encrypted then
      forall k :: 0 <= k < |records| ==>
        records[k].kind != CHANGE_CIPHER_SPEC && (records[k].kind == APPLICATION ==> |records[k].payload| >= 16)
    else Ordered(records)
  }

  lemma OrderedStep(records: seq<Record>, encrypted: bool)
    requires records != []
    ensures var r := records[0];
            OrderedFrom(records, encrypted) <==>
            && (r.kind == CHANGE_CIPHER_SPEC ==> !encrypted && r.payload == [1])
            && (r.kind == APPLICATION ==> encrypted && |r.payload| >= 16)
            && OrderedFrom(records[1..], encrypted || r.kind == CHANGE_CIPHER_SPEC)
  {
    var r, rest := records[0], records[1..];
    assert forall k :: 0 < k < |records| ==> records[k] == rest[k - 1];
    assert forall k :: 0 <= k < |rest| ==> rest[k] == records[k + 1];
  }

  /** The record layer adds no error exactly to ordered records whose transcript fits. */
  lemma {:induction false} TakeCleanIff(c: Scan, records: seq<Record>, guest: bool)
    requires AllValid(records) && !c.stopped && |c.transcript| <= MAX_TRANSCRIPT
    ensures TakeAll(c, records, guest).summary.tally.errors == c.summary.tally.errors <==>
            && OrderedFrom(records, c.encrypted)
            && (c.encrypted || |c.transcript| + |Transcript(records)| <= MAX_TRANSCRIPT)
    decreases |records|
  {
    hide OrderedFrom;
    if records == [] {
      NothingOrdered(c.encrypted);
    } else {
      var r, rest := records[0], records[1..];
      var d := Take(c, r, guest);
      OrderedStep(records, c.encrypted);
      RecordLayerTally(d, rest, guest);
      TakeTally(c, r, guest);
      if !d.stopped {
        TakeCleanIff(d, rest, guest);
      }
    }
  }

  lemma NothingOrdered(encrypted: bool)
    ensures OrderedFrom([], encrypted)
  {
  }

  /** A stream the auditor has nothing to say against. */
  ghost predicate CleanRecords(data: seq<Byte>, records: seq<Record>) {
    && AllValid(records) && Encode(records) == data && Ordered(records)
    && |Transcript(records)| <= 131072 && CleanTranscript(Transcript(records))
  }

  ghost predicate CleanStream(data: seq<Byte>) {
    data == [] || exists records :: CleanRecords(data, records)
  }

  lemma {:induction false} ScanGrows(c: Scan, data: seq<Byte>, guest: bool)
    ensures c.summary.tally.errors <= ScanData(c, data, guest).summary.tally.errors
    decreases |data|
  {
    hide Take, ReadRecord;
    if data != [] && !c.stopped && ReadRecord(data).One? {
      var r := ReadRecord(data).record;
      TakeTally(c, r, guest);
      ScanGrows(Take(c, r, guest), data[5 + |r.payload|..], guest);
    }
  }

  /** A stopped scan has reported why. */
  lemma StopReports(c: Scan, r: Record, guest: bool)
    requires !c.stopped
    ensures Take(c, r, guest).stopped ==> c.summary.tally.errors < Take(c, r, guest).summary.tally.errors
  {
  }

  lemma {:induction false} CleanScanIsRecords(c: Scan, data: seq<Byte>, guest: bool) returns (records: seq<Record>)
    requires !c.stopped && ScanData(c, data, guest).summary.tally.errors == c.summary.tally.errors
    ensures AllValid(records) && Encode(records) == data
    decreases |data|
  {
    hide Take, ReadRecord, EncodeRecord;
    if data == [] {
      records := [];
    } else {
      var r := ReadRecord(data).record;
      var d, rest := Take(c, r, guest), data[5 + |r.payload|..];
      TakeTally(c, r, guest);
      StopReports(c, r, guest);
      ScanGrows(d, rest, guest);
      var later := CleanScanIsRecords(d, rest, guest);
      records := [r] + later;
      assert records[1..] == later;
      ReadIsFront(data);
    }
  }

  lemma AuditErrors(s: Summary, stream: Stream, sha: seq<Byte> -> seq<Byte>)
    requires stream.data != []
    ensures var c := ScanData(Start(s), stream.data, stream.guest);
            AuditStream(s, stream, sha).tally.errors == c.summary.tally.errors + HandshakeTally(c.transcript, sha).errors
  {
    hide ScanData, HandshakeTally;
  }

  /** The auditor adds no error for a stream exactly when the stream is clean. */
  lemma StreamCleanIff(s: Summary, stream: Stream, sha: seq<Byte> -> seq<Byte>)
    ensures s.tally.errors <= AuditStream(s, stream, sha).tally.errors
    ensures AuditStream(s, stream, sha).tally.errors == s.tally.errors <==> CleanStream(stream.data)
  {
    hide ScanData, HandshakeTally, Ordered, CleanTranscript, TakeAll, Encode, Transcript, AuditStream, AllValid;
    var data, guest := stream.data, stream.guest;
    if data == [] {
      EmptyStream(s, stream, sha);
    } else {
      var c := ScanData(Start(s), data, guest);
      AuditErrors(s, stream, sha);
      ScanGrows(Start(s), data, guest);
      if AuditStream(s, stream, sha).tally.errors == s.tally.errors {
        var records := CleanScanIsRecords(Start(s), data, guest);
        CleanFromRecords(s, records, guest, sha);
      }
      if records :| CleanRecords(data, records) {
        CleanFromRecords(s, records, guest, sha);
      }
    }
  }

  lemma EmptyStream(s: Summary, stream: Stream, sha: seq<Byte> -> seq<Byte>)
    requires stream.data == []
    ensures AuditStream(s, stream, sha) == s && CleanStream(stream.data)
  {
  }

  lemma CleanFromRecords(s: Summary, records: seq<Record>, guest: bool, sha: seq<Byte> -> seq<Byte>)
    requires AllValid(records)
    ensures var c := ScanData(Start(s), Encode(records), guest);
            (c.summary.tally.errors == s.tally.errors && HandshakeTally(c.transcript, sha).errors == []) <==>
            CleanRecords(Encode(records), records)
  {
    hide ScanData, HandshakeTally, CleanTranscript, TakeAll, Encode, Transcript, Ordered;
    var c := Start(s);
    ConsumesExactly(c, records, guest);
    TakeCleanIff(c, records, guest);
    UnfoldOrdered(records);
    if |Transcript(records)| <= MAX_TRANSCRIPT {
      TranscriptKept(c, records, guest);
      assert [] + Transcript(records) == Transcript(records);
      TranscriptCleanIff(Transcript(records), sha);
    }
  }

  lemma UnfoldOrdered(records: seq<Record>)
    ensures OrderedFrom(records, false) <==> Ordered(records)
  {
  }

  /** Over any list of streams: no errors at all exactly when every stream is clean. */
  lemma {:induction false} StreamsCleanIff(streams: seq<Stream>, sha: seq<Byte> -> seq<Byte>)
    ensures AuditStreams(streams, sha).tally.errors == [] <==>
            forall k :: 0 <= k < |streams| ==> CleanStream(streams[k].data)
    decreases |streams|
  {
    hide AuditStream, CleanStream;
    if streams != [] {
      var k := |streams| - 1;
      var init := streams[..k];
      StreamsCleanIff(init, sha);
      StreamCleanIff(AuditStreams(init, sha), streams[k], sha);
      assert forall j :: 0 <= j < k ==> init[j] == streams[j];
    }
  }
}
