// How the cutting of handshake bytes into records shows in the auditor's summary (audit_tls_streams in
// tools/network_packet_audit.py). The reader stops after the whole record that passes the transcript limit, so the
// cutting matters exactly through where that record ends.

module TlsFragments {
  import opened Bytes
  import opened TlsHandshake
  import opened TlsRecords

  /** How much of the transcript is kept when `n` bytes already are: up to the end of the first plaintext handshake
      record that passes the limit, or all of it. */
  function KeptEnd(records: seq<Record>, n: nat): (m: nat)
    ensures n <= m <= n + |Transcript(records)|
    decreases |records|
  {
    if records == [] || records[0].kind == CHANGE_CIPHER_SPEC then n
    else if records[0].kind != HANDSHAKE then KeptEnd(records[1..], n)
    else
      var end := n + |records[0].payload|;
      if end > MAX_TRANSCRIPT then end else KeptEnd(records[1..], end)
  }

  /** What one record does to the transcript and the two flags. */
  lemma TakeShape(c: Scan, r: Record, guest: bool)
    requires !c.stopped
    ensures var d := Take(c, r, guest);
            if r.kind == HANDSHAKE && !c.encrypted then
              && d.transcript == c.transcript + r.payload && !d.encrypted
              && (d.stopped <==> |d.transcript| > MAX_TRANSCRIPT)
            else
              d.transcript == c.transcript && !d.stopped && d.encrypted == (c.encrypted || r.kind == CHANGE_CIPHER_SPEC)
  {
    hide Count;
  }

  lemma {:induction false} EncryptedKeeps(c: Scan, records: seq<Record>, guest: bool)
    requires c.encrypted && !c.stopped
    ensures TakeAll(c, records, guest).transcript == c.transcript
    decreases |records|
  {
    hide Take;
    if records != [] {
      TakeShape(c, records[0], guest);
      EncryptedKeeps(Take(c, records[0], guest), records[1..], guest);
    }
  }

  /** What the scan holds after any records is the transcript up to that end. */
  lemma {:induction false} ScanKeeps(c: Scan, records: seq<Record>, guest: bool)
    requires !c.stopped && !c.encrypted && |c.transcript| <= MAX_TRANSCRIPT
    ensures TakeAll(c, records, guest).transcript ==
            (c.transcript + Transcript(records))[..KeptEnd(records, |c.transcript|)]
    decreases |records|
  {
    hide Take;
    if records != [] {
      var (r, rest) := (records[0], records[1..]);
      var d := Take(c, r, guest);
      TakeShape(c, r, guest);
      if r.kind == CHANGE_CIPHER_SPEC {
        EncryptedKeeps(d, rest, guest);
      } else {
        assert r.kind == HANDSHAKE ==> c.transcript + Transcript(records) == d.transcript + Transcript(rest);
        assert r.kind != HANDSHAKE ==> Transcript(records) == Transcript(rest);
        if !d.stopped {
          ScanKeeps(d, rest, guest);
        }
      }
    }
  }

  /** Where that end is: the whole transcript if it fits, and otherwise the end of the one record that starts
      within the limit and passes it. */
  lemma {:induction false} KeptEndIs(records: seq<Record>, n: nat) returns (k: nat)
    requires n <= MAX_TRANSCRIPT
    ensures n + |Transcript(records)| <= MAX_TRANSCRIPT ==> KeptEnd(records, n) == n + |Transcript(records)|
    ensures n + |Transcript(records)| > MAX_TRANSCRIPT ==>
              && k < FirstChange(records) && records[k].kind == HANDSHAKE
              && n + |Transcript(records[..k])| <= MAX_TRANSCRIPT < KeptEnd(records, n)
              && KeptEnd(records, n) == n + |Transcript(records[..k + 1])|
              && KeptEnd(records, n) == n + |Transcript(records[..k])| + |records[k].payload|
    decreases |records|
  {
    hide Transcript, KeptEnd, FirstChange;
    k := 0;
    FirstRecord(records, n);
    if records != [] && records[0].kind != CHANGE_CIPHER_SPEC {
      var (r, rest) := (records[0], records[1..]);
      var size := if r.kind == HANDSHAKE then |r.payload| else 0;
      FirstPrefix(records, 0);
      if n + size <= MAX_TRANSCRIPT {
        var j := KeptEndIs(rest, n + size);
        k := j + 1;
        if n + |Transcript(records)| > MAX_TRANSCRIPT {
          FirstPrefix(records, j);
          FirstPrefix(records, j + 1);
        }
      }
    }
  }

  /** What the first record contributes to the transcript and the end of the kept part. */
  lemma FirstRecord(records: seq<Record>, n: nat)
    requires n <= MAX_TRANSCRIPT
    ensures records == [] || records[0].kind == CHANGE_CIPHER_SPEC ==>
              Transcript(records) == [] && KeptEnd(records, n) == n
    ensures records != [] && records[0].kind != CHANGE_CIPHER_SPEC ==>
              var size := if records[0].kind == HANDSHAKE then |records[0].payload| else 0;
              && |Transcript(records)| == size + |Transcript(records[1..])|
              && FirstChange(records) == 1 + FirstChange(records[1..])
              && KeptEnd(records, n) == if n + size > MAX_TRANSCRIPT then n + size else KeptEnd(records[1..], n + size)
  {
  }

  lemma FirstPrefix(records: seq<Record>, j: nat)
    requires records != [] && records[0].kind != CHANGE_CIPHER_SPEC && j <= |records| - 1
    ensures var size := if records[0].kind == HANDSHAKE then |records[0].payload| else 0;
            |Transcript(records[..j + 1])| == size + |Transcript(records[1..][..j])|
    ensures Transcript(records[..0]) == [] && Transcript(records[1..][..0]) == []
  {
    assert records[..j + 1][1..] == records[1..][..j];
  }

  /** The handshake tally a stream of records adds. */
  function Added(records: seq<Record>, sha: seq<Byte> -> seq<Byte>): (t: Tally) {
    HandshakeTally(Transcript(records)[..KeptEnd(records, 0)], sha)
  }

  /** Whatever came before and whoever sent it, auditing a stream of valid records adds exactly that tally to what the
      record layer reports. */
  lemma StreamAdds(s: Summary, records: seq<Record>, guest: bool, sha: seq<Byte> -> seq<Byte>)
    requires AllValid(records) && records != []
    ensures AuditStream(s, Stream(Encode(records), guest), sha).tally ==
            RecordSummary(s, records, guest).tally.Plus(Added(records, sha))
  {
    hide HandshakeTally, Transcript, TakeAll, ScanData, KeptEnd;
    ConsumesExactly(Start(s), records, guest);
    ScanKeeps(Start(s), records, guest);
    assert [] + Transcript(records) == Transcript(records);
    assert |Encode(records)| >= |EncodeRecord(records[0])|;
  }

  // Cuttings

  /** Bytes as handshake records, as full as they may be. */
  function Cut(t: seq<Byte>): (records: seq<Record>) {
    if t == [] then []
    else if |t| <= MAX_RECORD then [Record(HANDSHAKE, t)]
    else [Record(HANDSHAKE, t[..MAX_RECORD])] + Cut(t[MAX_RECORD..])
  }

  ghost predicate AllHandshake(records: seq<Record>) {
    forall k :: 0 <= k < |records| ==> records[k].kind == HANDSHAKE
  }

  lemma {:induction false} CutIs(t: seq<Byte>)
    ensures AllValid(Cut(t)) && AllHandshake(Cut(t)) && Transcript(Cut(t)) == t
    decreases |t|
  {
    if t == [] {
    } else if |t| <= MAX_RECORD {
      assert [Record(HANDSHAKE, t)][1..] == [];
    } else {
      CutIs(t[MAX_RECORD..]);
      var rest := Cut(t[MAX_RECORD..]);
      assert Cut(t)[1..] == rest;
      assert t[..MAX_RECORD] + t[MAX_RECORD..] == t;
    }
  }

  lemma {:induction false} JoinTranscripts(a: seq<Record>, b: seq<Record>)
    requires AllHandshake(a)
    ensures Transcript(a + b) == Transcript(a) + Transcript(b)
    decreases |a|
  {
    if a == [] {
      assert a + b == b;
    } else {
      JoinTranscripts(a[1..], b);
      var all := a + b;
      assert all[1..] == a[1..] + b && all[0] == a[0];
    }
  }

  lemma {:induction false} JoinKept(a: seq<Record>, b: seq<Record>, n: nat)
    requires AllHandshake(a) && n + |Transcript(a)| <= MAX_TRANSCRIPT
    ensures KeptEnd(a + b, n) == KeptEnd(b, n + |Transcript(a)|)
    decreases |a|
  {
    hide KeptEnd, Transcript;
    if a == [] {
      assert a + b == b;
      NoTranscript();
    } else {
      FirstPayload(a);
      JoinKept(a[1..], b, n + |a[0].payload|);
      var all := a + b;
      assert all[1..] == a[1..] + b && all[0] == a[0];
      FirstKept(all, n);
    }
  }

  lemma NoTranscript()
    ensures Transcript([]) == []
  {
  }

  lemma FirstKept(records: seq<Record>, n: nat)
    requires records != [] && records[0].kind == HANDSHAKE && n + |records[0].payload| <= MAX_TRANSCRIPT
    ensures KeptEnd(records, n) == KeptEnd(records[1..], n + |records[0].payload|)
  {
  }

  lemma FirstPayload(a: seq<Record>)
    requires a != [] && a[0].kind == HANDSHAKE
    ensures |Transcript(a)| == |a[0].payload| + |Transcript(a[1..])|
  {
  }

  /** The cutting whose limit-passing record ends at `m`. */
  function CutAt(t: seq<Byte>, m: nat): (records: seq<Record>)
    requires MAX_TRANSCRIPT < m <= |t|
  {
    Cut(t[..MAX_TRANSCRIPT]) + ([Record(HANDSHAKE, t[MAX_TRANSCRIPT..m])] + Cut(t[m..]))
  }

  /** Every end from one byte past the limit to one record past it is reached by some cutting. */
  lemma EndReached(t: seq<Byte>, m: nat)
    requires MAX_TRANSCRIPT < m <= |t| && m <= MAX_TRANSCRIPT + MAX_RECORD
    ensures AllValid(CutAt(t, m)) && Transcript(CutAt(t, m)) == t && KeptEnd(CutAt(t, m), 0) == m
  {
    hide Cut;
    var (head, tail) := (Cut(t[..MAX_TRANSCRIPT]), Cut(t[m..]));
    var r := Record(HANDSHAKE, t[MAX_TRANSCRIPT..m]);
    CutIs(t[..MAX_TRANSCRIPT]);
    CutIs(t[m..]);
    JoinTranscripts(head, [r] + tail);
    JoinKept(head, [r] + tail, 0);
    assert ([r] + tail)[1..] == tail;
    assert t == t[..MAX_TRANSCRIPT] + (t[MAX_TRANSCRIPT..m] + t[m..]);
  }

  // When the cutting does not matter

  /** All cuttings of `t` into valid records, with any other records around, add the same tally. */
  ghost predicate CuttingsAgree(t: seq<Byte>, sha: seq<Byte> -> seq<Byte>) {
    forall a, b :: IsCutting(a, t) && IsCutting(b, t) ==> Added(a, sha) == Added(b, sha)
  }

  ghost predicate IsCutting(records: seq<Record>, t: seq<Byte>) {
    AllValid(records) && Transcript(records) == t
  }

  ghost predicate EndsAgree(t: seq<Byte>, sha: seq<Byte> -> seq<Byte>) {
    forall m, n :: MAX_TRANSCRIPT < m <= |t| && m <= MAX_TRANSCRIPT + MAX_RECORD
                   && MAX_TRANSCRIPT < n <= |t| && n <= MAX_TRANSCRIPT + MAX_RECORD ==>
                     HandshakeTally(t[..m], sha) == HandshakeTally(t[..n], sha)
  }

  lemma CuttingEnd(records: seq<Record>, t: seq<Byte>)
    requires IsCutting(records, t)
    ensures |t| <= MAX_TRANSCRIPT ==> KeptEnd(records, 0) == |t|
    ensures |t| > MAX_TRANSCRIPT ==> MAX_TRANSCRIPT < KeptEnd(records, 0) <= |t| && KeptEnd(records, 0) <= MAX_TRANSCRIPT + MAX_RECORD
  {
    hide KeptEnd, Transcript;
    var k := KeptEndIs(records, 0);
    if |t| > MAX_TRANSCRIPT {
      assert records[k].Valid();
    }
  }

  /** Fragmentation does not matter exactly when the transcript fits the limit, or reading it up to any end within a
      record past the limit gives the same tally. */
  lemma FragmentationIff(t: seq<Byte>, sha: seq<Byte> -> seq<Byte>)
    ensures CuttingsAgree(t, sha) <==> |t| <= MAX_TRANSCRIPT || EndsAgree(t, sha)
  {
    hide HandshakeTally, KeptEnd, Transcript, CutAt;
    if |t| <= MAX_TRANSCRIPT || EndsAgree(t, sha) {
      forall a, b | IsCutting(a, t) && IsCutting(b, t)
        ensures Added(a, sha) == Added(b, sha)
      {
        CuttingEnd(a, t);
        CuttingEnd(b, t);
      }
    }
    if |t| > MAX_TRANSCRIPT && CuttingsAgree(t, sha) {
      forall m, n | MAX_TRANSCRIPT < m <= |t| && m <= MAX_TRANSCRIPT + MAX_RECORD
                    && MAX_TRANSCRIPT < n <= |t| && n <= MAX_TRANSCRIPT + MAX_RECORD
        ensures HandshakeTally(t[..m], sha) == HandshakeTally(t[..n], sha)
      {
        EndReached(t, m);
        EndReached(t, n);
        assert IsCutting(CutAt(t, m), t) && IsCutting(CutAt(t, n), t);
      }
    }
  }

  /** One byte past the limit the cutting still does not matter: every cutting keeps the whole transcript. */
  lemma OneBytePastAgrees(t: seq<Byte>, sha: seq<Byte> -> seq<Byte>)
    requires |t| == MAX_TRANSCRIPT + 1
    ensures CuttingsAgree(t, sha)
  {
    hide CuttingsAgree;
    FragmentationIff(t, sha);
  }

  // A transcript whose cutting does matter

  /** Empty messages of kind 0 are read silently until a partial one is left. */
  lemma {:induction false} ZeroTally(n: nat, sha: seq<Byte> -> seq<Byte>)
    ensures HandshakeTally(Zeros(n), sha) == if n % 4 == 0 then NOTHING else Error(TruncatedHandshakeHeader)
    decreases n
  {
    hide MessageTally, Zeros, Tally.Plus, HandshakeTally;
    FirstZeros(n, sha);
    if n >= 4 {
      SilentMessage(sha);
      PlusAssociates(HandshakeTally(Zeros(n - 4), sha), NOTHING, NOTHING);
      ZeroTally(n - 4, sha);
    }
  }

  lemma FirstZeros(n: nat, sha: seq<Byte> -> seq<Byte>)
    ensures HandshakeTally(Zeros(n), sha) ==
            if n == 0 then NOTHING
            else if n < 4 then Error(TruncatedHandshakeHeader)
            else MessageTally(0, [], sha).Plus(HandshakeTally(Zeros(n - 4), sha))
  {
    hide MessageTally, Tally.Plus;
    var data := Zeros(n);
    if n >= 4 {
      assert U24Be(data, 1) == 0;
      assert data[4..] == Zeros(n - 4) && data[4..4] == [];
    }
  }

  lemma SilentMessage(sha: seq<Byte> -> seq<Byte>)
    ensures MessageTally(0, [], sha) == NOTHING
  {
  }

  /** The same 131076 zero bytes, cut to end the limit-passing record at 131073 or at 131076, leave different
      handshake errors. */
  lemma FragmentationMatters(sha: seq<Byte> -> seq<Byte>)
    ensures var t := Zeros(131076);
            && IsCutting(CutAt(t, 131073), t) && IsCutting(CutAt(t, 131076), t)
            && Added(CutAt(t, 131073), sha).errors == [TruncatedHandshakeHeader]
            && Added(CutAt(t, 131076), sha).errors == []
  {
    hide HandshakeTally, KeptEnd, Transcript, CutAt, Zeros;
    var t := Zeros(131076);
    EndReached(t, 131073);
    EndReached(t, 131076);
    assert t[..131073] == Zeros(131073) && t[..131076] == Zeros(131076);
    ZeroTally(131073, sha);
    ZeroTally(131076, sha);
  }
}
