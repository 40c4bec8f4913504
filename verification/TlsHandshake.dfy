// The auditor's reading of plaintext TLS 1.2 handshake messages (tls_handshakes in
// tools/network_packet_audit.py; section 7.4 of RFC 5246). SHA-256 is an arbitrary function `sha`.

module TlsHandshake {
  import opened Bytes

  const TLS12: seq<Byte> := [3, 3]
  const CLIENT_HELLO: Byte := 1
  const SERVER_HELLO: Byte := 2
  const CERTIFICATE: Byte := 11
  const SUITES: set<nat> := {0xCCA8, 0xC02F}
  const MAX_CHAIN_BYTES := 65536
  const U24_SPACE := 0x100_0000

  datatype TlsError =
    | TruncatedHandshakeHeader | TruncatedHandshakeMessage | ClientVersion | TruncatedServerHello
    | TruncatedServerSuite | UnsupportedServer | TruncatedChain | ContradictoryChain | TruncatedCertificateLength
    | InvalidCertificateLength | ChainBound | TruncatedRecordHeader | InvalidRecord | CipherSpecOrder
    | TranscriptTooLarge | UnauthenticatedData

  /** What handshake messages add to the summary. */
  datatype Tally = Tally(clientHellos: nat, serverHellos: nat, versions: seq<seq<Byte>>, suites: seq<nat>,
                         chainLengths: seq<nat>, digests: seq<seq<seq<Byte>>>, errors: seq<TlsError>)
  {
    function Plus(t: Tally): (r: Tally) {
      Tally(clientHellos + t.clientHellos, serverHellos + t.serverHellos, versions + t.versions, suites + t.suites,
            chainLengths + t.chainLengths, digests + t.digests, errors + t.errors)
    }
  }

  const NOTHING := Tally(0, 0, [], [], [], [], [])

  lemma PlusAssociates(a: Tally, b: Tally, c: Tally)
    ensures a.Plus(b).Plus(c) == a.Plus(b.Plus(c)) && a.Plus(NOTHING) == a && NOTHING.Plus(a) == a
  {
  }

  function Error(e: TlsError): (t: Tally) {
    NOTHING.(errors := [e])
  }

  function U24Be(s: seq<Byte>, at: nat): (v: nat)
    requires at + 3 <= |s|
    ensures v < U24_SPACE
  {
    0x1_0000 * (s[at] as int) + 0x100 * (s[at + 1] as int) + s[at + 2] as int
  }

  function Be24(v: nat): (s: seq<Byte>)
    requires v < U24_SPACE
    ensures |s| == 3 && U24Be(s, 0) == v
  {
    [v / 0x1_0000, v / 0x100 % 0x100, v % 0x100]
  }

  // Certificate chains

  /** The certificates read until the data ends or a length is wrong, and the error that stopped it. */
  function ReadChain(data: seq<Byte>): (r: (seq<seq<Byte>>, seq<TlsError>)) {
    if data == [] then ([], [])
    else if |data| < 3 then ([], [TruncatedCertificateLength])
    else
      var n := U24Be(data, 0);
      if n == 0 || n > |data| - 3 then ([], [InvalidCertificateLength])
      else
        var (certificates, errors) := ReadChain(data[3 + n..]);
        ([data[3..3 + n]] + certificates, errors)
  }

  ghost predicate CertificatesFit(certificates: seq<seq<Byte>>) {
    forall k :: 0 <= k < |certificates| ==> 0 < |certificates[k]| < U24_SPACE
  }

  function EncodeChain(certificates: seq<seq<Byte>>): (data: seq<Byte>)
    requires CertificatesFit(certificates)
  {
    if certificates == [] then []
    else Be24(|certificates[0]|) + certificates[0] + EncodeChain(certificates[1..])
  }

  lemma {:induction false} ChainRoundTrip(certificates: seq<seq<Byte>>)
    requires CertificatesFit(certificates)
    ensures ReadChain(EncodeChain(certificates)) == (certificates, [])
    decreases |certificates|
  {
    if certificates != [] {
      var first, rest := certificates[0], certificates[1..];
      ChainRoundTrip(rest);
      var data := EncodeChain(certificates);
      ReadsBack(first, EncodeChain(rest));
      assert certificates == [first] + rest;
    }
  }

  lemma ReadsBack(body: seq<Byte>, rest: seq<Byte>)
    requires |body| < U24_SPACE
    ensures var data := Be24(|body|) + body + rest;
            && |data| == 3 + |body| + |rest| && U24Be(data, 0) == |body|
            && data[3..3 + |body|] == body && data[3 + |body|..] == rest
  {
  }

  /** Clean chain data is exactly the encoding of its certificates. */
  lemma {:induction false} ChainExact(data: seq<Byte>)
    requires ReadChain(data).1 == []
    ensures CertificatesFit(ReadChain(data).0) && EncodeChain(ReadChain(data).0) == data
    decreases |data|
  {
    if data != [] {
      var n := U24Be(data, 0);
      ChainExact(data[3 + n..]);
      var rest := ReadChain(data[3 + n..]).0;
      var certificates := ReadChain(data).0;
      assert certificates[0] == data[3..3 + n] && certificates[1..] == rest;
      SplitsAs(data, n);
    }
  }

  lemma SplitsAs(data: seq<Byte>, n: nat)
    requires 3 + n <= |data| && U24Be(data, 0) == n
    ensures Be24(n) + data[3..3 + n] + data[3 + n..] == data
  {
    LengthBytes(data, n);
    hide Be24;
    assert data == data[..3] + data[3..3 + n] + data[3 + n..];
  }

  lemma LengthBytes(data: seq<Byte>, n: nat)
    requires |data| >= 3 && U24Be(data, 0) == n
    ensures Be24(n) == data[..3]
  {
    var (hi, mid, low) := (data[0] as int, data[1] as int, data[2] as int);
    assert n == 0x100 * (0x100 * hi + mid) + low;
    assert n / 0x100 == 0x100 * hi + mid && n % 0x100 == low;
    assert n / 0x1_0000 == n / 0x100 / 0x100;
  }

  // Messages

  function DigestAll(certificates: seq<seq<Byte>>, sha: seq<Byte> -> seq<Byte>): (d: seq<seq<Byte>>) {
    seq(|certificates|, k requires 0 <= k < |certificates| => sha(certificates[k]))
  }

  function ServerHelloTally(body: seq<Byte>): (t: Tally) {
    if |body| < 38 then Error(TruncatedServerHello)
    else
      var at := 35 + body[34] as int;
      if at + 3 > |body| then Error(TruncatedServerSuite)
      else
        var version, suite := body[..2], U16Be(body, at);
        Tally(0, 1, [version], [suite], [], [],
              if version != TLS12 || suite !in SUITES then [UnsupportedServer] else [])
  }

  function CertificateTally(body: seq<Byte>, sha: seq<Byte> -> seq<Byte>): (t: Tally) {
    if |body| < 3 then Error(TruncatedChain)
    else if U24Be(body, 0) != |body| - 3 then Error(ContradictoryChain)
    else
      var (certificates, errors) := ReadChain(body[3..]);
      var bound := if 1 <= |certificates| <= 4 && |body| - 3 <= MAX_CHAIN_BYTES then [] else [ChainBound];
      Tally(0, 0, [], [], [|certificates|], [DigestAll(certificates, sha)], errors + bound)
  }

  function MessageTally(kind: Byte, body: seq<Byte>, sha: seq<Byte> -> seq<Byte>): (t: Tally) {
    if kind == CLIENT_HELLO then
      Tally(1, 0, [], [], [], [], if |body| < 2 || body[..2] != TLS12 then [ClientVersion] else [])
    else if kind == SERVER_HELLO then ServerHelloTally(body)
    else if kind == CERTIFICATE then CertificateTally(body, sha)
    else NOTHING
  }

  function HandshakeTally(data: seq<Byte>, sha: seq<Byte> -> seq<Byte>): (t: Tally) {
    if data == [] then NOTHING
    else if |data| < 4 then Error(TruncatedHandshakeHeader)
    else
      var size := U24Be(data, 1);
      if size > |data| - 4 then Error(TruncatedHandshakeMessage)
      else MessageTally(data[0], data[4..4 + size], sha).Plus(HandshakeTally(data[4 + size..], sha))
  }

  // A transcript is a concatenation of messages

  datatype Message = Message(kind: Byte, body: seq<Byte>)

  ghost predicate MessagesFit(messages: seq<Message>) {
    forall k :: 0 <= k < |messages| ==> |messages[k].body| < U24_SPACE
  }

  function EncodeMessages(messages: seq<Message>): (data: seq<Byte>)
    requires MessagesFit(messages)
  {
    if messages == [] then []
    else [messages[0].kind] + (Be24(|messages[0].body|) + messages[0].body + EncodeMessages(messages[1..]))
  }

  function TallyAll(messages: seq<Message>, sha: seq<Byte> -> seq<Byte>): (t: Tally) {
    if messages == [] then NOTHING
    else MessageTally(messages[0].kind, messages[0].body, sha).Plus(TallyAll(messages[1..], sha))
  }

  /** Every transcript made of whole messages is read message by message, with nothing lost or added. */
  lemma {:induction false} TranscriptRoundTrip(messages: seq<Message>, sha: seq<Byte> -> seq<Byte>)
    requires MessagesFit(messages)
    ensures HandshakeTally(EncodeMessages(messages), sha) == TallyAll(messages, sha)
    decreases |messages|
  {
    hide MessageTally;
    if messages != [] {
      var m, rest := messages[0], messages[1..];
      TranscriptRoundTrip(rest, sha);
      MessageReadsBack(m, EncodeMessages(rest));
    }
  }

  lemma MessageReadsBack(m: Message, rest: seq<Byte>)
    requires |m.body| < U24_SPACE
    ensures var data := [m.kind] + (Be24(|m.body|) + m.body + rest);
            && |data| == 4 + |m.body| + |rest| && data[0] == m.kind && U24Be(data, 1) == |m.body|
            && data[4..4 + |m.body|] == m.body && data[4 + |m.body|..] == rest
  {
    ReadsBack(m.body, rest);
    var tail := Be24(|m.body|) + m.body + rest;
    var data := [m.kind] + tail;
    assert data[4..4 + |m.body|] == tail[3..3 + |m.body|] && data[4 + |m.body|..] == tail[3 + |m.body|..];
  }

  // What the reader accepts, declared

  ghost predicate CleanChain(body: seq<Byte>) {
    exists certificates ::
      && CertificatesFit(certificates) && 1 <= |certificates| <= 4
      && |EncodeChain(certificates)| <= 65536
      && body == Be24(|EncodeChain(certificates)|) + EncodeChain(certificates)
  }

  ghost predicate CleanMessage(m: Message) {
    && (m.kind == 1 ==> [3, 3] <= m.body)
    && (m.kind == 2 ==>
          && |m.body| >= 38 && 35 + m.body[34] as int + 3 <= |m.body| && [3, 3] <= m.body
          && U16Be(m.body, 35 + m.body[34] as int) in {0xCCA8, 0xC02F})
    && (m.kind == 11 ==> CleanChain(m.body))
  }

  ghost predicate CleanTranscript(data: seq<Byte>) {
    exists messages ::
      MessagesFit(messages) && data == EncodeMessages(messages) && forall k :: 0 <= k < |messages| ==> CleanMessage(messages[k])
  }

  lemma ChainCleanIff(body: seq<Byte>, sha: seq<Byte> -> seq<Byte>)
    ensures CertificateTally(body, sha).errors == [] <==> CleanChain(body)
  {
    hide ReadChain, EncodeChain;
    if CertificateTally(body, sha).errors == [] {
      var certificates := ReadChain(body[3..]).0;
      ChainExact(body[3..]);
      SplitsAs(body, |body| - 3);
      assert body[3..] + body[|body|..] == body[3..];
    }
    if CleanChain(body) {
      var certificates :| && CertificatesFit(certificates) && 1 <= |certificates| <= 4
        && |EncodeChain(certificates)| <= MAX_CHAIN_BYTES
        && body == Be24(|EncodeChain(certificates)|) + EncodeChain(certificates);
      ChainRoundTrip(certificates);
      ReadsBack(EncodeChain(certificates), []);
      assert body[3..] == EncodeChain(certificates);
    }
  }

  lemma MessageCleanIff(m: Message, sha: seq<Byte> -> seq<Byte>)
    ensures MessageTally(m.kind, m.body, sha).errors == [] <==> CleanMessage(m)
  {
    hide CleanChain, CertificateTally;
    if m.kind == CERTIFICATE {
      ChainCleanIff(m.body, sha);
    }
  }

  lemma {:induction false} CleanGivesMessages(data: seq<Byte>, sha: seq<Byte> -> seq<Byte>) returns (messages: seq<Message>)
    requires HandshakeTally(data, sha).errors == []
    ensures MessagesFit(messages) && data == EncodeMessages(messages)
    ensures forall k :: 0 <= k < |messages| ==> CleanMessage(messages[k])
    decreases |data|
  {
    hide HandshakeTally, EncodeMessages, U24Be, MessagesFit;
    if data == [] {
      messages := [];
      NoMessages();
    } else {
      FirstMessage(data, sha);
      var size := U24Be(data, 1);
      var m := Message(data[0], data[4..4 + size]);
      var rest := CleanGivesMessages(data[4 + size..], sha);
      messages := [m] + rest;
      EncodeFirst(m, rest);
      MessageSplits(data, size);
    }
  }

  lemma NoMessages()
    ensures MessagesFit([]) && EncodeMessages([]) == []
  {
  }

  lemma EncodeFirst(m: Message, rest: seq<Message>)
    requires MessagesFit(rest) && |m.body| < U24_SPACE
    ensures MessagesFit([m] + rest)
    ensures EncodeMessages([m] + rest) == [m.kind] + (Be24(|m.body|) + m.body + EncodeMessages(rest))
  {
    hide Be24;
    assert ([m] + rest)[1..] == rest;
  }

  lemma FirstMessage(data: seq<Byte>, sha: seq<Byte> -> seq<Byte>)
    requires data != [] && HandshakeTally(data, sha).errors == []
    ensures |data| >= 4 && 4 + U24Be(data, 1) <= |data|
    ensures var size := U24Be(data, 1);
            CleanMessage(Message(data[0], data[4..4 + size])) && HandshakeTally(data[4 + size..], sha).errors == []
  {
    hide MessageTally, CleanMessage, U24Be, HandshakeTally;
    FirstTally(data, sha);
    var size := U24Be(data, 1);
    MessageCleanIff(Message(data[0], data[4..4 + size]), sha);
  }

  lemma FirstTally(data: seq<Byte>, sha: seq<Byte> -> seq<Byte>)
    requires data != [] && HandshakeTally(data, sha).errors == []
    ensures |data| >= 4 && 4 + U24Be(data, 1) <= |data|
    ensures var size := U24Be(data, 1);
            MessageTally(data[0], data[4..4 + size], sha).errors == [] && HandshakeTally(data[4 + size..], sha).errors == []
  {
    hide MessageTally, U24Be;
  }

  lemma MessageSplits(data: seq<Byte>, size: nat)
    requires 4 + size <= |data| && U24Be(data, 1) == size
    ensures data == [data[0]] + (Be24(size) + data[4..4 + size] + data[4 + size..])
  {
    assert Be24(size) == data[1..4];
  }

  lemma {:induction false} MessagesGiveClean(messages: seq<Message>, sha: seq<Byte> -> seq<Byte>)
    requires forall k :: 0 <= k < |messages| ==> CleanMessage(messages[k])
    ensures TallyAll(messages, sha).errors == []
    decreases |messages|
  {
    hide MessageTally, CleanMessage;
    if messages != [] {
      MessageCleanIff(messages[0], sha);
      MessagesGiveClean(messages[1..], sha);
    }
  }

  /** The reader reports no error exactly on the transcripts made of clean messages. */
  lemma TranscriptCleanIff(data: seq<Byte>, sha: seq<Byte> -> seq<Byte>)
    ensures HandshakeTally(data, sha).errors == [] <==> CleanTranscript(data)
  {
    hide CleanMessage;
    if HandshakeTally(data, sha).errors == [] {
      var messages := CleanGivesMessages(data, sha);
    }
    if CleanTranscript(data) {
      var messages :| MessagesFit(messages) && data == EncodeMessages(messages)
        && forall k :: 0 <= k < |messages| ==> CleanMessage(messages[k]);
      TranscriptRoundTrip(messages, sha);
      MessagesGiveClean(messages, sha);
    }
  }

  // What gets recorded

  /** A ServerHello body: version, random, session identifier, suite, then compression and extensions. */
  function ServerHello(version: seq<Byte>, random: seq<Byte>, session: seq<Byte>, suite: nat, rest: seq<Byte>): (body: seq<Byte>)
    requires |version| == 2 && |random| == 32 && |session| < 256 && suite < 0x1_0000
  {
    version + random + [|session|] + session + Be16(suite) + rest
  }

  /** Its version and suite are the ones recorded, whatever the session identifier's length. */
  lemma ServerHelloRecorded(version: seq<Byte>, random: seq<Byte>, session: seq<Byte>, suite: nat, rest: seq<Byte>)
    requires |version| == 2 && |random| == 32 && |session| < 256 && suite < 0x1_0000 && rest != []
    ensures ServerHelloTally(ServerHello(version, random, session, suite, rest)) ==
            Tally(0, 1, [version], [suite], [], [], if version != TLS12 || suite !in SUITES then [UnsupportedServer] else [])
  {
    hide Be16, U16Be;
    var body := ServerHello(version, random, session, suite, rest);
    var at := 35 + |session|;
    assert body[34] == |session| && body[..2] == version && body[at..at + 2] == Be16(suite);
    Reads16Be(body, at, suite);
  }

  lemma Reads16Be(s: seq<Byte>, at: nat, v: nat)
    requires at + 2 <= |s| && v < 0x1_0000 && s[at..at + 2] == Be16(v)
    ensures U16Be(s, at) == v
  {
    assert s[at] == Be16(v)[0] && s[at + 1] == Be16(v)[1];
  }

  /** The digests recorded for a chain are those of its certificates, in order. */
  lemma ChainRecorded(certificates: seq<seq<Byte>>, sha: seq<Byte> -> seq<Byte>)
    requires CertificatesFit(certificates) && |EncodeChain(certificates)| < U24_SPACE
    ensures var t := CertificateTally(Be24(|EncodeChain(certificates)|) + EncodeChain(certificates), sha);
            && t.chainLengths == [|certificates|] && t.digests == [DigestAll(certificates, sha)]
            && (t.errors == [] <==> 1 <= |certificates| <= 4 && |EncodeChain(certificates)| <= MAX_CHAIN_BYTES)
  {
    hide ReadChain, EncodeChain, Be24;
    var chain := EncodeChain(certificates);
    ChainRoundTrip(certificates);
    ReadsBack(chain, []);
    assert Be24(|chain|) + chain + [] == Be24(|chain|) + chain;
    assert (Be24(|chain|) + chain)[3..] == chain;
  }

  // What a whole transcript's record holds, counted from its messages

  /** The messages of one kind whose bodies are readable, in order. */
  ghost function Pick(messages: seq<Message>, kind: Byte, readable: seq<Byte> -> bool): (r: seq<Message>)
    ensures forall i :: 0 <= i < |r| ==> r[i].kind == kind && readable(r[i].body)
  {
    if messages == [] then []
    else (if messages[0].kind == kind && readable(messages[0].body) then [messages[0]] else []) + Pick(messages[1..], kind, readable)
  }

  /** A ServerHello long enough to hold its session identifier, a suite and a compression byte. */
  ghost predicate HelloReadable(body: seq<Byte>) {
    |body| >= 38 && 38 + body[34] as int <= |body|
  }

  /** A Certificate message whose three length bytes count what follows them. */
  ghost predicate ChainReadable(body: seq<Byte>) {
    |body| >= 3 && 0x1_0000 * body[0] as int + 0x100 * body[1] as int + body[2] as int == |body| - 3
  }

  /** The number of suites and versions of a record is that of the hellos, and each is where RFC 5246 puts it. */
  ghost predicate HellosRecorded(hellos: seq<Message>, t: Tally) {
    && t.serverHellos == |hellos| == |t.versions| == |t.suites|
    && forall i :: 0 <= i < |hellos| ==>
         var body := hellos[i].body;
         && HelloReadable(body)
         && t.versions[i] == [body[0], body[1]]
         && t.suites[i] == 0x100 * body[35 + body[34] as int] as int + body[36 + body[34] as int] as int
  }

  ghost predicate ChainsRecorded(chains: seq<Message>, t: Tally, sha: seq<Byte> -> seq<Byte>) {
    && |t.chainLengths| == |t.digests| == |chains|
    && forall i :: 0 <= i < |chains| ==>
         && |chains[i].body| >= 3
         && var certificates := ReadChain(chains[i].body[3..]).0;
            && t.chainLengths[i] == |certificates| == |t.digests[i]|
            && forall j :: 0 <= j < |certificates| ==> t.digests[i][j] == sha(certificates[j])
  }

  ghost predicate Recorded(messages: seq<Message>, t: Tally, sha: seq<Byte> -> seq<Byte>) {
    && t.clientHellos == |Pick(messages, 1, _ => true)|
    && HellosRecorded(Pick(messages, 2, HelloReadable), t)
    && ChainsRecorded(Pick(messages, 11, ChainReadable), t, sha)
  }

  lemma OneRecorded(m: Message, sha: seq<Byte> -> seq<Byte>)
    ensures var t := MessageTally(m.kind, m.body, sha);
            && t.clientHellos == (if m.kind == 1 then 1 else 0)
            && HellosRecorded(if m.kind == 2 && HelloReadable(m.body) then [m] else [], t)
            && ChainsRecorded(if m.kind == 11 && ChainReadable(m.body) then [m] else [], t, sha)
  {
    hide ReadChain, ServerHelloTally, CertificateTally, HelloReadable, ChainReadable;
    if m.kind == 2 {
      HelloRecorded(m, sha);
    } else if m.kind == 11 {
      ChainTallied(m, sha);
    }
  }

  lemma HelloRecorded(m: Message, sha: seq<Byte> -> seq<Byte>)
    ensures var t := ServerHelloTally(m.body);
            && t.clientHellos == 0 && HellosRecorded(if HelloReadable(m.body) then [m] else [], t)
            && ChainsRecorded([], t, sha)
  {
  }

  lemma ChainTallied(m: Message, sha: seq<Byte> -> seq<Byte>)
    ensures var t := CertificateTally(m.body, sha);
            && t.clientHellos == 0 && HellosRecorded([], t)
            && ChainsRecorded(if ChainReadable(m.body) then [m] else [], t, sha)
  {
    hide ReadChain;
  }

  lemma HellosJoin(a: seq<Message>, b: seq<Message>, t: Tally, u: Tally)
    requires HellosRecorded(a, t) && HellosRecorded(b, u)
    ensures HellosRecorded(a + b, t.Plus(u))
  {
    hide HelloReadable;
  }

  lemma ChainsJoin(a: seq<Message>, b: seq<Message>, t: Tally, u: Tally, sha: seq<Byte> -> seq<Byte>)
    requires ChainsRecorded(a, t, sha) && ChainsRecorded(b, u, sha)
    ensures ChainsRecorded(a + b, t.Plus(u), sha)
  {
    hide ReadChain;
  }

  lemma {:induction false} AllRecorded(messages: seq<Message>, sha: seq<Byte> -> seq<Byte>)
    ensures Recorded(messages, TallyAll(messages, sha), sha)
    decreases |messages|
  {
    hide MessageTally, HellosRecorded, ChainsRecorded, HelloReadable, ChainReadable;
    if messages == [] {
      NoneRecorded(sha);
    } else {
      var m, rest := messages[0], messages[1..];
      var (t, u) := (MessageTally(m.kind, m.body, sha), TallyAll(rest, sha));
      OneRecorded(m, sha);
      AllRecorded(rest, sha);
      HellosJoin(if m.kind == 2 && HelloReadable(m.body) then [m] else [], Pick(rest, 2, HelloReadable), t, u);
      ChainsJoin(if m.kind == 11 && ChainReadable(m.body) then [m] else [], Pick(rest, 11, ChainReadable), t, u, sha);
    }
  }

  lemma NoneRecorded(sha: seq<Byte> -> seq<Byte>)
    ensures HellosRecorded([], NOTHING) && ChainsRecorded([], NOTHING, sha)
  {
  }

  /** What is recorded for a transcript of whole messages: one ClientHello for each message of kind 1, one version
      and suite for each readable message of kind 2, one list of digests for each readable message of kind 11. */
  lemma TranscriptRecorded(messages: seq<Message>, sha: seq<Byte> -> seq<Byte>)
    requires MessagesFit(messages)
    ensures Recorded(messages, HandshakeTally(EncodeMessages(messages), sha), sha)
  {
    TranscriptRoundTrip(messages, sha);
    AllRecorded(messages, sha);
  }

  // The loops

  method ComputeChain(body: seq<Byte>) returns (certificates: seq<seq<Byte>>, errors: seq<TlsError>)
    requires |body| >= 3
    ensures (certificates, errors) == ReadChain(body[3..])
  {
    hide ReadChain;
    certificates, errors := [], [];
    var cursor := 3;
    ghost var all := ReadChain(body[3..]);
    assert certificates + all.0 == all.0;
    while cursor < |body|
      invariant 3 <= cursor <= |body| && errors == []
      invariant var rest := ReadChain(body[cursor..]); all == (certificates + rest.0, rest.1)
    {
      CertificateAt(body, cursor);
      assert certificates + [] == certificates;
      if |body| - cursor < 3 {
        errors := [TruncatedCertificateLength];
        return;
      }
      var n := U24Be(body, cursor);
      cursor := cursor + 3;
      if n == 0 || n > |body| - cursor {
        errors := [InvalidCertificateLength];
        return;
      }
      var one := body[cursor..cursor + n];
      ghost var later := ReadChain(body[cursor + n..]).0;
      assert certificates + ([one] + later) == certificates + [one] + later;
      certificates := certificates + [one];
      cursor := cursor + n;
    }
    NoCertificates(body);
    assert certificates + [] == certificates;
  }

  lemma NoCertificates(body: seq<Byte>)
    ensures ReadChain(body[|body|..]) == ([], [])
  {
  }

  /** One certificate of a longer chain. */
  lemma CertificateAt(body: seq<Byte>, at: nat)
    requires at < |body|
    ensures ReadChain(body[at..]) ==
            if |body| - at < 3 then ([], [TruncatedCertificateLength])
            else if U24Be(body, at) == 0 || U24Be(body, at) > |body| - at - 3 then ([], [InvalidCertificateLength])
            else
              var end := at + 3 + U24Be(body, at);
              var (rest, errors) := ReadChain(body[end..]);
              ([body[at + 3..end]] + rest, errors)
  {
    var tail := body[at..];
    if |tail| >= 3 {
      assert U24Be(tail, 0) == U24Be(body, at);
      var n := U24Be(body, at);
      if n <= |tail| - 3 {
        assert tail[3..3 + n] == body[at + 3..at + 3 + n] && tail[3 + n..] == body[at + 3 + n..];
      }
    }
  }

  method ComputeMessage(kind: Byte, body: seq<Byte>, sha: seq<Byte> -> seq<Byte>) returns (t: Tally)
    ensures t == MessageTally(kind, body, sha)
  {
    if kind == CERTIFICATE && |body| >= 3 && U24Be(body, 0) == |body| - 3 {
      var certificates, errors := ComputeChain(body);
      var bound := if 1 <= |certificates| <= 4 && |body| - 3 <= MAX_CHAIN_BYTES then [] else [ChainBound];
      t := Tally(0, 0, [], [], [|certificates|], [DigestAll(certificates, sha)], errors + bound);
    } else {
      t := MessageTally(kind, body, sha);
    }
  }

  /** The message at the front of what is left. */
  lemma MessageAt(data: seq<Byte>, at: nat, sha: seq<Byte> -> seq<Byte>)
    requires at < |data|
    ensures HandshakeTally(data[at..], sha) ==
            if |data| - at < 4 then Error(TruncatedHandshakeHeader)
            else if U24Be(data, at + 1) > |data| - at - 4 then Error(TruncatedHandshakeMessage)
            else
              var end := at + 4 + U24Be(data, at + 1);
              MessageTally(data[at], data[at + 4..end], sha).Plus(HandshakeTally(data[end..], sha))
  {
    hide MessageTally, Tally.Plus;
    var rest := data[at..];
    if |rest| >= 4 {
      assert U24Be(rest, 1) == U24Be(data, at + 1);
      var size := U24Be(rest, 1);
      if size <= |rest| - 4 {
        assert rest[4..4 + size] == data[at + 4..at + 4 + size] && rest[4 + size..] == data[at + 4 + size..];
      }
    }
  }

  method ComputeHandshakes(data: seq<Byte>, sha: seq<Byte> -> seq<Byte>) returns (t: Tally)
    ensures t == HandshakeTally(data, sha)
  {
    hide MessageTally, Tally.Plus, HandshakeTally, U24Be;
    t := NOTHING;
    var at := 0;
    ghost var all := HandshakeTally(data, sha);
    assert data[0..] == data;
    PlusAssociates(all, all, all);
    while at < |data|
      invariant at <= |data|
      invariant t.Plus(HandshakeTally(data[at..], sha)) == all
    {
      MessageAt(data, at, sha);
      if |data| - at < 4 {
        return t.Plus(Error(TruncatedHandshakeHeader));
      }
      var kind, size := data[at], U24Be(data, at + 1);
      at := at + 4;
      if size > |data| - at {
        return t.Plus(Error(TruncatedHandshakeMessage));
      }
      var body := data[at..at + size];
      at := at + size;
      var one := ComputeMessage(kind, body, sha);
      PlusAssociates(t, one, HandshakeTally(data[at..], sha));
      t := t.Plus(one);
    }
    NothingLeft(data, sha);
    PlusAssociates(t, t, t);
  }

  lemma NothingLeft(data: seq<Byte>, sha: seq<Byte> -> seq<Byte>)
    ensures HandshakeTally(data[|data|..], sha) == NOTHING
  {
  }
}
