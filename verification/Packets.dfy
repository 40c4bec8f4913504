// IPv4, UDP and TCP packets as the network fixture builds them (tools/network_fixture.py) and as the
// auditor takes a frame apart (tools/network_packet_audit.py).

module Packets {
  import opened Bytes
  import opened InternetChecksum
  import opened TcpReassembly

  const GUEST_MAC: seq<Byte> := [0x52, 0x54, 0x00, 0x12, 0x34, 0x56]
  const PEER_MAC: seq<Byte> := [0x52, 0x54, 0x00, 0x65, 0x43, 0x21]
  const ICMP: Byte := 1
  const TCP: Byte := 6
  const UDP: Byte := 17

  // Builders

  function Ethernet(destination: seq<Byte>, source: seq<Byte>, kind: nat, payload: seq<Byte>): (frame: seq<Byte>)
    requires |destination| == |source| == 6 && kind < 0x1_0000
  {
    destination + source + Be16(kind) + payload
  }

  /** The header with its checksum word still zero. */
  function BareIpHeader(source: seq<Byte>, destination: seq<Byte>, protocol: Byte, total: nat, identity: nat, ttl: Byte)
    : (header: seq<Byte>)
    requires |source| == |destination| == 4 && total < 0x1_0000
    ensures |header| == 20 && U16Be(header, 10) == 0 && header[0] == 0x45 && U16Be(header, 2) == total
    ensures U16Be(header, 6) == 0x4000 && header[9] == protocol
    ensures header[12..16] == source && header[16..20] == destination
  {
    var head: seq<Byte> := [0x45, 0, total / 0x100, total % 0x100, identity / 0x100 % 0x100, identity % 0x100,
                            0x40, 0, ttl, protocol, 0, 0];
    head + source + destination
  }

  /** `value ^ 0x0100`. */
  function FlipBit8(value: nat): (r: nat)
    requires value <= ONES
    ensures r <= ONES
  {
    if value / 0x100 % 2 == 1 then value - 0x100 else value + 0x100
  }

  function Ipv4(source: seq<Byte>, destination: seq<Byte>, protocol: Byte, payload: seq<Byte>, identity: nat, ttl: Byte,
                badChecksum: bool): (packet: seq<Byte>)
    requires |source| == |destination| == 4 && 20 + |payload| < 0x1_0000
  {
    var header := BareIpHeader(source, destination, protocol, 20 + |payload|, identity, ttl);
    var value := InternetSum(header);
    Patch(header, 10, Be16(if badChecksum then FlipBit8(value) else value)) + payload
  }

  function Pseudo(source: seq<Byte>, destination: seq<Byte>, protocol: Byte, length: nat): (p: seq<Byte>)
    requires |source| == |destination| == 4 && length < 0x1_0000
    ensures |p| == 12
  {
    source + destination + [0, protocol] + Be16(length)
  }

  function UdpHeader(source: nat, destination: nat, length: nat): (header: seq<Byte>)
    requires source < 0x1_0000 && destination < 0x1_0000 && length < 0x1_0000
    ensures |header| == 8 && U16Be(header, 0) == source && U16Be(header, 2) == destination
    ensures U16Be(header, 4) == length && U16Be(header, 6) == 0
  {
    [source / 0x100, source % 0x100, destination / 0x100, destination % 0x100, length / 0x100, length % 0x100, 0, 0]
  }

  function Udp(sourceIp: seq<Byte>, destinationIp: seq<Byte>, source: nat, destination: nat, payload: seq<Byte>,
               zeroChecksum: bool): (datagram: seq<Byte>)
    requires |sourceIp| == |destinationIp| == 4
    requires source < 0x1_0000 && destination < 0x1_0000 && 8 + |payload| < 0x1_0000
  {
    var length := 8 + |payload|;
    var header := UdpHeader(source, destination, length);
    var value := if zeroChecksum then 0 else InternetSum(Pseudo(sourceIp, destinationIp, UDP, length) + (header + payload));
    Patch(header, 6, Be16(if value == 0 && !zeroChecksum then ONES else value)) + payload
  }

  function PadOptions(options: seq<Byte>): (r: seq<Byte>)
    ensures |r| % 4 == 0 && options <= r && |r| < |options| + 4
    ensures forall i :: |options| <= i < |r| ==> r[i] == 1
  {
    options + seq((4 - |options| % 4) % 4, _ => 1)
  }

  function TcpHeader(s: Segment, words: nat): (header: seq<Byte>)
    requires s.key.source < 0x1_0000 && s.key.destination < 0x1_0000 && s.sequence < SEQUENCE_SPACE
    requires s.acknowledgement < SEQUENCE_SPACE && words < 16
    ensures |header| == 20 && U16Be(header, 0) == s.key.source && U16Be(header, 2) == s.key.destination
    ensures U32Be(header, 4) == s.sequence && U32Be(header, 8) == s.acknowledgement
    ensures header[12] as int / 16 == words && header[13] == s.flags && U16Be(header, 14) == 8192 && U16Be(header, 16) == 0
  {
    var ports: seq<Byte> := [s.key.source / 0x100, s.key.source % 0x100, s.key.destination / 0x100, s.key.destination % 0x100];
    var tail: seq<Byte> := [words * 16, s.flags, 0x20, 0, 0, 0, 0, 0];
    ports + Be32(s.sequence) + Be32(s.acknowledgement) + tail
  }

  /** A segment the builder can encode. */
  predicate Encodable(s: Segment, options: seq<Byte>) {
    && |s.key.sourceIp| == |s.key.destinationIp| == 4
    && s.key.source < 0x1_0000 && s.key.destination < 0x1_0000
    && s.sequence < SEQUENCE_SPACE && s.acknowledgement < SEQUENCE_SPACE
    && |options| <= 40 && 20 + 20 + |PadOptions(options)| + |s.payload| < 0x1_0000
  }

  function Tcp(s: Segment, options: seq<Byte>): (segment: seq<Byte>)
    requires Encodable(s, options)
    ensures |segment| == 20 + |PadOptions(options)| + |s.payload|
  {
    var padded := PadOptions(options);
    var rest := padded + s.payload;
    var header := TcpHeader(s, (20 + |padded|) / 4);
    var pseudo := Pseudo(s.key.sourceIp, s.key.destinationIp, TCP, 20 + |rest|);
    Patch(header, 16, Be16(InternetSum(pseudo + (header + rest)))) + rest
  }

  // The auditor's view of one frame

  datatype Seen =
    | Malformed(counted: bool) // counted: it had already been counted as an IPv4 packet
    | Ignored
    | Arp
    | Icmp
    | UdpDatagram(source: nat, destination: nat)
    | TcpSegment(segment: Segment)
    | OtherIp

  predicate IpHeaderBad(packet: seq<Byte>)
    requires |packet| >= 20
  {
    var length := packet[0] as int % 16 * 4;
    var total := U16Be(packet, 2);
    || packet[0] as int / 16 != 4 || length < 20 || length > |packet| || total < length || total > |packet|
    || InternetSum(packet[..length]) != 0 || U16Be(packet, 6) % 0x4000 != 0
  }

  function SeeUdp(sourceIp: seq<Byte>, destinationIp: seq<Byte>, payload: seq<Byte>): (r: Seen)
    requires |sourceIp| == |destinationIp| == 4 && |payload| >= 8
  {
    var length := U16Be(payload, 4);
    if || length != |payload| || length < 8
       || (U16Be(payload, 6) != 0 && InternetSum(Pseudo(sourceIp, destinationIp, UDP, length) + payload) != 0)
    then Malformed(true)
    else UdpDatagram(U16Be(payload, 0), U16Be(payload, 2))
  }

  function SeeTcp(sourceIp: seq<Byte>, destinationIp: seq<Byte>, payload: seq<Byte>): (r: Seen)
    requires |sourceIp| == |destinationIp| == 4 && 20 <= |payload| < 0x1_0000
  {
    var offset := payload[12] as int / 16 * 4;
    if || offset < 20 || offset > |payload|
       || InternetSum(Pseudo(sourceIp, destinationIp, TCP, |payload|) + payload) != 0
    then Malformed(true)
    else
      var key := FlowKey(sourceIp, U16Be(payload, 0), destinationIp, U16Be(payload, 2));
      TcpSegment(Segment(key, U32Be(payload, 4), U32Be(payload, 8), payload[13], payload[offset..]))
  }

  function SeeIp(packet: seq<Byte>): (r: Seen)
    requires |packet| >= 20
  {
    if IpHeaderBad(packet) then Malformed(false)
    else
      var payload := packet[packet[0] as int % 16 * 4..U16Be(packet, 2)];
      var protocol := packet[9];
      if protocol == ICMP then Icmp
      else if protocol == UDP && |payload| >= 8 then SeeUdp(packet[12..16], packet[16..20], payload)
      else if protocol == TCP && |payload| >= 20 then SeeTcp(packet[12..16], packet[16..20], payload)
      else if protocol == TCP || protocol == UDP then Malformed(true)
      else OtherIp
  }

  function See(frame: seq<Byte>): (r: Seen) {
    if |frame| < 14 then Malformed(false)
    else
      var kind := U16Be(frame, 12);
      if kind == 0x0806 then (if |frame| < 42 then Malformed(false) else Arp)
      else if kind != 0x0800 || |frame| < 34 then Ignored
      else SeeIp(frame[14..])
  }

  // What is built is what is seen

  /** A built IPv4 header always verifies, and its `bad_checksum` variant never does. */
  lemma BuiltHeaderChecks(source: seq<Byte>, destination: seq<Byte>, protocol: Byte, payload: seq<Byte>, identity: nat,
                          ttl: Byte, bad: bool)
    requires |source| == |destination| == 4 && 20 + |payload| < 0x1_0000
    ensures var packet := Ipv4(source, destination, protocol, payload, identity, ttl, bad);
            |packet| == 20 + |payload| && (InternetSum(packet[..20]) == 0 <==> !bad)
  {
    hide InternetSum, BareIpHeader, Be16;
    var header := BareIpHeader(source, destination, protocol, 20 + |payload|, identity, ttl);
    var value := InternetSum(header);
    var v := if bad then FlipBit8(value) else value;
    var filled := Patch(header, 10, Be16(v));
    assert (filled + payload)[..20] == filled;
    if bad {
      WrongNeverVerifies(header, 10, v);
    } else {
      FilledVerifies(header, 10);
    }
  }

  lemma IpFields(source: seq<Byte>, destination: seq<Byte>, protocol: Byte, payload: seq<Byte>, identity: nat, ttl: Byte,
                 bad: bool)
    requires |source| == |destination| == 4 && 20 + |payload| < 0x1_0000
    ensures var packet := Ipv4(source, destination, protocol, payload, identity, ttl, bad);
            && |packet| == 20 + |payload| && packet[0] == 0x45 && packet[9] == protocol
            && U16Be(packet, 2) == 20 + |payload| && U16Be(packet, 6) == 0x4000
            && packet[12..16] == source && packet[16..20] == destination && packet[20..] == payload
  {
    hide InternetSum, BareIpHeader, Be16, Patch;
    var header := BareIpHeader(source, destination, protocol, 20 + |payload|, identity, ttl);
    var value := InternetSum(header);
    var b := Be16(if bad then FlipBit8(value) else value);
    var filled := Patch(header, 10, b);
    PatchAway(header, 10, b, 12, 16);
    PatchAway(header, 10, b, 16, 20);
    var packet := filled + payload;
    assert packet[12..16] == filled[12..16] && packet[16..20] == filled[16..20] && packet[20..] == payload;
  }

  /** The auditor sees in a built IPv4 packet what its transport payload is, and refuses a bad checksum. */
  lemma BuiltIpSeen(source: seq<Byte>, destination: seq<Byte>, protocol: Byte, payload: seq<Byte>, identity: nat,
                    ttl: Byte, bad: bool)
    requires |source| == |destination| == 4 && 20 + |payload| < 0x1_0000
    ensures SeeIp(Ipv4(source, destination, protocol, payload, identity, ttl, bad)) ==
            if bad then Malformed(false)
            else if protocol == ICMP then Icmp
            else if protocol == UDP && |payload| >= 8 then SeeUdp(source, destination, payload)
            else if protocol == TCP && |payload| >= 20 then SeeTcp(source, destination, payload)
            else if protocol == TCP || protocol == UDP then Malformed(true)
            else OtherIp
  {
    hide InternetSum, Ipv4, SeeUdp, SeeTcp, U16Be;
    BuiltHeaderChecks(source, destination, protocol, payload, identity, ttl, bad);
    IpFields(source, destination, protocol, payload, identity, ttl, bad);
    var packet := Ipv4(source, destination, protocol, payload, identity, ttl, bad);
    assert packet[20..20 + |payload|] == payload;
  }

  lemma FrameSeen(destination: seq<Byte>, source: seq<Byte>, packet: seq<Byte>)
    requires |destination| == |source| == 6 && |packet| >= 20
    ensures See(Ethernet(destination, source, 0x0800, packet)) == SeeIp(packet)
  {
    hide SeeIp;
    var frame := Ethernet(destination, source, 0x0800, packet);
    assert frame[14..] == packet;
  }

  /** Filling a checksum inside a header, seen from pseudo header plus packet. */
  lemma PseudoPatch(pseudo: seq<Byte>, header: seq<Byte>, rest: seq<Byte>, at: nat, word: seq<Byte>)
    requires |pseudo| == 12 && |word| == 2 && at + 2 <= |header|
    ensures Patch(pseudo + (header + rest), 12 + at, word) == pseudo + (Patch(header, at, word) + rest)
  {
    var whole := pseudo + (header + rest);
    assert whole[..12 + at] == pseudo + header[..at];
    assert whole[12 + at + 2..] == header[at + 2..] + rest;
    assert pseudo + header[..at] + word + (header[at + 2..] + rest) == pseudo + ((header[..at] + word + header[at + 2..]) + rest);
  }

  lemma PseudoZero(pseudo: seq<Byte>, header: seq<Byte>, rest: seq<Byte>, at: nat)
    requires |pseudo| == 12 && at + 2 <= |header|
    ensures U16Be(pseudo + (header + rest), 12 + at) == U16Be(header, at)
  {
  }

  /** Every built datagram is seen as the datagram it is, whatever the payload's parity and also when the
      computed checksum is zero. */
  lemma BuiltUdpSeen(sourceIp: seq<Byte>, destinationIp: seq<Byte>, source: nat, destination: nat, payload: seq<Byte>,
                     zeroChecksum: bool)
    requires |sourceIp| == |destinationIp| == 4
    requires source < 0x1_0000 && destination < 0x1_0000 && 8 + |payload| < 0x1_0000
    ensures var datagram := Udp(sourceIp, destinationIp, source, destination, payload, zeroChecksum);
            && |datagram| == 8 + |payload| && datagram[8..] == payload
            && (zeroChecksum <==> U16Be(datagram, 6) == 0)
            && SeeUdp(sourceIp, destinationIp, datagram) == UdpDatagram(source, destination)
  {
    hide InternetSum, UdpHeader, Pseudo, Patch, U16Be;
    var length := 8 + |payload|;
    var header := UdpHeader(source, destination, length);
    var pseudo := Pseudo(sourceIp, destinationIp, UDP, length);
    var sum := InternetSum(pseudo + (header + payload));
    var v := if zeroChecksum then 0 else if sum == 0 then ONES else sum;
    PseudoZero(pseudo, header, payload, 6);
    PseudoPatch(pseudo, header, payload, 6, Be16(v));
    HeaderWords(header, 6, v, payload);
    if !zeroChecksum {
      if sum == 0 {
        OnesVerify(pseudo + (header + payload), 18);
      } else {
        FilledVerifies(pseudo + (header + payload), 18);
      }
    }
  }

  /** Words of a header before and at a patched word, read from the finished packet. */
  lemma HeaderWords(header: seq<Byte>, at: nat, v: nat, rest: seq<Byte>)
    requires at + 2 <= |header| && v <= ONES
    ensures var packet := Patch(header, at, Be16(v)) + rest;
            && |packet| == |header| + |rest| && packet[|header|..] == rest && U16Be(packet, at) == v
            && (forall k {:trigger packet[k]} :: 0 <= k < at ==> packet[k] == header[k])
            && (forall k {:trigger U16Be(packet, k)} :: 0 <= k && k + 2 <= at ==> U16Be(packet, k) == U16Be(header, k))
            && (forall k {:trigger U32Be(packet, k)} :: 0 <= k && k + 4 <= at ==> U32Be(packet, k) == U32Be(header, k))
  {
    var filled := Patch(header, at, Be16(v));
    assert forall k :: 0 <= k < |header| ==> (filled + rest)[k] == filled[k];
    assert filled[at] == Be16(v)[0] && filled[at + 1] == Be16(v)[1];
  }

  /** Every built segment, with any options, is seen as exactly that segment. */
  lemma BuiltTcpSeen(s: Segment, options: seq<Byte>)
    requires Encodable(s, options)
    ensures SeeTcp(s.key.sourceIp, s.key.destinationIp, Tcp(s, options)) == TcpSegment(s)
  {
    hide InternetSum, TcpHeader, Pseudo, Patch, U16Be, U32Be;
    var padded := PadOptions(options);
    var rest := padded + s.payload;
    var header := TcpHeader(s, (20 + |padded|) / 4);
    var pseudo := Pseudo(s.key.sourceIp, s.key.destinationIp, TCP, 20 + |rest|);
    var v := InternetSum(pseudo + (header + rest));
    PseudoZero(pseudo, header, rest, 16);
    PseudoPatch(pseudo, header, rest, 16, Be16(v));
    HeaderWords(header, 16, v, rest);
    FilledVerifies(pseudo + (header + rest), 28);
    var bytes := Tcp(s, options);
    assert bytes[20 + |padded|..] == rest[|padded|..] == s.payload;
  }

  function TcpFrame(s: Segment, identity: nat): (frame: seq<Byte>)
    requires Encodable(s, [])
  {
    Ethernet(GUEST_MAC, PEER_MAC, 0x0800,
             Ipv4(s.key.sourceIp, s.key.destinationIp, TCP, Tcp(s, []), identity, 64, false))
  }

  /** A segment sent by the fixture comes out of the auditor's frame parser unchanged. */
  lemma SentIsSeen(s: Segment, identity: nat)
    requires Encodable(s, [])
    ensures |TcpFrame(s, identity)| == 54 + |s.payload|
    ensures See(TcpFrame(s, identity)) == TcpSegment(s)
  {
    hide Tcp, SeeTcp, Ipv4, SeeIp;
    BuiltTcpSeen(s, []);
    var bytes := Tcp(s, []);
    BuiltIpSeen(s.key.sourceIp, s.key.destinationIp, TCP, bytes, identity, 64, false);
    BuiltHeaderChecks(s.key.sourceIp, s.key.destinationIp, TCP, bytes, identity, 64, false);
    FrameSeen(GUEST_MAC, PEER_MAC, Ipv4(s.key.sourceIp, s.key.destinationIp, TCP, bytes, identity, 64, false));
  }
}
