// Packets and capture files as bytes at fixed offsets, and what the auditor's counters count
// (tools/network_fixture.py, tools/network_packet_audit.py).

module PacketFields {
  import opened Bytes
  import opened InternetChecksum
  import opened TcpReassembly
  import opened Packets
  import opened Pcap
  import opened Capture

  /** The checksum test in numbers: the big-endian words sum to a nonzero multiple of 65535. */
  ghost predicate Verified(data: seq<Byte>) {
    WordSum(data) > 0 && WordSum(data) % 65535 == 0
  }

  // What is built

  /** A frame carrying one segment without options: Ethernet, IPv4 and TCP headers, then the payload. */
  ghost predicate FrameLayout(frame: seq<Byte>, s: Segment, identity: nat) {
    && |frame| == 54 + |s.payload| && |s.key.sourceIp| == |s.key.destinationIp| == 4
    && frame[..14] == [0x52, 0x54, 0x00, 0x12, 0x34, 0x56, 0x52, 0x54, 0x00, 0x65, 0x43, 0x21, 0x08, 0x00]
    && frame[14] == 0x45 && frame[15] == 0 && U16Be(frame, 16) == 40 + |s.payload| && U16Be(frame, 18) == identity % 0x1_0000
    && frame[20] == 0x40 && frame[21] == 0 && frame[22] == 64 && frame[23] == 6
    && frame[26..30] == s.key.sourceIp && frame[30..34] == s.key.destinationIp
    && U16Be(frame, 34) == s.key.source && U16Be(frame, 36) == s.key.destination
    && U32Be(frame, 38) == s.sequence && U32Be(frame, 42) == s.acknowledgement
    && frame[46] == 0x50 && frame[47] == s.flags && U16Be(frame, 48) == 8192 && U16Be(frame, 52) == 0
    && frame[54..] == s.payload
    && Verified(frame[14..34])
    && Verified(frame[26..34] + [0, 6] + Be16(20 + |s.payload|) + frame[34..])
  }

  lemma IpLayout(source: seq<Byte>, destination: seq<Byte>, protocol: Byte, payload: seq<Byte>, identity: nat, ttl: Byte)
    requires |source| == |destination| == 4 && 20 + |payload| < 0x1_0000
    ensures var packet := Ipv4(source, destination, protocol, payload, identity, ttl, false);
            && |packet| == 20 + |payload|
            && packet[0] == 0x45 && packet[1] == 0
            && U16Be(packet, 2) == 20 + |payload| && U16Be(packet, 4) == identity % 0x1_0000
            && packet[6] == 0x40 && packet[7] == 0 && packet[8] == ttl && packet[9] == protocol
            && packet[12..16] == source && packet[16..20] == destination && packet[20..] == payload
            && Verified(packet[..20])
  {
    hide InternetSum, Be16, WordSum;
    IpFields(source, destination, protocol, payload, identity, ttl, false);
    BuiltHeaderChecks(source, destination, protocol, payload, identity, ttl, false);
    var packet := Ipv4(source, destination, protocol, payload, identity, ttl, false);
    VerifiesIff(packet[..20]);
    IdentityBytes(identity);
  }

  lemma IdentityBytes(identity: nat)
    ensures 0x100 * (identity / 0x100 % 0x100) + identity % 0x100 == identity % 0x1_0000
  {
    var (q, r) := (identity / 0x100, identity % 0x100);
    assert q == 0x100 * (q / 0x100) + q % 0x100;
    assert identity == 0x1_0000 * (q / 0x100) + (0x100 * (q % 0x100) + r);
  }

  lemma TcpLayout(s: Segment)
    requires Encodable(s, [])
    ensures var b := Tcp(s, []);
            && |b| == 20 + |s.payload|
            && U16Be(b, 0) == s.key.source && U16Be(b, 2) == s.key.destination
            && U32Be(b, 4) == s.sequence && U32Be(b, 8) == s.acknowledgement
            && b[12] == 0x50 && b[13] == s.flags && U16Be(b, 14) == 8192 && U16Be(b, 18) == 0
            && b[20..] == s.payload
            && Verified(s.key.sourceIp + s.key.destinationIp + [0, 6] + Be16(20 + |s.payload|) + b)
  {
    hide InternetSum, Patch, U16Be, U32Be, WordSum, Be16, TcpHeader;
    assert PadOptions([]) == [];
    var rest := [] + s.payload;
    assert rest == s.payload;
    var header := TcpHeader(s, 5);
    var pseudo := Pseudo(s.key.sourceIp, s.key.destinationIp, TCP, 20 + |rest|);
    var v := InternetSum(pseudo + (header + rest));
    HeaderWords(header, 16, v, rest);
    HeaderTail(s, v, rest);
    PseudoZero(pseudo, header, rest, 16);
    PseudoPatch(pseudo, header, rest, 16, Be16(v));
    FilledVerifies(pseudo + (header + rest), 28);
    VerifiesIff(pseudo + Tcp(s, []));
  }

  lemma HeaderTail(s: Segment, v: nat, rest: seq<Byte>)
    requires s.key.source < 0x1_0000 && s.key.destination < 0x1_0000 && s.sequence < SEQUENCE_SPACE
    requires s.acknowledgement < SEQUENCE_SPACE && v <= ONES
    ensures var b := Patch(TcpHeader(s, 5), 16, Be16(v)) + rest; |b| >= 20 && b[12] == 0x50 && U16Be(b, 18) == 0
  {
  }

  /** Options stand behind the fixed header, filled up with no-operation bytes to whole words. */
  lemma OptionsLayout(s: Segment, options: seq<Byte>)
    requires Encodable(s, options)
    ensures var (b, n) := (Tcp(s, options), |Tcp(s, options)| - 20 - |s.payload|);
            && |options| <= n < |options| + 4 && n % 4 == 0 && b[12] as int == (20 + n) / 4 * 16
            && b[20..20 + |options|] == options && (forall i :: 20 + |options| <= i < 20 + n ==> b[i] == 1)
            && b[20 + n..] == s.payload
  {
    hide InternetSum, Patch, U16Be, U32Be, TcpHeader, Pseudo, Be16;
    var padded := PadOptions(options);
    var rest := padded + s.payload;
    var (words, n) := ((20 + |padded|) / 4, |padded|);
    var header := TcpHeader(s, words);
    var pseudo := Pseudo(s.key.sourceIp, s.key.destinationIp, TCP, 20 + |rest|);
    var v := InternetSum(pseudo + (header + rest));
    HeaderWords(header, 16, v, rest);
    OffsetByte(s, words);
    var b := Tcp(s, options);
    assert b[20..] == rest;
    assert b[20..20 + |options|] == rest[..|options|] == options;
    forall i | 20 + |options| <= i < 20 + n
      ensures b[i] == 1
    {
      assert b[i] == rest[i - 20] == padded[i - 20];
    }
    assert b[20 + n..] == rest[n..] == s.payload;
  }

  lemma OffsetByte(s: Segment, words: nat)
    requires s.key.source < 0x1_0000 && s.key.destination < 0x1_0000 && s.sequence < SEQUENCE_SPACE
    requires s.acknowledgement < SEQUENCE_SPACE && words < 16
    ensures TcpHeader(s, words)[12] as int == words * 16
  {
  }

  /** The bad-checksum variant differs in the lowest bit of the checksum's high byte and nowhere else. */
  lemma BadHeaderIs(source: seq<Byte>, destination: seq<Byte>, protocol: Byte, payload: seq<Byte>, identity: nat, ttl: Byte)
    requires |source| == |destination| == 4 && 20 + |payload| < 0x1_0000
    ensures var (good, bad) := (Ipv4(source, destination, protocol, payload, identity, ttl, false),
                                Ipv4(source, destination, protocol, payload, identity, ttl, true));
            && |good| == |bad| == 20 + |payload| && good[..10] == bad[..10] && good[11..] == bad[11..]
            && bad[10] as int == if good[10] % 2 == 1 then good[10] as int - 1 else good[10] as int + 1
  {
    hide InternetSum, BareIpHeader;
    var header := BareIpHeader(source, destination, protocol, 20 + |payload|, identity, ttl);
    var value := InternetSum(header);
    HighByte(value);
    var (a, b) := (Patch(header, 10, Be16(value)), Patch(header, 10, Be16(FlipBit8(value))));
    assert a[..10] == b[..10] && a[11..] == b[11..];
    assert (a + payload)[..10] == a[..10] && (b + payload)[..10] == b[..10];
    assert (a + payload)[11..] == a[11..] + payload && (b + payload)[11..] == b[11..] + payload;
  }

  lemma HighByte(value: nat)
    requires value <= 0xFFFF
    ensures FlipBit8(value) % 0x100 == value % 0x100
    ensures FlipBit8(value) / 0x100 == if value / 0x100 % 2 == 1 then value / 0x100 - 1 else value / 0x100 + 1
  {
  }

  /** Every byte of a frame the fixture sends, but for the two checksums, which make their words verify. */
  lemma FrameIs(s: Segment, identity: nat)
    requires Encodable(s, [])
    ensures FrameLayout(TcpFrame(s, identity), s, identity)
  {
    hide Tcp, Ipv4, U16Be, U32Be, WordSum, Be16;
    var bytes := Tcp(s, []);
    TcpLayout(s);
    IpLayout(s.key.sourceIp, s.key.destinationIp, TCP, bytes, identity, 64);
    var packet := Ipv4(s.key.sourceIp, s.key.destinationIp, TCP, bytes, identity, 64, false);
    var frame := TcpFrame(s, identity);
    EthernetHead(packet);
    FrameParts(frame, packet, bytes);
  }

  lemma EthernetHead(packet: seq<Byte>)
    ensures var frame := Ethernet(GUEST_MAC, PEER_MAC, 0x0800, packet);
            && |frame| == 14 + |packet| && frame[14..] == packet
            && frame[..14] == [0x52, 0x54, 0x00, 0x12, 0x34, 0x56, 0x52, 0x54, 0x00, 0x65, 0x43, 0x21, 0x08, 0x00]
  {
  }

  /** Reading at an offset of the frame is reading inside its packet, or inside its segment. */
  lemma FrameParts(frame: seq<Byte>, packet: seq<Byte>, bytes: seq<Byte>)
    requires |frame| == 14 + |packet| && frame[14..] == packet && |packet| == 20 + |bytes| && packet[20..] == bytes
    requires |bytes| >= 20
    ensures forall k :: 14 <= k < |frame| ==> frame[k] == packet[k - 14]
    ensures forall k :: 34 <= k < |frame| ==> frame[k] == bytes[k - 34]
    ensures U16Be(frame, 16) == U16Be(packet, 2) && U16Be(frame, 18) == U16Be(packet, 4)
    ensures U16Be(frame, 34) == U16Be(bytes, 0) && U16Be(frame, 36) == U16Be(bytes, 2)
    ensures U32Be(frame, 38) == U32Be(bytes, 4) && U32Be(frame, 42) == U32Be(bytes, 8)
    ensures U16Be(frame, 48) == U16Be(bytes, 14) && U16Be(frame, 52) == U16Be(bytes, 18)
    ensures frame[14..34] == packet[..20] && frame[26..30] == packet[12..16] && frame[30..34] == packet[16..20]
    ensures frame[26..34] == packet[12..16] + packet[16..20]
    ensures frame[34..] == bytes && frame[54..] == bytes[20..]
  {
    forall k | 14 <= k < |frame|
      ensures frame[k] == packet[k - 14]
    {
      assert frame[14..][k - 14] == frame[k];
    }
    forall k | 34 <= k < |frame|
      ensures frame[k] == bytes[k - 34]
    {
      assert packet[20..][k - 34] == packet[k - 14];
    }
    assert frame[26..34] == packet[12..16] + packet[16..20];
  }

  // What is seen

  ghost function HeaderEnd(frame: seq<Byte>): (at: nat)
    requires |frame| >= 34
  {
    14 + frame[14] as int % 16 * 4
  }

  /** An IPv4 packet in an Ethernet frame: type, version, lengths that fit, a header that verifies, not a fragment. */
  ghost predicate HoldsIp(frame: seq<Byte>) {
    && |frame| >= 34 && frame[12] == 0x08 && frame[13] == 0x00 && frame[14] as int / 16 == 4
    && 34 <= HeaderEnd(frame) <= 14 + U16Be(frame, 16) <= |frame|
    && Verified(frame[14..HeaderEnd(frame)])
    && U16Be(frame, 20) % 0x4000 == 0
  }

  /** The bytes after the IPv4 header. */
  ghost function Transport(frame: seq<Byte>): (t: seq<Byte>)
    requires HoldsIp(frame)
  {
    frame[HeaderEnd(frame)..14 + U16Be(frame, 16)]
  }

  ghost predicate HoldsTcp(frame: seq<Byte>) {
    && HoldsIp(frame) && frame[23] == 6
    && var t := Transport(frame);
    && |t| >= 20 && 20 <= t[12] as int / 16 * 4 <= |t|
    && Verified(frame[26..34] + [0, 6] + Be16(|t|) + t)
  }

  ghost predicate HoldsUdp(frame: seq<Byte>) {
    && HoldsIp(frame) && frame[23] == 17
    && var t := Transport(frame);
    && |t| >= 8 && U16Be(t, 4) == |t|
    && (U16Be(t, 6) == 0 || Verified(frame[26..34] + [0, 17] + Be16(|t|) + t))
  }

  lemma IpRead(frame: seq<Byte>)
    requires |frame| >= 34
    ensures var packet := frame[14..];
            && packet[0] == frame[14] && packet[9] == frame[23] && U16Be(packet, 2) == U16Be(frame, 16)
            && U16Be(packet, 6) == U16Be(frame, 20)
            && packet[12..16] == frame[26..30] && packet[16..20] == frame[30..34]
            && packet[12..16] + packet[16..20] == frame[26..34]
  {
    var packet := frame[14..];
    assert packet[12..16] + packet[16..20] == frame[26..34];
  }

  lemma IpIff(frame: seq<Byte>)
    requires |frame| >= 34 && frame[12] == 0x08 && frame[13] == 0x00
    ensures !IpHeaderBad(frame[14..]) <==> HoldsIp(frame)
    ensures HoldsIp(frame) ==> frame[14..][frame[14] as int % 16 * 4..U16Be(frame, 16)] == Transport(frame)
  {
    hide InternetSum, WordSum, U16Be;
    IpRead(frame);
    var (packet, n, total) := (frame[14..], frame[14] as int % 16 * 4, U16Be(frame, 16));
    if n <= |packet| {
      VerifiesIff(packet[..n]);
      assert packet[..n] == frame[14..14 + n];
      if n <= total <= |packet| {
        assert packet[n..total] == frame[14 + n..14 + total];
      }
    }
  }

  /** How a frame is classified: each class exactly on the frames that hold what its name says. */
  ghost predicate Classified(frame: seq<Byte>, seen: Seen) {
    && (seen.TcpSegment? <==> HoldsTcp(frame))
    && (seen.UdpDatagram? <==> HoldsUdp(frame))
    && (seen.Icmp? <==> HoldsIp(frame) && frame[23] == 1)
    && (seen.OtherIp? <==> HoldsIp(frame) && frame[23] !in {1, 6, 17})
    && (seen.Arp? <==> |frame| >= 42 && frame[12] == 0x08 && frame[13] == 0x06)
    && (seen.Ignored? <==>
          |frame| >= 14 && !(frame[12] == 0x08 && (frame[13] == 0x06 || (frame[13] == 0x00 && |frame| >= 34))))
    && (seen.Malformed? && seen.counted <==> HoldsIp(frame) && frame[23] in {6, 17} && !HoldsTcp(frame) && !HoldsUdp(frame))
  }

  lemma KindIs(frame: seq<Byte>, high: Byte, low: Byte)
    requires |frame| >= 14
    ensures U16Be(frame, 12) == 0x100 * high as int + low as int <==> frame[12] == high && frame[13] == low
  {
  }

  lemma PseudoIs(frame: seq<Byte>, protocol: Byte, n: nat)
    requires |frame| >= 34 && n < 0x1_0000
    ensures Pseudo(frame[14..][12..16], frame[14..][16..20], protocol, n) == frame[26..34] + [0, protocol] + Be16(n)
  {
    IpRead(frame);
  }

  lemma TcpIff(frame: seq<Byte>)
    requires HoldsIp(frame) && frame[23] == 6 && |Transport(frame)| >= 20
    ensures |Transport(frame)| < 0x1_0000
    ensures SeeTcp(frame[14..][12..16], frame[14..][16..20], Transport(frame)).TcpSegment? <==> HoldsTcp(frame)
    ensures !HoldsTcp(frame) ==> SeeTcp(frame[14..][12..16], frame[14..][16..20], Transport(frame)) == Malformed(true)
  {
    hide InternetSum, WordSum, Be16;
    var t := Transport(frame);
    PseudoIs(frame, 6, |t|);
    VerifiesIff(frame[26..34] + [0, 6] + Be16(|t|) + t);
  }

  lemma UdpIff(frame: seq<Byte>)
    requires HoldsIp(frame) && frame[23] == 17 && |Transport(frame)| >= 8
    ensures SeeUdp(frame[14..][12..16], frame[14..][16..20], Transport(frame)).UdpDatagram? <==> HoldsUdp(frame)
    ensures !HoldsUdp(frame) ==> SeeUdp(frame[14..][12..16], frame[14..][16..20], Transport(frame)) == Malformed(true)
  {
    hide InternetSum, WordSum, Be16;
    var t := Transport(frame);
    PseudoIs(frame, 17, |t|);
    VerifiesIff(frame[26..34] + [0, 17] + Be16(|t|) + t);
  }

  lemma SeenIs(frame: seq<Byte>)
    ensures Classified(frame, See(frame))
  {
    hide IpHeaderBad, HoldsIp, SeeTcp, SeeUdp, InternetSum, WordSum, U16Be, Be16;
    if |frame| >= 14 {
      KindIs(frame, 0x08, 0x06);
      KindIs(frame, 0x08, 0x00);
    }
    HoldsIpNeeds(frame);
    if |frame| >= 34 && frame[12] == 0x08 && frame[13] == 0x00 {
      IpIff(frame);
      IpRead(frame);
      if HoldsIp(frame) {
        if frame[23] == 6 && |Transport(frame)| >= 20 {
          TcpIff(frame);
        } else if frame[23] == 17 && |Transport(frame)| >= 8 {
          UdpIff(frame);
        }
      }
    }
  }

  lemma HoldsIpNeeds(frame: seq<Byte>)
    ensures HoldsIp(frame) ==> |frame| >= 34 && frame[12] == 0x08 && frame[13] == 0x00
  {
  }

  /** And what is then read from it. */
  lemma PortsSeen(frame: seq<Byte>)
    ensures See(frame).UdpDatagram? ==>
              && HoldsUdp(frame)
              && See(frame) == UdpDatagram(U16Be(Transport(frame), 0), U16Be(Transport(frame), 2))
    ensures See(frame).TcpSegment? ==>
              && HoldsTcp(frame)
              && var t := Transport(frame);
                 See(frame).segment ==
                 Segment(FlowKey(frame[26..30], U16Be(t, 0), frame[30..34], U16Be(t, 2)), U32Be(t, 4), U32Be(t, 8), t[13],
                         t[t[12] as int / 16 * 4..])
  {
    hide IpHeaderBad, HoldsIp, HoldsTcp, HoldsUdp, InternetSum, WordSum, U16Be, U32Be, Be16;
    SeenIs(frame);
    if HoldsTcp(frame) || HoldsUdp(frame) {
      HoldsNeeds(frame);
      HoldsIpNeeds(frame);
      IpIff(frame);
      IpRead(frame);
    }
  }

  lemma HoldsNeeds(frame: seq<Byte>)
    ensures HoldsTcp(frame) ==> HoldsIp(frame) && frame[23] == 6 && |Transport(frame)| >= 20
    ensures HoldsUdp(frame) ==> HoldsIp(frame) && frame[23] == 17 && |Transport(frame)| >= 8
  {
    hide WordSum, Be16;
  }

  // The counters

  ghost predicate FromGuest(f: Frame) {
    |f| >= 14 && f[6..12] == [0x52, 0x54, 0x00, 0x12, 0x34, 0x56]
  }

  ghost predicate FromPeer(f: Frame) {
    |f| >= 14 && f[6..12] == [0x52, 0x54, 0x00, 0x65, 0x43, 0x21]
  }

  ghost predicate HoldsArp(f: Frame) {
    |f| >= 42 && f[12] == 0x08 && f[13] == 0x06
  }

  ghost predicate HoldsIcmp(f: Frame) {
    HoldsIp(f) && f[23] == 1
  }

  ghost predicate HoldsDhcp(f: Frame) {
    && HoldsUdp(f)
    && var (source, destination) := (U16Be(Transport(f), 0), U16Be(Transport(f), 2));
       (source == 67 && destination == 68) || (source == 68 && destination == 67)
  }

  ghost predicate HoldsDns(f: Frame) {
    HoldsUdp(f) && (U16Be(Transport(f), 0) == 53 || U16Be(Transport(f), 2) == 53)
  }

  ghost predicate HoldsHttps(f: Frame) {
    HoldsTcp(f) && (U16Be(Transport(f), 0) == 443 || U16Be(Transport(f), 2) == 443)
  }

  /** Too short for a frame or for ARP, an IPv4 header that does not fit, or a transport header that does not. */
  ghost predicate Broken(f: Frame) {
    || |f| < 14
    || (f[12] == 0x08 && f[13] == 0x06 && |f| < 42)
    || (f[12] == 0x08 && f[13] == 0x00 && |f| >= 34 && !HoldsIp(f))
    || (HoldsIp(f) && f[23] in {6, 17} && !HoldsTcp(f) && !HoldsUdp(f))
  }

  ghost function Number(frames: seq<Frame>, p: Frame -> bool): (n: nat) {
    if frames == [] then 0
    else Number(frames[..|frames| - 1], p) + if p(frames[|frames| - 1]) then 1 else 0
  }

  ghost predicate Counted(frames: seq<Frame>, c: Counts) {
    && c.guestTx == Number(frames, FromGuest) && c.peerTx == Number(frames, FromPeer)
    && c.arp == Number(frames, HoldsArp) && c.ipv4 == Number(frames, HoldsIp) && c.icmp == Number(frames, HoldsIcmp)
    && c.udp == Number(frames, HoldsUdp) && c.dhcp == Number(frames, HoldsDhcp) && c.dns == Number(frames, HoldsDns)
    && c.tcp == Number(frames, HoldsTcp) && c.httpsTcp == Number(frames, HoldsHttps)
    && c.malformed == Number(frames, Broken)
  }

  ghost function Bit(b: bool): (n: nat) {
    if b then 1 else 0
  }

  /** One frame moves each counter by whether the frame is of its kind. */
  lemma FrameCounts(c: Counts, f: Frame)
    ensures CountSeen(CountSender(c, f), See(f)) ==
            Counts(c.guestTx + Bit(FromGuest(f)), c.peerTx + Bit(FromPeer(f)), c.arp + Bit(HoldsArp(f)),
                   c.ipv4 + Bit(HoldsIp(f)), c.icmp + Bit(HoldsIcmp(f)), c.udp + Bit(HoldsUdp(f)), c.dhcp + Bit(HoldsDhcp(f)), c.dns + Bit(HoldsDns(f)),
                   c.tcp + Bit(HoldsTcp(f)), c.httpsTcp + Bit(HoldsHttps(f)), c.malformed + Bit(Broken(f)))
  {
    hide See, HoldsIp, HoldsTcp, HoldsUdp, Transport, U16Be, FromGuest, FromPeer;
    SeenIs(f);
    PortsSeen(f);
    HoldsNeeds(f);
    HoldsIpNeeds(f);
    SenderCounts(c, f);
    var d := CountSender(c, f);
    KindCounts(d, f);
  }

  lemma SenderCounts(c: Counts, f: Frame)
    ensures CountSender(c, f) == c.(guestTx := c.guestTx + Bit(FromGuest(f)), peerTx := c.peerTx + Bit(FromPeer(f)))
  {
  }

  lemma KindCounts(d: Counts, f: Frame)
    ensures CountSeen(d, See(f)) ==
            d.(arp := d.arp + Bit(HoldsArp(f)), ipv4 := d.ipv4 + Bit(HoldsIp(f)), icmp := d.icmp + Bit(HoldsIcmp(f)),
               udp := d.udp + Bit(HoldsUdp(f)), dhcp := d.dhcp + Bit(HoldsDhcp(f)), dns := d.dns + Bit(HoldsDns(f)),
               tcp := d.tcp + Bit(HoldsTcp(f)), httpsTcp := d.httpsTcp + Bit(HoldsHttps(f)),
               malformed := d.malformed + Bit(Broken(f)))
  {
    hide See, HoldsIp, HoldsTcp, HoldsUdp, Transport, U16Be;
    SeenIs(f);
    PortsSeen(f);
    HoldsNeeds(f);
    HoldsIpNeeds(f);
    if See(f).UdpDatagram? {
      DhcpPorts(See(f).source, See(f).destination);
    }
  }

  lemma DhcpPorts(source: nat, destination: nat)
    ensures {source, destination} == {67, 68} <==> (source == 67 && destination == 68) || (source == 68 && destination == 67)
  {
    assert source in {source, destination} && destination in {source, destination};
    assert 67 in {67, 68} && 68 in {67, 68};
    if (source == 67 && destination == 68) || (source == 68 && destination == 67) {
      assert {source, destination} == {67, 68};
    }
  }

  lemma NumberLast(frames: seq<Frame>, p: Frame -> bool)
    requires frames != []
    ensures Number(frames, p) == Number(frames[..|frames| - 1], p) + Bit(p(frames[|frames| - 1]))
  {
  }

  /** Over every capture, each counter of the report is the number of frames of its kind. */
  lemma {:induction false} CountsExact(frames: seq<Frame>)
    ensures Counted(frames, AuditFrames(frames).counts)
    decreases |frames|
  {
    hide See, HoldsIp, HoldsTcp, HoldsUdp, Number, FromGuest, FromPeer, HoldsArp, HoldsIcmp, HoldsDhcp, HoldsDns, HoldsHttps,
      Broken, CountSeen, CountSender, Bit, AuditSegment;
    if frames == [] {
      NoneCounted();
    } else {
      var (init, f) := (frames[..|frames| - 1], frames[|frames| - 1]);
      CountsExact(init);
      FrameCounts(AuditFrames(init).counts, f);
      NumberLast(frames, FromGuest);
      NumberLast(frames, FromPeer);
      NumberLast(frames, HoldsArp);
      NumberLast(frames, HoldsIp);
      NumberLast(frames, HoldsIcmp);
      NumberLast(frames, HoldsUdp);
      NumberLast(frames, HoldsDhcp);
      NumberLast(frames, HoldsDns);
      NumberLast(frames, HoldsTcp);
      NumberLast(frames, HoldsHttps);
      NumberLast(frames, Broken);
    }
  }

  lemma NoneCounted()
    ensures Counted([], NO_COUNTS)
  {
  }

  // The capture file

  /** The writer's file header and record headers. */
  lemma FileLayout(index: nat, frame: Frame)
    requires index <= MAX_FRAMES && |frame| < 0x1_0000_0000
    ensures FileHeader() == [0xD4, 0xC3, 0xB2, 0xA1, 2, 0, 4, 0, 0, 0, 0, 0, 0, 0, 0, 0, 0xFF, 0xFF, 0, 0, 1, 0, 0, 0]
    ensures var r := Record(index, frame);
            && |r| == 16 + |frame| && U32(r, 0) == 1_700_000_000 + index && U32(r, 4) == 1000 * index
            && U32(r, 8) == |frame| && U32(r, 12) == |frame| && r[16..] == frame
  {
    HeaderLayout();
    RecordLayout(index, frame);
  }

  lemma HeaderLayout()
    ensures FileHeader() == [0xD4, 0xC3, 0xB2, 0xA1, 2, 0, 4, 0, 0, 0, 0, 0, 0, 0, 0, 0, 0xFF, 0xFF, 0, 0, 1, 0, 0, 0]
  {
    assert Le32(0xA1B2_C3D4) == [0xD4, 0xC3, 0xB2, 0xA1] && Le32(65535) == [0xFF, 0xFF, 0, 0] && Le32(1) == [1, 0, 0, 0];
  }

  lemma RecordLayout(index: nat, frame: Frame)
    requires index <= MAX_FRAMES && |frame| < 0x1_0000_0000
    ensures var r := Record(index, frame);
            && |r| == 16 + |frame| && U32(r, 0) == 1_700_000_000 + index && U32(r, 4) == 1000 * index
            && U32(r, 8) == |frame| && U32(r, 12) == |frame| && r[16..] == frame
  {
    hide Le32, U32;
    var r := Record(index, frame);
    assert r[0..4] == Le32(1_700_000_000 + index) && r[4..8] == Le32(index * 1000);
    assert r[8..12] == Le32(|frame|) && r[12..16] == Le32(|frame|);
    SliceReads(r, 0);
    SliceReads(r, 4);
    SliceReads(r, 8);
    SliceReads(r, 12);
  }
}
