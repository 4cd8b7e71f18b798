/** Frames byte by byte as the standards lay them out (RFC 894; RFC 791, section 3.1; RFC 768; RFC 9293, section 3.1),
    and what of them the driver's receivers check. */
module Wire {
  import opened Words
  import opened Checksum
  import opened Packets

  function Octets2(v: nat): seq<u8> {
    [v / 0x100 % 0x100, v % 0x100]
  }

  function Octets4(v: nat): seq<u8> {
    [v / 0x100_0000 % 0x100, v / 0x1_0000 % 0x100, v / 0x100 % 0x100, v % 0x100]
  }

  /** A broadcast frame around an IPv4 header without options: time to live 64, not to be fragmented. */
  function Headers(mac: seq<u8>, proto: u8, total: nat, sum: nat, srcIp: u32, dstIp: u32): seq<u8> {
    [0xFF, 0xFF, 0xFF, 0xFF, 0xFF, 0xFF] + mac + [0x08, 0x00]
    + [0x45, 0x00] + Octets2(total) + [0, 0, 0x40, 0, 64, proto] + Octets2(sum) + Octets4(srcIp) + Octets4(dstIp)
  }

  function UdpBytes(mac: seq<u8>, m: Message, sum: nat): seq<u8> {
    Headers(mac, 17, 28 + |m.payload|, sum, m.ends.srcIp, m.ends.dstIp)
    + (Octets2(m.ends.srcPort) + Octets2(m.ends.dstPort) + Octets2(8 + |m.payload|) + [0, 0])
    + m.payload
  }

  /** Sequence and acknowledgement number 0, five words of header, PSH and ACK, a full window, no checksum. */
  function TcpBytes(mac: seq<u8>, m: Message, sum: nat): seq<u8> {
    Headers(mac, 6, 40 + |m.payload|, sum, m.ends.srcIp, m.ends.dstIp)
    + (Octets2(m.ends.srcPort) + Octets2(m.ends.dstPort)
       + [0, 0, 0, 0, 0, 0, 0, 0, 0x50, 0x18, 0xFF, 0xFF, 0, 0, 0, 0])
    + m.payload
  }

  function Word(h: seq<u8>, i: nat): nat
    requires 2 * i + 1 < |h|
  {
    h[2 * i] as int * 0x100 + h[2 * i + 1] as int
  }

  /** The ten words of an IPv4 header add up to a multiple of 65535, which is zero in one's complement. */
  predicate HeaderAddsUp(h: seq<u8>)
    requires |h| == 20
  {
    (Word(h, 0) + Word(h, 1) + Word(h, 2) + Word(h, 3) + Word(h, 4)
     + Word(h, 5) + Word(h, 6) + Word(h, 7) + Word(h, 8) + Word(h, 9)) % 0xFFFF == 0
  }

  lemma Octets2Of(s: seq<u8>, o: nat)
    requires o + 2 <= |s|
    ensures Octets2(Be16(s, o)) == s[o..o + 2]
  {
  }

  lemma LowOctet(q: nat, r: nat)
    requires r < 0x100
    ensures (q * 0x100 + r) / 0x100 == q && (q * 0x100 + r) % 0x100 == r
  {
  }

  lemma FourOctets(a: nat, b: nat, c: nat, d: nat)
    requires a < 0x100 && b < 0x100 && c < 0x100 && d < 0x100
    ensures var v := a * 0x100_0000 + b * 0x1_0000 + c * 0x100 + d;
      && v / 0x100_0000 % 0x100 == a && v / 0x1_0000 % 0x100 == b && v / 0x100 % 0x100 == c && v % 0x100 == d
  {
    var ab := a * 0x100 + b;
    var abc := ab * 0x100 + c;
    LowOctet(a, b);
    LowOctet(ab, c);
    LowOctet(abc, d);
  }

  lemma Octets4Of(s: seq<u8>, o: nat)
    requires o + 4 <= |s|
    ensures Octets4(Be32(s, o)) == s[o..o + 4]
  {
    FourOctets(s[o], s[o + 1], s[o + 2], s[o + 3]);
  }

  lemma WordSumNext(h: seq<u8>, n: nat)
    requires 2 * n + 2 <= |h|
    ensures WordSum(h, n + 1) == WordSum(h, n) + Word(h, n)
  {
  }

  lemma NoWords(h: seq<u8>)
    ensures WordSum(h, 0) == 0
  {
  }

  lemma FirstWord(h: seq<u8>)
    requires |h| >= 2 && h[0] > 0
    ensures Word(h, 0) > 0
  {
  }

  lemma MultipleOf65535(x: nat)
    ensures x > 0 ==> ((x - 1) % 0xFFFF + 1 == 0xFFFF <==> x % 0xFFFF == 0)
  {
  }

  lemma TenWords(h: seq<u8>)
    requires |h| == 20 && h[0] > 0
    ensures Fold(WordSum(h, 10)) == 0xFFFF <==> HeaderAddsUp(h)
  {
    hide Fold, WordSum, Word;
    FoldIsRemainder(WordSum(h, 10));
    assert WordSum(h, 0) == 0 by {
      NoWords(h);
    }
    WordSumNext(h, 0);
    WordSumNext(h, 1);
    WordSumNext(h, 2);
    WordSumNext(h, 3);
    WordSumNext(h, 4);
    WordSumNext(h, 5);
    WordSumNext(h, 6);
    WordSumNext(h, 7);
    WordSumNext(h, 8);
    WordSumNext(h, 9);
    FirstWord(h);
    MultipleOf65535(WordSum(h, 10));
  }

  lemma EthernetBytes(h: seq<u8>, mac: seq<u8>)
    requires |h| == 34 && HasEthernet(h, mac)
    ensures |mac| == 6 && h[..14] == [0xFF, 0xFF, 0xFF, 0xFF, 0xFF, 0xFF] + mac + [0x08, 0x00]
  {
    assert h[..14] == h[..6] + h[6..12] + h[12..14];
    assert h[12] == 8 && h[13] == 0;
  }

  lemma MiddleBytes(h: seq<u8>)
    requires |h| == 34 && Be16(h, 18) == 0 && Be16(h, 20) == 0x4000
    ensures h[18] == 0 && h[19] == 0 && h[20] == 0x40 && h[21] == 0
  {
  }

  lemma IpBytes(h: seq<u8>, proto: u8, srcIp: u32, dstIp: u32, total: nat)
    requires |h| == 34 && HasIp(h, proto, srcIp, dstIp, total)
    ensures h[14..34] == [0x45, 0x00] + Octets2(total) + [0, 0, 0x40, 0, 64, proto] + Octets2(Be16(h, 24))
                         + Octets4(srcIp) + Octets4(dstIp)
  {
    hide Octets2, Octets4;
    Octets2Of(h, 16);
    Octets2Of(h, 24);
    Octets4Of(h, 26);
    Octets4Of(h, 30);
    MiddleBytes(h);
    assert h[14..34] == h[14..16] + h[16..18] + h[18..24] + h[24..26] + h[26..30] + h[30..34];
    assert h[14..16] == [0x45, 0x00];
    assert h[18..24] == [0, 0, 0x40, 0, 64, proto];
  }

  lemma HeaderBytes(f: seq<u8>, mac: seq<u8>, proto: u8, srcIp: u32, dstIp: u32, body: nat)
    requires IsIpFrame(f, mac, proto, srcIp, dstIp, body)
    ensures |f| >= 34 && |mac| == 6 && HeaderAddsUp(f[14..34])
    ensures f[..34] == Headers(mac, proto, 20 + body, Be16(f, 24), srcIp, dstIp)
  {
    hide HasEthernet, HasIp, Fold, WordSum, Octets2, Octets4;
    var h := f[..34];
    EthernetBytes(h, mac);
    IpBytes(h, proto, srcIp, dstIp, 20 + body);
    assert f[14..34] == h[14..34] && h == h[..14] + h[14..34];
    assert Be16(h, 24) == Be16(f, 24);
    assert h[14..34][0] == 0x45;
    TenWords(h[14..34]);
  }

  lemma NoOctets()
    ensures Octets2(0) == [0, 0] && Octets4(0) == [0, 0, 0, 0] && Octets2(0xFFFF) == [0xFF, 0xFF]
  {
  }

  /** A UDP frame of the model is the frame of the standards byte by byte, and its header adds up. */
  lemma UdpFrameBytes(f: seq<u8>, mac: seq<u8>, m: Message)
    requires IsUdpFrame(f, mac, m)
    ensures |f| >= 42 && |mac| == 6 && f == UdpBytes(mac, m, Be16(f, 24)) && HeaderAddsUp(f[14..34])
  {
    hide IsIpFrame, Be16, Headers, Octets2, HeaderAddsUp;
    HeaderBytes(f, mac, 17, m.ends.srcIp, m.ends.dstIp, 8 + |m.payload|);
    Octets2Of(f, 34);
    Octets2Of(f, 36);
    Octets2Of(f, 38);
    Octets2Of(f, 40);
    NoOctets();
    assert f == f[..34] + (f[34..36] + f[36..38] + f[38..40] + f[40..42]) + f[42..];
  }

  lemma TcpFrameBytes(f: seq<u8>, mac: seq<u8>, m: Message)
    requires IsTcpFrame(f, mac, m)
    ensures |f| >= 54 && |mac| == 6 && f == TcpBytes(mac, m, Be16(f, 24)) && HeaderAddsUp(f[14..34])
  {
    hide IsIpFrame, Be16, Be32, Headers, Octets2, Octets4, HeaderAddsUp;
    HeaderBytes(f, mac, 6, m.ends.srcIp, m.ends.dstIp, 20 + |m.payload|);
    Octets2Of(f, 34);
    Octets2Of(f, 36);
    Octets4Of(f, 38);
    Octets4Of(f, 42);
    Octets2Of(f, 48);
    Octets4Of(f, 50);
    NoOctets();
    var fixed := f[38..42] + f[42..46] + [f[46], f[47]] + f[48..50] + f[50..54];
    assert fixed == [0, 0, 0, 0, 0, 0, 0, 0, 0x50, 0x18, 0xFF, 0xFF, 0, 0, 0, 0];
    assert f == f[..34] + (f[34..36] + f[36..38] + fixed) + f[54..];
  }

  // ---------- what the receivers check ----------

  function EtherType(p: seq<u8>): nat
    requires |p| >= 42
  {
    p[12] as int * 0x100 + p[13] as int
  }

  function Version(p: seq<u8>): nat
    requires |p| >= 42
  {
    p[14] / 0x10
  }

  /** Bytes of the IP header. */
  function HeaderLength(p: seq<u8>): nat
    requires |p| >= 42
  {
    p[14] % 0x10 * 4
  }

  function TotalLength(p: seq<u8>): nat
    requires |p| >= 42
  {
    p[16] as int * 0x100 + p[17] as int
  }

  function Protocol(p: seq<u8>): u8
    requires |p| >= 42
  {
    p[23]
  }

  /** The length field of the UDP header. */
  function UdpLength(p: seq<u8>): nat
    requires |p| >= 80
  {
    p[18 + HeaderLength(p)] as int * 0x100 + p[19 + HeaderLength(p)] as int
  }

  /** An IPv4 packet with a UDP datagram, complete in the first n bytes of the buffer. */
  predicate IsUdpDatagram(p: seq<u8>, n: nat)
    requires |p| >= 80
  {
    && 42 <= n && EtherType(p) == 0x0800 && Version(p) == 4 && 20 <= HeaderLength(p)
    && Protocol(p) == 17 && 8 <= UdpLength(p)
    && HeaderLength(p) + UdpLength(p) <= TotalLength(p) && 14 + TotalLength(p) <= n
  }

  /** What UDPReceive leaves unchecked. */
  predicate IsSaneIp(p: seq<u8>, n: nat)
    requires |p| >= 80
  {
    && Version(p) == 4 && 20 <= HeaderLength(p) && 8 <= UdpLength(p)
    && HeaderLength(p) + UdpLength(p) <= TotalLength(p) && 14 + TotalLength(p) <= n
  }

  /** UDPReceive accepts exactly the frames with these fields. */
  lemma UdpAcceptedFields(p: seq<u8>, n: nat)
    requires |p| == RECEIVE_SIZE
    ensures UdpAccepted(p, n)
       <==> 42 <= n && EtherType(p) == 0x0800 && Protocol(p) == 17 && HeaderLength(p) + 8 <= TotalLength(p)
            && 14 + HeaderLength(p) + UdpLength(p) <= n
  {
  }

  /** Every complete datagram is accepted; an accepted frame that is none fails one of the checks the source leaves out:
      version, least header length, least UDP length, and that the datagram fits the packet and the packet the frame. */
  lemma UdpAcceptedIffDatagram(p: seq<u8>, n: nat)
    requires |p| == RECEIVE_SIZE
    ensures IsUdpDatagram(p, n) <==> UdpAccepted(p, n) && IsSaneIp(p, n)
  {
    hide UdpAccepted, EtherType, Version, HeaderLength, TotalLength, Protocol, UdpLength;
    UdpAcceptedFields(p, n);
  }

  /** TcpIpRecv looks at type and protocol only. */
  lemma TcpAcceptedFields(p: seq<u8>, n: nat)
    requires |p| == RECEIVE_SIZE
    ensures TcpAccepted(p, n) <==> 54 <= n && EtherType(p) == 0x0800 && Protocol(p) == 6
  {
  }

  /** Neither receiver takes the other one's frames. */
  lemma ReceiversAreApart(f: seq<u8>, mac: seq<u8>, m: Message, p: seq<u8>, n: nat)
    requires f <= p && |p| == RECEIVE_SIZE
    ensures IsTcpFrame(f, mac, m) ==> !UdpAccepted(p, n)
    ensures IsUdpFrame(f, mac, m) ==> !TcpAccepted(p, n)
  {
    hide IsIpFrame, Be16, Be32;
    UdpAcceptedFields(p, n);
    TcpAcceptedFields(p, n);
    if IsTcpFrame(f, mac, m) {
      HeaderFields(f, p, mac, PROTO_TCP, m.ends.srcIp, m.ends.dstIp, TCP + |m.payload|);
    }
    if IsUdpFrame(f, mac, m) {
      HeaderFields(f, p, mac, PROTO_UDP, m.ends.srcIp, m.ends.dstIp, UDP + |m.payload|);
    }
  }

  /** Addresses and ports are the bytes of their fields, and the payload follows the UDP header.  Its length is
      unsigned:
      a length field below 8 asks for as much as there is room. */
  ghost predicate IsUdpContent(p: seq<u8>, room: u64, m: Message)
    requires |p| == RECEIVE_SIZE
  {
    var h := 14 + HeaderLength(p);
    && Octets4(m.ends.srcIp) == p[26..30] && Octets4(m.ends.dstIp) == p[30..34]
    && Octets2(m.ends.srcPort) == p[h..h + 2] && Octets2(m.ends.dstPort) == p[h + 2..h + 4]
    && |m.payload| == Min((UdpLength(p) - 8) % 0x1_0000_0000_0000_0000, room)
    && h + 8 + |m.payload| <= |p| && m.payload == p[h + 8..h + 8 + |m.payload|]
  }

  lemma LengthField(p: seq<u8>)
    requires |p| == RECEIVE_SIZE
    ensures Be16(p, UdpStart(p) + 4) == UdpLength(p) && UdpStart(p) == 14 + HeaderLength(p)
    ensures Be16(p, 16) == TotalLength(p)
  {
  }

  lemma UdpContent(p: seq<u8>, n: nat, room: u64)
    requires |p| == RECEIVE_SIZE && UdpAccepted(p, n)
    requires UdpStart(p) + UDP + PayloadCount(Be16(p, UdpStart(p) + 4), UDP, room) <= RECEIVE_SIZE
    ensures ParseUdp(p, n, room).Some? && IsUdpContent(p, room, ParseUdp(p, n, room).value)
  {
    hide Be16, Be32, Octets2, Octets4, UdpAccepted;
    Octets4Of(p, 26);
    Octets4Of(p, 30);
    Octets2Of(p, UdpStart(p));
    Octets2Of(p, UdpStart(p) + 2);
    LengthField(p);
  }

  ghost predicate IsTcpContent(p: seq<u8>, room: u64, m: Message)
    requires |p| == RECEIVE_SIZE
  {
    && Octets4(m.ends.srcIp) == p[26..30] && Octets4(m.ends.dstIp) == p[30..34]
    && Octets2(m.ends.srcPort) == p[34..36] && Octets2(m.ends.dstPort) == p[36..38]
    && |m.payload| == Min((TotalLength(p) - 40) % 0x1_0000_0000_0000_0000, room)
    && 54 + |m.payload| <= |p| && m.payload == p[54..54 + |m.payload|]
  }

  lemma TcpContent(p: seq<u8>, n: nat, room: u64)
    requires |p| == RECEIVE_SIZE && TcpAccepted(p, n)
    requires 54 + PayloadCount(Be16(p, 16), IP + TCP, room) <= RECEIVE_SIZE
    ensures ParseTcp(p, n, room).Some? && IsTcpContent(p, room, ParseTcp(p, n, room).value)
  {
    hide Be16, Be32, Octets2, Octets4, TcpAccepted;
    Octets4Of(p, 26);
    Octets4Of(p, 30);
    Octets2Of(p, 34);
    Octets2Of(p, 36);
    LengthField(p);
  }
}
