/** Packets and the transmit ring of the E1000 driver (kernel/src/Drivers/E1000/driver.c; RFC 791
    section 3.1, RFC 768 "Format" and "Fields", RFC 1071 section 1). */
module Checksum {
  import opened Words

  /** Sum of the first n 16-bit words of a header. */
  function WordSum(h: seq<u8>, n: nat): nat
    requires 2 * n <= |h|
  {
    if n == 0 then 0 else WordSum(h, n - 1) + h[2 * n - 2] as int * 0x100 + h[2 * n - 1] as int
  }

  /** Folding the carries of a sum back in until it fits 16 bits. */
  function Fold(x: nat): (r: nat)
    ensures r <= 0xFFFF
    decreases x
  {
    if x > 0xFFFF then Fold(x % 0x1_0000 + x / 0x1_0000) else x
  }

  lemma AddMultiple(a: nat, q: nat)
    ensures (a + 0xFFFF * q) % 0xFFFF == a % 0xFFFF
  {
  }

  /** One's-complement sums are sums modulo 65535, with 65535 itself for the non-zero multiples. */
  lemma {:induction false} FoldIsRemainder(x: nat)
    ensures Fold(x) == if x == 0 then 0 else (x - 1) % 0xFFFF + 1
    decreases x
  {
    if x > 0xFFFF {
      var q, r := x / 0x1_0000, x % 0x1_0000;
      FoldIsRemainder(r + q);
      assert x - 1 == (r + q - 1) + 0xFFFF * q;
      AddMultiple(r + q - 1, q);
    }
  }

  lemma {:induction false} WordSumSame(a: seq<u8>, b: seq<u8>, n: nat)
    requires 2 * n <= |a| && 2 * n <= |b| && forall k :: 0 <= k < 2 * n ==> b[k] == a[k]
    ensures WordSum(b, n) == WordSum(a, n)
  {
    if n > 0 {
      WordSumSame(a, b, n - 1);
    }
  }

  /** Filling an empty word adds its value to the sum. */
  lemma {:induction false} WordSumUpdate(a: seq<u8>, b: seq<u8>, at: nat, n: nat)
    requires at < n && 2 * n <= |a| && 2 * n <= |b| && a[2 * at] == 0 == a[2 * at + 1]
    requires forall k :: 0 <= k < 2 * n && k != 2 * at && k != 2 * at + 1 ==> b[k] == a[k]
    ensures WordSum(b, n) == WordSum(a, n) + b[2 * at] as int * 0x100 + b[2 * at + 1] as int
  {
    if n == at + 1 {
      WordSumSame(a, b, at);
    } else {
      WordSumUpdate(a, b, at, n - 1);
    }
  }

  /** A sum and its complement fold to all ones, which is what a receiver checks. */
  lemma ComplementFoldsToOnes(sum: nat)
    requires sum > 0
    ensures Fold(sum + (0xFFFF - Fold(sum))) == 0xFFFF
  {
    FoldIsRemainder(sum);
    var s := Fold(sum);
    var q := (sum - 1) / 0xFFFF;
    assert sum == 0xFFFF * q + s;
    FoldIsRemainder(sum + (0xFFFF - s));
    assert sum + (0xFFFF - s) - 1 == 0xFFFE + 0xFFFF * q;
    AddMultiple(0xFFFE, q);
  }
}

module Packets {
  import opened Words
  import opened Checksum

  const PACKET_SIZE: nat := 1500

  const RECEIVE_SIZE: nat := 1600

  const ETH: nat := 14

  const IP: nat := 20

  const UDP: nat := 8

  const TCP: nat := 20

  const PROTO_UDP: u8 := 17

  const PROTO_TCP: u8 := 6

  function Be16(s: seq<u8>, o: nat): (v: nat)
    requires o + 2 <= |s|
    ensures v < 0x1_0000
  {
    s[o] as int * 0x100 + s[o + 1] as int
  }

  function Be32(s: seq<u8>, o: nat): (v: nat)
    requires o + 4 <= |s|
    ensures v < 0x1_0000_0000
  {
    s[o] as int * 0x100_0000 + s[o + 1] as int * 0x1_0000 + s[o + 2] as int * 0x100 + s[o + 3] as int
  }

  datatype Endpoints = Endpoints(srcIp: u32, srcPort: u16, dstIp: u32, dstPort: u16)

  datatype Message = Message(ends: Endpoints, payload: seq<u8>)

  /** A broadcast Ethernet header for an IP packet. */
  ghost predicate HasEthernet(h: seq<u8>, mac: seq<u8>)
    requires |h| >= ETH
  {
    h[0] == h[1] == h[2] == h[3] == h[4] == h[5] == 0xFF && h[6..12] == mac && Be16(h, 12) == 0x0800
  }

  /** A 20-byte IPv4 header behind it, but for the checksum. */
  ghost predicate HasIp(h: seq<u8>, proto: u8, srcIp: u32, dstIp: u32, total: nat)
    requires |h| >= ETH + IP
  {
    && h[14] == 0x45 && h[15] == 0 && Be16(h, 16) == total && Be16(h, 18) == 0 && Be16(h, 20) == 0x4000
    && h[22] == 64 && h[23] == proto && Be32(h, 26) == srcIp && Be32(h, 30) == dstIp
  }

  ghost predicate HasFields(h: seq<u8>, mac: seq<u8>, proto: u8, srcIp: u32, dstIp: u32, total: nat)
    requires |h| == ETH + IP
  {
    HasEthernet(h, mac) && HasIp(h, proto, srcIp, dstIp, total)
  }

  /** A frame with these headers around `body` bytes, whose IP header sums up to all ones. */
  ghost predicate IsIpFrame(f: seq<u8>, mac: seq<u8>, proto: u8, srcIp: u32, dstIp: u32, body: nat) {
    && |f| == ETH + IP + body
    && HasFields(f[..34], mac, proto, srcIp, dstIp, IP + body)
    && Fold(WordSum(f[14..34], 10)) == 0xFFFF
  }

  ghost predicate IsUdpFrame(f: seq<u8>, mac: seq<u8>, m: Message) {
    && |f| == ETH + IP + UDP + |m.payload|
    && IsIpFrame(f, mac, PROTO_UDP, m.ends.srcIp, m.ends.dstIp, UDP + |m.payload|)
    && Be16(f, 34) == m.ends.srcPort && Be16(f, 36) == m.ends.dstPort
    && Be16(f, 38) == UDP + |m.payload| && Be16(f, 40) == 0
    && f[42..] == m.payload
  }

  ghost predicate IsTcpFrame(f: seq<u8>, mac: seq<u8>, m: Message) {
    && |f| == ETH + IP + TCP + |m.payload|
    && IsIpFrame(f, mac, PROTO_TCP, m.ends.srcIp, m.ends.dstIp, TCP + |m.payload|)
    && Be16(f, 34) == m.ends.srcPort && Be16(f, 36) == m.ends.dstPort
    && Be32(f, 38) == 0 && Be32(f, 42) == 0 && f[46] == 0x50 && f[47] == 0x18 && Be16(f, 48) == 0xFFFF
    && Be32(f, 50) == 0
    && f[54..] == m.payload
  }

  // ---------- receiving ----------

  /** Bytes copied out: the length field less the headers as an unsigned word, as far as there is room. */
  function PayloadCount(length: nat, headers: nat, room: u64): nat {
    Min((length - headers) % 0x1_0000_0000_0000_0000, room)
  }

  function UdpStart(p: seq<u8>): nat
    requires |p| == RECEIVE_SIZE
  {
    ETH + p[14] % 0x10 * 4
  }

  /** The checks of UDPReceive on its 1600-byte buffer, `plen` bytes of which are the frame. */
  predicate UdpAccepted(p: seq<u8>, plen: nat)
    requires |p| == RECEIVE_SIZE
  {
    && plen >= 42 && p[12] == 0x08 && p[13] == 0x00 && p[23] == PROTO_UDP
    && Be16(p, 16) >= p[14] % 0x10 * 4 + UDP
    && plen >= UdpStart(p) + Be16(p, UdpStart(p) + 4)
  }

  /** UDPReceive, with `room` for the payload.  The copy must stay in the buffer; a length field below 8
      would ask for as much as there is room. */
  function ParseUdp(p: seq<u8>, plen: nat, room: u64): Option<Message>
    requires |p| == RECEIVE_SIZE
    requires UdpAccepted(p, plen) ==>
      UdpStart(p) + UDP + PayloadCount(Be16(p, UdpStart(p) + 4), UDP, room) <= RECEIVE_SIZE
  {
    if !UdpAccepted(p, plen) then None
    else
      var udp := UdpStart(p);
      var n := PayloadCount(Be16(p, udp + 4), UDP, room);
      Some(Message(Endpoints(Be32(p, 26), Be16(p, udp), Be32(p, 30), Be16(p, udp + 2)), p[udp + UDP..udp + UDP + n]))
  }

  predicate TcpAccepted(p: seq<u8>, plen: nat)
    requires |p| == RECEIVE_SIZE
  {
    plen >= 54 && p[12] == 0x08 && p[13] == 0x00 && p[23] == PROTO_TCP
  }

  /** TcpIpRecv; the payload length is what the IP header says. */
  function ParseTcp(p: seq<u8>, plen: nat, room: u64): Option<Message>
    requires |p| == RECEIVE_SIZE
    requires TcpAccepted(p, plen) ==> 54 + PayloadCount(Be16(p, 16), IP + TCP, room) <= RECEIVE_SIZE
  {
    if !TcpAccepted(p, plen) then None
    else
      Some(Message(Endpoints(Be32(p, 26), Be16(p, 34), Be32(p, 30), Be16(p, 36)),
                   p[54..54 + PayloadCount(Be16(p, 16), IP + TCP, room)]))
  }

  lemma Be16Prefix(f: seq<u8>, p: seq<u8>, o: nat)
    requires f <= p && o + 2 <= |f|
    ensures Be16(p, o) == Be16(f, o)
  {
  }

  lemma HeaderFields(f: seq<u8>, p: seq<u8>, mac: seq<u8>, proto: u8, srcIp: u32, dstIp: u32, body: nat)
    requires IsIpFrame(f, mac, proto, srcIp, dstIp, body) && f <= p
    ensures p[12] == 0x08 && p[13] == 0x00 && p[14] == 0x45 && p[23] == proto
    ensures Be16(p, 16) == IP + body && Be32(p, 26) == srcIp && Be32(p, 30) == dstIp
  {
    hide Fold, WordSum;
    var h := f[..34];
    assert p[12] == h[12] && p[13] == h[13] && p[14] == h[14] && p[23] == h[23];
    assert Be16(h, 12) == 0x0800;
    Be16Prefix(h, p, 16);
    assert p[26] == h[26] && p[27] == h[27] && p[28] == h[28] && p[29] == h[29];
    assert p[30] == h[30] && p[31] == h[31] && p[32] == h[32] && p[33] == h[33];
  }

  lemma IpFrameLength(f: seq<u8>, mac: seq<u8>, proto: u8, srcIp: u32, dstIp: u32, body: nat)
    requires IsIpFrame(f, mac, proto, srcIp, dstIp, body)
    ensures |f| == ETH + IP + body
  {
  }

  /** What UDPSend built comes back from UDPReceive: addresses, ports and the payload, as far as there is room. */
  lemma UdpRoundTrip(f: seq<u8>, mac: seq<u8>, m: Message, p: seq<u8>, room: u64)
    requires IsUdpFrame(f, mac, m) && f <= p && |p| == RECEIVE_SIZE
    ensures UdpAccepted(p, |f|) && UdpStart(p) + UDP + PayloadCount(Be16(p, UdpStart(p) + 4), UDP, room) <= RECEIVE_SIZE
    ensures ParseUdp(p, |f|, room) == Some(Message(m.ends, m.payload[..Min(|m.payload|, room)]))
  {
    hide IsIpFrame;
    HeaderFields(f, p, mac, PROTO_UDP, m.ends.srcIp, m.ends.dstIp, UDP + |m.payload|);
    IpFrameLength(f, mac, PROTO_UDP, m.ends.srcIp, m.ends.dstIp, UDP + |m.payload|);
    assert p[14] % 0x10 * 4 == 20;
    Be16Prefix(f, p, 38);
    Be16Prefix(f, p, 34);
    Be16Prefix(f, p, 36);
    var n := Min(|m.payload|, room);
    assert p[42..42 + n] == f[42..][..n];
  }

  lemma TcpRoundTrip(f: seq<u8>, mac: seq<u8>, m: Message, p: seq<u8>, room: u64)
    requires IsTcpFrame(f, mac, m) && f <= p && |p| == RECEIVE_SIZE
    ensures TcpAccepted(p, |f|) && 54 + PayloadCount(Be16(p, 16), IP + TCP, room) <= RECEIVE_SIZE
    ensures ParseTcp(p, |f|, room) == Some(Message(m.ends, m.payload[..Min(|m.payload|, room)]))
  {
    hide IsIpFrame;
    HeaderFields(f, p, mac, PROTO_TCP, m.ends.srcIp, m.ends.dstIp, TCP + |m.payload|);
    IpFrameLength(f, mac, PROTO_TCP, m.ends.srcIp, m.ends.dstIp, TCP + |m.payload|);
    Be16Prefix(f, p, 34);
    Be16Prefix(f, p, 36);
    var n := Min(|m.payload|, room);
    assert p[54..54 + n] == f[54..][..n];
  }
}

module E1000 {
  import opened Words
  import opened ByteCopy
  import opened Checksum
  import opened Packets
  import opened Wire

  lemma Be16Bytes(v: u16)
    ensures v / 0x100 * 0x100 + v % 0x100 == v
  {
  }

  method PutBe16(p: array<u8>, at: nat, v: u16)
    requires at + 2 <= p.Length
    modifies p
    ensures Be16(p[..], at) == v
    ensures forall k :: 0 <= k < p.Length && !(at <= k < at + 2) ==> p[k] == old(p[k])
  {
    p[at] := v / 0x100;
    p[at + 1] := v % 0x100;
    Be16Bytes(v);
  }

  lemma Be32Bytes(v: u32)
    ensures v == v / 0x100_0000 % 0x100 * 0x100_0000 + v / 0x1_0000 % 0x100 * 0x1_0000
              + v / 0x100 % 0x100 * 0x100 + v % 0x100
  {
    assert v / 0x100_0000 % 0x100 == v / 0x100_0000;
    assert v / 0x1_0000 == v / 0x100_0000 * 0x100 + v / 0x1_0000 % 0x100;
    assert v / 0x100 == v / 0x1_0000 * 0x100 + v / 0x100 % 0x100;
  }

  method PutBe32(p: array<u8>, at: nat, v: u32)
    requires at + 4 <= p.Length
    modifies p
    ensures Be32(p[..], at) == v
    ensures forall k :: 0 <= k < p.Length && !(at <= k < at + 4) ==> p[k] == old(p[k])
  {
    p[at] := v / 0x100_0000 % 0x100;
    p[at + 1] := v / 0x1_0000 % 0x100;
    p[at + 2] := v / 0x100 % 0x100;
    p[at + 3] := v % 0x100;
    Be32Bytes(v);
  }

  /** The checksum loops over the 20 bytes of the IP header. */
  method HeaderSum(p: array<u8>) returns (sum: nat)
    requires p.Length >= 34
    ensures sum == Fold(WordSum(p[14..34], 10))
  {
    var csum := 0;
    var i := 0;
    while i < 20
      invariant 0 <= i <= 20 && i % 2 == 0 && csum == WordSum(p[14..34], i / 2)
    {
      csum := csum + (p[14 + i] as int * 0x100 + p[14 + i + 1] as int);
      i := i + 2;
    }
    while csum / 0x1_0000 != 0
      invariant csum >= 0 && Fold(csum) == Fold(WordSum(p[14..34], 10))
      decreases csum
    {
      csum := csum % 0x1_0000 + csum / 0x1_0000;
    }
    sum := csum;
  }

  lemma FirstByte(h: seq<u8>, mac: seq<u8>, proto: u8, srcIp: u32, dstIp: u32, total: nat)
    requires |h| == 34 && HasFields(h, mac, proto, srcIp, dstIp, total)
    ensures h[14] == 0x45
  {
  }

  lemma EthernetStays(a: seq<u8>, b: seq<u8>, mac: seq<u8>)
    requires |a| >= ETH && |b| >= ETH && HasEthernet(a, mac) && forall k :: 0 <= k < ETH ==> b[k] == a[k]
    ensures HasEthernet(b, mac)
  {
    assert b[6..12] == a[6..12];
  }

  lemma IpStays(a: seq<u8>, b: seq<u8>, proto: u8, srcIp: u32, dstIp: u32, total: nat)
    requires |a| >= ETH + IP && |b| >= ETH + IP && HasIp(a, proto, srcIp, dstIp, total)
    requires forall k :: ETH <= k < ETH + IP && k != 24 && k != 25 ==> b[k] == a[k]
    ensures HasIp(b, proto, srcIp, dstIp, total)
  {
  }

  lemma FieldsStay(a: seq<u8>, b: seq<u8>, mac: seq<u8>, proto: u8, srcIp: u32, dstIp: u32, total: nat)
    requires |a| == |b| == 34 && HasFields(a, mac, proto, srcIp, dstIp, total)
    requires forall k :: 0 <= k < 34 && k != 24 && k != 25 ==> b[k] == a[k]
    ensures HasFields(b, mac, proto, srcIp, dstIp, total)
  {
    hide HasEthernet, HasIp;
    EthernetStays(a, b, mac);
    IpStays(a, b, proto, srcIp, dstIp, total);
  }

  lemma WordSumPositive(h: seq<u8>, n: nat)
    requires 1 <= n && 2 * n <= |h| && h[0] > 0
    ensures WordSum(h, n) > 0
    decreases n
  {
    if n > 1 {
      WordSumPositive(h, n - 1);
    }
  }

  lemma LowWordOfComplement(csum: nat, complement: nat)
    requires csum <= 0xFFFF && complement == 0xFFFF_FFFF - csum
    ensures complement / 0x100 % 0x100 * 0x100 + complement % 0x100 == 0xFFFF - csum
  {
  }

  lemma ComplementStored(a: seq<u8>, b: seq<u8>, csum: nat, complement: nat)
    requires |a| == |b| == 20 && a[0] == 0x45 && a[10] == 0 == a[11] && csum == Fold(WordSum(a, 10))
    requires complement == 0xFFFF_FFFF - csum
    requires forall k :: 0 <= k < 20 ==>
               b[k] == if k == 10 then complement / 0x100 % 0x100 else if k == 11 then complement % 0x100 else a[k]
    ensures Fold(WordSum(b, 10)) == 0xFFFF
  {
    WordSumPositive(a, 10);
    WordSumUpdate(a, b, 5, 10);
    LowWordOfComplement(csum, complement);
    ComplementFoldsToOnes(WordSum(a, 10));
  }

  method PutEthernet(p: array<u8>, mac: array<u8>)
    requires p.Length == PACKET_SIZE && mac.Length == 6 && mac != p
    modifies p
    ensures HasEthernet(p[..], mac[..]) && forall k :: ETH <= k < p.Length ==> p[k] == old(p[k])
  {
    p[0], p[1], p[2], p[3], p[4], p[5] := 0xFF, 0xFF, 0xFF, 0xFF, 0xFF, 0xFF;
    Memcpy(p, 6, mac, 0, 6);
    p[12], p[13] := 0x08, 0x00;
    assert p[..][6..12] == mac[0..6] == mac[..];
  }

  lemma Be16Same(a: seq<u8>, b: seq<u8>, o: nat)
    requires o + 2 <= |a| && o + 2 <= |b| && a[o] == b[o] && a[o + 1] == b[o + 1]
    ensures Be16(a, o) == Be16(b, o)
  {
  }

  lemma Be32Same(a: seq<u8>, b: seq<u8>, o: nat)
    requires o + 4 <= |a| && o + 4 <= |b|
    requires a[o] == b[o] && a[o + 1] == b[o + 1] && a[o + 2] == b[o + 2] && a[o + 3] == b[o + 3]
    ensures Be32(a, o) == Be32(b, o)
  {
  }

  method PutIp(p: array<u8>, proto: u8, total: u16, srcIp: u32, dstIp: u32)
    requires p.Length == PACKET_SIZE
    modifies p
    ensures HasIp(p[..], proto, srcIp, dstIp, total)
    ensures forall k :: 0 <= k < p.Length && (k < ETH || ETH + IP <= k || k == 24 || k == 25) ==> p[k] == old(p[k])
  {
    hide Be16, Be32;
    p[14], p[15] := 0x45, 0x00;
    PutBe16(p, 16, total);
    ghost var a := p[..];
    PutBe16(p, 18, 0);
    ghost var b := p[..];
    PutBe16(p, 20, 0x4000);
    ghost var c := p[..];
    p[22], p[23] := 64, proto;
    PutBe32(p, 26, srcIp);
    ghost var d := p[..];
    PutBe32(p, 30, dstIp);
    Be16Same(a, p[..], 16);
    Be16Same(b, p[..], 18);
    Be16Same(c, p[..], 20);
    Be32Same(d, p[..], 26);
  }

  method PutFields(p: array<u8>, mac: array<u8>, proto: u8, total: u16, srcIp: u32, dstIp: u32)
    requires p.Length == PACKET_SIZE && mac.Length == 6 && mac != p && forall k :: 0 <= k < p.Length ==> p[k] == 0
    modifies p
    ensures HasFields(p[..34], mac[..], proto, srcIp, dstIp, total) && p[24] == 0 == p[25]
    ensures forall k :: 34 <= k < p.Length ==> p[k] == 0
  {
    hide HasEthernet, HasIp;
    PutEthernet(p, mac);
    ghost var before := p[..];
    PutIp(p, proto, total, srcIp, dstIp);
    EthernetStays(before, p[..34], mac[..]);
    IpStays(p[..], p[..34], proto, srcIp, dstIp, total);
  }

  /** The Ethernet and IP header of a zeroed packet, with the checksum stored last. */
  method PutHeaders(p: array<u8>, mac: array<u8>, proto: u8, total: u16, srcIp: u32, dstIp: u32)
    requires p.Length == PACKET_SIZE && mac.Length == 6 && mac != p && forall k :: 0 <= k < p.Length ==> p[k] == 0
    modifies p
    ensures HasFields(p[..34], mac[..], proto, srcIp, dstIp, total)
    ensures Fold(WordSum(p[14..34], 10)) == 0xFFFF
    ensures forall k :: 34 <= k < p.Length ==> p[k] == 0
  {
    hide Fold, WordSum, HasFields;
    PutFields(p, mac, proto, total, srcIp, dstIp);
    ghost var h := p[14..34];
    ghost var before := p[..34];
    var csum := HeaderSum(p);
    var complement := 0xFFFF_FFFF - csum;
    p[24] := complement / 0x100 % 0x100;
    p[25] := complement % 0x100;
    FieldsStay(before, p[..34], mac[..], proto, srcIp, dstIp, total);
    assert h[0] == 0x45 by {
      FirstByte(before, mac[..], proto, srcIp, dstIp, total);
    }
    ComplementStored(h, p[14..34], csum, complement);
  }

  // ---------- the transmit ring ----------

  const NUM_TX: nat := 8

  const TX_BUFFER_SIZE: nat := 2048

  /** How far slot j lies ahead of the tail, around the ring. */
  function Ahead(j: nat, tail: nat): nat
    requires j < NUM_TX && tail < NUM_TX
  {
    (j + NUM_TX - tail) % NUM_TX
  }

  function Slice(buffer: seq<u8>, j: nat, n: nat): seq<u8>
    requires |buffer| == NUM_TX * TX_BUFFER_SIZE && j < NUM_TX && n <= TX_BUFFER_SIZE
  {
    buffer[j * TX_BUFFER_SIZE..j * TX_BUFFER_SIZE + n]
  }

  /** Descriptor j: done, or unfinished with its frame of the pending ones.  The unfinished descriptors are
      the slots that end just before the tail. */
  ghost predicate SlotHolds(buffer: seq<u8>, length: seq<nat>, status: seq<u8>, tail: nat, pending: seq<seq<u8>>,
                            j: nat)
    requires |buffer| == NUM_TX * TX_BUFFER_SIZE && |length| == |status| == NUM_TX
    requires tail < NUM_TX && |pending| <= NUM_TX && j < NUM_TX
  {
    var free, d := NUM_TX - |pending|, Ahead(j, tail);
    if d < free then status[j] % 2 == 1
    else status[j] % 2 == 0 && length[j] == |pending[d - free]| <= TX_BUFFER_SIZE
         && Slice(buffer, j, length[j]) == pending[d - free]
  }

  lemma SlotAfterSend(buffer: seq<u8>, buffer': seq<u8>, length: seq<nat>, status: seq<u8>, tail: nat,
                      pending: seq<seq<u8>>, frame: seq<u8>, j: nat)
    requires |buffer| == |buffer'| == NUM_TX * TX_BUFFER_SIZE && |length| == |status| == NUM_TX
    requires tail < NUM_TX && |pending| < NUM_TX && j < NUM_TX && |frame| <= TX_BUFFER_SIZE
    requires SlotHolds(buffer, length, status, tail, pending, j)
    requires forall k :: 0 <= k < |buffer| && !(tail * TX_BUFFER_SIZE <= k < tail * TX_BUFFER_SIZE + |frame|) ==>
               buffer'[k] == buffer[k]
    requires Slice(buffer', tail, |frame|) == frame
    ensures SlotHolds(buffer', length[tail := |frame| as nat], status[tail := 0], (tail + 1) % NUM_TX,
                      pending + [frame], j)
  {
    if j == tail {
      assert Ahead(j, (tail + 1) % NUM_TX) == NUM_TX - 1;
    } else {
      assert Ahead(j, (tail + 1) % NUM_TX) == Ahead(j, tail) - 1;
      if Ahead(j, tail) >= NUM_TX - |pending| {
        assert Slice(buffer', j, length[j]) == Slice(buffer, j, length[j]);
      }
    }
  }

  lemma SlotAfterComplete(buffer: seq<u8>, length: seq<nat>, status: seq<u8>, tail: nat, pending: seq<seq<u8>>, j: nat)
    requires |buffer| == NUM_TX * TX_BUFFER_SIZE && |length| == |status| == NUM_TX
    requires tail < NUM_TX && 0 < |pending| <= NUM_TX && j < NUM_TX
    requires SlotHolds(buffer, length, status, tail, pending, j)
    ensures var oldest := (tail + NUM_TX - |pending|) % NUM_TX;
      SlotHolds(buffer, length, status[oldest := 1], tail, pending[1..], j)
  {
  }

  ghost predicate SlotsHold(buffer: seq<u8>, length: seq<nat>, status: seq<u8>, tail: nat, pending: seq<seq<u8>>) {
    && |buffer| == NUM_TX * TX_BUFFER_SIZE && |length| == |status| == NUM_TX
    && tail < NUM_TX && |pending| <= NUM_TX
    && forall j :: 0 <= j < NUM_TX ==> SlotHolds(buffer, length, status, tail, pending, j)
  }

  lemma SlotsAfterSend(buffer: seq<u8>, buffer': seq<u8>, length: seq<nat>, status: seq<u8>, tail: nat,
                       pending: seq<seq<u8>>, frame: seq<u8>)
    requires SlotsHold(buffer, length, status, tail, pending) && |pending| < NUM_TX && |frame| <= TX_BUFFER_SIZE
    requires |buffer'| == |buffer|
    requires buffer' == buffer[..tail * TX_BUFFER_SIZE] + frame + buffer[tail * TX_BUFFER_SIZE + |frame|..]
    ensures SlotsHold(buffer', length[tail := |frame| as nat], status[tail := 0], (tail + 1) % NUM_TX,
                      pending + [frame])
  {
    hide SlotHolds;
    assert Slice(buffer', tail, |frame|) == frame;
    var n: seq<nat>, s: seq<u8>, t := length[tail := |frame|], status[tail := 0], (tail + 1) % NUM_TX;
    var queue := pending + [frame];
    forall j | 0 <= j < NUM_TX
      ensures SlotHolds(buffer', n, s, t, queue, j)
    {
      SlotAfterSend(buffer, buffer', length, status, tail, pending, frame, j);
    }
  }

  lemma SlotsAfterComplete(buffer: seq<u8>, length: seq<nat>, status: seq<u8>, tail: nat, pending: seq<seq<u8>>)
    requires SlotsHold(buffer, length, status, tail, pending) && pending != []
    ensures SlotsHold(buffer, length, status[(tail + NUM_TX - |pending|) % NUM_TX := 1], tail, pending[1..])
  {
    hide SlotHolds;
    var s: seq<u8>, queue := status[(tail + NUM_TX - |pending|) % NUM_TX := 1], pending[1..];
    forall j | 0 <= j < NUM_TX
      ensures SlotHolds(buffer, length, s, tail, queue, j)
    {
      SlotAfterComplete(buffer, length, status, tail, pending, j);
    }
  }

  lemma StatusSaysFull(buffer: seq<u8>, length: seq<nat>, status: seq<u8>, tail: nat, pending: seq<seq<u8>>)
    requires SlotsHold(buffer, length, status, tail, pending)
    ensures status[tail] % 2 == 0 <==> |pending| == NUM_TX
  {
    assert SlotHolds(buffer, length, status, tail, pending, tail);
  }

  class TxRing {
    const txBuffer: array<u8>
    const length: array<nat>
    const status: array<u8>
    var txTail: nat
    /** The device's own index of its oldest unfinished descriptor. */
    var deviceHead: nat
    /** The frames handed to the device and not finished, oldest first; those it has finished; and all of them. */
    ghost var pending: seq<seq<u8>>
    ghost var finished: seq<seq<u8>>
    ghost var accepted: seq<seq<u8>>

    ghost predicate Valid()
      reads this, txBuffer, length, status
    {
      && txBuffer.Length == NUM_TX * TX_BUFFER_SIZE && length.Length == NUM_TX && status.Length == NUM_TX
      && txBuffer != status && length as object != txBuffer as object && length as object != status as object
      && txTail < NUM_TX && |pending| <= NUM_TX && deviceHead == (txTail + NUM_TX - |pending|) % NUM_TX
      && accepted == finished + pending
      && SlotsHold(txBuffer[..], length[..], status[..], txTail, pending)
    }

    constructor ()
      ensures Valid() && accepted == [] && fresh(txBuffer) && fresh(status) && fresh(length)
    {
      txBuffer := new u8[NUM_TX * TX_BUFFER_SIZE](_ => 0);
      length := new nat[NUM_TX](_ => 0);
      status := new u8[NUM_TX](_ => 1);
      txTail, deviceHead := 0, 0;
      pending, finished, accepted := [], [], [];
    }

    /** E1000_Send refuses exactly when all eight descriptors are pending; otherwise the frame is queued last. */
    method Send(data: array<u8>, len: nat) returns (ok: bool)
      requires Valid() && len <= data.Length && len <= TX_BUFFER_SIZE
      requires data != txBuffer && data != status && data as object != length as object
      modifies this`txTail, this`pending, this`accepted, txBuffer, length, status
      ensures Valid() && finished == old(finished)
      ensures ok <==> old(|pending|) < NUM_TX
      ensures pending == if ok then old(pending) + [data[..len]] else old(pending)
      ensures if !ok then txTail == old(txTail) && txBuffer[..] == old(txBuffer[..])
              else txTail == (old(txTail) + 1) % 8 && length[old(txTail)] == len && status[old(txTail)] == 0
                   && txBuffer[old(txTail) * 2048..old(txTail) * 2048 + len] == data[..len]
    {
      hide SlotsHold;
      var t := txTail;
      StatusSaysFull(txBuffer[..], length[..], status[..], t, pending);
      if status[t] % 2 == 0 {
        return false;
      }
      ghost var b, n, s, p, frame := txBuffer[..], length[..], status[..], pending, data[..len];
      Memcpy(txBuffer, t * TX_BUFFER_SIZE, data, 0, len);
      length[t] := len;
      status[t] := 0;
      txTail := (t + 1) % NUM_TX;
      pending, accepted := pending + [frame], accepted + [frame];
      SlotsAfterSend(b, txBuffer[..], n, s, t, p, frame);
      assert length[..] == n[t := len] && status[..] == s[t := 0];
      return true;
    }

    /** The device finishes its oldest descriptor. */
    method Complete()
      requires Valid() && pending != []
      modifies this`pending, this`finished, this`deviceHead, status
      ensures Valid() && pending == old(pending)[1..] && finished == old(finished) + [old(pending)[0]]
    {
      hide SlotsHold;
      ghost var b, n, s, p := txBuffer[..], length[..], status[..], pending;
      SlotsAfterComplete(b, n, s, txTail, p);
      var oldest := deviceHead;
      status[oldest] := 1;
      deviceHead := (oldest + 1) % NUM_TX;
      finished := finished + [pending[0]];
      pending := pending[1..];
      assert accepted == finished + pending;
      assert status[..] == s[oldest := 1];
    }
  }

  // ---------- sending and receiving ----------

  lemma IpFrameFromPacket(p: seq<u8>, mac: seq<u8>, proto: u8, srcIp: u32, dstIp: u32, body: nat)
    requires |p| == PACKET_SIZE && ETH + IP + body <= PACKET_SIZE
    requires HasFields(p[..34], mac, proto, srcIp, dstIp, IP + body) && Fold(WordSum(p[14..34], 10)) == 0xFFFF
    ensures IsIpFrame(p[..ETH + IP + body], mac, proto, srcIp, dstIp, body)
  {
    hide HasFields, Fold, WordSum;
    var f := p[..ETH + IP + body];
    assert f[..34] == p[..34] && f[14..34] == p[14..34];
  }

  method PutUdp(packet: array<u8>, ends: Endpoints, data: array<u8>, len: nat)
    requires packet.Length == PACKET_SIZE && len <= data.Length && ETH + IP + UDP + len <= PACKET_SIZE && data != packet
    modifies packet
    ensures Be16(packet[..], 34) == ends.srcPort && Be16(packet[..], 36) == ends.dstPort
    ensures Be16(packet[..], 38) == UDP + len && Be16(packet[..], 40) == 0
    ensures packet[42..42 + len] == data[..len]
    ensures forall k :: 0 <= k < 34 ==> packet[k] == old(packet[k])
  {
    hide Be16;
    PutBe16(packet, 34, ends.srcPort);
    ghost var a := packet[..];
    PutBe16(packet, 36, ends.dstPort);
    ghost var b := packet[..];
    PutBe16(packet, 38, UDP + len);
    ghost var c := packet[..];
    PutBe16(packet, 40, 0);
    ghost var d := packet[..];
    Memcpy(packet, 42, data, 0, len);
    Be16Same(a, packet[..], 34);
    Be16Same(b, packet[..], 36);
    Be16Same(c, packet[..], 38);
    Be16Same(d, packet[..], 40);
  }

  lemma UdpFrameFromPacket(p: seq<u8>, mac: seq<u8>, m: Message)
    requires |p| == PACKET_SIZE && ETH + IP + UDP + |m.payload| <= PACKET_SIZE
    requires IsIpFrame(p[..42 + |m.payload|], mac, PROTO_UDP, m.ends.srcIp, m.ends.dstIp, UDP + |m.payload|)
    requires Be16(p, 34) == m.ends.srcPort && Be16(p, 36) == m.ends.dstPort && Be16(p, 38) == UDP + |m.payload|
    requires Be16(p, 40) == 0 && p[42..42 + |m.payload|] == m.payload
    ensures IsUdpFrame(p[..42 + |m.payload|], mac, m)
  {
    hide IsIpFrame;
    var f := p[..42 + |m.payload|];
    assert f[42..] == p[42..42 + |m.payload|];
  }

  /** Builds a UDP datagram around the payload and queues it. */
  method UDPSend(ring: TxRing, mac: array<u8>, ends: Endpoints, data: array<u8>, len: nat) returns (ok: bool)
    requires ring.Valid() && mac.Length == 6 && len <= data.Length && ETH + IP + UDP + len <= PACKET_SIZE
    modifies ring`txTail, ring`pending, ring`accepted, ring.txBuffer, ring.length, ring.status
    ensures ring.Valid() && ring.finished == old(ring.finished)
    ensures ok <==> old(|ring.pending|) < NUM_TX
    ensures if !ok then ring.pending == old(ring.pending)
            else |ring.pending| == old(|ring.pending|) + 1 && ring.pending[..old(|ring.pending|)] == old(ring.pending)
                 && IsUdpFrame(ring.pending[old(|ring.pending|)], old(mac[..]), Message(ends, old(data[..len])))
      ensures ok ==>
        var f := ring.pending[old(|ring.pending|)];
        |f| == 42 + len && f == UdpBytes(old(mac[..]), Message(ends, old(data[..len])), Be16(f, 24))
        && HeaderAddsUp(f[14..34])
  {
    hide SlotsHold, HasFields, Fold, WordSum, IsUdpFrame, IsIpFrame, UdpBytes, HeaderAddsUp, Be16;
    var packet := new u8[PACKET_SIZE](_ => 0);
    var total: u16 := IP + UDP + len;
    PutHeaders(packet, mac, PROTO_UDP, total, ends.srcIp, ends.dstIp);
    ghost var h := packet[..];
    PutUdp(packet, ends, data, len);
    assert packet[..34] == h[..34] && packet[14..34] == h[14..34];
    IpFrameFromPacket(packet[..], mac[..], PROTO_UDP, ends.srcIp, ends.dstIp, UDP + len);
    UdpFrameFromPacket(packet[..], mac[..], Message(ends, data[..len]));
    UdpFrameBytes(packet[..42 + len], mac[..], Message(ends, data[..len]));
    ok := ring.Send(packet, ETH + total);
  }

  method PutTcp(packet: array<u8>, ends: Endpoints, data: array<u8>, len: nat)
    requires packet.Length == PACKET_SIZE && len <= data.Length && ETH + IP + TCP + len <= PACKET_SIZE && data != packet
    requires forall k :: 34 <= k < packet.Length ==> packet[k] == 0
    modifies packet
    ensures Be16(packet[..], 34) == ends.srcPort && Be16(packet[..], 36) == ends.dstPort
    ensures forall k :: 38 <= k < 54 ==>
      packet[k] == if k == 46 then 0x50 else if k == 47 then 0x18 else if k == 48 || k == 49 then 0xFF else 0
    ensures packet[54..54 + len] == data[..len]
    ensures forall k :: 0 <= k < 34 ==> packet[k] == old(packet[k])
  {
    hide Be16;
    PutBe16(packet, 34, ends.srcPort);
    ghost var a := packet[..];
    PutBe16(packet, 36, ends.dstPort);
    ghost var b := packet[..];
    packet[46], packet[47], packet[48], packet[49] := 0x50, 0x18, 0xFF, 0xFF;
    ghost var c := packet[..];
    Memcpy(packet, 54, data, 0, len);
    Be16Same(a, packet[..], 34);
    Be16Same(b, packet[..], 36);
    assert forall k :: 38 <= k < 54 ==> packet[k] == c[k];
  }

  lemma TcpFrameFromPacket(p: seq<u8>, mac: seq<u8>, m: Message)
    requires |p| == PACKET_SIZE && ETH + IP + TCP + |m.payload| <= PACKET_SIZE
    requires IsIpFrame(p[..54 + |m.payload|], mac, PROTO_TCP, m.ends.srcIp, m.ends.dstIp, TCP + |m.payload|)
    requires Be16(p, 34) == m.ends.srcPort && Be16(p, 36) == m.ends.dstPort
    requires forall k :: 38 <= k < 54 ==>
               p[k] == if k == 46 then 0x50 else if k == 47 then 0x18 else if k == 48 || k == 49 then 0xFF else 0
    requires p[54..54 + |m.payload|] == m.payload
    ensures IsTcpFrame(p[..54 + |m.payload|], mac, m)
  {
    hide IsIpFrame;
    var f := p[..54 + |m.payload|];
    assert f[54..] == p[54..54 + |m.payload|];
  }

  /** Builds a TCP segment with PSH and ACK around the payload and queues it; the TCP checksum stays 0. */
  method TcpIpSend(ring: TxRing, mac: array<u8>, ends: Endpoints, data: array<u8>, len: nat) returns (ok: bool)
    requires ring.Valid() && mac.Length == 6 && len <= data.Length && ETH + IP + TCP + len <= PACKET_SIZE
    modifies ring`txTail, ring`pending, ring`accepted, ring.txBuffer, ring.length, ring.status
    ensures ring.Valid() && ring.finished == old(ring.finished)
    ensures ok <==> old(|ring.pending|) < NUM_TX
    ensures if !ok then ring.pending == old(ring.pending)
            else |ring.pending| == old(|ring.pending|) + 1 && ring.pending[..old(|ring.pending|)] == old(ring.pending)
                 && IsTcpFrame(ring.pending[old(|ring.pending|)], old(mac[..]), Message(ends, old(data[..len])))
      ensures ok ==>
        var f := ring.pending[old(|ring.pending|)];
        |f| == 54 + len && f == TcpBytes(old(mac[..]), Message(ends, old(data[..len])), Be16(f, 24))
        && HeaderAddsUp(f[14..34])
  {
    hide SlotsHold, HasFields, Fold, WordSum, IsTcpFrame, IsIpFrame, TcpBytes, HeaderAddsUp, Be16;
    var packet := new u8[PACKET_SIZE](_ => 0);
    var total: u16 := IP + TCP + len;
    PutHeaders(packet, mac, PROTO_TCP, total, ends.srcIp, ends.dstIp);
    ghost var h := packet[..];
    PutTcp(packet, ends, data, len);
    assert packet[..34] == h[..34] && packet[14..34] == h[14..34];
    IpFrameFromPacket(packet[..], mac[..], PROTO_TCP, ends.srcIp, ends.dstIp, TCP + len);
    TcpFrameFromPacket(packet[..], mac[..], Message(ends, data[..len]));
    TcpFrameBytes(packet[..54 + len], mac[..], Message(ends, data[..len]));
    ok := ring.Send(packet, ETH + total);
  }

  /** UDPReceive on a received frame of `plen` bytes in its packet buffer. */
  method UDPReceive(packet: array<u8>, plen: nat, buf: array<u8>, room: u64)
    returns (ok: bool, ends: Endpoints, len: nat)
    requires packet.Length == RECEIVE_SIZE && room <= buf.Length && buf != packet
    requires UdpAccepted(packet[..], plen) ==>
      UdpStart(packet[..]) + UDP + PayloadCount(Be16(packet[..], UdpStart(packet[..]) + 4), UDP, room) <= RECEIVE_SIZE
    modifies buf
    ensures match ParseUdp(old(packet[..]), plen, room)
      case None => !ok && buf[..] == old(buf[..])
      case Some(m) => ok && ends == m.ends && len == |m.payload| && buf[..] == m.payload + old(buf[len..])
    ensures ok <==>
      && 42 <= plen && EtherType(packet[..]) == 0x0800 && Protocol(packet[..]) == 17
      && HeaderLength(packet[..]) + 8 <= TotalLength(packet[..])
      && 14 + HeaderLength(packet[..]) + UdpLength(packet[..]) <= plen
    ensures ok ==> len <= buf.Length && IsUdpContent(packet[..], room, Message(ends, buf[..len]))
    ensures !ok ==> len == room
  {
    hide Be16, Be32, EtherType, Protocol, HeaderLength, TotalLength, UdpLength, IsUdpContent;
    UdpAcceptedFields(packet[..], plen);
    if UdpAccepted(packet[..], plen) {
      UdpContent(packet[..], plen, room);
    }
    ends, len := Endpoints(0, 0, 0, 0), room;
    if plen < 42 {
      return false, ends, len;
    }
    if packet[12] != 0x08 || packet[13] != 0x00 {
      return false, ends, len;
    }
    var header := packet[14] % 0x10 * 4;
    if packet[23] != PROTO_UDP {
      return false, ends, len;
    }
    if Be16(packet[..], 16) < header + UDP {
      return false, ends, len;
    }
    var udp := ETH + header;
    var length := Be16(packet[..], udp + 4);
    if plen < ETH + header + length {
      return false, ends, len;
    }
    ends := Endpoints(Be32(packet[..], 26), Be16(packet[..], udp), Be32(packet[..], 30), Be16(packet[..], udp + 2));
    len := PayloadCount(length, UDP, room);
    Memcpy(buf, 0, packet, udp + UDP, len);
    ok := true;
  }

  method TcpIpRecv(packet: array<u8>, plen: nat, buf: array<u8>, room: u64)
    returns (ok: bool, ends: Endpoints, len: nat)
    requires packet.Length == RECEIVE_SIZE && room <= buf.Length && buf != packet
    requires TcpAccepted(packet[..], plen) ==> 54 + PayloadCount(Be16(packet[..], 16), IP + TCP, room) <= RECEIVE_SIZE
    modifies buf
    ensures match ParseTcp(old(packet[..]), plen, room)
      case None => !ok && buf[..] == old(buf[..])
      case Some(m) => ok && ends == m.ends && len == |m.payload| && buf[..] == m.payload + old(buf[len..])
    ensures ok <==> 54 <= plen && EtherType(packet[..]) == 0x0800 && Protocol(packet[..]) == 6
    ensures ok ==> len <= buf.Length && IsTcpContent(packet[..], room, Message(ends, buf[..len]))
    ensures !ok ==> len == room
  {
    hide Be16, Be32, EtherType, Protocol, HeaderLength, TotalLength, IsTcpContent;
    TcpAcceptedFields(packet[..], plen);
    if TcpAccepted(packet[..], plen) {
      TcpContent(packet[..], plen, room);
    }
    ends, len := Endpoints(0, 0, 0, 0), room;
    if plen < 54 {
      return false, ends, len;
    }
    if packet[12] != 0x08 || packet[13] != 0x00 {
      return false, ends, len;
    }
    if packet[23] != PROTO_TCP {
      return false, ends, len;
    }
    len := PayloadCount(Be16(packet[..], 16), IP + TCP, room);
    ends := Endpoints(Be32(packet[..], 26), Be16(packet[..], 34), Be32(packet[..], 30), Be16(packet[..], 36));
    Memcpy(buf, 0, packet, 54, len);
    ok := true;
  }
}
