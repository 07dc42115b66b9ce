/** IPv4 and TCP headers on the wire: each field in the place that section 3.1 of RFC 791 and of RFC 793 give it, and
    headers with options on the way in. */
module PacketFormat {
  import opened Words
  import opened Tcp
  import opened Checksum

  /** A big-endian word. */
  function Word16(b: seq<byte>, i: nat): nat
    requires i + 2 <= |b|
  {
    var high: int, low: int := b[i], b[i + 1];
    256 * high + low
  }

  function Word32(b: seq<byte>, i: nat): nat
    requires i + 4 <= |b|
  {
    65536 * Word16(b, i) + Word16(b, i + 2)
  }

  /** The header of an emitted datagram: version 4 without options, the length of header and payload, no
      fragmentation, a time to live of 64, and the addresses. */
  lemma DatagramLayout(src: IpAddr, dst: IpAddr, protocol: byte, payload: seq<byte>, c: u16)
    ensures var h := Ipv4Header(NewIpv4(src, dst, protocol, payload), c);
            && h[0] == 0x45 && h[1] == 0 && Word16(h, 2) == (20 + |payload|) % 0x1_0000
            && Word16(h, 4) == 0 && Word16(h, 6) == 0 && h[8] == 64 && h[9] == protocol && Word16(h, 10) == c
            && h[12..16] == src && h[16..20] == dst
  {
  }

  /** The header of an emitted segment: five words long, with the window given and no urgent data. */
  lemma SegmentLayout(p: Packet, window: u16, c: u16)
    ensures var h := TcpHeader(p, window, c);
            && Word16(h, 0) == p.srcPort && Word16(h, 2) == p.dstPort && Word32(h, 4) == p.seqNo
            && Word32(h, 8) == p.ackNo && h[12] == 0x50 && h[13] == p.flags && Word16(h, 14) == window
            && Word16(h, 16) == c && Word16(h, 18) == 0
  {
    Be32RoundTrip(p.seqNo);
    Be32RoundTrip(p.ackNo);
  }

  // ---- on the way in -----------------------------------------------------------------------------------------------

  /** A received header of `words` 32-bit words is followed by its payload: options are passed over, whatever they
      are. A datagram is refused exactly when it is too short, not version 4, or its header is not all there. */
  lemma Ipv4Options(b: seq<byte>, words: nat, options: seq<byte>, payload: seq<byte>)
    requires |b| >= 20 && b[0] == 0x40 + words && 5 <= words <= 15
    requires |options| == 4 * (words - 5) && b[20..] == options + payload
    ensures var r := ParseIpv4(b);
            && r.Some? && r.value.payload == payload && r.value.src == b[12..16] && r.value.dst == b[16..20]
            && r.value.protocol == b[9] && r.value.ttl == b[8] && r.value.totalLen == Word16(b, 2)
  {
    assert b[4 * words..] == b[20..][|options|..] == payload;
  }

  lemma Ipv4Refused(b: seq<byte>)
    ensures ParseIpv4(b).None? <==>
            |b| < 20 || b[0] < 0x45 || b[0] > 0x4F || |b| < 4 * (b[0] as int - 0x40)
  {
  }

  /** The same for a segment: its first 32 bits are the ports, and behind `words` words of header, options included,
      stands its payload. */
  lemma SegmentOptions(b: seq<byte>, words: nat, reserved: nat, options: seq<byte>, payload: seq<byte>)
    requires |b| >= 20 && 5 <= words <= 15 && reserved < 16 && b[12] == 0x10 * words + reserved
    requires |options| == 4 * (words - 5) && b[20..] == options + payload
    ensures ParseTcp(b) == Some(Packet(Word16(b, 0), Word16(b, 2), Word32(b, 4), Word32(b, 8), b[13], payload))
  {
    DivUnique(b[12], 16, words, reserved);
    assert b[4 * words..] == b[20..][|options|..] == payload;
  }

  lemma SegmentRefused(b: seq<byte>)
    ensures ParseTcp(b).None? <==> |b| < 20 || b[12] < 0x50 || |b| < 4 * (b[12] / 0x10)
  {
  }
}
