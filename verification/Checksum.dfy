/** The Internet checksum of RFC 1071, and the IPv4 and TCP headers that carry it. */
module Checksum {
  import opened Words
  import opened Tcp

  /** Big-endian 16-bit words; an odd last byte is the high half of its word. */
  function WordSum(s: seq<byte>): nat {
    if |s| == 0 then 0
    else if |s| == 1 then 0x100 * s[0]
    else 0x100 * s[0] + s[1] + WordSum(s[2..])
  }

  /** One's-complement fold: `while sum > 0xFFFF`. */
  function Fold(x: nat): (r: u16) {
    if x <= 0xFFFF then x else Fold(x % 0x1_0000 + x / 0x1_0000)
  }

  function Complement(x: u16): u16 {
    0xFFFF - x
  }

  /** `x` and the word `c` together verify. */
  predicate Verifies(x: nat) {
    Fold(x) == 0xFFFF
  }

  // ---- folding is reduction modulo 0xFFFF ---------------------------------------------------------------------

  /** The fold is the representative of `x` modulo 0xFFFF, with 0xFFFF rather than 0 for positive multiples. */
  lemma {:induction false} FoldIsModulo(x: nat)
    ensures Fold(x) % 0xFFFF == x % 0xFFFF
    ensures Fold(x) == 0 <==> x == 0
    decreases x
  {
    if x > 0xFFFF {
      var y := x % 0x1_0000 + x / 0x1_0000;
      FoldIsModulo(y);
      ModShift(y, x / 0x1_0000, 0xFFFF);
      assert x == y + x / 0x1_0000 * 0xFFFF;
    }
  }

  /** The checksum completes its data: with the complement of the folded sum added, the whole verifies. */
  lemma SelfVerifies(x: nat)
    ensures Verifies(x + Complement(Fold(x)))
  {
    OnlyChecksumVerifies(x, Complement(Fold(x)));
  }

  /** The only words that complete `x` are its checksum and, for checksum 0, the other zero. */
  lemma OnlyChecksumVerifies(x: nat, c: u16)
    ensures Verifies(x + c) <==> c == Complement(Fold(x)) || (c == 0xFFFF && Complement(Fold(x)) == 0)
  {
    FoldIsModulo(x);
    FoldIsModulo(x + c);
    var f: nat, r: nat := Fold(x), Fold(x + c);
    hide Fold;
    SumModulo(x, f, c);
    Multiples(r);
    Multiples(f + c);
  }

  lemma Multiples(s: nat)
    requires s <= 2 * 0xFFFF
    ensures s % 0xFFFF == 0 <==> s == 0 || s == 0xFFFF || s == 2 * 0xFFFF
  {
  }

  lemma SumModulo(x: nat, f: nat, c: nat)
    requires x % 0xFFFF == f % 0xFFFF
    ensures (x + c) % 0xFFFF == (f + c) % 0xFFFF
  {
    var k := x / 0xFFFF - f / 0xFFFF;
    assert x == f + k * 0xFFFF;
    ModShift(f + c, k, 0xFFFF);
  }

  /** Corrupting one word of verified data is detected, unless it turns one zero into the other. */
  lemma CorruptionDetected(rest: nat, w: u16, w': u16)
    requires Verifies(rest + w) && w' != w
    ensures Verifies(rest + w') ==> (w == 0 && w' == 0xFFFF) || (w == 0xFFFF && w' == 0)
  {
    OnlyChecksumVerifies(rest, w);
    OnlyChecksumVerifies(rest, w');
  }

  // ---- sums of byte strings ------------------------------------------------------------------------------------

  lemma {:induction false} WordSumAppend(a: seq<byte>, b: seq<byte>)
    requires |a| % 2 == 0
    ensures WordSum(a + b) == WordSum(a) + WordSum(b)
    decreases |a|
  {
    if a == [] {
      assert a + b == b;
    } else {
      assert (a + b)[2..] == a[2..] + b;
      WordSumAppend(a[2..], b);
    }
  }

  /** `s` with its word at even offset `at` replaced. */
  function SetWord(s: seq<byte>, at: nat, w: u16): (r: seq<byte>)
    requires at + 2 <= |s|
    ensures |r| == |s|
  {
    s[at := w / 0x100][at + 1 := w % 0x100]
  }

  lemma TwoBytes(s: seq<byte>)
    requires |s| == 2
    ensures WordSum(s) == 0x100 * s[0] as int + s[1] as int
  {
  }

  lemma SetWordParts(s: seq<byte>, at: nat, w: u16)
    requires at + 2 <= |s| && s[at] == 0 && s[at + 1] == 0
    ensures s == s[..at] + [0, 0] + s[at + 2..]
    ensures SetWord(s, at, w) == s[..at] + [w / 0x100, w % 0x100] + s[at + 2..]
  {
  }

  lemma SetWordSum(s: seq<byte>, at: nat, w: u16)
    requires at + 2 <= |s| && at % 2 == 0 && s[at] == 0 && s[at + 1] == 0
    ensures WordSum(SetWord(s, at, w)) == WordSum(s) + w
  {
    hide *;
    SetWordParts(s, at, w);
    TwoBytes([0, 0]);
    TwoBytes([w / 0x100, w % 0x100]);
    MiddleWord(s[..at], [0, 0], s[at + 2..]);
    MiddleWord(s[..at], [w / 0x100, w % 0x100], s[at + 2..]);
  }

  lemma MiddleWord(a: seq<byte>, m: seq<byte>, b: seq<byte>)
    requires |a| % 2 == 0 && |m| == 2
    ensures WordSum(a + m + b) == WordSum(a) + WordSum(m) + WordSum(b)
  {
    hide *;
    WordSumAppend(a + m, b);
    WordSumAppend(a, m);
  }

  /** No u32 overflow: every partial sum is at most this. */
  lemma {:induction false} WordSumBound(s: seq<byte>)
    ensures WordSum(s) <= 0xFFFF * ((|s| + 1) / 2)
    decreases |s|
  {
    if |s| >= 2 { WordSumBound(s[2..]); }
  }

  const MAX_SUMMED: nat := 131_062

  /** The accumulation loop of `ip_chksum` and `make_tcp_packet`, on a u32 accumulator that does not overflow. */
  method AddWords(data: seq<byte>, start: u32) returns (sum: u32)
    requires start + 0xFFFF * ((|data| + 1) / 2) < TWO32
    ensures sum == start + WordSum(data)
  {
    hide WordSum;
    sum := start;
    var i := 0;
    assert data[0..] == data;
    while i < |data|
      invariant 0 <= i <= |data|
      invariant sum + WordSum(data[i..]) == start + WordSum(data)
      invariant sum + 0xFFFF * ((|data| - i + 1) / 2) < TWO32
    {
      WordSumNext(data, i);
      if i + 1 < |data| {
        sum := sum + (0x100 * data[i] as int + data[i + 1]);
        i := i + 2;
      } else {
        sum := sum + 0x100 * data[i] as int;
        i := i + 1;
      }
    }
    assert WordSum(data[i..]) == 0 by { WordSumNext(data, i); }
  }

  lemma WordSumNext(data: seq<byte>, i: nat)
    requires i <= |data|
    ensures i + 1 < |data| ==>
              WordSum(data[i..]) == 0x100 * data[i] as int + data[i + 1] as int + WordSum(data[i + 2..])
    ensures i + 1 == |data| ==> WordSum(data[i..]) == 0x100 * data[i] as int && WordSum(data[i + 1..]) == 0
    ensures i == |data| ==> WordSum(data[i..]) == 0
  {
    if i + 1 < |data| { assert data[i..][2..] == data[i + 2..]; }
  }

  /** The fold loop terminates, at the fold. */
  method FoldLoop(x: u32) returns (r: u16)
    ensures r == Fold(x)
  {
    var sum: u32 := x;
    while sum > 0xFFFF
      invariant Fold(sum) == Fold(x)
    {
      sum := sum % 0x1_0000 + sum / 0x1_0000;
    }
    return sum;
  }

  method IpChksum(data: seq<byte>) returns (c: u16)
    requires |data| <= MAX_SUMMED
    ensures c == Complement(Fold(WordSum(data)))
  {
    var sum := AddWords(data, 0);
    var f := FoldLoop(sum);
    return Complement(f);
  }

  // ---- IPv4 --------------------------------------------------------------------------------------------------

  function Be16(x: u16): (b: seq<byte>)
    ensures |b| == 2
  {
    [x / 0x100, x % 0x100]
  }

  function Be32(x: u32): (b: seq<byte>)
    ensures |b| == 4
  {
    [x / 0x100_0000, x / 0x1_0000 % 0x100, x / 0x100 % 0x100, x % 0x100]
  }

  function From16(a: byte, b: byte): u16 {
    var a: int, b: int := a, b;
    0x100 * a + b
  }

  function From32(a: byte, b: byte, c: byte, d: byte): u32 {
    var a: int, b: int, c: int, d: int := a, b, c, d;
    0x100_0000 * a + 0x1_0000 * b + 0x100 * c + d
  }

  lemma Be32RoundTrip(x: u32)
    ensures From32(Be32(x)[0], Be32(x)[1], Be32(x)[2], Be32(x)[3]) == x
  {
    var a, b := x / 0x100, x / 0x1_0000;
    assert b == a / 0x100 && x / 0x100_0000 == b / 0x100;
  }

  datatype Ipv4Packet = Ipv4Packet(versionIhl: byte, tos: byte, totalLen: u16, id: u16, flagsOffset: u16, ttl: byte,
                                   protocol: byte, src: IpAddr, dst: IpAddr, payload: seq<byte>)

  const IP_PROTO_TCP: byte := 6

  /** `Ipv4Packet::new`; the length is computed in 16 bits. */
  function NewIpv4(src: IpAddr, dst: IpAddr, protocol: byte, payload: seq<byte>): Ipv4Packet {
    Ipv4Packet(0x45, 0, (20 + |payload|) % 0x1_0000, 0, 0, 64, protocol, src, dst, payload)
  }

  /** The twenty header bytes with checksum field `c`. */
  function Ipv4Header(p: Ipv4Packet, c: u16): (h: seq<byte>)
    ensures |h| == 20
  {
    [p.versionIhl, p.tos] + Be16(p.totalLen) + Be16(p.id) + Be16(p.flagsOffset) + [p.ttl, p.protocol] + Be16(c)
    + p.src + p.dst
  }

  /** `to_bytes`: the emitted header verifies, and only the checksum differs from the fields. */
  method Ipv4ToBytes(p: Ipv4Packet) returns (v: seq<byte>)
    ensures |v| == 20 + |p.payload| && Verifies(WordSum(v[..20]))
    ensures exists c: u16 :: v == Ipv4Header(p, c) + p.payload
  {
    v := Ipv4Header(p, 0) + p.payload;
    assert v[..20] == Ipv4Header(p, 0);
    var sum := IpChksum(v[..20]);
    ghost var h := v[..20];
    SetWordSum(h, 10, sum);
    SelfVerifies(WordSum(h));
    assert SetWord(h, 10, sum) == Ipv4Header(p, sum);
    v := v[10 := sum / 0x100][11 := sum % 0x100];
    assert v[..20] == SetWord(h, 10, sum);
    assert v == Ipv4Header(p, sum) + p.payload;
  }

  /** `Ipv4Packet::parse`. */
  function ParseIpv4(b: seq<byte>): Option<Ipv4Packet> {
    if |b| < 20 then None
    else if b[0] / 16 != 4 then None
    else
      var ihl := b[0] % 16 * 4;
      if ihl < 20 || |b| < ihl then None
      else Some(Ipv4Packet(b[0], b[1], From16(b[2], b[3]), From16(b[4], b[5]), From16(b[6], b[7]), b[8], b[9],
                           b[12..16], b[16..20], b[ihl..]))
  }

  /** Parsing an emitted datagram, with whatever follows it in the frame: bytes past the total length become payload, so
      the packet comes back exactly when there are none. */
  lemma Ipv4RoundTrip(p: Ipv4Packet, c: u16, trailing: seq<byte>)
    requires p.versionIhl == 0x45
    ensures ParseIpv4(Ipv4Header(p, c) + p.payload + trailing) == Some(p.(payload := p.payload + trailing))
    ensures ParseIpv4(Ipv4Header(p, c) + p.payload + trailing) == Some(p) <==> trailing == []
  {
    var b := Ipv4Header(p, c) + p.payload + trailing;
    assert b[12..16] == p.src && b[16..20] == p.dst && b[20..] == p.payload + trailing;
    Longer(p.payload, trailing);
  }

  lemma Longer(a: seq<byte>, b: seq<byte>)
    ensures a + b == a <==> b == []
  {
    assert |a + b| == |a| + |b|;
  }

  // ---- TCP ---------------------------------------------------------------------------------------------------

  function TcpHeader(p: Packet, window: u16, c: u16): (h: seq<byte>)
    ensures |h| == 20
  {
    Be16(p.srcPort) + Be16(p.dstPort) + Be32(p.seqNo) + Be32(p.ackNo) + [0x50, p.flags] + Be16(window) + Be16(c)
    + Be16(0)
  }

  /** The pseudo-header words: both addresses, the protocol and the segment length. */
  function PseudoSum(src: IpAddr, dst: IpAddr, len: nat): nat {
    WordSum(src) + WordSum(dst) + IP_PROTO_TCP + len
  }

  /** `make_tcp_packet`: the segment carries exactly the fields, and verifies together with the pseudo-header. */
  method MakeTcpPacket(p: Packet, window: u16, src: IpAddr, dst: IpAddr) returns (v: seq<byte>)
    requires 20 + |p.payload| <= MAX_SUMMED
    ensures |v| == 20 + |p.payload| && Verifies(PseudoSum(src, dst, |v|) + WordSum(v))
    ensures exists c: u16 :: v == TcpHeader(p, window, c) + p.payload
  {
    hide WordSum, TcpHeader, SetWord, Verifies, Fold, PseudoSum;
    v := TcpHeader(p, window, 0) + p.payload;
    var sum := AddPseudo(src, dst, |v|);
    var total := AddWords(v, sum);
    var f := FoldLoop(total);
    var c := Complement(f);
    TcpHeaderSet(p, window, c);
    SetWordSum(v, 16, c);
    SelfVerifies(total);
    v := SetBytes(v, 16, c);
  }

  method AddPseudo(src: IpAddr, dst: IpAddr, len: nat) returns (sum: u32)
    requires len <= MAX_SUMMED
    ensures sum == PseudoSum(src, dst, len) && sum <= 4 * 0xFFFF + 6 + len
  {
    hide WordSum;
    AddressSum(src);
    AddressSum(dst);
    sum := 0x100 * src[0] as int + src[1];
    sum := sum + (0x100 * src[2] as int + src[3]);
    sum := sum + (0x100 * dst[0] as int + dst[1]);
    sum := sum + (0x100 * dst[2] as int + dst[3]);
    sum := sum + 6;
    sum := sum + len;
  }

  /** Patching a big-endian word. */
  method SetBytes(s: seq<byte>, at: nat, w: u16) returns (r: seq<byte>)
    requires at + 2 <= |s|
    ensures r == SetWord(s, at, w)
  {
    r := s[at := w / 0x100][at + 1 := w % 0x100];
  }

  lemma TcpHeaderSet(p: Packet, window: u16, c: u16)
    ensures var v := TcpHeader(p, window, 0) + p.payload;
            v[16] == 0 && v[17] == 0 && SetWord(v, 16, c) == TcpHeader(p, window, c) + p.payload
  {
  }

  lemma AddressSum(a: IpAddr)
    ensures WordSum(a) == 0x100 * a[0] as int + a[1] as int + (0x100 * a[2] as int + a[3] as int)
  {
    TwoBytes(a[2..]);
  }

  /** `TcpPacket::parse`. */
  function ParseTcp(b: seq<byte>): Option<Packet> {
    if |b| < 20 then None
    else
      var hdr := b[12] / 16 * 4;
      if hdr < 20 || hdr > |b| then None
      else Some(Packet(From16(b[0], b[1]), From16(b[2], b[3]), From32(b[4], b[5], b[6], b[7]),
                       From32(b[8], b[9], b[10], b[11]), b[13], b[hdr..]))
  }

  /** Parsing an emitted segment; the segment carries no length, so again trailing bytes become payload. */
  lemma TcpRoundTrip(p: Packet, window: u16, c: u16, trailing: seq<byte>)
    ensures ParseTcp(TcpHeader(p, window, c) + p.payload + trailing) == Some(p.(payload := p.payload + trailing))
  {
    var b := TcpHeader(p, window, c) + p.payload + trailing;
    Be32RoundTrip(p.seqNo);
    Be32RoundTrip(p.ackNo);
    assert b[20..] == p.payload + trailing;
  }

  /** A segment sent in a datagram, in a frame that carries `trailing` bytes after it: it arrives as the same packet,
      which is what the channels of the connection model carry, exactly when the frame is not padded. */
  method SendAndParse(p: Packet, src: IpAddr, dst: IpAddr, trailing: seq<byte>) returns (r: Option<Packet>)
    requires |p.payload| <= MAX_TCP_PAYLOAD
    ensures r == Some(p.(payload := p.payload + trailing))
    ensures r == Some(p) <==> trailing == []
  {
    hide ParseIpv4, ParseTcp, Ipv4Header, TcpHeader, WordSum;
    var seg := MakeTcpPacket(p, 65535, src, dst);
    var ip := NewIpv4(src, dst, IP_PROTO_TCP, seg);
    var wire := Ipv4ToBytes(ip);
    ghost var c: u16 :| seg == TcpHeader(p, 65535, c) + p.payload;
    ghost var d: u16 :| wire == Ipv4Header(ip, d) + ip.payload;
    Ipv4RoundTrip(ip, d, trailing);
    TcpRoundTrip(p, 65535, c, trailing);
    Longer(p.payload, trailing);
    var got := ParseIpv4(wire + trailing);
    r := ParseTcp(got.value.payload);
  }
}
