/** `TcpSocket`: the segment handler as a function, and the object that runs it in place. */
module Tcp {
  import opened Words

  const MAX_TCP_PAYLOAD: nat := 1460

  const SYN: byte := 0x02
  const ACK: byte := 0x10
  const SYN_ACK: byte := 0x12
  const FIN_ACK: byte := 0x11
  const PSH_ACK: byte := 0x18

  type u16 = x: int | 0 <= x < 0x1_0000
  type IpAddr = s: seq<byte> | |s| == 4 witness [0, 0, 0, 0]

  datatype State = Closed | Listen | SynSent | SynRecv | Established | FinWait1 | FinWait2 | CloseWait | Closing

  datatype Packet = Packet(srcPort: u16, dstPort: u16, seqNo: u32, ackNo: u32, flags: byte, payload: seq<byte>)

  datatype Reply = Reply(flags: byte, seqNo: u32, ackNo: u32)

  /** The socket's fields; `buf` is the filled part of `recv_buf`. */
  datatype Socket = Socket(localPort: u16, remotePort: u16, remoteIp: IpAddr, state: State, seqNo: u32, ackNo: u32,
                           lastSeq: u32, lastAck: u32, buf: seq<byte>)

  predicate IsFin(p: Packet) { p.flags % 2 == 1 }
  predicate IsSyn(p: Packet) { p.flags / 2 % 2 == 1 }
  predicate IsRst(p: Packet) { p.flags / 4 % 2 == 1 }
  predicate IsAck(p: Packet) { p.flags / 16 % 2 == 1 }

  /** `wrapping_add`. */
  function Add32(a: u32, n: nat): u32 {
    (a + n) % TWO32
  }

  function ListenSocket(port: u16): Socket {
    Socket(port, 0, [0, 0, 0, 0], Listen, 1, 0, 0, 0, [])
  }

  function ConnectSocket(port: u16): Socket {
    Socket(port, 0, [0, 0, 0, 0], SynSent, 1000, 0, 0, 0, [])
  }

  function Respond(s: Socket, flags: byte): (Socket, Option<Reply>) {
    (s, Some(Reply(flags, s.seqNo, s.ackNo)))
  }

  /** `handle_pkt`. */
  function Handle(s0: Socket, p: Packet, src: IpAddr): (r: (Socket, Option<Reply>))
    requires |s0.buf| <= MAX_TCP_PAYLOAD
    ensures |r.0.buf| <= MAX_TCP_PAYLOAD
  {
    var s := s0.(lastSeq := p.seqNo, lastAck := p.ackNo);
    var next := Add32(p.seqNo, 1);
    if IsRst(p) then (s.(state := Closed), None)
    else
      match s.state
      case Listen =>
        if IsSyn(p) && !IsAck(p)
        then Respond(s.(remoteIp := src, remotePort := p.srcPort, ackNo := next, state := SynRecv), SYN_ACK)
        else (s, None)
      case SynSent =>
        if IsSyn(p) && IsAck(p) then Respond(s.(seqNo := p.ackNo, ackNo := next, state := Established), ACK)
        else if IsSyn(p)
        then Respond(s.(remoteIp := src, remotePort := p.srcPort, ackNo := next, state := SynRecv), SYN_ACK)
        else (s, None)
      case SynRecv =>
        if IsAck(p) then (s.(seqNo := Add32(s.seqNo, 1), state := Established), None) else (s, None)
      case Established =>
        if IsFin(p) then Respond(s.(ackNo := next, state := CloseWait), ACK)
        else if p.payload != [] then
          var n := Min(|p.payload|, MAX_TCP_PAYLOAD - |s.buf|);
          Respond(s.(buf := s.buf + p.payload[..n], ackNo := Add32(p.seqNo, |p.payload|)), ACK)
        else (s, None)
      case FinWait1 =>
        if IsFin(p) && IsAck(p) then Respond(s.(ackNo := next, state := Closed), ACK)
        else if IsFin(p) then Respond(s.(ackNo := next, state := Closing), ACK)
        else if IsAck(p) then (s.(state := FinWait2), None)
        else (s, None)
      case FinWait2 =>
        if IsFin(p) then Respond(s.(ackNo := next, state := Closed), ACK) else (s, None)
      case Closing =>
        if IsAck(p) then (s.(state := Closed), None) else (s, None)
      case _ => (s, None)
  }

  class TcpSocket {
    const localPort: u16
    var remotePort: u16
    var remoteIp: IpAddr
    var state: State
    var seqNo: u32
    var ackNo: u32
    var lastSeq: u32
    var lastAck: u32
    const recvBuf: array<byte>
    var recvLen: nat

    ghost predicate Valid()
      reads this
    {
      recvBuf.Length == MAX_TCP_PAYLOAD && recvLen <= MAX_TCP_PAYLOAD
    }

    ghost function Value(): Socket
      requires Valid()
      reads this, recvBuf
    {
      Socket(localPort, remotePort, remoteIp, state, seqNo, ackNo, lastSeq, lastAck, recvBuf[..recvLen])
    }

    /** `listen` and `connect`; the caller of `connect` names the peer (`tcp_connect`). */
    constructor (port: u16, active: bool, peerIp: IpAddr, peerPort: u16)
      ensures Valid() && fresh(recvBuf)
      ensures Value() == if active then ConnectSocket(port).(remoteIp := peerIp, remotePort := peerPort)
                         else ListenSocket(port)
    {
      localPort := port;
      remotePort := if active then peerPort else 0;
      remoteIp := if active then peerIp else [0, 0, 0, 0];
      state := if active then SynSent else Listen;
      seqNo := if active then 1000 else 1;
      ackNo, lastSeq, lastAck := 0, 0, 0;
      recvBuf := new byte[MAX_TCP_PAYLOAD](_ => 0);
      recvLen := 0;
    }

    /** Append as much of a payload as the buffer still takes. */
    method Store(payload: seq<byte>)
      requires Valid()
      modifies this`recvLen, recvBuf
      ensures Valid()
      ensures recvBuf[..recvLen]
              == old(recvBuf[..recvLen]) + payload[..Min(|payload|, 1460 - old(recvLen))]
    {
      var n := Min(|payload|, MAX_TCP_PAYLOAD - recvLen);
      forall k | 0 <= k < n { recvBuf[recvLen + k] := payload[k]; }
      recvLen := recvLen + n;
    }

    method HandlePkt(p: Packet, src: IpAddr) returns (reply: Option<Reply>)
      requires Valid()
      modifies this, recvBuf
      ensures Valid() && (Value(), reply) == Handle(old(Value()), p, src)
    {
      lastSeq, lastAck := p.seqNo, p.ackNo;
      reply := None;
      if IsRst(p) {
        state := Closed;
        return;
      }
      match state
      case Listen =>
        if IsSyn(p) && !IsAck(p) {
          remoteIp, remotePort := src, p.srcPort;
          ackNo := Add32(p.seqNo, 1);
          state := SynRecv;
          reply := Some(Reply(SYN_ACK, seqNo, ackNo));
        }
      case SynSent =>
        if IsSyn(p) && IsAck(p) {
          seqNo := p.ackNo;
          ackNo := Add32(p.seqNo, 1);
          state := Established;
          reply := Some(Reply(ACK, seqNo, ackNo));
        } else if IsSyn(p) {
          remoteIp, remotePort := src, p.srcPort;
          ackNo := Add32(p.seqNo, 1);
          state := SynRecv;
          reply := Some(Reply(SYN_ACK, seqNo, ackNo));
        }
      case SynRecv =>
        if IsAck(p) {
          seqNo := Add32(seqNo, 1);
          state := Established;
        }
      case Established =>
        if IsFin(p) {
          ackNo := Add32(p.seqNo, 1);
          state := CloseWait;
          reply := Some(Reply(ACK, seqNo, ackNo));
        } else if p.payload != [] {
          Store(p.payload);
          ackNo := Add32(p.seqNo, |p.payload|);
          reply := Some(Reply(ACK, seqNo, ackNo));
        }
      case FinWait1 =>
        if IsFin(p) {
          ackNo := Add32(p.seqNo, 1);
          state := if IsAck(p) then Closed else Closing;
          reply := Some(Reply(ACK, seqNo, ackNo));
        } else if IsAck(p) {
          state := FinWait2;
        }
      case FinWait2 =>
        if IsFin(p) {
          ackNo := Add32(p.seqNo, 1);
          state := Closed;
          reply := Some(Reply(ACK, seqNo, ackNo));
        }
      case Closing =>
        if IsAck(p) { state := Closed; }
      case _ =>
    }

    /** `recv`: hands over the front of the buffer and empties it, whatever did not fit in `out`. */
    method Recv(out: array<byte>) returns (r: Option<nat>)
      requires Valid() && out != recvBuf
      modifies this`recvLen, out
      ensures Valid() && recvLen == 0 && Value() == old(Value()).(buf := [])
      ensures r.None? <==> old(recvLen) == 0
      ensures r.None? ==> out[..] == old(out[..])
      ensures r.Some? ==>
                var n := Min(old(recvLen), out.Length);
                r.value == n && out[..n] == old(recvBuf[..recvLen])[..n] && out[n..] == old(out[n..])
    {
      if recvLen == 0 { return None; }
      var n := Min(recvLen, out.Length);
      forall k | 0 <= k < n { out[k] := recvBuf[k]; }
      recvLen := 0;
      return Some(n);
    }

    /** `tcp_close` on this socket: a FIN with the current numbers, which it does not advance. */
    method Close() returns (r: Option<Packet>)
      requires Valid()
      modifies this`state
      ensures Valid() && (r.None? <==> old(state) != Established && old(state) != CloseWait)
      ensures Value() == if r.None? then old(Value()) else old(Value()).(state := FinWait1)
      ensures r.Some? ==> r.value == Packet(localPort, remotePort, old(seqNo), ackNo, 0x11, [])
    {
      if state != Established && state != CloseWait { return None; }
      state := FinWait1;
      return Some(Packet(localPort, remotePort, seqNo, ackNo, FIN_ACK, []));
    }

    /** `tcp_send` on this socket: the segment put on the wire, at most one full payload. */
    method Send(data: seq<byte>) returns (r: Option<Packet>)
      requires Valid()
      modifies this`seqNo
      ensures Valid() && (r.None? <==> old(state) != Established)
      ensures r.None? ==> Value() == old(Value())
      ensures r.Some? ==>
                var n := Min(|data|, 1460);
                && Value() == old(Value()).(seqNo := Add32(old(seqNo), n))
                && r.value == Packet(localPort, remotePort, old(seqNo), ackNo, 0x18, data[..n])
    {
      if state != Established { return None; }
      var n := Min(|data|, MAX_TCP_PAYLOAD);
      r := Some(Packet(localPort, remotePort, seqNo, ackNo, PSH_ACK, data[..n]));
      seqNo := Add32(seqNo, n);
    }
  }
}
