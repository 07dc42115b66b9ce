/** Two sockets joined by lossless FIFO channels: handshake and data transfer, over every interleaving. */
module TcpConnection {
  import opened Words
  import opened Tcp

  /** One end: its socket, what it has put on the wire and the peer has not taken yet (oldest first), every byte it
      accepted for sending, and every byte its reader was handed. */
  datatype End = End(sock: Socket, ip: IpAddr, isn: u32, out: seq<Packet>, sent: seq<byte>, got: seq<byte>)

  datatype Net = Net(a: End, b: End)

  function Swap(n: Net): Net {
    Net(n.b, n.a)
  }

  /** Events at one end. `Syn` is the segment of `tcp_connect`, or its repetition once an address resolves. */
  datatype Event = Syn | Deliver | Send(data: seq<byte>) | Recv(room: nat)

  function SegmentOf(e: End, flags: byte, seqNo: u32, ackNo: u32, payload: seq<byte>): Packet {
    Packet(e.sock.localPort, e.sock.remotePort, seqNo, ackNo, flags, payload)
  }

  /** `find_tcp_socket` with one socket at this end. */
  predicate Accepts(s: Socket, p: Packet) {
    s.localPort == p.dstPort && (s.remotePort == p.srcPort || s.state == Listen)
  }

  /** `handle_tcp`: the segment is handled and any reply sent. */
  function Receive(e: End, p: Packet, src: IpAddr): End
    requires |e.sock.buf| <= MAX_TCP_PAYLOAD
  {
    if !Accepts(e.sock, p) then e
    else
      var (s, reply) := Handle(e.sock, p, src);
      var e' := e.(sock := s);
      match reply
      case None => e'
      case Some(r) => e'.(out := e'.out + [SegmentOf(e', r.flags, r.seqNo, r.ackNo, [])])
  }

  /** A step of end `a`; events that do not apply change nothing. */
  function Step(n: Net, ev: Event): Net
    requires |n.a.sock.buf| <= MAX_TCP_PAYLOAD
  {
    var a := n.a;
    match ev
    case Syn =>
      if a.sock.state != SynSent then n
      else n.(a := a.(out := a.out + [SegmentOf(a, SYN, a.sock.seqNo, 0, [])]))
    case Deliver =>
      if n.b.out == [] then n
      else Net(Receive(a, n.b.out[0], n.b.ip), n.b.(out := n.b.out[1..]))
    case Send(data) =>
      if a.sock.state != Established then n
      else
        var k := Min(|data|, MAX_TCP_PAYLOAD);
        n.(a := a.(out := a.out + [SegmentOf(a, PSH_ACK, a.sock.seqNo, a.sock.ackNo, data[..k])],
                   sock := a.sock.(seqNo := Add32(a.sock.seqNo, k)),
                   sent := a.sent + data[..k]))
    case Recv(room) =>
      n.(a := a.(got := a.got + a.sock.buf[..Min(|a.sock.buf|, room)], sock := a.sock.(buf := [])))
  }

  /** What the receiving side must respect for nothing to be lost: a segment is taken only when it fits the rest of
      the buffer, and the reader offers room for all of it. */
  predicate Careful(n: Net, ev: Event) {
    match ev
    case Deliver =>
      n.b.out == [] || n.a.sock.state != Established || |n.a.sock.buf| + |n.b.out[0].payload| <= MAX_TCP_PAYLOAD
    case Recv(room) => |n.a.sock.buf| <= room
    case _ => true
  }

  // ---- the invariant -----------------------------------------------------------------------------------------

  function Payloads(ps: seq<Packet>): seq<byte> {
    if ps == [] then [] else ps[0].payload + Payloads(ps[1..])
  }

  predicate HasAck(ps: seq<Packet>) {
    exists i :: 0 <= i < |ps| && IsAck(ps[i])
  }

  /** Data arrives only at an established receiver, at consecutive sequence numbers from `off` bytes on. */
  predicate InOrder(ps: seq<Packet>, isn: u32, off: nat, established: bool) {
    if ps == [] then true
    else
      && (ps[0].payload != [] ==> established && ps[0].seqNo == Add32(isn, 1 + off))
      && InOrder(ps[1..], isn, off + |ps[0].payload|, established || IsAck(ps[0]))
  }

  predicate Opening(s: State) {
    s == Listen || s == SynSent
  }

  predicate SegOk(p: Packet, x: End, y: End) {
    && p.srcPort == x.sock.localPort && p.dstPort == y.sock.localPort
    && (|| (p.flags == SYN && p.payload == [] && p.seqNo == x.isn && x.sock.state != Listen)
        || (p.flags == SYN_ACK && p.payload == [] && p.seqNo == x.isn && p.ackNo == Add32(y.isn, 1)
            && !Opening(x.sock.state))
        || (p.flags == ACK && p.payload == [] && x.sock.state == Established)
        || (p.flags == PSH_ACK && |p.payload| <= MAX_TCP_PAYLOAD && x.sock.state == Established))
  }

  /** Every byte handed over, buffered or in flight is a byte sent, in order. */
  predicate Conserved(x: End, y: End) {
    y.got + y.sock.buf + Payloads(x.out) == x.sent
  }

  function Received(y: End): nat {
    |y.got| + |y.sock.buf|
  }

  predicate States(x: State, y: State) {
    && (Opening(x) || x == SynRecv || x == Established)
    && (x == SynRecv ==> y != Listen)
    && (x == Established ==> !Opening(y))
  }

  predicate Ends(x: End, y: End) {
    && |x.sock.buf| <= MAX_TCP_PAYLOAD
    && (x.sock.state != Listen ==> x.sock.remotePort == y.sock.localPort)
    && x.sock.seqNo == (if x.sock.state == Established then Add32(x.isn, 1 + |x.sent|) else x.isn)
    && (!Opening(y.sock.state) ==> y.sock.ackNo == Add32(x.isn, 1 + Received(y)))
    && (y.sock.state != Established ==> Received(y) == 0)
    && (x.sock.state != Established ==> x.sent == [])
  }

  predicate Wire(x: End, y: End) {
    && (forall i :: 0 <= i < |x.out| ==> SegOk(x.out[i], x, y))
    && (!Opening(x.sock.state) && y.sock.state != Established ==> HasAck(x.out))
    && InOrder(x.out, x.isn, Received(y), y.sock.state == Established)
  }

  /** Everything about the direction from `x` to `y`. */
  predicate Half(x: End, y: End) {
    States(x.sock.state, y.sock.state) && Ends(x, y) && Wire(x, y) && Conserved(x, y)
  }

  predicate Inv(n: Net) {
    Half(n.a, n.b) && Half(n.b, n.a)
  }

  predicate Start(e: End, peer: End) {
    && e.out == [] && e.sent == [] && e.got == []
    && (|| (e.isn == 1 && e.sock == ListenSocket(e.sock.localPort))
        || (e.isn == 1000
            && e.sock == ConnectSocket(e.sock.localPort).(remoteIp := peer.ip, remotePort := peer.sock.localPort)))
  }

  predicate Initial(n: Net) {
    Start(n.a, n.b) && Start(n.b, n.a)
  }

  lemma InitialInv(n: Net)
    requires Initial(n)
    ensures Inv(n)
  {
  }

  // ---- appending to a channel --------------------------------------------------------------------------------

  lemma {:induction false} PayloadsAppend(ps: seq<Packet>, p: Packet)
    ensures Payloads(ps + [p]) == Payloads(ps) + p.payload
    decreases |ps|
  {
    if ps != [] {
      assert (ps + [p])[1..] == ps[1..] + [p];
      PayloadsAppend(ps[1..], p);
    } else {
      assert (ps + [p])[1..] == [];
    }
  }

  lemma {:induction false} InOrderAppend(ps: seq<Packet>, isn: u32, off: nat, established: bool, p: Packet)
    requires InOrder(ps, isn, off, established)
    requires p.payload != [] ==> (established || HasAck(ps)) && p.seqNo == Add32(isn, 1 + off + |Payloads(ps)|)
    ensures InOrder(ps + [p], isn, off, established)
    decreases |ps|
  {
    var q := ps + [p];
    if ps == [] {
      assert q[1..] == [];
    } else {
      assert q[1..] == ps[1..] + [p];
      if !established && !IsAck(ps[0]) && HasAck(ps) {
        var i :| 0 <= i < |ps| && IsAck(ps[i]);
        assert ps[1..][i - 1] == ps[i];
      }
      InOrderAppend(ps[1..], isn, off + |ps[0].payload|, established || IsAck(ps[0]), p);
    }
  }

  lemma HasAckAppend(ps: seq<Packet>, p: Packet)
    ensures HasAck(ps + [p]) <==> HasAck(ps) || IsAck(p)
  {
    if HasAck(ps) {
      var i :| 0 <= i < |ps| && IsAck(ps[i]);
      assert (ps + [p])[i] == ps[i];
    }
    if IsAck(p) { assert (ps + [p])[|ps|] == p; }
  }

  /** One more segment on the wire from `x`, whose state may have advanced to `x'`. */
  lemma Append(x: End, y: End, x': End, p: Packet)
    requires Wire(x, y) && Conserved(x, y) && SegOk(p, x', y)
    requires x'.out == x.out + [p] && x'.sent == x.sent + p.payload && x'.isn == x.isn
    requires x'.sock.localPort == x.sock.localPort
    requires x'.sock.state == x.sock.state || (Opening(x.sock.state) && !Opening(x'.sock.state))
    requires Opening(x.sock.state) && !Opening(x'.sock.state) ==> IsAck(p)
    requires x.sock.state == SynSent ==> x'.sock.state != Listen
    requires x.sock.state != x'.sock.state ==> x.sock.state == SynSent || x.out == []
    requires p.payload != [] ==> x.sock.state == Established && p.seqNo == Add32(x.isn, 1 + |x.sent|)
    ensures Wire(x', y) && Conserved(x', y)
  {
    hide Handle, InOrder, IsAck, HasAck;
    HasAckAppend(x.out, p);
    PayloadsAppend(x.out, p);
    assert |x.sent| == Received(y) + |Payloads(x.out)|;
    InOrderAppend(x.out, x.isn, Received(y), y.sock.state == Established, p);
    forall i | 0 <= i < |x'.out| ensures SegOk(x'.out[i], x', y) {
      if i < |x.out| { assert SegOk(x.out[i], x, y); }
    }
  }

  // ---- the sender's own steps --------------------------------------------------------------------------------

  lemma SynKeeps(n: Net)
    requires Inv(n)
    ensures Inv(Step(n, Syn))
  {
    hide Handle, InOrder, HasAck, Payloads;
    if n.a.sock.state == SynSent {
      var p := SegmentOf(n.a, SYN, n.a.sock.seqNo, 0, []);
      var n' := Step(n, Syn);
      assert n.a.sent + [] == n.a.sent;
      Append(n.a, n.b, n'.a, p);
    }
  }

  lemma SendKeeps(n: Net, data: seq<byte>)
    requires Inv(n)
    ensures Inv(Step(n, Send(data)))
  {
    hide Handle, InOrder, HasAck, Payloads;
    if n.a.sock.state == Established {
      var n' := Step(n, Send(data));
      var p := n'.a.out[|n.a.out|];
      Append(n.a, n.b, n'.a, p);
      AddAdd(n.a.isn, 1 + |n.a.sent|, |p.payload|);
    }
  }

  lemma AddAdd(a: u32, m: nat, n: nat)
    ensures Add32(Add32(a, m), n) == Add32(a, m + n)
  {
    var s: int := a + m;
    ModShift(s % TWO32 + n, s / TWO32, TWO32);
  }

  lemma RecvKeeps(n: Net, room: nat)
    requires Inv(n) && |n.a.sock.buf| <= room
    ensures Inv(Step(n, Recv(room)))
  {
    hide Handle, InOrder, HasAck, Payloads;
    var buf := n.a.sock.buf;
    assert buf[..Min(|buf|, room)] == buf;
    assert n.a.got + buf + [] == n.a.got + buf;
    var n' := Step(n, Recv(room));
    assert Received(n'.a) == Received(n.a);
    assert forall i :: 0 <= i < |n.b.out| ==> SegOk(n.b.out[i], n.b, n'.a);
    assert forall i :: 0 <= i < |n.a.out| ==> SegOk(n'.a.out[i], n'.a, n.b);
  }

  // ---- delivery ----------------------------------------------------------------------------------------------

  /** The direction into `a` after its oldest segment was taken. */
  lemma Pop(b: End, a: End, a': End, h: Packet)
    requires Wire(b, a) && Conserved(b, a) && b.out != [] && h == b.out[0]
    requires a'.sock.localPort == a.sock.localPort && a'.isn == a.isn && a'.got == a.got
    requires a'.sock.buf == a.sock.buf + h.payload
    requires a'.sock.state == Established <==> a.sock.state == Established || IsAck(h)
    ensures var b' := b.(out := b.out[1..]); Wire(b', a') && Conserved(b', a')
  {
    hide Handle, IsAck;
    var b' := b.(out := b.out[1..]);
    assert Received(a') == Received(a) + |h.payload|;
    if HasAck(b.out) && !IsAck(h) {
      var i :| 0 <= i < |b.out| && IsAck(b.out[i]);
      assert b.out[1..][i - 1] == b.out[i];
    }
    forall i | 0 <= i < |b'.out| ensures SegOk(b'.out[i], b', a') {
      assert b'.out[i] == b.out[i + 1];
    }
    assert a.got + a.sock.buf + (h.payload + Payloads(b'.out)) == a.got + (a.sock.buf + h.payload) + Payloads(b'.out);
  }

  function Touched(s: Socket, p: Packet): Socket {
    s.(lastSeq := p.seqNo, lastAck := p.ackNo)
  }

  lemma HeadFacts(n: Net)
    requires Inv(n) && n.b.out != []
    ensures SegOk(n.b.out[0], n.b, n.a) && Accepts(n.a.sock, n.b.out[0]) && |n.a.sock.buf| <= MAX_TCP_PAYLOAD
    ensures n.b.out[0].payload != [] ==> n.a.sock.state == Established
  {
    hide Payloads, HasAck, Add32;
    assert SegOk(n.b.out[0], n.b, n.a);
  }

  /** The possible effects of a segment `h` on its receiver. */
  predicate Effect(a: End, h: Packet, src: IpAddr, a': End) {
    var s := Touched(a.sock, h);
    || (a' == a.(sock := s) && h.payload == []
        && (a.sock.state == Established || (a.sock.state == SynRecv && !IsAck(h))))
    || (a' == a.(sock := s.(seqNo := Add32(s.seqNo, 1), state := Established)) && h.payload == []
        && a.sock.state == SynRecv && IsAck(h))
    || (h.flags == SYN && h.payload == [] && Opening(a.sock.state) && Answered(a, h, src, a'))
    || (h.flags == SYN_ACK && h.payload == [] && a.sock.state == SynSent && Completed(a, h, a'))
    || (h.flags == PSH_ACK && h.payload != [] && a.sock.state == Established && Stored(a, h, a'))
  }

  lemma OpeningEffect(a: End, h: Packet, src: IpAddr)
    requires |a.sock.buf| <= MAX_TCP_PAYLOAD && Accepts(a.sock, h) && h.payload == []
    requires Opening(a.sock.state) && (h.flags == SYN || (h.flags == SYN_ACK && a.sock.state == SynSent))
    ensures Effect(a, h, src, Receive(a, h, src))
  {
    hide Add32, Accepts, Stored;
  }

  lemma SynRecvEffect(a: End, h: Packet, src: IpAddr)
    requires |a.sock.buf| <= MAX_TCP_PAYLOAD && Accepts(a.sock, h) && h.payload == [] && a.sock.state == SynRecv
    requires h.flags == SYN || h.flags == SYN_ACK || h.flags == ACK || h.flags == PSH_ACK
    ensures Effect(a, h, src, Receive(a, h, src))
  {
    hide Add32, Accepts, Stored, Answered, Completed;
  }

  lemma EstablishedEffect(a: End, h: Packet, src: IpAddr)
    requires |a.sock.buf| + |h.payload| <= MAX_TCP_PAYLOAD && Accepts(a.sock, h) && a.sock.state == Established
    requires h.flags == SYN || h.flags == SYN_ACK || h.flags == ACK || h.flags == PSH_ACK
    requires h.payload != [] ==> h.flags == PSH_ACK
    ensures Effect(a, h, src, Receive(a, h, src))
  {
    hide Add32, Accepts, Answered, Completed;
    assert h.payload[..|h.payload|] == h.payload;
  }

  /** What can happen to a segment in a connection that satisfies the invariant: it is never refused, and a payload
      only ever meets an established receiver. */
  lemma DeliverCases(n: Net)
    requires Inv(n) && n.b.out != [] && Careful(n, Deliver)
    ensures |n.a.sock.buf| <= MAX_TCP_PAYLOAD && Effect(n.a, n.b.out[0], n.b.ip, Receive(n.a, n.b.out[0], n.b.ip))
  {
    HeadFacts(n);
    assert States(n.b.sock.state, n.a.sock.state) && States(n.a.sock.state, n.b.sock.state);
    hide Half, Add32, Effect, Receive, Accepts;
    if Opening(n.a.sock.state) {
      OpeningEffect(n.a, n.b.out[0], n.b.ip);
    } else if n.a.sock.state == SynRecv {
      SynRecvEffect(n.a, n.b.out[0], n.b.ip);
    } else {
      EstablishedEffect(n.a, n.b.out[0], n.b.ip);
    }
  }

  predicate Answered(a: End, h: Packet, src: IpAddr, a': End) {
    var s := Touched(a.sock, h).(remoteIp := src, remotePort := h.srcPort, ackNo := Add32(h.seqNo, 1),
                                 state := SynRecv);
    a' == a.(sock := s, out := a.out + [Packet(s.localPort, s.remotePort, s.seqNo, s.ackNo, SYN_ACK, [])])
  }

  predicate Completed(a: End, h: Packet, a': End) {
    var s := Touched(a.sock, h).(seqNo := h.ackNo, ackNo := Add32(h.seqNo, 1), state := Established);
    a' == a.(sock := s, out := a.out + [Packet(s.localPort, s.remotePort, s.seqNo, s.ackNo, ACK, [])])
  }

  predicate Stored(a: End, h: Packet, a': End) {
    var s := Touched(a.sock, h).(buf := a.sock.buf + h.payload, ackNo := Add32(h.seqNo, |h.payload|));
    a' == a.(sock := s, out := a.out + [Packet(s.localPort, s.remotePort, s.seqNo, s.ackNo, ACK, [])])
  }

  lemma SilentKeeps(n: Net, a': End)
    requires Inv(n) && n.b.out != []
    requires var h := n.b.out[0];
             && h.payload == [] && a' == n.a.(sock := Touched(n.a.sock, h))
             && (n.a.sock.state == Established || (n.a.sock.state == SynRecv && !IsAck(h)))
    ensures Inv(Net(a', n.b.(out := n.b.out[1..])))
  {
    var h := n.b.out[0];
    hide Handle, InOrder, HasAck, Payloads, IsAck, Add32;
    assert n.a.sock.buf + h.payload == n.a.sock.buf;
    Pop(n.b, n.a, a', h);
    assert forall i :: 0 <= i < |n.a.out| ==> SegOk(n.a.out[i], a', n.b.(out := n.b.out[1..]));
  }

  lemma EstablishKeeps(n: Net, a': End)
    requires Inv(n) && n.b.out != []
    requires var h := n.b.out[0];
             && h.payload == [] && n.a.sock.state == SynRecv && IsAck(h)
             && a' == n.a.(sock := Touched(n.a.sock, h).(seqNo := Add32(n.a.sock.seqNo, 1), state := Established))
    ensures Inv(Net(a', n.b.(out := n.b.out[1..])))
  {
    var h := n.b.out[0];
    assert SegOk(h, n.b, n.a);
    assert !Opening(n.b.sock.state);
    hide Handle, InOrder, HasAck, Payloads, IsAck, Add32;
    assert n.a.sock.buf + h.payload == n.a.sock.buf;
    Pop(n.b, n.a, a', h);
    assert forall i :: 0 <= i < |n.a.out| ==> SegOk(n.a.out[i], n.a, n.b);
    assert forall i :: 0 <= i < |n.a.out| ==> SegOk(n.a.out[i], a', n.b.(out := n.b.out[1..]));
  }

  /** An opening end meets a SYN: passive open, or simultaneous open. */
  lemma AnswerKeeps(n: Net, a': End)
    requires Inv(n) && n.b.out != []
    requires var h := n.b.out[0];
             && h.payload == [] && Opening(n.a.sock.state) && h.flags == SYN && Answered(n.a, h, n.b.ip, a')
    ensures Inv(Net(a', n.b.(out := n.b.out[1..])))
  {
    var h := n.b.out[0];
    var b' := n.b.(out := n.b.out[1..]);
    assert SegOk(h, n.b, n.a);
    assert !IsAck(h);
    hide Handle, InOrder, HasAck, Payloads, Add32;
    assert n.a.sock.buf + h.payload == n.a.sock.buf;
    Pop(n.b, n.a, a', h);
    var p := a'.out[|n.a.out|];
    assert n.a.sent + p.payload == n.a.sent;
    ListenerSilent(n.a, n.b);
    assert SegOk(p, a', n.b);
    Append(n.a, n.b, a', p);
    assert forall i :: 0 <= i < |a'.out| ==> SegOk(a'.out[i], a', n.b);
    assert forall i :: 0 <= i < |a'.out| ==> SegOk(a'.out[i], a', b');
  }

  lemma ListenerSilent(x: End, y: End)
    requires Wire(x, y)
    ensures x.sock.state == Listen ==> x.out == []
  {
    hide Handle, InOrder, HasAck, Add32;
    if x.out != [] { assert SegOk(x.out[0], x, y); }
  }

  /** The active end meets the SYN-ACK. */
  lemma CompleteKeeps(n: Net, a': End)
    requires Inv(n) && n.b.out != []
    requires var h := n.b.out[0];
             && h.payload == [] && n.a.sock.state == SynSent && h.flags == SYN_ACK && Completed(n.a, h, a')
    ensures Inv(Net(a', n.b.(out := n.b.out[1..])))
  {
    var h := n.b.out[0];
    var b' := n.b.(out := n.b.out[1..]);
    assert SegOk(h, n.b, n.a);
    assert IsAck(h);
    hide Handle, InOrder, HasAck, Payloads, Add32;
    assert n.a.sock.buf + h.payload == n.a.sock.buf;
    Pop(n.b, n.a, a', h);
    var p := a'.out[|n.a.out|];
    assert n.a.sent + p.payload == n.a.sent;
    assert SegOk(p, a', n.b);
    Append(n.a, n.b, a', p);
    assert forall i :: 0 <= i < |a'.out| ==> SegOk(a'.out[i], a', n.b);
    assert forall i :: 0 <= i < |a'.out| ==> SegOk(a'.out[i], a', b');
  }

  /** Data that fits moves from the wire to the buffer, and the acknowledgement moves with it. */
  lemma StoreKeeps(n: Net, a': End)
    requires Inv(n) && n.b.out != []
    requires var h := n.b.out[0];
             && h.payload != [] && n.a.sock.state == Established && |n.a.sock.buf| + |h.payload| <= MAX_TCP_PAYLOAD
             && Stored(n.a, h, a')
    ensures Inv(Net(a', n.b.(out := n.b.out[1..])))
  {
    var h := n.b.out[0];
    var b' := n.b.(out := n.b.out[1..]);
    assert h.seqNo == Add32(n.b.isn, 1 + Received(n.a));
    AddAdd(n.b.isn, 1 + Received(n.a), |h.payload|);
    hide Handle, InOrder, HasAck, Payloads, Add32;
    Pop(n.b, n.a, a', h);
    var p := a'.out[|n.a.out|];
    assert n.a.sent + p.payload == n.a.sent;
    assert SegOk(p, a', n.b);
    Append(n.a, n.b, a', p);
    assert forall i :: 0 <= i < |a'.out| ==> SegOk(a'.out[i], a', n.b);
    assert forall i :: 0 <= i < |a'.out| ==> SegOk(a'.out[i], a', b');
  }

  lemma DeliverKeeps(n: Net)
    requires Inv(n) && Careful(n, Deliver)
    ensures Inv(Step(n, Deliver))
  {
    if n.b.out != [] {
      DeliverCases(n);
      hide Half, Touched, Answered, Completed, Stored, Receive, IsAck;
      var (a, h) := (n.a, n.b.out[0]);
      var a' := Receive(a, h, n.b.ip);
      if h.payload != [] { StoreKeeps(n, a'); }
      else if Opening(a.sock.state) && h.flags == SYN { AnswerKeeps(n, a'); }
      else if Opening(a.sock.state) { CompleteKeeps(n, a'); }
      else if a.sock.state == SynRecv && IsAck(h) { EstablishKeeps(n, a'); }
      else { SilentKeeps(n, a'); }
    }
  }

  // ---- runs --------------------------------------------------------------------------------------------------

  /** An event at end `a` (true) or `b`. */
  function At(n: Net, left: bool, ev: Event): Net
    requires |n.a.sock.buf| <= MAX_TCP_PAYLOAD && |n.b.sock.buf| <= MAX_TCP_PAYLOAD
  {
    if left then Step(n, ev) else Swap(Step(Swap(n), ev))
  }

  ghost predicate CarefulRun(ns: seq<Net>, evs: seq<(bool, Event)>) {
    && |ns| == |evs| + 1 && Initial(ns[0])
    && forall i :: 0 <= i < |evs| ==> CarefulStep(ns[i], evs[i].0, evs[i].1, ns[i + 1])
  }

  ghost predicate CarefulStep(n: Net, left: bool, ev: Event, n': Net) {
    && |n.a.sock.buf| <= MAX_TCP_PAYLOAD && |n.b.sock.buf| <= MAX_TCP_PAYLOAD
    && Careful(if left then n else Swap(n), ev) && n' == At(n, left, ev)
  }

  lemma StepKeeps(n: Net, left: bool, ev: Event, n': Net)
    requires Inv(n) && CarefulStep(n, left, ev, n')
    ensures Inv(n')
  {
    hide Half, Receive, Step;
    var m := if left then n else Swap(n);
    match ev
    case Syn => SynKeeps(m);
    case Deliver => DeliverKeeps(m);
    case Send(data) => SendKeeps(m, data);
    case Recv(room) => RecvKeeps(m, room);
  }

  /** Over every interleaving the connection invariant holds at every moment. */
  lemma {:induction false} AlwaysInv(ns: seq<Net>, evs: seq<(bool, Event)>, k: nat)
    requires CarefulRun(ns, evs) && k < |ns|
    ensures Inv(ns[k])
  {
    hide Half, Initial, CarefulStep;
    if k == 0 {
      InitialInv(ns[0]);
    } else {
      AlwaysInv(ns, evs, k - 1);
      assert CarefulStep(ns[k - 1], evs[k - 1].0, evs[k - 1].1, ns[k - 1 + 1]);
      StepKeeps(ns[k - 1], evs[k - 1].0, evs[k - 1].1, ns[k]);
    }
  }

  /** TCP conservation in both directions: bytes read, buffered and in flight are the bytes sent, and as soon as the
      sender is established the receiver's acknowledgement plus the payload in flight is the sender's sequence number.
      */
  lemma Conservation(ns: seq<Net>, evs: seq<(bool, Event)>, k: nat)
    requires CarefulRun(ns, evs) && k < |ns|
    ensures Conserved(ns[k].a, ns[k].b) && Conserved(ns[k].b, ns[k].a)
    ensures ns[k].a.sock.state == Established ==> Synchronised(ns[k].a, ns[k].b)
    ensures ns[k].b.sock.state == Established ==> Synchronised(ns[k].b, ns[k].a)
  {
    hide Half, Conserved, Synchronised, CarefulRun;
    AlwaysInv(ns, evs, k);
    HalfSynchronised(ns[k].a, ns[k].b);
    HalfSynchronised(ns[k].b, ns[k].a);
  }

  predicate Synchronised(x: End, y: End) {
    Add32(y.sock.ackNo, |Payloads(x.out)|) == x.sock.seqNo
  }

  lemma HalfSynchronised(x: End, y: End)
    requires Half(x, y)
    ensures Conserved(x, y) && (x.sock.state == Established ==> Synchronised(x, y))
  {
    hide Wire, Payloads, Add32;
    if x.sock.state == Established {
      AddAdd(x.isn, 1 + Received(y), |Payloads(x.out)|);
      assert Received(y) + |Payloads(x.out)| == |x.sent|;
    }
  }

  /** The next segment from `x` is one that `y` takes: it accepts it, and a payload finds it established. */
  predicate Welcome(x: End, y: End) {
    x.out != [] ==> Accepts(y.sock, x.out[0]) && (x.out[0].payload != [] ==> y.sock.state == Established)
  }

  lemma HalfWelcome(x: End, y: End)
    requires Half(x, y) && Half(y, x)
    ensures Welcome(x, y)
  {
    hide Payloads, HasAck, Add32;
    if x.out != [] { assert SegOk(x.out[0], x, y); }
  }

  /** Every segment delivered in such a run, in either direction, is accepted by its socket, and no payload is dropped
      by the handshake. */
  lemma NeverRefused(ns: seq<Net>, evs: seq<(bool, Event)>, k: nat)
    requires CarefulRun(ns, evs) && k < |ns|
    ensures Welcome(ns[k].a, ns[k].b) && Welcome(ns[k].b, ns[k].a)
  {
    hide Half, Welcome, CarefulRun;
    AlwaysInv(ns, evs, k);
    HalfWelcome(ns[k].a, ns[k].b);
    HalfWelcome(ns[k].b, ns[k].a);
  }

  // ---- the exact conditions ----------------------------------------------------------------------------------

  /** A delivery keeps every byte exactly when the segment fits the rest of the buffer: otherwise the handler
      acknowledges the whole payload and keeps only its front. */
  lemma DeliveryConservesIff(n: Net)
    requires Inv(n) && n.b.out != []
    ensures var n' := Step(n, Deliver);
            Conserved(n'.b, n'.a) <==> Careful(n, Deliver)
  {
    if Careful(n, Deliver) {
      DeliverKeeps(n);
    } else {
      var (a, h) := (n.a, n.b.out[0]);
      assert SegOk(h, n.b, a);
      var n' := Step(n, Deliver);
      hide Half, InOrder, HasAck, Add32;
      assert |n'.a.sock.buf| == MAX_TCP_PAYLOAD < |a.sock.buf| + |h.payload|;
      assert Payloads(n.b.out) == h.payload + Payloads(n.b.out[1..]);
    }
  }

  /** A read keeps every byte exactly when the reader's buffer holds what was received. */
  lemma RecvConservesIff(n: Net, room: nat)
    requires Inv(n)
    ensures var n' := Step(n, Recv(room));
            Conserved(n'.b, n'.a) <==> Careful(n, Recv(room))
  {
    if Careful(n, Recv(room)) {
      RecvKeeps(n, room);
    } else {
      hide Wire, Payloads;
    }
  }

  /** The three-way handshake: four events establish both ends and leave the wires empty. */
  lemma Handshake(n: Net, n1: Net, n2: Net, n3: Net, n4: Net)
    requires Initial(n) && n.a.sock.state == SynSent && n.b.sock.state == Listen
    requires CarefulStep(n, true, Syn, n1) && CarefulStep(n1, false, Deliver, n2)
    requires CarefulStep(n2, true, Deliver, n3) && CarefulStep(n3, false, Deliver, n4)
    ensures n4.a.sock.state == Established && n4.b.sock.state == Established && n4.a.out == [] && n4.b.out == []
    ensures n4.a.sock.seqNo == n4.b.sock.ackNo == 1001 && n4.b.sock.seqNo == n4.a.sock.ackNo == 2
  {
    var a, b := n.a.sock.localPort, n.b.sock.localPort;
    var h1 := Packet(a, b, 1000, 0, SYN, []);
    assert n1.a.out == [h1] && n1.b == n.b;
    var h2 := Packet(b, a, 1, 1001, SYN_ACK, []);
    assert n2.a == n1.a.(out := []) && n2.b.out == [h2] && n2.b.sock.state == SynRecv;
    var h3 := Packet(a, b, 1001, 2, ACK, []);
    assert n3.a.out == [h3] && n3.b == n2.b.(out := []);
  }
}
