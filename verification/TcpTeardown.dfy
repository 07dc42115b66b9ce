/** Closing a TCP connection: two established ends that may each close at any time, over every interleaving. */
module TcpTeardown {
  import opened Words
  import opened Tcp
  import opened TcpConnection

  // ---- single segments -------------------------------------------------------------------------------------------

  /** A reset closes the socket in every state and is not answered. */
  lemma ResetCloses(s: Socket, p: Packet, src: IpAddr)
    requires |s.buf| <= MAX_TCP_PAYLOAD && p.flags / 0x04 % 2 == 1
    ensures var (s', reply) := Handle(s, p, src);
            s'.state == Closed && reply.None? && s'.buf == s.buf && s'.seqNo == s.seqNo && s'.ackNo == s.ackNo
  {
  }

  /** A closed socket ignores everything. */
  lemma ClosedIgnores(s: Socket, p: Packet, src: IpAddr)
    requires s.state == Closed && |s.buf| <= MAX_TCP_PAYLOAD
    ensures Handle(s, p, src) == (s.(lastSeq := p.seqNo, lastAck := p.ackNo), None)
  {
  }

  /** What arrives after `tcp_close` is not kept, and taken for an acknowledgement: data sent before the peer learns of
      the close is lost without a word. */
  lemma DataAfterCloseIsLost(s: Socket, p: Packet, src: IpAddr)
    requires s.state == FinWait1 && |s.buf| <= MAX_TCP_PAYLOAD && p.flags == 0x18
    ensures var (s', reply) := Handle(s, p, src);
            s'.state == FinWait2 && reply.None? && s'.buf == s.buf && s'.ackNo == s.ackNo
  {
  }

  // ---- the connection --------------------------------------------------------------------------------------------

  /** At one end: close it, or take the next segment from the wire. */
  datatype Event = Close | Take

  /** `tcp_close`. */
  function Closing(e: End): End {
    if e.sock.state != Established && e.sock.state != CloseWait then e
    else e.(sock := e.sock.(state := FinWait1),
            out := e.out + [Packet(e.sock.localPort, e.sock.remotePort, e.sock.seqNo, e.sock.ackNo, 0x11, [])])
  }

  function StepA(n: Net, ev: Event): Net
    requires |n.a.sock.buf| <= MAX_TCP_PAYLOAD
  {
    match ev
    case Close => n.(a := Closing(n.a))
    case Take => Step(n, Deliver)
  }

  function StepEnd(n: Net, left: bool, ev: Event): Net
    requires |n.a.sock.buf| <= MAX_TCP_PAYLOAD && |n.b.sock.buf| <= MAX_TCP_PAYLOAD
  {
    if left then StepA(n, ev) else Swap(StepA(Swap(n), ev))
  }

  /** Each end knows the other, and nothing but flags is on the wires. */
  predicate Joined(x: End, y: End) {
    && |x.sock.buf| <= MAX_TCP_PAYLOAD && x.sock.remotePort == y.sock.localPort
    && forall i :: 0 <= i < |x.out| ==>
         x.out[i].payload == [] && x.out[i].srcPort == x.sock.localPort && x.out[i].dstPort == y.sock.localPort
  }

  function Flags(ps: seq<Packet>): seq<byte> {
    seq(|ps|, i requires 0 <= i < |ps| => ps[i].flags)
  }

  /** The stages of closing. The first end is the one that closed first, or that took the other's FIN first where
      both had closed. */
  datatype Stage =
    | Open | Asked | Answered | HalfClosed | Closing2 | LastWords | Hung
    | Crossing | Both | OneTook | BothTook | OneAck | Over

  /** States of both ends and flags in flight from either: 0x11 is FIN and ACK, 0x10 is ACK. */
  function Shape(g: Stage): (State, State, seq<byte>, seq<byte>) {
    match g
    case Open => (Established, Established, [], [])
    case Asked => (FinWait1, Established, [0x11], [])
    case Answered => (FinWait1, CloseWait, [], [0x10])
    case HalfClosed => (FinWait2, CloseWait, [], [])
    case Closing2 => (FinWait2, FinWait1, [], [0x11])
    case LastWords => (Closed, FinWait1, [0x10], [])
    case Hung => (Closed, FinWait2, [], [])
    case Crossing => (FinWait1, FinWait1, [], [0x10, 0x11])
    case Both => (FinWait1, FinWait1, [0x11], [0x11])
    case OneTook => (Closed, FinWait1, [0x11, 0x10], [])
    case BothTook => (Closed, Closed, [0x10], [0x10])
    case OneAck => (Closed, Closed, [0x10], [])
    case Over => (Closed, Closed, [], [])
  }

  predicate At(x: End, y: End, g: Stage) {
    && Joined(x, y) && Joined(y, x)
    && (x.sock.state, y.sock.state, Flags(x.out), Flags(y.out)) == Shape(g)
  }

  predicate In(n: Net, g: Stage) {
    At(n.a, n.b, g) || At(n.b, n.a, g)
  }

  /** What the first end does next. */
  function Xs(g: Stage, ev: Event): Stage {
    match (g, ev)
    case (Open, Close) => Asked
    case (Answered, Take) => HalfClosed
    case (Closing2, Take) => LastWords
    case (Crossing, Take) => Closing2
    case (Both, Take) => OneTook
    case (BothTook, Take) => OneAck
    case _ => g
  }

  /** And the second. Where they are alike, the roles may change. */
  function Ys(g: Stage, ev: Event): Stage {
    match (g, ev)
    case (Open, Close) => Asked
    case (Asked, Take) => Answered
    case (Asked, Close) => Both
    case (Answered, Close) => Crossing
    case (HalfClosed, Close) => Closing2
    case (LastWords, Take) => Hung
    case (Both, Take) => OneTook
    case (OneTook, Take) => BothTook
    case (BothTook, Take) => OneAck
    case (OneAck, Take) => Over
    case _ => g
  }

  // ---- one event -------------------------------------------------------------------------------------------------

  lemma FlagsAppend(ps: seq<Packet>, p: Packet)
    ensures Flags(ps + [p]) == Flags(ps) + [p.flags]
  {
  }

  lemma FlagsRest(ps: seq<Packet>)
    requires ps != []
    ensures Flags(ps) == [ps[0].flags] + Flags(ps[1..])
  {
  }

  lemma CloseJoined(x: End, y: End)
    requires Joined(x, y) && Joined(y, x)
    ensures Joined(Closing(x), y) && Joined(y, Closing(x))
    ensures Closing(x).sock.state == if x.sock.state == Established || x.sock.state == CloseWait then FinWait1
                                     else x.sock.state
    ensures Flags(Closing(x).out)
            == Flags(x.out) + if x.sock.state == Established || x.sock.state == CloseWait then [0x11] else []
  {
    if x.sock.state == Established || x.sock.state == CloseWait {
      FlagsAppend(x.out, Packet(x.sock.localPort, x.sock.remotePort, x.sock.seqNo, x.sock.ackNo, 0x11, []));
    }
  }

  /** State and answer after a segment with these flags and no payload. */
  function After(s: State, flags: byte): (State, seq<byte>) {
    if s == Established && flags == 0x11 then (CloseWait, [0x10])
    else if s == FinWait1 && flags == 0x11 then (Closed, [0x10])
    else if s == FinWait1 && flags == 0x10 then (FinWait2, [])
    else if s == FinWait2 && flags == 0x11 then (Closed, [0x10])
    else (s, [])
  }

  predicate Ending(s: State) {
    s == Established || s == FinWait1 || s == FinWait2 || s == CloseWait || s == Closed
  }

  lemma TakeJoined(x: End, y: End)
    requires Joined(x, y) && Joined(y, x) && y.out != [] && Ending(x.sock.state)
    requires y.out[0].flags == 0x10 || y.out[0].flags == 0x11
    ensures var x', y' := Receive(x, y.out[0], y.ip), y.(out := y.out[1..]);
            && Joined(x', y') && Joined(y', x')
            && (x'.sock.state, Flags(x'.out))
               == (After(x.sock.state, y.out[0].flags).0, Flags(x.out) + After(x.sock.state, y.out[0].flags).1)
            && Flags(y.out) == [y.out[0].flags] + Flags(y'.out)
  {
    FlagsRest(y.out);
    var p := y.out[0];
    var (s, reply) := Handle(x.sock, p, y.ip);
    assert Accepts(x.sock, p);
    if reply.Some? {
      FlagsAppend(x.out, SegmentOf(x.(sock := s), reply.value.flags, reply.value.seqNo, reply.value.ackNo, []));
    } else {
      assert Flags(x.out) + [] == Flags(x.out);
    }
  }

  lemma StageStates(g: Stage)
    ensures Ending(Shape(g).0) && Ending(Shape(g).1)
    ensures forall i :: 0 <= i < |Shape(g).2| ==> Shape(g).2[i] == 0x10 || Shape(g).2[i] == 0x11
    ensures forall i :: 0 <= i < |Shape(g).3| ==> Shape(g).3[i] == 0x10 || Shape(g).3[i] == 0x11
  {
  }

  lemma HeadFlag(y: End)
    requires y.out != []
    ensures y.out[0].flags == Flags(y.out)[0]
  {
  }

  /** The two ends are at `g`, one way round or the other. */
  predicate Either(sx: State, sy: State, fx: seq<byte>, fy: seq<byte>, g: Stage) {
    (sx, sy, fx, fy) == Shape(g) || (sy, sx, fy, fx) == Shape(g)
  }

  lemma Mirrored(x: End, y: End, g: Stage)
    requires Joined(x, y) && Joined(y, x) && Either(x.sock.state, y.sock.state, Flags(x.out), Flags(y.out), g)
    ensures At(x, y, g) || At(y, x, g)
  {
    hide Shape, Joined, Flags;
  }

  predicate Closes(s: State) {
    s == Established || s == CloseWait
  }

  // The table, entry by entry.

  lemma XCloseShape(g: Stage)
    ensures var (sx, sy, fx, fy) := Shape(g);
            if Closes(sx) then Either(FinWait1, sy, fx + [0x11], fy, Xs(g, Close)) else Xs(g, Close) == g
  {
    assert [] + [0x11] == [0x11];
  }

  lemma YCloseShape(g: Stage)
    ensures var (sx, sy, fx, fy) := Shape(g);
            if Closes(sy) then Either(sx, FinWait1, fx, fy + [0x11], Ys(g, Close)) else Ys(g, Close) == g
  {
    assert [] + [0x11] == [0x11] && [0x10] + [0x11] == [0x10, 0x11];
  }

  lemma XTakeShape(g: Stage)
    ensures var (sx, sy, fx, fy) := Shape(g);
            if fy == [] then Xs(g, Take) == g
            else Either(After(sx, fy[0]).0, sy, fx + After(sx, fy[0]).1, fy[1..], Xs(g, Take))
  {
    Short();
    assert Shape(g).2 + [] == Shape(g).2;
    match g
    case Crossing => assert Shape(g).3[1..] == [0x11];
    case _ =>
  }

  lemma YTakeShape(g: Stage)
    ensures var (sx, sy, fx, fy) := Shape(g);
            if fx == [] then Ys(g, Take) == g
            else Either(sx, After(sy, fx[0]).0, fx[1..], fy + After(sy, fx[0]).1, Ys(g, Take))
  {
    Short();
    assert Shape(g).3 + [] == Shape(g).3;
    match g
    case OneTook => assert Shape(g).2[1..] == [0x10];
    case _ =>
  }

  lemma Short()
    ensures forall b: byte :: [b][1..] == []
    ensures [] + [0x10] == [0x10] && [0x11] + [0x10] == [0x11, 0x10]
  {
  }

  lemma XCloses(x: End, y: End, g: Stage)
    requires At(x, y, g)
    ensures At(Closing(x), y, Xs(g, Close)) || At(y, Closing(x), Xs(g, Close))
  {
    hide Flags, Joined, Shape, Xs;
    XCloseShape(g);
    if Closes(x.sock.state) {
      CloseJoined(x, y);
      Mirrored(Closing(x), y, Xs(g, Close));
    }
  }

  lemma YCloses(x: End, y: End, g: Stage)
    requires At(x, y, g)
    ensures At(x, Closing(y), Ys(g, Close)) || At(Closing(y), x, Ys(g, Close))
  {
    hide Flags, Joined, Shape, Ys;
    YCloseShape(g);
    if Closes(y.sock.state) {
      CloseJoined(y, x);
      Mirrored(x, Closing(y), Ys(g, Close));
    }
  }

  lemma XTakes(x: End, y: End, g: Stage)
    requires At(x, y, g) && y.out != []
    ensures var x', y' := Receive(x, y.out[0], y.ip), y.(out := y.out[1..]);
            At(x', y', Xs(g, Take)) || At(y', x', Xs(g, Take))
  {
    assert Flags(y.out) != [];
    HeadFlag(y);
    StageStates(g);
    hide Receive, Flags, Joined, Shape, Xs, After;
    TakeJoined(x, y);
    var x', y' := Receive(x, y.out[0], y.ip), y.(out := y.out[1..]);
    Tail(Flags(y.out), Flags(y'.out));
    XTakeShape(g);
    Mirrored(x', y', Xs(g, Take));
  }

  lemma YTakes(x: End, y: End, g: Stage)
    requires At(x, y, g) && x.out != []
    ensures var y', x' := Receive(y, x.out[0], x.ip), x.(out := x.out[1..]);
            At(x', y', Ys(g, Take)) || At(y', x', Ys(g, Take))
  {
    assert Flags(x.out) != [];
    HeadFlag(x);
    StageStates(g);
    hide Receive, Flags, Joined, Shape, Ys, After;
    TakeJoined(y, x);
    var y', x' := Receive(y, x.out[0], x.ip), x.(out := x.out[1..]);
    Tail(Flags(x.out), Flags(x'.out));
    YTakeShape(g);
    Mirrored(x', y', Ys(g, Take));
  }

  lemma Tail(all: seq<byte>, rest: seq<byte>)
    requires all != [] && all == [all[0]] + rest
    ensures rest == all[1..]
  {
  }

  // ---- histories -------------------------------------------------------------------------------------------------

  lemma TakeNothing(g: Stage)
    ensures Shape(g).2 == [] ==> Ys(g, Take) == g
    ensures Shape(g).3 == [] ==> Xs(g, Take) == g
  {
  }

  lemma LeftEvent(n: Net, g: Stage, ev: Event)
    requires In(n, g)
    ensures In(StepA(n, ev), if At(n.a, n.b, g) then Xs(g, ev) else Ys(g, ev))
  {
    hide Flags, Joined, Shape, Xs, Ys, Receive, Closing;
    if At(n.a, n.b, g) {
      if ev == Close { XCloses(n.a, n.b, g); }
      else if n.b.out != [] { XTakes(n.a, n.b, g); }
      else { NoFlags(n.b); TakeNothing(g); }
    } else {
      if ev == Close { YCloses(n.b, n.a, g); }
      else if n.b.out != [] { YTakes(n.b, n.a, g); }
      else { NoFlags(n.b); TakeNothing(g); }
    }
  }

  lemma NoFlags(e: End)
    ensures e.out == [] <==> Flags(e.out) == []
  {
  }

  lemma Swapped(n: Net, g: Stage)
    ensures In(Swap(n), g) <==> In(n, g)
  {
    hide At;
  }

  lemma Small(n: Net, g: Stage)
    requires In(n, g)
    ensures |n.a.sock.buf| <= MAX_TCP_PAYLOAD && |n.b.sock.buf| <= MAX_TCP_PAYLOAD
  {
    hide Flags, Shape;
  }

  /** One event goes from one stage of closing to the next. */
  lemma EventStage(n: Net, g: Stage, left: bool, ev: Event) returns (g': Stage)
    requires In(n, g)
    ensures |n.a.sock.buf| <= MAX_TCP_PAYLOAD && |n.b.sock.buf| <= MAX_TCP_PAYLOAD
    ensures In(StepEnd(n, left, ev), g') && (g' == Xs(g, ev) || g' == Ys(g, ev))
  {
    Small(n, g);
    hide In, StepA, Xs, Ys, At;
    if left {
      LeftEvent(n, g, ev);
      g' := if At(n.a, n.b, g) then Xs(g, ev) else Ys(g, ev);
    } else {
      Swapped(n, g);
      var m := Swap(n);
      LeftEvent(m, g, ev);
      g' := if At(m.a, m.b, g) then Xs(g, ev) else Ys(g, ev);
      Swapped(StepA(m, ev), g');
    }
  }

  /** A run: which end does what, in any order. */
  ghost predicate Run(ns: seq<Net>, evs: seq<(bool, Event)>) {
    |ns| == |evs| + 1 && forall i :: 0 <= i < |evs| ==> Follows(ns[i], evs[i], ns[i + 1])
  }

  ghost predicate Follows(n: Net, ev: (bool, Event), n': Net) {
    && |n.a.sock.buf| <= MAX_TCP_PAYLOAD && |n.b.sock.buf| <= MAX_TCP_PAYLOAD && n' == StepEnd(n, ev.0, ev.1)
  }

  /** One end had already taken the other's FIN when it closed, or is about to. */
  predicate Passive(g: Stage) {
    g == Answered || g == HalfClosed || g == Closing2 || g == LastWords || g == Hung || g == Crossing
  }

  lemma PassiveStays(g: Stage, ev: Event)
    ensures Passive(g) ==> Passive(Xs(g, ev)) && Passive(Ys(g, ev))
  {
  }

  lemma {:induction false} AlwaysStage(ns: seq<Net>, evs: seq<(bool, Event)>, j: nat, k: nat, g: Stage)
    returns (g': Stage)
    requires Run(ns, evs) && j <= k < |ns| && In(ns[j], g)
    ensures In(ns[k], g') && (Passive(g) ==> Passive(g'))
    decreases k - j
  {
    hide In, StepEnd, Passive, Xs, Ys;
    if j == k {
      g' := g;
    } else {
      var h := AlwaysStage(ns, evs, j, k - 1, g);
      assert Follows(ns[k - 1], evs[k - 1], ns[k - 1 + 1]);
      g' := EventStage(ns[k - 1], h, evs[k - 1].0, evs[k - 1].1);
      PassiveStays(h, evs[k - 1].1);
    }
  }

  /** Established ends that know each other, with nothing on the wires. */
  predicate Quiet(n: Net) {
    && n.a.sock.state == n.b.sock.state == Established && n.a.out == n.b.out == []
    && |n.a.sock.buf| <= MAX_TCP_PAYLOAD && |n.b.sock.buf| <= MAX_TCP_PAYLOAD
    && n.a.sock.remotePort == n.b.sock.localPort && n.b.sock.remotePort == n.a.sock.localPort
  }

  lemma QuietOpen(n: Net)
    requires Quiet(n)
    ensures In(n, Open)
  {
    NoFlags(n.a);
    NoFlags(n.b);
    assert At(n.a, n.b, Open);
  }

  predicate Silent(n: Net) { n.a.out == [] && n.b.out == [] }

  predicate States(n: Net, s: State, t: State) {
    (n.a.sock.state == s && n.b.sock.state == t) || (n.a.sock.state == t && n.b.sock.state == s)
  }

  lemma StageMeans(n: Net, g: Stage)
    requires In(n, g)
    ensures Silent(n) <==> Shape(g).2 == [] && Shape(g).3 == []
    ensures States(n, Shape(g).0, Shape(g).1)
    ensures forall s, t :: States(n, s, t) ==>
              (s == Shape(g).0 && t == Shape(g).1) || (t == Shape(g).0 && s == Shape(g).1)
  {
    hide Joined, Shape;
    NoFlags(n.a);
    NoFlags(n.b);
  }

  /** How closing can end, over every interleaving: when nothing is on the wires any more, either neither end has
      closed, or one has and the other not yet, or both are Closed, or one is Closed and the other waits in FinWait2. */
  lemma Outcomes(ns: seq<Net>, evs: seq<(bool, Event)>, k: nat)
    requires Run(ns, evs) && k < |ns| && Quiet(ns[0]) && Silent(ns[k])
    ensures || States(ns[k], Established, Established) || States(ns[k], FinWait2, CloseWait)
            || States(ns[k], Closed, Closed) || States(ns[k], Closed, FinWait2)
  {
    QuietOpen(ns[0]);
    var g := AlwaysStage(ns, evs, 0, k, Open);
    hide In;
    StageMeans(ns[k], g);
  }

  lemma WaitingMeans(n: Net, g: Stage)
    requires In(n, g) && (n.a.sock.state == CloseWait || n.b.sock.state == CloseWait)
    ensures Passive(g)
  {
    hide Joined;
  }

  lemma PassiveMeans(n: Net, g: Stage)
    requires In(n, g) && Passive(g)
    ensures !States(n, Closed, Closed)
    ensures Silent(n) ==> States(n, FinWait2, CloseWait) || States(n, Closed, FinWait2)
  {
    hide In;
    StageMeans(n, g);
  }

  lemma CrossedMeans(n: Net, g: Stage)
    requires In(n, g) && n.a.sock.state == n.b.sock.state == FinWait1 && n.a.out != [] && n.b.out != []
    ensures Mutual(g)
  {
    hide Joined;
    NoFlags(n.a);
    NoFlags(n.b);
  }

  lemma MutualMeans(n: Net, g: Stage)
    requires In(n, g) && Mutual(g)
    ensures Silent(n) ==> States(n, Closed, Closed)
  {
    hide In;
    StageMeans(n, g);
  }

  /** And which: an end that takes the other's FIN before it closes itself is in CloseWait at some moment, and from
      then on the two are never both Closed; once both have closed and the wires are empty, the one that closed
      second is left in FinWait2. */
  lemma SecondHangs(ns: seq<Net>, evs: seq<(bool, Event)>, j: nat, k: nat)
    requires Run(ns, evs) && j <= k < |ns| && Quiet(ns[0])
    requires ns[j].a.sock.state == CloseWait || ns[j].b.sock.state == CloseWait
    ensures !States(ns[k], Closed, Closed)
    ensures Silent(ns[k]) ==> States(ns[k], FinWait2, CloseWait) || States(ns[k], Closed, FinWait2)
  {
    QuietOpen(ns[0]);
    var g := AlwaysStage(ns, evs, 0, j, Open);
    hide In, Quiet, StepEnd, States, Silent;
    WaitingMeans(ns[j], g);
    var h := AlwaysStage(ns, evs, j, k, g);
    PassiveMeans(ns[k], h);
  }

  /** That end stays there: no event of either changes anything any more. */
  lemma HungForever(n: Net, left: bool, ev: Event)
    requires In(n, Hung)
    ensures |n.a.sock.buf| <= MAX_TCP_PAYLOAD && |n.b.sock.buf| <= MAX_TCP_PAYLOAD && StepEnd(n, left, ev) == n
  {
    Small(n, Hung);
    NoFlags(n.a);
    NoFlags(n.b);
  }

  predicate Mutual(g: Stage) {
    g == Both || g == OneTook || g == BothTook || g == OneAck || g == Over
  }

  lemma MutualStays(g: Stage, ev: Event)
    ensures Mutual(g) ==> Mutual(Xs(g, ev)) && Mutual(Ys(g, ev))
  {
  }

  lemma {:induction false} AlwaysMutual(ns: seq<Net>, evs: seq<(bool, Event)>, j: nat, k: nat, g: Stage)
    returns (g': Stage)
    requires Run(ns, evs) && j <= k < |ns| && In(ns[j], g) && Mutual(g)
    ensures In(ns[k], g') && Mutual(g')
    decreases k - j
  {
    hide In, StepEnd, Mutual, Xs, Ys;
    if j == k {
      g' := g;
    } else {
      var h := AlwaysMutual(ns, evs, j, k - 1, g);
      assert Follows(ns[k - 1], evs[k - 1], ns[k - 1 + 1]);
      g' := EventStage(ns[k - 1], h, evs[k - 1].0, evs[k - 1].1);
      MutualStays(h, evs[k - 1].1);
    }
  }

  /** When both close before either has taken the other's FIN, both are Closed as soon as the wires are empty. */
  lemma BothClose(ns: seq<Net>, evs: seq<(bool, Event)>, j: nat, k: nat)
    requires Run(ns, evs) && j <= k < |ns| && Quiet(ns[0])
    requires ns[j].a.sock.state == ns[j].b.sock.state == FinWait1 && ns[j].a.out != [] && ns[j].b.out != []
    ensures Silent(ns[k]) ==> States(ns[k], Closed, Closed)
  {
    hide In, Quiet, StepEnd, States, Silent;
    QuietOpen(ns[0]);
    var g := AlwaysStage(ns, evs, 0, j, Open);
    CrossedMeans(ns[j], g);
    var h := AlwaysMutual(ns, evs, j, k, g);
    MutualMeans(ns[k], h);
  }
}
