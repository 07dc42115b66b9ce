/** Control flow of the dispatch loop, over one call frame: flat bytes, a program counter and a control
    stack of (kind, start, end) records, against structured execution of the instruction tree (section 4.4
    of the WebAssembly Core Specification).

    Both machines take the conditions and table indices they pop from the same oracle, and record the plain
    instructions they execute. What a plain instruction does to values, including its own traps, is not part
    of control. The simulation is step by step, so it covers every run, finite or not. */
module Control {
  import opened Words
  import opened Bytes
  import opened Leb128
  import opened Opcode
  import opened Scanner

  const MEMORY_INIT: int := 8
  const DATA_DROP: int := 9
  const MEMORY_COPY: int := 10
  const MEMORY_FILL: int := 11

  datatype Trap = MalformedCode | UnreachableExecuted | CtrlStackOverflow | UnknownOpcode
  datatype Status = Running | Done | Trapped(trap: Trap)

  /** Conditions popped so far and plain instructions executed so far, with their bytes. */
  datatype Log = Log(pops: nat, trace: seq<seq<byte>>)

  type Oracle = nat -> Word

  // ---- the byte machine ---------------------------------------------------------------------------

  datatype Kind = KBlock | KLoop | KIf
  datatype CtrlFrame = CtrlFrame(kind: Kind, pcStart: nat, endPc: nat)

  /** `ctrl` is the part of the control stack above the frame's `ctrl_base`, innermost last. */
  datatype ByteState = ByteState(pc: nat, ctrl: seq<CtrlFrame>, log: Log, status: Status)

  /** Position after what follows an 0xFC sub-opcode. */
  function PrefixEnd(body: seq<byte>, sub: int, i: nat): (r: Option<nat>)
    requires i <= |body|
    ensures r.Some? ==> i <= r.value
  {
    if sub == MEMORY_INIT || sub == DATA_DROP then
      match ReadU32(body[i..])
      case None => None
      case Some((_, n)) => Some(i + n + if sub == MEMORY_INIT then 1 else 0)
    else if sub <= 7 then Some(i)
    else if sub == MEMORY_COPY then Some(i + 2)
    else if sub == MEMORY_FILL then Some(i + 1)
    else None
  }

  /** Position after the immediates, as the dispatch loop skips them. */
  function DispatchEnd(body: seq<byte>, op: byte, i: nat): (r: Option<nat>)
    requires i <= |body|
    ensures r.Some? ==> i <= r.value
  {
    if op == 0xFC then
      match ReadU32(body[i..])
      case None => None
      case Some((sub, n)) => PrefixEnd(body, sub, i + n)
    else SkipImmediates(body, op, i)
  }

  function Trapping(s: ByteState, t: Trap): ByteState {
    s.(status := Trapped(t))
  }

  /** `ctrl_push`, then continue at `pc`; `cap` is MAX_CTRL_DEPTH less the frame's base. */
  function Push(s: ByteState, f: CtrlFrame, pc: nat, cap: nat): ByteState {
    if |s.ctrl| >= cap then Trapping(s, CtrlStackOverflow) else s.(ctrl := s.ctrl + [f], pc := pc)
  }

  /** `do_br`. */
  function DoBr(s: ByteState, n: nat): ByteState {
    if n >= |s.ctrl| then s.(status := Done)
    else
      var k := |s.ctrl| - 1 - n;
      var f := s.ctrl[k];
      if f.kind == KLoop then s.(ctrl := s.ctrl[..k + 1], pc := f.pcStart)
      else s.(ctrl := s.ctrl[..k], pc := f.endPc + 1)
  }

  /** The label selected by a branch table: entry `i`, or the default. */
  function TableLabel(body: seq<byte>, pos: nat, k: nat): Option<nat>
    decreases k
  {
    if pos > |body| then None
    else
      match ReadU32(body[pos..])
      case None => None
      case Some((l, n)) => if k == 0 then Some(l) else TableLabel(body, pos + n, k - 1)
  }

  function Popped(l: Log): Log {
    l.(pops := l.pops + 1)
  }

  /** One turn of the dispatch loop. */
  function ByteStep(body: seq<byte>, cap: nat, oracle: Oracle, s: ByteState): ByteState {
    if s.status != Running then s
    else if s.pc >= |body| then s.(status := Done)
    else
      var op := body[s.pc];
      var v := oracle(s.log.pops);
      if op == UNREACHABLE then Trapping(s, UnreachableExecuted)
      else if op == BLOCK || op == LOOP then
        match ScanBlockEnd(body, s.pc + 2)
        case None => Trapping(s, MalformedCode)
        case Some((endPc, _)) =>
          Push(s, CtrlFrame(if op == BLOCK then KBlock else KLoop, s.pc + 2, endPc), s.pc + 2, cap)
      else if op == IF then
        match ScanBlockEnd(body, s.pc + 2)
        case None => Trapping(s, MalformedCode)
        case Some((endPc, elsePc)) =>
          var s' := s.(log := Popped(s.log));
          if v != 0 then Push(s', CtrlFrame(KIf, s.pc + 2, endPc), s.pc + 2, cap)
          else if elsePc.Some? then Push(s', CtrlFrame(KIf, s.pc + 2, endPc), elsePc.value + 1, cap)
          else s'.(pc := endPc + 1)
      else if op == ELSE then
        if s.ctrl == [] then Trapping(s, MalformedCode)
        else s.(pc := s.ctrl[|s.ctrl| - 1].endPc + 1, ctrl := s.ctrl[..|s.ctrl| - 1])
      else if op == END then
        if s.ctrl == [] then s.(status := Done)
        else s.(pc := s.pc + 1, ctrl := s.ctrl[..|s.ctrl| - 1])
      else if op == BR then
        match ReadU32(body[s.pc + 1..])
        case None => Trapping(s, MalformedCode)
        case Some((n, _)) => DoBr(s, n)
      else if op == BR_IF then
        match ReadU32(body[s.pc + 1..])
        case None => Trapping(s, MalformedCode)
        case Some((n, size)) =>
          var s' := s.(log := Popped(s.log));
          if v != 0 then DoBr(s', n) else s'.(pc := s.pc + 1 + size)
      else if op == BR_TABLE then
        match ReadU32(body[s.pc + 1..])
        case None => Trapping(s, MalformedCode)
        case Some((count, n)) =>
          var i := Low32(v);
          match TableLabel(body, s.pc + 1 + n, if i < count then i else count)
          case None => Trapping(s, MalformedCode)
          case Some(l) => DoBr(s.(log := Popped(s.log)), l)
      else if op == RETURN then s.(status := Done)
      else
        match DispatchEnd(body, op, s.pc + 1)
        case None => Trapping(s, UnknownOpcode)
        case Some(next) =>
          if next > |body| then Trapping(s, MalformedCode)
          else s.(pc := next, log := s.log.(trace := s.log.trace + [body[s.pc..next]]))
  }

  // ---- structured execution -------------------------------------------------------------------------

  /** What a label stands for. `LThen` is the then-part of an `if` that has an else-part. */
  datatype LabelKind = LBlock | LLoop(body: Code) | LThen | LElse
  /** A construct being executed: its kind and what follows it. */
  datatype Label = Label(kind: LabelKind, cont: Code)

  datatype TreeState = TreeState(code: Code, labels: seq<Label>, log: Log, status: Status)

  function Enter(t: TreeState, l: Label, inner: Code, cap: nat): TreeState {
    if |t.labels| >= cap then t.(status := Trapped(CtrlStackOverflow))
    else t.(code := inner, labels := t.labels + [l])
  }

  /** `br n`: a loop label restarts the loop, any other label continues after its construct, and a label
      past the outermost construct returns from the function. */
  function Branch(t: TreeState, n: nat): TreeState {
    if n >= |t.labels| then t.(status := Done)
    else
      var k := |t.labels| - 1 - n;
      match t.labels[k].kind
      case LLoop(body) => t.(code := body, labels := t.labels[..k + 1])
      case _ => t.(code := t.labels[k].cont, labels := t.labels[..k])
  }

  function TreeStep(cap: nat, oracle: Oracle, t: TreeState): TreeState {
    if t.status != Running then t
    else
      var v := oracle(t.log.pops);
      match t.code
      case Nil =>
        if t.labels == [] then t.(status := Done)
        else t.(code := t.labels[|t.labels| - 1].cont, labels := t.labels[..|t.labels| - 1])
      case Cons(Plain(op, imm), tail) =>
        t.(code := tail, log := t.log.(trace := t.log.trace + [[op] + imm]))
      case Cons(Unreachable, _) => t.(status := Trapped(UnreachableExecuted))
      case Cons(Block(_, body), tail) => Enter(t, Label(LBlock, tail), body, cap)
      case Cons(Loop(_, body), tail) => Enter(t, Label(LLoop(body), tail), body, cap)
      case Cons(If(_, thn, els), tail) =>
        var t' := t.(log := Popped(t.log));
        if v != 0 then Enter(t', Label(if els.Some? then LThen else LElse, tail), thn, cap)
        else if els.Some? then Enter(t', Label(LElse, tail), els.value, cap)
        else t'.(code := tail)
      case Cons(Br(l), _) => Branch(t, LabelOf(l))
      case Cons(BrIf(l), tail) =>
        var t' := t.(log := Popped(t.log));
        if v != 0 then Branch(t', LabelOf(l)) else t'.(code := tail)
      case Cons(BrTable(_, labels), _) =>
        var i := Low32(v);
        if labels == [] then t
        else Branch(t.(log := Popped(t.log)), LabelOf(labels[if i < |labels| - 1 then i else |labels| - 1]))
      case Cons(Return, _) => t.(status := Done)
  }

  // ---- the relation -----------------------------------------------------------------------------------

  /** `code` stands at `pc`, and ends where the innermost of the first `m` constructs wants it to: at its
      `else` for a then-part, at its `end` otherwise, at the function's final `end` when `m == 0`. */
  ghost predicate Stands(body: seq<byte>, pc: nat, code: Code, labels: seq<Label>, ctrl: seq<CtrlFrame>, m: nat)
    requires m <= |labels| == |ctrl|
  {
    var q := pc + |EncodeCode(code)|;
    && WellFormedCode(code) && At(body, pc, EncodeCode(code))
    && if m == 0 then q + 1 == |body| && body[q] == END
       else if labels[m - 1].kind == LThen then q < |body| && body[q] == ELSE
       else q == ctrl[m - 1].endPc
  }

  /** Control frame `k` is the record of construct `k`, with its matching end, and its continuation stands
      after that end inside the constructs around it. */
  ghost predicate FrameOk(body: seq<byte>, labels: seq<Label>, ctrl: seq<CtrlFrame>, k: nat)
    requires k < |labels| == |ctrl|
  {
    var l, f := labels[k], ctrl[k];
    && f.kind == (match l.kind case LBlock => KBlock case LLoop(_) => KLoop case _ => KIf)
    && f.endPc < |body| && body[f.endPc] == END
    && (l.kind.LLoop? ==>
          && WellFormedCode(l.kind.body) && At(body, f.pcStart, EncodeCode(l.kind.body))
          && f.pcStart + |EncodeCode(l.kind.body)| == f.endPc)
    && Stands(body, f.endPc + 1, l.cont, labels, ctrl, k)
  }

  /** At every instruction boundary: the control frames above the base are exactly the constructs enclosing
      `pc`, each with its matching end. */
  ghost predicate Rel(body: seq<byte>, pc: nat, code: Code, labels: seq<Label>, ctrl: seq<CtrlFrame>) {
    && |labels| == |ctrl|
    && Stands(body, pc, code, labels, ctrl, |ctrl|)
    && forall k :: 0 <= k < |ctrl| ==> FrameOk(body, labels, ctrl, k)
  }

  /** The two machines agree: same log and status and, while running, related positions. */
  ghost predicate Agree(body: seq<byte>, s: ByteState, t: TreeState) {
    s.log == t.log && s.status == t.status && (s.status == Running ==> Rel(body, s.pc, t.code, t.labels, s.ctrl))
  }

  /** Dropping inner constructs keeps the records of the outer ones. */
  lemma Outer(body: seq<byte>, labels: seq<Label>, ctrl: seq<CtrlFrame>, m: nat)
    requires m <= |labels| == |ctrl| && forall k :: 0 <= k < |ctrl| ==> FrameOk(body, labels, ctrl, k)
    ensures forall k :: 0 <= k < m ==> FrameOk(body, labels[..m], ctrl[..m], k)
  {
    forall k | 0 <= k < m
      ensures FrameOk(body, labels[..m], ctrl[..m], k)
    {
      assert FrameOk(body, labels, ctrl, k);
      hide WellFormedCode, At, EncodeCode;
    }
  }

  /** Leaving construct `k` and everything inside it. */
  lemma Leave(body: seq<byte>, labels: seq<Label>, ctrl: seq<CtrlFrame>, k: nat)
    requires k < |labels| == |ctrl| && forall j :: 0 <= j < |ctrl| ==> FrameOk(body, labels, ctrl, j)
    ensures Rel(body, ctrl[k].endPc + 1, labels[k].cont, labels[..k], ctrl[..k])
  {
    Outer(body, labels, ctrl, k);
    assert FrameOk(body, labels, ctrl, k);
    hide WellFormedCode, At, EncodeCode;
  }

  /** Restarting loop `k`. */
  lemma Restart(body: seq<byte>, labels: seq<Label>, ctrl: seq<CtrlFrame>, k: nat)
    requires k < |labels| == |ctrl| && forall j :: 0 <= j < |ctrl| ==> FrameOk(body, labels, ctrl, j)
    requires labels[k].kind.LLoop?
    ensures Rel(body, ctrl[k].pcStart, labels[k].kind.body, labels[..k + 1], ctrl[..k + 1])
  {
    Outer(body, labels, ctrl, k + 1);
    assert FrameOk(body, labels, ctrl, k);
    hide WellFormedCode, At, EncodeCode;
  }

  /** `do_br` is a structured branch. */
  lemma BranchSim(body: seq<byte>, s: ByteState, t: TreeState, n: nat)
    requires Agree(body, s, t) && s.status == Running
    ensures Agree(body, DoBr(s, n), Branch(t, n))
  {
    if n < |s.ctrl| {
      var k := |s.ctrl| - 1 - n;
      assert FrameOk(body, t.labels, s.ctrl, k);
      if t.labels[k].kind.LLoop? {
        Restart(body, t.labels, s.ctrl, k);
      } else {
        Leave(body, t.labels, s.ctrl, k);
      }
    }
  }

  // ---- one step -----------------------------------------------------------------------------------------

  /** The first instruction stands at `pc` and the rest after it. */
  lemma Advance(body: seq<byte>, pc: nat, h: Instr, tail: Code, labels: seq<Label>, ctrl: seq<CtrlFrame>)
    requires Rel(body, pc, Cons(h, tail), labels, ctrl)
    ensures WellFormed(h) && At(body, pc, EncodeInstr(h))
    ensures Rel(body, pc + |EncodeInstr(h)|, tail, labels, ctrl)
  {
    hide At, EncodeInstr, WellFormed, FrameOk;
    AtSplit(body, pc, EncodeInstr(h), EncodeCode(tail));
    assert EncodeCode(Cons(h, tail)) == EncodeInstr(h) + EncodeCode(tail);
  }

  /** Entering a construct pushes exactly its record. */
  lemma Entered(body: seq<byte>, pc: nat, inner: Code, l: Label, f: CtrlFrame, labels: seq<Label>, ctrl: seq<CtrlFrame>)
    requires Rel(body, f.endPc + 1, l.cont, labels, ctrl)
    requires f.kind == (match l.kind case LBlock => KBlock case LLoop(_) => KLoop case _ => KIf)
    requires f.endPc < |body| && body[f.endPc] == END
    requires l.kind.LLoop? ==> l.kind.body == inner && f.pcStart == pc
    requires WellFormedCode(inner) && At(body, pc, EncodeCode(inner))
    requires var q := pc + |EncodeCode(inner)|;
             if l.kind == LThen then q < |body| && body[q] == ELSE else q == f.endPc
    ensures Rel(body, pc, inner, labels + [l], ctrl + [f])
  {
    hide At, EncodeCode, WellFormedCode;
    var ls, cs := labels + [l], ctrl + [f];
    assert FrameOk(body, ls, cs, |ctrl|);
    forall k | 0 <= k < |ctrl|
      ensures FrameOk(body, ls, cs, k)
    {
      assert FrameOk(body, labels, ctrl, k);
    }
  }

  /** End of a construct, or of the function. */
  lemma NilSim(body: seq<byte>, cap: nat, oracle: Oracle, s: ByteState, t: TreeState)
    requires Agree(body, s, t) && s.status == Running && t.code == Nil
    ensures Agree(body, ByteStep(body, cap, oracle, s), TreeStep(cap, oracle, t))
  {
    hide ScanBlockEnd, DispatchEnd, TableLabel, DoBr, Branch, Push, Enter, ReadU32;
    if |s.ctrl| > 0 {
      var k := |s.ctrl| - 1;
      assert FrameOk(body, t.labels, s.ctrl, k);
      Leave(body, t.labels, s.ctrl, k);
    }
  }

  /** The dispatch of a plain instruction once its length is known. */
  lemma PlainStep(body: seq<byte>, cap: nat, oracle: Oracle, s: ByteState, next: nat)
    requires s.status == Running && s.pc < |body| && !Structural(body[s.pc])
    requires DispatchEnd(body, body[s.pc], s.pc + 1) == Some(next) && s.pc < next <= |body|
    ensures ByteStep(body, cap, oracle, s) ==
            s.(pc := next, log := s.log.(trace := s.log.trace + [body[s.pc..next]]))
  {
    hide ScanBlockEnd, DispatchEnd, TableLabel, DoBr, ReadU32, Push;
  }

  lemma PlainSim(body: seq<byte>, cap: nat, oracle: Oracle, s: ByteState, t: TreeState)
    requires Agree(body, s, t) && s.status == Running && t.code.Cons? && t.code.head.Plain?
    ensures Agree(body, ByteStep(body, cap, oracle, s), TreeStep(cap, oracle, t))
  {
    hide DispatchEnd, Rel, ByteStep, Branch, Enter;
    var op, imm := t.code.head.op, t.code.head.imm;
    Advance(body, s.pc, t.code.head, t.code.tail, t.labels, s.ctrl);
    AtSplit(body, s.pc, [op], imm);
    AtOne(body, s.pc, op);
    DispatchPlain(body, s.pc + 1, op, imm);
    PlainStep(body, cap, oracle, s, s.pc + 1 + |imm|);
    assert body[s.pc..s.pc + 1 + |imm|] == [op] + imm;
  }

  lemma DispatchPlain(body: seq<byte>, i: nat, op: byte, imm: seq<byte>)
    requires At(body, i, imm) && WellFormedPlain(op, imm)
    ensures i + |imm| <= |body| && DispatchEnd(body, op, i) == Some(i + |imm|)
  {
    assert i + |imm| <= |body|;
    hide At, SkipImmediates, ReadU32, PrefixedImmediate;
    if op == 0xFC {
      PrefixedEnd(body, i, imm);
    } else {
      PlainImmediates(body, i, op, imm);
    }
  }

  lemma PrefixedEnd(body: seq<byte>, i: nat, imm: seq<byte>)
    requires i <= |body| && At(body, i, imm) && PrefixedImmediate(imm)
    ensures DispatchEnd(body, 0xFC, i) == Some(i + |imm|)
  {
    hide At, IsLeb, LabelOf, Reserved, ReadU32, PrefixEnd, SegmentImmediate;
    var k :| 0 < k <= |imm| && k <= 5 && IsLeb(imm[..k])
             && (Reserved(LabelOf(imm[..k])) == Some(imm[k..]) || SegmentImmediate(LabelOf(imm[..k]), imm[k..]));
    assert imm == imm[..k] + imm[k..];
    AtSplit(body, i, imm[..k], imm[k..]);
    ReadAt(body, i, imm[..k]);
    AtFits(body, i + k, imm[k..]);
    if Reserved(LabelOf(imm[..k])) == Some(imm[k..]) {
      ReservedEnd(body, LabelOf(imm[..k]), i + k, imm[k..]);
    } else {
      SegmentEnd(body, LabelOf(imm[..k]), i + k, imm[k..]);
    }
  }

  lemma AtFits(body: seq<byte>, i: nat, bs: seq<byte>)
    requires At(body, i, bs)
    ensures i + |bs| <= |body|
  {
  }

  lemma ReservedEnd(body: seq<byte>, sub: int, i: nat, reserved: seq<byte>)
    requires i <= |body| && Reserved(sub) == Some(reserved)
    ensures PrefixEnd(body, sub, i) == Some(i + |reserved|)
  {
    hide ReadU32;
  }

  lemma SegmentEnd(body: seq<byte>, sub: int, i: nat, rest: seq<byte>)
    requires i <= |body| && At(body, i, rest) && SegmentImmediate(sub, rest)
    ensures PrefixEnd(body, sub, i) == Some(i + |rest|)
  {
    hide At, ReadU32, IsLeb, Passable, LabelOf, SegmentImmediate;
    var idx, zeros := SplitSegment(sub, rest);
    AtSplit(body, i, idx, zeros);
    ReadAt(body, i, idx);
  }

  /** What the machine finds at a `block` or `loop`, or an `if` without else. */
  lemma FindBlock(body: seq<byte>, pc: nat, op: byte, bt: byte, inner: Code)
    requires WellFormedCode(inner) && At(body, pc, [op, bt] + EncodeCode(inner) + [END])
    ensures var e := pc + 2 + |EncodeCode(inner)|;
            && pc < |body| && body[pc] == op && e < |body| && body[e] == END
            && At(body, pc + 2, EncodeCode(inner)) && ScanBlockEnd(body, pc + 2) == Some((e, None))
  {
    hide At, EncodeCode, WellFormedCode, ScanFrom, ScanBlockEnd;
    BlockParts(body, pc, op, bt, EncodeCode(inner));
    AtTwo(body, pc, op, bt);
    AtOne(body, pc + 2 + |EncodeCode(inner)|, END);
    ScanFindsEnd(body, pc + 2, inner);
  }

  /** And at an `if` with else. */
  lemma FindIfElse(body: seq<byte>, pc: nat, bt: byte, thn: Code, els: Code)
    requires WellFormedCode(thn) && WellFormedCode(els)
    requires At(body, pc, [IF, bt] + EncodeCode(thn) + ([ELSE] + EncodeCode(els)) + [END])
    ensures var m := pc + 2 + |EncodeCode(thn)|;
            var e := m + 1 + |EncodeCode(els)|;
            && pc < |body| && body[pc] == IF && m < |body| && body[m] == ELSE && e < |body| && body[e] == END
            && At(body, pc + 2, EncodeCode(thn)) && At(body, m + 1, EncodeCode(els))
            && ScanBlockEnd(body, pc + 2) == Some((e, Some(m)))
  {
    hide At, EncodeCode, WellFormedCode, ScanFrom, ScanBlockEnd;
    ElseParts(body, pc, bt, EncodeCode(thn), EncodeCode(els));
    AtTwo(body, pc, IF, bt);
    AtOne(body, pc + 2 + |EncodeCode(thn)|, ELSE);
    AtOne(body, pc + 3 + |EncodeCode(thn)| + |EncodeCode(els)|, END);
    ScanFindsElse(body, pc + 2, thn, els);
  }

  /** The dispatch of a `block` or `loop` once its end is known. */
  lemma BlockStep(body: seq<byte>, cap: nat, oracle: Oracle, s: ByteState, endPc: nat)
    requires s.status == Running && s.pc < |body| && (body[s.pc] == BLOCK || body[s.pc] == LOOP)
    requires ScanBlockEnd(body, s.pc + 2) == Some((endPc, None))
    ensures ByteStep(body, cap, oracle, s) ==
            Push(s, CtrlFrame(if body[s.pc] == BLOCK then KBlock else KLoop, s.pc + 2, endPc), s.pc + 2, cap)
  {
    hide ScanBlockEnd, DispatchEnd, TableLabel, DoBr, ReadU32, Push;
  }

  lemma BlockSim(body: seq<byte>, cap: nat, oracle: Oracle, s: ByteState, t: TreeState)
    requires Agree(body, s, t) && s.status == Running && t.code.Cons? && (t.code.head.Block? || t.code.head.Loop?)
    ensures Agree(body, ByteStep(body, cap, oracle, s), TreeStep(cap, oracle, t))
  {
    hide ScanBlockEnd, Branch, EncodeCode, WellFormedCode, At, Rel, ByteStep;
    var x, tail := t.code.head, t.code.tail;
    var op := if x.Block? then BLOCK else LOOP;
    Advance(body, s.pc, x, tail, t.labels, s.ctrl);
    assert EncodeInstr(x) == [op, x.blockType] + EncodeCode(x.body) + [END] && WellFormedCode(x.body);
    hide EncodeInstr, WellFormed;
    FindBlock(body, s.pc, op, x.blockType, x.body);
    var e := s.pc + 2 + |EncodeCode(x.body)|;
    var l := Label(if x.Block? then LBlock else LLoop(x.body), tail);
    var f := CtrlFrame(if x.Block? then KBlock else KLoop, s.pc + 2, e);
    Entered(body, s.pc + 2, x.body, l, f, t.labels, s.ctrl);
    RelSameDepth(body, s.pc, t.code, t.labels, s.ctrl);
    BlockStep(body, cap, oracle, s, e);
  }

  lemma RelSameDepth(body: seq<byte>, pc: nat, code: Code, labels: seq<Label>, ctrl: seq<CtrlFrame>)
    requires Rel(body, pc, code, labels, ctrl)
    ensures |labels| == |ctrl|
  {
  }

  /** The dispatch of an `if` without else once its end is known. */
  lemma IfOnlyStep(body: seq<byte>, cap: nat, oracle: Oracle, s: ByteState, endPc: nat)
    requires s.status == Running && s.pc < |body| && body[s.pc] == IF
    requires ScanBlockEnd(body, s.pc + 2) == Some((endPc, None))
    ensures var s' := s.(log := Popped(s.log));
            ByteStep(body, cap, oracle, s) ==
            if oracle(s.log.pops) != 0 then Push(s', CtrlFrame(KIf, s.pc + 2, endPc), s.pc + 2, cap)
            else s'.(pc := endPc + 1)
  {
    hide ScanBlockEnd, DispatchEnd, TableLabel, DoBr, ReadU32, Push;
  }

  lemma IfSim(body: seq<byte>, cap: nat, oracle: Oracle, s: ByteState, t: TreeState)
    requires Agree(body, s, t) && s.status == Running && t.code.Cons? && t.code.head.If? && t.code.head.els.None?
    ensures Agree(body, ByteStep(body, cap, oracle, s), TreeStep(cap, oracle, t))
  {
    hide ScanBlockEnd, Branch, EncodeCode, WellFormedCode, At, Rel, ByteStep;
    var x, tail := t.code.head, t.code.tail;
    Advance(body, s.pc, x, tail, t.labels, s.ctrl);
    assert EncodeInstr(x) == [IF, x.blockType] + EncodeCode(x.thn) + [END] && WellFormedCode(x.thn);
    hide EncodeInstr, WellFormed;
    FindBlock(body, s.pc, IF, x.blockType, x.thn);
    var e := s.pc + 2 + |EncodeCode(x.thn)|;
    Entered(body, s.pc + 2, x.thn, Label(LElse, tail), CtrlFrame(KIf, s.pc + 2, e), t.labels, s.ctrl);
    RelSameDepth(body, s.pc, t.code, t.labels, s.ctrl);
    IfOnlyStep(body, cap, oracle, s, e);
  }

  /** The dispatch of an `if` once its end and else are known. */
  lemma IfStep(body: seq<byte>, cap: nat, oracle: Oracle, s: ByteState, endPc: nat, elsePc: nat)
    requires s.status == Running && s.pc < |body| && body[s.pc] == IF
    requires ScanBlockEnd(body, s.pc + 2) == Some((endPc, Some(elsePc)))
    ensures var f := CtrlFrame(KIf, s.pc + 2, endPc);
            ByteStep(body, cap, oracle, s) ==
            Push(s.(log := Popped(s.log)), f, if oracle(s.log.pops) != 0 then s.pc + 2 else elsePc + 1, cap)
  {
    hide ScanBlockEnd, DispatchEnd, TableLabel, DoBr, ReadU32, Push;
  }

  lemma IfElseSim(body: seq<byte>, cap: nat, oracle: Oracle, s: ByteState, t: TreeState)
    requires Agree(body, s, t) && s.status == Running && t.code.Cons? && t.code.head.If? && t.code.head.els.Some?
    ensures Agree(body, ByteStep(body, cap, oracle, s), TreeStep(cap, oracle, t))
  {
    hide ScanBlockEnd, Branch, EncodeCode, WellFormedCode, At, Rel, ByteStep;
    var x, tail := t.code.head, t.code.tail;
    var els := x.els.value;
    Advance(body, s.pc, x, tail, t.labels, s.ctrl);
    assert EncodeInstr(x) == [IF, x.blockType] + EncodeCode(x.thn) + ([ELSE] + EncodeCode(els)) + [END];
    assert WellFormedCode(x.thn) && WellFormedCode(els);
    hide EncodeInstr, WellFormed;
    FindIfElse(body, s.pc, x.blockType, x.thn, els);
    var m := s.pc + 2 + |EncodeCode(x.thn)|;
    var e := m + 1 + |EncodeCode(els)|;
    var f := CtrlFrame(KIf, s.pc + 2, e);
    Entered(body, s.pc + 2, x.thn, Label(LThen, tail), f, t.labels, s.ctrl);
    Entered(body, m + 1, els, Label(LElse, tail), f, t.labels, s.ctrl);
    RelSameDepth(body, s.pc, t.code, t.labels, s.ctrl);
    IfStep(body, cap, oracle, s, e, m);
  }

  lemma {:induction false} FindTableLabel(body: seq<byte>, pos: nat, labels: seq<seq<byte>>, k: nat)
    requires k < |labels| && At(body, pos, Flatten(labels)) && forall j :: 0 <= j < |labels| ==> ShortLeb(labels[j])
    ensures TableLabel(body, pos, k) == Some(LabelOf(labels[k]))
    decreases k
  {
    hide At, ReadU32, LabelOf, IsLeb;
    AtSplit(body, pos, labels[0], Flatten(labels[1..]));
    ReadAt(body, pos, labels[0]);
    AtFits(body, pos, labels[0]);
    if k > 0 { FindTableLabel(body, pos + |labels[0]|, labels[1..], k - 1); }
  }

  /** The dispatch of `br` and `br_if` once the label is known. */
  lemma BrStep(body: seq<byte>, cap: nat, oracle: Oracle, s: ByteState, l: u32, n: nat)
    requires s.status == Running && s.pc < |body| && (body[s.pc] == BR || body[s.pc] == BR_IF)
    requires ReadU32(body[s.pc + 1..]) == Some((l, n))
    ensures body[s.pc] == BR ==> ByteStep(body, cap, oracle, s) == DoBr(s, l)
    ensures body[s.pc] == BR_IF ==>
              ByteStep(body, cap, oracle, s) ==
              (var s' := s.(log := Popped(s.log));
               if oracle(s.log.pops) != 0 then DoBr(s', l) else s'.(pc := s.pc + 1 + n))
  {
    hide ScanBlockEnd, DispatchEnd, TableLabel, DoBr, ReadU32;
  }

  lemma BrSim(body: seq<byte>, cap: nat, oracle: Oracle, s: ByteState, t: TreeState)
    requires Agree(body, s, t) && s.status == Running && t.code.Cons? && (t.code.head.Br? || t.code.head.BrIf?)
    ensures Agree(body, ByteStep(body, cap, oracle, s), TreeStep(cap, oracle, t))
  {
    hide DoBr, Branch, ReadU32, At, Rel, SkipImmediates, LabelOf, ByteStep, IsLeb;
    var x := t.code.head;
    Advance(body, s.pc, x, t.code.tail, t.labels, s.ctrl);
    assert |EncodeInstr(x)| == 1 + |x.target| && ShortLeb(x.target);
    BranchImmediates(body, s.pc, x);
    hide EncodeInstr, WellFormed;
    ReadAt(body, s.pc + 1, x.target);
    BrStep(body, cap, oracle, s, LabelOf(x.target), |x.target|);
    BranchSim(body, s, t, LabelOf(x.target));
    BranchSim(body, s.(log := Popped(s.log)), t.(log := Popped(t.log)), LabelOf(x.target));
  }

  /** The dispatch of a branch table once its count and the selected label are known. */
  lemma TableStep(body: seq<byte>, cap: nat, oracle: Oracle, s: ByteState, count: u32, n: nat, l: nat)
    requires s.status == Running && s.pc < |body| && body[s.pc] == BR_TABLE
    requires ReadU32(body[s.pc + 1..]) == Some((count, n))
    requires var i := Low32(oracle(s.log.pops));
             TableLabel(body, s.pc + 1 + n, if i < count then i else count) == Some(l)
    ensures ByteStep(body, cap, oracle, s) == DoBr(s.(log := Popped(s.log)), l)
  {
    hide ScanBlockEnd, DispatchEnd, TableLabel, DoBr, ReadU32, Low32;
  }

  lemma BrTableSim(body: seq<byte>, cap: nat, oracle: Oracle, s: ByteState, t: TreeState)
    requires Agree(body, s, t) && s.status == Running && t.code.Cons? && t.code.head.BrTable?
    ensures Agree(body, ByteStep(body, cap, oracle, s), TreeStep(cap, oracle, t))
  {
    hide ScanBlockEnd, DispatchEnd, TableLabel, DoBr, Branch, ReadU32, EncodeInstr, At, Rel, SkipImmediates, LabelOf,
         Low32, ByteStep, TreeStep, IsLeb;
    var x := t.code.head;
    Advance(body, s.pc, x, t.code.tail, t.labels, s.ctrl);
    TableShape(x);
    hide WellFormed, ShortLeb;
    BranchImmediates(body, s.pc, x);
    ReadAt(body, s.pc + 1, x.count);
    var i := Low32(oracle(s.log.pops));
    var count := |x.labels| - 1;
    var k := if i < count then i else count;
    FindTableLabel(body, s.pc + 1 + |x.count|, x.labels, k);
    TableStep(body, cap, oracle, s, count, |x.count|, LabelOf(x.labels[k]));
    TreeTableStep(cap, oracle, t);
    BranchSim(body, s.(log := Popped(s.log)), t.(log := Popped(t.log)), LabelOf(x.labels[k]));
  }

  lemma TableShape(x: Instr)
    requires x.BrTable? && WellFormed(x)
    ensures ShortLeb(x.count) && LabelOf(x.count) == |x.labels| - 1
    ensures forall j :: 0 <= j < |x.labels| ==> ShortLeb(x.labels[j])
  {
  }

  lemma TreeTableStep(cap: nat, oracle: Oracle, t: TreeState)
    requires t.status == Running && t.code.Cons? && t.code.head.BrTable? && t.code.head.labels != []
    ensures var i, count := Low32(oracle(t.log.pops)), |t.code.head.labels| - 1;
            TreeStep(cap, oracle, t) ==
            Branch(t.(log := Popped(t.log)), LabelOf(t.code.head.labels[if i < count then i else count]))
  {
    hide Branch, LabelOf, Low32;
  }

  lemma StopSim(body: seq<byte>, cap: nat, oracle: Oracle, s: ByteState, t: TreeState)
    requires Agree(body, s, t) && s.status == Running && t.code.Cons?
    requires t.code.head.Unreachable? || t.code.head.Return?
    ensures Agree(body, ByteStep(body, cap, oracle, s), TreeStep(cap, oracle, t))
  {
    var x := t.code.head;
    Advance(body, s.pc, x, t.code.tail, t.labels, s.ctrl);
    AtOne(body, s.pc, if x.Return? then RETURN else UNREACHABLE);
    hide ScanBlockEnd, DispatchEnd, TableLabel, DoBr, Branch, ReadU32, At, Rel;
  }

  /** One turn of the dispatch loop is one step of structured execution. */
  lemma StepSim(body: seq<byte>, cap: nat, oracle: Oracle, s: ByteState, t: TreeState)
    requires Agree(body, s, t)
    ensures Agree(body, ByteStep(body, cap, oracle, s), TreeStep(cap, oracle, t))
  {
    if s.status == Running {
      hide ByteStep, TreeStep, Rel;
      match t.code
      case Nil => NilSim(body, cap, oracle, s, t);
      case Cons(Plain(_, _), _) => PlainSim(body, cap, oracle, s, t);
      case Cons(Block(_, _), _) => BlockSim(body, cap, oracle, s, t);
      case Cons(Loop(_, _), _) => BlockSim(body, cap, oracle, s, t);
      case Cons(If(_, _, None), _) => IfSim(body, cap, oracle, s, t);
      case Cons(If(_, _, Some(_)), _) => IfElseSim(body, cap, oracle, s, t);
      case Cons(Br(_), _) => BrSim(body, cap, oracle, s, t);
      case Cons(BrIf(_), _) => BrSim(body, cap, oracle, s, t);
      case Cons(BrTable(_, _), _) => BrTableSim(body, cap, oracle, s, t);
      case Cons(_, _) => StopSim(body, cap, oracle, s, t);
    }
  }

  // ---- whole runs -----------------------------------------------------------------------------------------

  function ByteRun(body: seq<byte>, cap: nat, oracle: Oracle, s: ByteState, steps: nat): ByteState {
    if steps == 0 then s else ByteStep(body, cap, oracle, ByteRun(body, cap, oracle, s, steps - 1))
  }

  function TreeRun(cap: nat, oracle: Oracle, t: TreeState, steps: nat): TreeState {
    if steps == 0 then t else TreeStep(cap, oracle, TreeRun(cap, oracle, t, steps - 1))
  }

  const START: Log := Log(0, [])

  /** For every function body that encodes well-formed code, every oracle, every control-stack capacity and
      every number of steps, the byte interpreter and structured execution have executed the same plain
      instructions, popped as many conditions, and stopped (or not) in the same way; while running, the
      control stack records exactly the constructs around the program counter. */
  lemma {:induction false} ControlSimulation(code: Code, cap: nat, oracle: Oracle, steps: nat)
    requires WellFormedCode(code)
    ensures var body := EncodeCode(code) + [END];
            Agree(body, ByteRun(body, cap, oracle, ByteState(0, [], START, Running), steps),
                  TreeRun(cap, oracle, TreeState(code, [], START, Running), steps))
  {
    var body := EncodeCode(code) + [END];
    if steps == 0 {
      hide EncodeCode, WellFormedCode;
      assert body[0..|EncodeCode(code)|] == EncodeCode(code);
    } else {
      hide ByteStep, TreeStep, Agree;
      ControlSimulation(code, cap, oracle, steps - 1);
      StepSim(body, cap, oracle, ByteRun(body, cap, oracle, ByteState(0, [], START, Running), steps - 1),
              TreeRun(cap, oracle, TreeState(code, [], START, Running), steps - 1));
    }
  }
}
