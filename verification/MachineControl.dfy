/** The run loop's control flow, turn by turn: where a function stands, its part of the control stack and the conditions
    it pops are those of the byte machine of Control.

    The run loop of Machine works on decoded instructions. `Decodes` ties them to a function body's bytes by opcode, so
    that positions in the list and positions in the bytes can be compared. */
module MachineControl {
  import opened Words
  import opened Leb128
  import opened Machine
  import B = Bytes
  import C = Control
  import S = Scanner

  // ---- decoded instructions and their bytes ----------------------------------------------------------------------

  /** Instruction `k` is the `end` or `else` at byte `pos`. */
  predicate Marks(at: seq<nat>, k: nat, pos: nat) {
    k + 1 < |at| && at[k] == pos && at[k + 1] == pos + 1
  }

  predicate EndAt(body: seq<byte>, at: seq<nat>, start: nat, end: nat) {
    var r := S.ScanBlockEnd(body, start);
    r.Some? && Marks(at, end, r.value.0)
  }

  predicate ElseAt(body: seq<byte>, at: seq<nat>, start: nat, els: Option<nat>) {
    var r := S.ScanBlockEnd(body, start);
    r.Some? && (r.value.1.Some? <==> els.Some?) && (els.Some? ==> Marks(at, els.value, r.value.1.value))
  }

  predicate LabelAt(body: seq<byte>, pc: nat, n: nat, next: nat) {
    pc <= |body| && ReadU32(body[pc..]).Some? && ReadU32(body[pc..]).value.0 == n
    && next == pc + ReadU32(body[pc..]).value.1
  }

  predicate TableAt(body: seq<byte>, pc: nat, labels: seq<nat>, default: nat) {
    && pc <= |body| && ReadU32(body[pc..]).Some?
    && var (count, n) := ReadU32(body[pc..]).value;
       && count == |labels| && C.TableLabel(body, pc + n, count) == Some(default)
       && forall j: nat :: j < |labels| ==> C.TableLabel(body, pc + n, j) == Some(labels[j])
  }

  /** Neither control nor `unreachable` nor `return`. */
  predicate Ordinary(i: Instr) {
    match i
    case Block(_) | Loop(_) | If(_, _) | Else | End | Br(_) | BrIf(_) | BrTable(_, _) | Return | Trap => false
    case _ => true
  }

  /** Instruction `k` is what stands at byte `at[k]`. */
  predicate DecodedAt(body: seq<byte>, at: seq<nat>, k: nat, i: Instr)
    requires k + 1 < |at| && at[k] < |body|
  {
    var pc, next, op := at[k], at[k + 1], body[at[k]];
    if op == 0x02 then i.Block? && next == pc + 2 && EndAt(body, at, pc + 2, i.end)
    else if op == 0x03 then i.Loop? && next == pc + 2 && EndAt(body, at, pc + 2, i.end)
    else if op == 0x04 then
      i.If? && next == pc + 2 && EndAt(body, at, pc + 2, i.end) && ElseAt(body, at, pc + 2, i.els)
    else if op == 0x05 then i == Else && next == pc + 1
    else if op == 0x0B then i == End && next == pc + 1
    else if op == 0x0C then i.Br? && LabelAt(body, pc + 1, i.depth, next)
    else if op == 0x0D then i.BrIf? && LabelAt(body, pc + 1, i.depth, next)
    else if op == 0x0E then i.BrTable? && TableAt(body, pc + 1, i.depths, i.default)
    else if op == 0x0F then i == Return && next == pc + 1
    else if op == 0x00 then i == Trap && next == pc + 1
    else Ordinary(i) && C.DispatchEnd(body, op, pc + 1) == Some(next)
  }

  predicate InstrAt(body: seq<byte>, code: seq<Instr>, at: seq<nat>, k: nat)
    requires k < |code| && |at| == |code| + 1
  {
    at[k] < |body| && at[k + 1] <= |body| && DecodedAt(body, at, k, code[k])
  }

  /** `code` is the decoded body, instruction `k` standing at byte `at[k]`. */
  predicate Decodes(body: seq<byte>, code: seq<Instr>, at: seq<nat>) {
    && |at| == |code| + 1 && at[0] == 0 && at[|code|] == |body|
    && forall k :: 0 <= k < |code| ==> InstrAt(body, code, at, k)
  }

  // ---- the relation ----------------------------------------------------------------------------------------------

  predicate FrameMatches(at: seq<nat>, c: CtrlFrame, f: C.CtrlFrame) {
    && (c.isLoop <==> f.kind == C.KLoop) && c.start < |at| && at[c.start] == f.pcStart && Marks(at, c.end, f.endPc)
  }

  predicate CtrlMatches(at: seq<nat>, cs: seq<CtrlFrame>, fs: seq<C.CtrlFrame>) {
    |cs| == |fs| && forall k :: 0 <= k < |cs| ==> FrameMatches(at, cs[k], fs[k])
  }

  /** Where the control frames of call frame `d` end. */
  function CtrlTop(s: State, d: nat): nat
    requires 0 < d <= |s.frames|
  {
    if d < |s.frames| then s.frames[d].ctrlBase else |s.ctrl|
  }

  /** Call frame `d`, with control frames from `base` on, runs function `func` and stands where the byte machine `b`
      stands, inside the same constructs. */
  predicate Stands(s: State, d: nat, func: nat, base: nat, at: seq<nat>, b: C.ByteState) {
    && 0 < d <= |s.frames| && s.frames[d - 1].func == func && s.frames[d - 1].ctrlBase == base
    && s.frames[d - 1].pc < |at| && at[s.frames[d - 1].pc] == b.pc
    && base <= CtrlTop(s, d) <= |s.ctrl| && b.status == C.Running
    && CtrlMatches(at, s.ctrl[base..CtrlTop(s, d)], b.ctrl)
  }

  /** What is left on the value stack for a return: a condition popped, or not. */
  function LeftBy(s: State, popped: bool): seq<Word> {
    if popped && s.stack != [] then s.stack[..|s.stack| - 1] else s.stack
  }

  /** The frame is gone: results on the caller's prefix, and the caller's control frames. */
  predicate Returned(s: State, left: seq<Word>, s': State)
    requires s.frames != []
  {
    var f := Top(s);
    && f.vspBase + f.resultCount <= |left| && f.ctrlBase <= |s.ctrl|
    && s' == s.(stack := left[..f.vspBase] + left[|left| - f.resultCount..], ctrl := s.ctrl[..f.ctrlBase],
                frames := s.frames[..|s.frames| - 1])
  }

  /** Same frames but for the position in the topmost, and the control frames `ctrl`. */
  predicate Went(s: State, s1: State, pc: nat, ctrl: seq<CtrlFrame>, s': State)
    requires s.frames != []
  {
    s' == s1.(frames := s.frames[|s.frames| - 1 := Top(s).(pc := pc)], ctrl := ctrl)
  }

  // ---- turns, by instruction -------------------------------------------------------------------------------------

  lemma ControlExec(p: Program, s: State, active: nat, i: Instr)
    requires s.frames != [] && Fetch(p, s) == Some(i) && !Returns(p, s) && IsControl(i)
    ensures Exec(p, s, active) == ExecControl(s, active, i)
  {
    hide ExecControl, ExecPlain, ExecAccess, ExecGrow, ExecFast, ExecCall, Fetch, Returning;
  }

  lemma ReturnExec(p: Program, s: State, s': State, s1: State)
    requires s.frames != [] && Returning(p, s) == Some(s1) && After(Exec(p, s, ActiveBytes(s))) == Some(s')
    ensures Returned(s, s1.stack, s')
  {
    hide ExecControl, ExecPlain, ExecAccess, ExecGrow, ExecFast, ExecCall, Fetch, Returning;
  }

  lemma EnterTurn(p: Program, s: State, s': State, i: Instr)
    requires Turn(p, s, s') && Fetch(p, s) == Some(i) && (i.Block? || i.Loop?)
    ensures var next := Top(s).pc + 1;
            |s.ctrl| < 128 && Went(s, s, next, s.ctrl + [CtrlFrame(i.Loop?, next, i.end)], s')
  {
    hide Disciplined;
    ControlExec(p, s, ActiveBytes(s), i);
  }

  lemma IfTurn(p: Program, s: State, s': State, i: Instr)
    requires Turn(p, s, s') && Fetch(p, s) == Some(i) && i.If?
    ensures s.stack != []
    ensures var s1, next := s.(stack := s.stack[..|s.stack| - 1]), Top(s).pc + 1;
            if s.stack[|s.stack| - 1] != 0 || i.els.Some? then
              |s.ctrl| < 128
              && Went(s, s1, if s.stack[|s.stack| - 1] != 0 then next else i.els.value + 1,
                      s.ctrl + [CtrlFrame(false, next, i.end)], s')
            else Went(s, s1, i.end + 1, s.ctrl, s')
  {
    hide Disciplined;
    ControlExec(p, s, ActiveBytes(s), i);
  }

  lemma ElseTurn(p: Program, s: State, s': State)
    requires Turn(p, s, s') && Fetch(p, s) == Some(Else)
    ensures Top(s).ctrlBase < |s.ctrl|
    ensures Went(s, s, s.ctrl[|s.ctrl| - 1].end + 1, s.ctrl[..|s.ctrl| - 1], s')
  {
    assert Top(s).ctrlBase < |s.ctrl|;
    hide Disciplined;
    ControlExec(p, s, ActiveBytes(s), Else);
  }

  lemma EndTurn(p: Program, s: State, s': State)
    requires Turn(p, s, s') && Fetch(p, s) == Some(End)
    ensures |s.ctrl| <= Top(s).ctrlBase ==> Returned(s, s.stack, s')
    ensures |s.ctrl| > Top(s).ctrlBase ==> Went(s, s, Top(s).pc + 1, s.ctrl[..|s.ctrl| - 1], s')
  {
    hide Disciplined;
    if |s.ctrl| <= Top(s).ctrlBase {
      assert Returning(p, s) == Some(s);
      hide Exec, Fetch, Returning, Returned;
      ReturnExec(p, s, s', s);
    } else {
      ControlExec(p, s, ActiveBytes(s), End);
    }
  }

  lemma OverTurn(p: Program, s: State, s': State)
    requires Turn(p, s, s') && (Fetch(p, s).None? || Fetch(p, s) == Some(Return))
    ensures Returned(s, s.stack, s')
  {
    assert Returning(p, s) == Some(s);
    hide Exec, Fetch, Returning, Returned, Disciplined;
    ReturnExec(p, s, s', s);
  }

  /** A branch to label `n`, in the state `s1` with the condition popped. */
  predicate Branches(s: State, i: Instr, s1: State, n: nat) {
    || (i == Br(n) && s1 == s)
    || (s.stack != [] && s1 == s.(stack := s.stack[..|s.stack| - 1])
        && var v := s.stack[|s.stack| - 1];
           || (i == BrIf(n) && v != 0)
           || (i.BrTable? && n == if v % 0x1_0000_0000 < |i.depths| then i.depths[v % 0x1_0000_0000] else i.default))
  }

  lemma BranchReturning(p: Program, s: State, i: Instr, s1: State, n: nat)
    requires s.frames != [] && Fetch(p, s) == Some(i) && Branches(s, i, s1, n) && Top(s).ctrlBase + n >= |s.ctrl|
    ensures Returning(p, s) == Some(s1)
  {
    hide Fetch;
  }

  lemma BranchTaken(s: State, i: Instr, s1: State, n: nat)
    requires Branches(s, i, s1, n)
    ensures Taken(i, s) == Some((s1, n)) && s1.frames == s.frames && s1.ctrl == s.ctrl
    ensures i.Br? || i.BrIf? || i.BrTable?
  {
  }

  lemma JumpWent(s: State, s1: State, n: nat)
    requires s.frames != [] && s1.frames == s.frames && s1.ctrl == s.ctrl && n < |s.ctrl|
    ensures var k := |s.ctrl| - 1 - n;
            if s.ctrl[k].isLoop then Went(s, s1, s.ctrl[k].start, s.ctrl[..k + 1], Jump(s1, n))
            else Went(s, s1, s.ctrl[k].end + 1, s.ctrl[..k], Jump(s1, n))
  {
  }

  lemma BranchExec(s: State, active: nat, i: Instr, s1: State, n: nat)
    requires s.frames != [] && Branches(s, i, s1, n) && n < |s.ctrl|
    ensures IsControl(i)
    ensures var k, o := |s.ctrl| - 1 - n, ExecControl(s, active, i);
            && o.Next?
            && if s.ctrl[k].isLoop then Went(s, s1, s.ctrl[k].start, s.ctrl[..k + 1], o.s)
               else Went(s, s1, s.ctrl[k].end + 1, s.ctrl[..k], o.s)
  {
    hide Branches, Taken, Jump, Went, Enter;
    BranchTaken(s, i, s1, n);
    JumpWent(s, s1, n);
  }

  lemma BranchInside(p: Program, s: State, i: Instr, s1: State, n: nat)
    requires s.frames != [] && Fetch(p, s) == Some(i) && Branches(s, i, s1, n) && Top(s).ctrlBase + n < |s.ctrl|
    ensures !Returns(p, s)
  {
    hide Fetch;
  }

  lemma BranchTurn(p: Program, s: State, s': State, i: Instr, s1: State, n: nat)
    requires s.frames != [] && Turn(p, s, s') && Fetch(p, s) == Some(i) && Branches(s, i, s1, n)
    ensures Top(s).ctrlBase + n >= |s.ctrl| ==> Returned(s, s1.stack, s')
    ensures Top(s).ctrlBase + n < |s.ctrl| ==>
              var k := |s.ctrl| - 1 - n;
              if s.ctrl[k].isLoop then Went(s, s1, s.ctrl[k].start, s.ctrl[..k + 1], s')
              else Went(s, s1, s.ctrl[k].end + 1, s.ctrl[..k], s')
  {
    hide Disciplined, Exec, ExecControl, Fetch, Returning, Returned, Returns, Branches, Went;
    if Top(s).ctrlBase + n >= |s.ctrl| {
      BranchReturning(p, s, i, s1, n);
      ReturnExec(p, s, s', s1);
    } else {
      BranchInside(p, s, i, s1, n);
      BranchExec(s, ActiveBytes(s), i, s1, n);
      ControlExec(p, s, ActiveBytes(s), i);
    }
  }

  lemma PassTurn(p: Program, s: State, s': State, n: nat)
    requires Turn(p, s, s') && Fetch(p, s) == Some(BrIf(n)) && s.stack != [] && s.stack[|s.stack| - 1] == 0
    ensures Went(s, s.(stack := s.stack[..|s.stack| - 1]), Top(s).pc + 1, s.ctrl, s')
  {
    hide Disciplined;
    ControlExec(p, s, ActiveBytes(s), BrIf(n));
  }

  lemma ConditionThere(p: Program, s: State, i: Instr)
    requires s.frames != [] && Disciplined(p, s) && Fetch(p, s) == Some(i) && (i.BrIf? || i.BrTable?)
    ensures s.stack != []
  {
  }

  // ---- one turn at the top is one byte step ----------------------------------------------------------------------

  lemma PushMatches(at: seq<nat>, cs: seq<CtrlFrame>, fs: seq<C.CtrlFrame>, c: CtrlFrame, f: C.CtrlFrame)
    requires CtrlMatches(at, cs, fs) && FrameMatches(at, c, f)
    ensures CtrlMatches(at, cs + [c], fs + [f])
  {
    hide FrameMatches;
  }

  lemma PrefixMatches(at: seq<nat>, cs: seq<CtrlFrame>, fs: seq<C.CtrlFrame>, k: nat)
    requires CtrlMatches(at, cs, fs) && k <= |cs|
    ensures CtrlMatches(at, cs[..k], fs[..k])
  {
    hide FrameMatches;
  }

  lemma StandsAfter(s: State, s1: State, pc: nat, ctrl: seq<CtrlFrame>, s': State, func: nat, at: seq<nat>,
                    b: C.ByteState, b': C.ByteState)
    requires s.frames != [] && Stands(s, |s.frames|, func, Top(s).ctrlBase, at, b)
    requires Went(s, s1, pc, ctrl, s') && s1.frames == s.frames
    requires pc < |at| && at[pc] == b'.pc && b'.status == C.Running && Top(s).ctrlBase <= |ctrl|
    requires CtrlMatches(at, ctrl[Top(s).ctrlBase..], b'.ctrl)
    ensures Stands(s', |s.frames|, func, Top(s).ctrlBase, at, b')
  {
    hide CtrlMatches;
    assert ctrl[Top(s).ctrlBase..|ctrl|] == ctrl[Top(s).ctrlBase..];
  }

  lemma StandsTop(s: State, func: nat, at: seq<nat>, b: C.ByteState)
    requires s.frames != [] && Stands(s, |s.frames|, func, Top(s).ctrlBase, at, b)
    ensures Top(s).func == func && Top(s).pc < |at| && at[Top(s).pc] == b.pc && b.status == C.Running
    ensures Top(s).ctrlBase <= |s.ctrl| && CtrlMatches(at, s.ctrl[Top(s).ctrlBase..], b.ctrl)
    ensures |b.ctrl| == |s.ctrl| - Top(s).ctrlBase
  {
    hide FrameMatches;
    assert s.ctrl[Top(s).ctrlBase..|s.ctrl|] == s.ctrl[Top(s).ctrlBase..];
  }

  /** What stands at the position of the topmost frame. */
  lemma Fetched(p: Program, s: State, func: nat, body: seq<byte>, at: seq<nat>, b: C.ByteState)
    requires s.frames != [] && Stands(s, |s.frames|, func, Top(s).ctrlBase, at, b)
    requires func < |p.funcs| && Decodes(body, p.funcs[func].body, at)
    ensures b.pc >= |body| ==> Fetch(p, s).None?
    ensures b.pc < |body| ==>
              var k := Top(s).pc;
              Fetch(p, s).Some? && k + 1 < |at| && at[k] == b.pc && at[k + 1] <= |body|
              && DecodedAt(body, at, k, Fetch(p, s).value)
  {
    hide CtrlMatches, DecodedAt;
    StandsTop(s, func, at, b);
    if Top(s).pc < |p.funcs[func].body| { assert InstrAt(body, p.funcs[func].body, at, Top(s).pc); }
  }

  lemma EnterByte(body: seq<byte>, cap: nat, oracle: C.Oracle, b: C.ByteState)
    requires b.status == C.Running && b.pc < |body| && (body[b.pc] == 0x02 || body[b.pc] == 0x03)
    requires S.ScanBlockEnd(body, b.pc + 2).Some? && |b.ctrl| < cap
    ensures C.ByteStep(body, cap, oracle, b)
            == b.(pc := b.pc + 2,
                  ctrl := b.ctrl + [C.CtrlFrame(if body[b.pc] == 0x02 then C.KBlock else C.KLoop, b.pc + 2,
                                                S.ScanBlockEnd(body, b.pc + 2).value.0)])
  {
    hide S.ScanBlockEnd, C.DispatchEnd, C.TableLabel, C.DoBr, ReadU32;
  }

  /** Room for control frames above a base. */
  function Cap(base: nat): nat {
    if base <= 128 then 128 - base else 0
  }

  /** The outcome of a byte step that the turn follows. */
  ghost predicate Follows(s: State, s': State, func: nat, at: seq<nat>, b: C.ByteState, b': C.ByteState)
    requires s.frames != []
  {
    var left := LeftBy(s, b'.log.pops > b.log.pops);
    && (b'.status == C.Done || b'.status == C.Running)
    && (b'.status == C.Done ==> Returned(s, left, s'))
    && (b'.status == C.Running ==> Stands(s', |s.frames|, func, Top(s).ctrlBase, at, b'))
  }

  lemma EnterSim(p: Program, s: State, s': State, func: nat, body: seq<byte>, at: seq<nat>, oracle: C.Oracle,
                 b: C.ByteState)
    requires s.frames != [] && Turn(p, s, s') && Stands(s, |s.frames|, func, Top(s).ctrlBase, at, b)
    requires func < |p.funcs| && Decodes(body, p.funcs[func].body, at)
    requires b.pc < |body| && (body[b.pc] == 0x02 || body[b.pc] == 0x03)
    ensures var b' := C.ByteStep(body, Cap(Top(s).ctrlBase), oracle, b);
            Follows(s, s', func, at, b, b') && b'.status == C.Running && b'.log == b.log && s'.stack == s.stack
  {
    hide Turn, Fetch, Stands, Decodes, CtrlMatches, S.ScanBlockEnd, C.ByteStep;
    Fetched(p, s, func, body, at, b);
    StandsTop(s, func, at, b);
    var i, base, next := Fetch(p, s).value, Top(s).ctrlBase, Top(s).pc + 1;
    EnterTurn(p, s, s', i);
    EnterByte(body, Cap(base), oracle, b);
    var c, f := CtrlFrame(i.Loop?, next, i.end),
                C.CtrlFrame(if body[b.pc] == 0x02 then C.KBlock else C.KLoop, b.pc + 2,
                            S.ScanBlockEnd(body, b.pc + 2).value.0);
    PushMatches(at, s.ctrl[base..], b.ctrl, c, f);
    assert (s.ctrl + [c])[base..] == s.ctrl[base..] + [c];
    StandsAfter(s, s, next, s.ctrl + [c], s', func, at, b, C.ByteStep(body, Cap(base), oracle, b));
  }

  /** The instruction at the top pops a condition. */
  predicate PopsCondition(body: seq<byte>, pc: nat) {
    pc < |body| && (body[pc] == 0x04 || body[pc] == 0x0D || body[pc] == 0x0E)
  }

  /** A condition on top of the stack is the oracle's next value. */
  predicate Tells(oracle: C.Oracle, body: seq<byte>, b: C.ByteState, s: State) {
    PopsCondition(body, b.pc) && s.stack != [] ==> oracle(b.log.pops) == s.stack[|s.stack| - 1]
  }

  lemma IfByte(body: seq<byte>, cap: nat, oracle: C.Oracle, b: C.ByteState)
    requires b.status == C.Running && b.pc < |body| && body[b.pc] == 0x04 && S.ScanBlockEnd(body, b.pc + 2).Some?
    ensures var (endPc, elsePc) := S.ScanBlockEnd(body, b.pc + 2).value;
            var b1, f := b.(log := C.Popped(b.log)), C.CtrlFrame(C.KIf, b.pc + 2, endPc);
            C.ByteStep(body, cap, oracle, b)
            == if oracle(b.log.pops) != 0 then C.Push(b1, f, b.pc + 2, cap)
               else if elsePc.Some? then C.Push(b1, f, elsePc.value + 1, cap)
               else b1.(pc := endPc + 1)
  {
    hide S.ScanBlockEnd, C.DispatchEnd, C.TableLabel, C.DoBr, ReadU32, C.Push;
  }

  lemma IfSim(p: Program, s: State, s': State, func: nat, body: seq<byte>, at: seq<nat>, oracle: C.Oracle,
              b: C.ByteState)
    requires s.frames != [] && Turn(p, s, s') && Stands(s, |s.frames|, func, Top(s).ctrlBase, at, b)
    requires Tells(oracle, body, b, s)
    requires func < |p.funcs| && Decodes(body, p.funcs[func].body, at)
    requires b.pc < |body| && body[b.pc] == 0x04
    ensures var b' := C.ByteStep(body, Cap(Top(s).ctrlBase), oracle, b);
            && Follows(s, s', func, at, b, b') && b'.status == C.Running && b'.log == C.Popped(b.log)
            && s'.stack == LeftBy(s, true)
  {
    hide Turn, Fetch, Stands, Decodes, CtrlMatches, S.ScanBlockEnd, C.ByteStep;
    Fetched(p, s, func, body, at, b);
    StandsTop(s, func, at, b);
    var i, base, next := Fetch(p, s).value, Top(s).ctrlBase, Top(s).pc + 1;
    IfTurn(p, s, s', i);
    IfByte(body, Cap(base), oracle, b);
    var b', s1 := C.ByteStep(body, Cap(base), oracle, b), s.(stack := s.stack[..|s.stack| - 1]);
    if s.stack[|s.stack| - 1] != 0 || i.els.Some? {
      var c, f := CtrlFrame(false, next, i.end),
                  C.CtrlFrame(C.KIf, b.pc + 2, S.ScanBlockEnd(body, b.pc + 2).value.0);
      PushMatches(at, s.ctrl[base..], b.ctrl, c, f);
      assert (s.ctrl + [c])[base..] == s.ctrl[base..] + [c];
      var to := if s.stack[|s.stack| - 1] != 0 then next else i.els.value + 1;
      StandsAfter(s, s1, to, s.ctrl + [c], s', func, at, b, b');
    } else {
      StandsAfter(s, s1, i.end + 1, s.ctrl, s', func, at, b, b');
    }
  }

  lemma MarkByte(body: seq<byte>, cap: nat, oracle: C.Oracle, b: C.ByteState)
    requires b.status == C.Running && b.pc < |body| && (body[b.pc] == 0x05 || body[b.pc] == 0x0B)
    ensures b.ctrl == [] && body[b.pc] == 0x0B ==> C.ByteStep(body, cap, oracle, b) == b.(status := C.Done)
    ensures b.ctrl != [] ==>
              C.ByteStep(body, cap, oracle, b)
              == b.(pc := if body[b.pc] == 0x05 then b.ctrl[|b.ctrl| - 1].endPc + 1 else b.pc + 1,
                    ctrl := b.ctrl[..|b.ctrl| - 1])
  {
    hide S.ScanBlockEnd, C.DispatchEnd, C.TableLabel, C.DoBr, ReadU32, C.Push;
  }

  lemma MarkSim(p: Program, s: State, s': State, func: nat, body: seq<byte>, at: seq<nat>, oracle: C.Oracle,
                b: C.ByteState)
    requires s.frames != [] && Turn(p, s, s') && Stands(s, |s.frames|, func, Top(s).ctrlBase, at, b)
    requires func < |p.funcs| && Decodes(body, p.funcs[func].body, at)
    requires b.pc < |body| && (body[b.pc] == 0x05 || body[b.pc] == 0x0B)
    ensures var b' := C.ByteStep(body, Cap(Top(s).ctrlBase), oracle, b);
            && Follows(s, s', func, at, b, b') && b'.log == b.log
            && (b'.status == C.Running ==> s'.stack == s.stack)
  {
    hide Turn, Fetch, Stands, Decodes, CtrlMatches, C.ByteStep, Returned;
    Fetched(p, s, func, body, at, b);
    StandsTop(s, func, at, b);
    var i, base, k := Fetch(p, s).value, Top(s).ctrlBase, |s.ctrl| - 1;
    if i == Else { ElseTurn(p, s, s'); } else { EndTurn(p, s, s'); }
    MarkByte(body, Cap(base), oracle, b);
    var b' := C.ByteStep(body, Cap(base), oracle, b);
    if |s.ctrl| > base {
      InnerMatches(at, s.ctrl, base, b.ctrl, k);
      StandsAfter(s, s, if i == Else then s.ctrl[k].end + 1 else Top(s).pc + 1, s.ctrl[..k], s', func, at, b, b');
    }
  }

  /** The record of construct `k`, and those around it. */
  lemma InnerMatches(at: seq<nat>, ctrl: seq<CtrlFrame>, base: nat, fs: seq<C.CtrlFrame>, k: nat)
    requires base <= k < |ctrl| && CtrlMatches(at, ctrl[base..], fs)
    ensures |fs| == |ctrl| - base && FrameMatches(at, ctrl[k], fs[k - base])
    ensures CtrlMatches(at, ctrl[..k][base..], fs[..k - base])
    ensures CtrlMatches(at, ctrl[..k + 1][base..], fs[..k - base + 1])
  {
    assert ctrl[base..][k - base] == ctrl[k];
    hide FrameMatches;
    PrefixMatches(at, ctrl[base..], fs, k - base);
    PrefixMatches(at, ctrl[base..], fs, k - base + 1);
    assert ctrl[..k][base..] == ctrl[base..][..k - base];
    assert ctrl[..k + 1][base..] == ctrl[base..][..k - base + 1];
  }

  /** The byte machine's branch. */
  lemma BranchByte(body: seq<byte>, cap: nat, oracle: C.Oracle, b: C.ByteState, n: nat, popped: bool)
    requires b.status == C.Running && b.pc < |body| && 0x0C <= body[b.pc] <= 0x0E
    requires ReadU32(body[b.pc + 1..]).Some? && (body[b.pc] != 0x0C <==> popped)
    requires body[b.pc] != 0x0E ==> n == ReadU32(body[b.pc + 1..]).value.0
    requires body[b.pc] == 0x0D ==> oracle(b.log.pops) != 0
    requires body[b.pc] == 0x0E ==>
               var ((count, k), v) := (ReadU32(body[b.pc + 1..]).value, oracle(b.log.pops) % 0x1_0000_0000);
               C.TableLabel(body, b.pc + 1 + k, if v < count then v else count) == Some(n)
    ensures C.ByteStep(body, cap, oracle, b) == C.DoBr(if popped then b.(log := C.Popped(b.log)) else b, n)
  {
    hide S.ScanBlockEnd, C.DispatchEnd, C.TableLabel, C.DoBr, ReadU32, C.Push;
  }

  lemma PassByte(body: seq<byte>, cap: nat, oracle: C.Oracle, b: C.ByteState)
    requires b.status == C.Running && b.pc < |body| && body[b.pc] == 0x0D
    requires ReadU32(body[b.pc + 1..]).Some? && oracle(b.log.pops) == 0
    ensures C.ByteStep(body, cap, oracle, b)
            == b.(log := C.Popped(b.log), pc := b.pc + 1 + ReadU32(body[b.pc + 1..]).value.1)
  {
    hide S.ScanBlockEnd, C.DispatchEnd, C.TableLabel, C.DoBr, ReadU32, C.Push;
  }

  /** `do_br` from matching control frames. */
  lemma BrSim(s: State, s1: State, s': State, func: nat, at: seq<nat>, b: C.ByteState, b1: C.ByteState, n: nat)
    requires s.frames != [] && Stands(s, |s.frames|, func, Top(s).ctrlBase, at, b)
    requires b1 == b.(log := b1.log) && s1 == s.(stack := s1.stack)
    requires Top(s).ctrlBase + n >= |s.ctrl| ==> Returned(s, s1.stack, s')
    requires Top(s).ctrlBase + n < |s.ctrl| ==>
               var k := |s.ctrl| - 1 - n;
               if s.ctrl[k].isLoop then Went(s, s1, s.ctrl[k].start, s.ctrl[..k + 1], s')
               else Went(s, s1, s.ctrl[k].end + 1, s.ctrl[..k], s')
    ensures var b' := C.DoBr(b1, n);
            && b'.log == b1.log && (b'.status == C.Done || b'.status == C.Running)
            && (b'.status == C.Done ==> Returned(s, s1.stack, s'))
            && (b'.status == C.Running ==>
                  Stands(s', |s.frames|, func, Top(s).ctrlBase, at, b') && s'.stack == s1.stack)
  {
    StandsTop(s, func, at, b);
    hide Stands, CtrlMatches, Returned;
    var base := Top(s).ctrlBase;
    if base + n < |s.ctrl| {
      var k := |s.ctrl| - 1 - n;
      InnerMatches(at, s.ctrl, base, b.ctrl, k);
      var b' := C.DoBr(b1, n);
      if s.ctrl[k].isLoop {
        StandsAfter(s, s1, s.ctrl[k].start, s.ctrl[..k + 1], s', func, at, b, b');
      } else {
        StandsAfter(s, s1, s.ctrl[k].end + 1, s.ctrl[..k], s', func, at, b, b');
      }
    }
  }

  lemma BranchDecoded(p: Program, s: State, func: nat, body: seq<byte>, at: seq<nat>, b: C.ByteState)
    requires s.frames != [] && Stands(s, |s.frames|, func, Top(s).ctrlBase, at, b)
    requires func < |p.funcs| && Decodes(body, p.funcs[func].body, at) && b.pc < |body| && 0x0C <= body[b.pc] <= 0x0E
    ensures Fetch(p, s).Some? && Top(s).pc + 1 < |at| && ReadU32(body[b.pc + 1..]).Some?
    ensures var i := Fetch(p, s).value;
            && (body[b.pc] == 0x0C ==> i.Br? && LabelAt(body, b.pc + 1, i.depth, at[Top(s).pc + 1]))
            && (body[b.pc] == 0x0D ==> i.BrIf? && LabelAt(body, b.pc + 1, i.depth, at[Top(s).pc + 1]))
            && (body[b.pc] == 0x0E ==> i.BrTable? && TableAt(body, b.pc + 1, i.depths, i.default))
  {
    Fetched(p, s, func, body, at, b);
    hide Stands, Decodes, Fetch, ReadU32, C.TableLabel;
  }

  /** What holds after a branch. */
  ghost predicate Branched(s: State, s': State, func: nat, at: seq<nat>, b: C.ByteState, b': C.ByteState, popped: bool)
    requires s.frames != []
  {
    && Follows(s, s', func, at, b, b') && b'.log == (if popped then C.Popped(b.log) else b.log)
    && (b'.status == C.Running ==> s'.stack == LeftBy(s, popped))
  }

  lemma TakenSim(p: Program, s: State, s': State, func: nat, body: seq<byte>, at: seq<nat>, oracle: C.Oracle,
                 b: C.ByteState, s1: State, n: nat, popped: bool)
    requires s.frames != [] && Turn(p, s, s') && Stands(s, |s.frames|, func, Top(s).ctrlBase, at, b)
    requires Fetch(p, s).Some?
    requires Branches(s, Fetch(p, s).value, s1, n) && (popped <==> !Fetch(p, s).value.Br?)
    requires s1.stack == LeftBy(s, popped)
    requires C.ByteStep(body, Cap(Top(s).ctrlBase), oracle, b)
             == C.DoBr(if popped then b.(log := C.Popped(b.log)) else b, n)
    ensures Branched(s, s', func, at, b, C.ByteStep(body, Cap(Top(s).ctrlBase), oracle, b), popped)
  {
    assert s1 == s.(stack := s1.stack);
    hide Turn, Fetch, Stands, C.ByteStep, C.DoBr, Returned, Went, Branches, LeftBy;
    BranchTurn(p, s, s', Fetch(p, s).value, s1, n);
    BrSim(s, s1, s', func, at, b, if popped then b.(log := C.Popped(b.log)) else b, n);
  }

  lemma BrOnlySim(p: Program, s: State, s': State, func: nat, body: seq<byte>, at: seq<nat>, oracle: C.Oracle,
                  b: C.ByteState)
    requires s.frames != [] && Turn(p, s, s') && Stands(s, |s.frames|, func, Top(s).ctrlBase, at, b)
    requires b.status == C.Running
    requires func < |p.funcs| && Decodes(body, p.funcs[func].body, at)
    requires b.pc < |body| && body[b.pc] == 0x0C
    ensures Branched(s, s', func, at, b, C.ByteStep(body, Cap(Top(s).ctrlBase), oracle, b), false)
  {
    hide Turn, Fetch, Stands, Decodes, C.ByteStep, C.DoBr, Branched, ReadU32, Cap;
    BranchDecoded(p, s, func, body, at, b);
    var n := Fetch(p, s).value.depth;
    BranchByte(body, Cap(Top(s).ctrlBase), oracle, b, n, false);
    TakenSim(p, s, s', func, body, at, oracle, b, s, n, false);
  }

  lemma BrIfSim(p: Program, s: State, s': State, func: nat, body: seq<byte>, at: seq<nat>, oracle: C.Oracle,
                b: C.ByteState)
    requires s.frames != [] && Turn(p, s, s') && Stands(s, |s.frames|, func, Top(s).ctrlBase, at, b)
    requires b.status == C.Running && Tells(oracle, body, b, s)
    requires func < |p.funcs| && Decodes(body, p.funcs[func].body, at)
    requires b.pc < |body| && body[b.pc] == 0x0D
    ensures Branched(s, s', func, at, b, C.ByteStep(body, Cap(Top(s).ctrlBase), oracle, b), true)
  {
    BranchDecoded(p, s, func, body, at, b);
    var i, cap := Fetch(p, s).value, Cap(Top(s).ctrlBase);
    ConditionThere(p, s, i);
    hide Turn, Fetch, Stands, Decodes, C.ByteStep, C.DoBr, ReadU32, Cap, Went, Returned;
    var v, s1 := s.stack[|s.stack| - 1], s.(stack := s.stack[..|s.stack| - 1]);
    if v == 0 {
      PassTurn(p, s, s', i.depth);
      PassByte(body, cap, oracle, b);
      PassSim(s, s1, s', func, at, b, C.ByteStep(body, cap, oracle, b));
    } else {
      BranchByte(body, cap, oracle, b, i.depth, true);
      TakenSim(p, s, s', func, body, at, oracle, b, s1, i.depth, true);
    }
  }

  /** The label a branch table selects. */
  function Selected(labels: seq<nat>, default: nat, v: Word): nat {
    if v % 0x1_0000_0000 < |labels| then labels[v % 0x1_0000_0000] else default
  }

  lemma TableByte(body: seq<byte>, cap: nat, oracle: C.Oracle, b: C.ByteState, labels: seq<nat>, default: nat)
    requires b.status == C.Running && b.pc < |body| && body[b.pc] == 0x0E && TableAt(body, b.pc + 1, labels, default)
    ensures C.ByteStep(body, cap, oracle, b)
            == C.DoBr(b.(log := C.Popped(b.log)), Selected(labels, default, oracle(b.log.pops)))
  {
    hide C.ByteStep, C.DoBr, ReadU32, C.TableLabel;
    BranchByte(body, cap, oracle, b, Selected(labels, default, oracle(b.log.pops)), true);
  }

  lemma BrTableSim(p: Program, s: State, s': State, func: nat, body: seq<byte>, at: seq<nat>, oracle: C.Oracle,
                   b: C.ByteState)
    requires s.frames != [] && Turn(p, s, s') && Stands(s, |s.frames|, func, Top(s).ctrlBase, at, b)
    requires b.status == C.Running && Tells(oracle, body, b, s)
    requires func < |p.funcs| && Decodes(body, p.funcs[func].body, at)
    requires b.pc < |body| && body[b.pc] == 0x0E
    ensures Branched(s, s', func, at, b, C.ByteStep(body, Cap(Top(s).ctrlBase), oracle, b), true)
  {
    BranchDecoded(p, s, func, body, at, b);
    var i, cap := Fetch(p, s).value, Cap(Top(s).ctrlBase);
    ConditionThere(p, s, i);
    hide Turn, Fetch, Stands, Decodes, C.ByteStep, C.DoBr, ReadU32, Cap, Branched, TableAt;
    TableByte(body, cap, oracle, b, i.depths, i.default);
    TakenSim(p, s, s', func, body, at, oracle, b, s.(stack := s.stack[..|s.stack| - 1]),
             Selected(i.depths, i.default, s.stack[|s.stack| - 1]), true);
  }

  lemma PassSim(s: State, s1: State, s': State, func: nat, at: seq<nat>, b: C.ByteState, b': C.ByteState)
    requires s.frames != [] && Stands(s, |s.frames|, func, Top(s).ctrlBase, at, b) && s1 == s.(stack := s1.stack)
    requires Went(s, s1, Top(s).pc + 1, s.ctrl, s') && Top(s).pc + 1 < |at| && at[Top(s).pc + 1] == b'.pc
    requires b' == b.(log := b'.log, pc := b'.pc)
    ensures Stands(s', |s.frames|, func, Top(s).ctrlBase, at, b') && s'.stack == s1.stack
  {
    StandsTop(s, func, at, b);
    hide Stands, CtrlMatches;
    StandsAfter(s, s1, Top(s).pc + 1, s.ctrl, s', func, at, b, b');
  }

  /** The end of the body, and `return`. */
  lemma OverSim(p: Program, s: State, s': State, func: nat, body: seq<byte>, at: seq<nat>, oracle: C.Oracle,
                b: C.ByteState)
    requires s.frames != [] && Turn(p, s, s') && Stands(s, |s.frames|, func, Top(s).ctrlBase, at, b)
    requires func < |p.funcs| && Decodes(body, p.funcs[func].body, at)
    requires b.pc >= |body| || body[b.pc] == 0x0F
    ensures C.ByteStep(body, Cap(Top(s).ctrlBase), oracle, b) == b.(status := C.Done) && Returned(s, s.stack, s')
  {
    hide Turn, Fetch, Stands, Decodes, CtrlMatches, S.ScanBlockEnd, C.DispatchEnd, C.TableLabel, C.DoBr, ReadU32,
         C.Push;
    Fetched(p, s, func, body, at, b);
    StandsTop(s, func, at, b);
    OverTurn(p, s, s');
  }

  lemma PlainByte(body: seq<byte>, cap: nat, oracle: C.Oracle, b: C.ByteState, next: nat)
    requires b.status == C.Running && b.pc < |body| && !S.Structural(body[b.pc]) && next <= |body|
    requires C.DispatchEnd(body, body[b.pc], b.pc + 1) == Some(next)
    ensures b.pc < next
    ensures C.ByteStep(body, cap, oracle, b)
            == Passed(body, b, next)
  {
    hide S.ScanBlockEnd, C.DispatchEnd, C.TableLabel, C.DoBr, ReadU32, C.Push;
  }

  /** The call frame after an ordinary instruction, calls included: one instruction further, with its control frames. */
  predicate Onward(s: State, s': State)
    requires s.frames != []
  {
    var d := |s.frames|;
    && d <= |s'.frames| && s'.frames[..d - 1] == s.frames[..d - 1] && s'.ctrl == s.ctrl && CtrlTop(s', d) == |s.ctrl|
    && s'.frames[d - 1].func == Top(s).func && s'.frames[d - 1].pc == Top(s).pc + 1
    && s'.frames[d - 1].ctrlBase == Top(s).ctrlBase
  }

  lemma ReplaceOnward(s: State, s1: State, active: nat, pops: nat, pushes: seq<Word>)
    requires s.frames != [] && s1.frames != [] && Replace(s1, active, pops, pushes).Next?
    requires s1.ctrl == s.ctrl && |s1.frames| == |s.frames| && s1.frames[..|s.frames| - 1] == s.frames[..|s.frames| - 1]
    requires Top(s1).func == Top(s).func && Top(s1).pc == Top(s).pc && Top(s1).ctrlBase == Top(s).ctrlBase
    ensures Onward(s, Replace(s1, active, pops, pushes).s)
  {
  }

  lemma OrdinaryTurns(p: Program, s: State, s': State, i: Instr)
    requires Turn(p, s, s') && Fetch(p, s) == Some(i) && Ordinary(i)
    ensures Onward(s, s')
  {
    hide Disciplined;
    var active := ActiveBytes(s);
    OrdinaryExec(p, s, active, i);
    hide Exec, Fetch, ActiveBytes;
    if i.MemoryGrow? {
      GrowOnward(p, s, active);
    } else if IsMemory(i) {
      AccessOnward(s, active, i);
    } else if Fast(p, i) {
      FastOnward(p, s, active, i.callee - p.imports);
    } else if i.Call? || i.CallIndirect? {
      CallOnward(p, s, s', active, i);
    } else {
      PlainOnward(p, s, active, i);
    }
  }

  /** Which part of the turn an ordinary instruction takes. */
  lemma OrdinaryExec(p: Program, s: State, active: nat, i: Instr)
    requires s.frames != [] && Fetch(p, s) == Some(i) && Ordinary(i)
    ensures Exec(p, s, active)
            == if i.MemoryGrow? then ExecGrow(p, s, active)
               else if IsMemory(i) then ExecAccess(s, active, i)
               else if Fast(p, i) then ExecFast(p, s, active, i.callee - p.imports)
               else if i.Call? || i.CallIndirect? then
                 (match Called(p, i, s)
                  case None => Stop(IndirectFailure(p, s))
                  case Some((s1, callee)) => ExecCall(p, s1, active, callee))
               else ExecPlain(p, s, active, i)
  {
    hide ExecControl, ExecPlain, ExecAccess, ExecGrow, ExecFast, ExecCall, Fetch, Called, IndirectFailure;
  }

  lemma GrowOnward(p: Program, s: State, active: nat)
    requires s.frames != [] && ExecGrow(p, s, active).Next?
    ensures Onward(s, ExecGrow(p, s, active).s)
  {
    hide Replace, Onward;
    var delta: nat := TopValue(s) % TWO32;
    if s.pages + delta <= p.maxPages {
      ReplaceOnward(s, Grown(s, delta), (s.pages + delta) * PAGE_SIZE, 1, [ToWord(s.pages)]);
    } else {
      ReplaceOnward(s, s, active, 1, [ToWord(-1)]);
    }
  }

  lemma AccessOnward(s: State, active: nat, i: Instr)
    requires s.frames != [] && IsMemory(i) && !i.MemoryGrow? && ExecAccess(s, active, i).Next?
    ensures Onward(s, ExecAccess(s, active, i).s)
  {
    hide Replace, Onward, Accessed, InBounds;
    ReplaceOnward(s, Accessed(s, i).0, active, Pops(i), Accessed(s, i).1);
  }

  lemma FastOnward(p: Program, s: State, active: nat, func: nat)
    requires s.frames != [] && func < |p.funcs| && ExecFast(p, s, active, func).Next?
    ensures Onward(s, ExecFast(p, s, active, func).s)
  {
    hide Replace, Onward, LocalsArray;
    var f := p.funcs[func];
    ReplaceOnward(s, s, active, f.params, if f.results > 0 then [p.native(func, LocalsArray(s, f.params))] else []);
  }

  lemma CallOnward(p: Program, s: State, s': State, active: nat, i: Instr)
    requires s.frames != [] && Called(p, i, s).Some?
    requires After(ExecCall(p, Called(p, i, s).value.0, active, Called(p, i, s).value.1)) == Some(s')
    ensures Onward(s, s')
  {
    var s1 := Called(p, i, s).value.0;
    assert s1.frames == s.frames && s1.ctrl == s.ctrl;
    hide Called;
    var d := |s.frames|;
    assert Advance(s1).frames == s.frames[d - 1 := Top(s).(pc := Top(s).pc + 1)];
    hide Advance;
  }

  lemma PlainOnward(p: Program, s: State, active: nat, i: Instr)
    requires s.frames != [] && Ordinary(i)
    requires !IsControl(i) && !IsMemory(i) && !i.Call? && !i.CallIndirect? && !i.Return?
    requires ExecPlain(p, s, active, i).Next?
    ensures Onward(s, ExecPlain(p, s, active, i).s)
  {
    hide Replace, Onward, ExecLocal;
    var n := |s.stack|;
    if i.Nop? { ReplaceOnward(s, s, active, 0, []); }
    else if i.Const? { ReplaceOnward(s, s, active, 0, [i.value]); }
    else if i.Drop? { ReplaceOnward(s, s, active, 1, []); }
    else if i.Select? {
      ReplaceOnward(s, s, active, 3, [if s.stack[n - 1] != 0 then s.stack[n - 3] else s.stack[n - 2]]);
    } else if i.Unary? { ReplaceOnward(s, s, active, 1, [p.unary(i.op, s.stack[n - 1])]); }
    else if i.Alu? { ReplaceOnward(s, s, active, 2, [p.alu(i.op, s.stack[n - 2], s.stack[n - 1]).value]); }
    else if i.GlobalGet? { ReplaceOnward(s, s, active, 0, [s.globals[i.global]]); }
    else if i.GlobalSet? {
      ReplaceOnward(s, s.(globals := s.globals[i.global := s.stack[n - 1]]), active, 1, []);
    } else { LocalOnward(s, active, i); }
  }

  lemma LocalOnward(s: State, active: nat, i: Instr)
    requires s.frames != [] && (i.LocalGet? || i.LocalSet? || i.LocalTee?) && ExecLocal(s, active, i).Next?
    ensures Onward(s, ExecLocal(s, active, i).s)
  {
    hide Replace, Onward;
    var f, n := Top(s), |s.stack|;
    if i.LocalGet? {
      ReplaceOnward(s, s, active, 0, [f.locals[i.local]]);
    } else {
      var s1 := WithTop(s, f.(locals := f.locals[i.local := s.stack[n - 1]]));
      ReplaceOnward(s, s1, active, if i.LocalSet? then 1 else 0, []);
    }
  }

  lemma OnwardStands(s: State, s': State, func: nat, at: seq<nat>, b: C.ByteState, b': C.ByteState)
    requires s.frames != [] && Stands(s, |s.frames|, func, Top(s).ctrlBase, at, b) && Onward(s, s')
    requires Top(s).pc + 1 < |at| && b' == b.(pc := at[Top(s).pc + 1], log := b'.log)
    ensures Stands(s', |s.frames|, func, Top(s).ctrlBase, at, b')
  {
    hide CtrlMatches;
  }

  lemma PlainSim(p: Program, s: State, s': State, func: nat, body: seq<byte>, at: seq<nat>, oracle: C.Oracle,
                 b: C.ByteState)
    requires s.frames != [] && Turn(p, s, s') && Stands(s, |s.frames|, func, Top(s).ctrlBase, at, b)
    requires func < |p.funcs| && Decodes(body, p.funcs[func].body, at)
    requires b.pc < |body| && !S.Structural(body[b.pc])
    ensures var k := Top(s).pc;
            && k + 1 < |at| && b.pc < at[k + 1] <= |body|
            && var b' := C.ByteStep(body, Cap(Top(s).ctrlBase), oracle, b);
               && b' == Passed(body, b, at[k + 1])
               && Stands(s', |s.frames|, func, Top(s).ctrlBase, at, b')
  {
    hide Turn, Fetch, Stands, Decodes, CtrlMatches, C.ByteStep, C.DispatchEnd, Onward;
    Fetched(p, s, func, body, at, b);
    StandsTop(s, func, at, b);
    var i, k := Fetch(p, s).value, Top(s).pc;
    OrdinaryTurns(p, s, s', i);
    PlainByte(body, Cap(Top(s).ctrlBase), oracle, b, at[k + 1]);
    OnwardStands(s, s', func, at, b, C.ByteStep(body, Cap(Top(s).ctrlBase), oracle, b));
  }

  /** `unreachable` ends the run. */
  lemma NoTrapTurn(p: Program, s: State, s': State)
    requires s.frames != [] && Fetch(p, s) == Some(Trap)
    ensures !Turn(p, s, s')
  {
    hide Disciplined, Fetch;
  }

  // ---- one turn --------------------------------------------------------------------------------------------------

  /** The bytes of the plain instruction at the top, if it is one. */
  function PlainBytes(body: seq<byte>, pc: nat, next: nat): seq<seq<byte>> {
    if pc < next <= |body| && !S.Structural(body[pc]) then [body[pc..next]] else []
  }

  /** What the turn adds to the log. */
  function Logged(body: seq<byte>, at: seq<nat>, s: State, l: C.Log): C.Log
    requires s.frames != []
  {
    var k := Top(s).pc;
    if k + 1 >= |at| then l
    else C.Log(l.pops + (if PopsCondition(body, at[k]) then 1 else 0), l.trace + PlainBytes(body, at[k], at[k + 1]))
  }

  lemma TrapAt(p: Program, s: State, func: nat, body: seq<byte>, at: seq<nat>, b: C.ByteState)
    requires s.frames != [] && Stands(s, |s.frames|, func, Top(s).ctrlBase, at, b)
    requires func < |p.funcs| && Decodes(body, p.funcs[func].body, at) && b.pc < |body| && body[b.pc] == 0x00
    ensures Fetch(p, s) == Some(Trap)
  {
    hide Stands, Decodes, Fetch;
    Fetched(p, s, func, body, at, b);
  }

  /** The turn from `s` to `s'` is the byte step from `b` to `b'`. */
  ghost predicate Simulates(s: State, s': State, func: nat, body: seq<byte>, at: seq<nat>, b: C.ByteState,
                            b': C.ByteState)
    requires s.frames != []
  {
    && Follows(s, s', func, at, b, b') && b'.log == Logged(body, at, s, b.log)
    && (b'.status == C.Running && b.pc < |body| && S.Structural(body[b.pc]) ==>
          s'.stack == LeftBy(s, PopsCondition(body, b.pc)))
  }

  lemma ControlLogged(s: State, s': State, func: nat, body: seq<byte>, at: seq<nat>, b: C.ByteState, b': C.ByteState)
    requires s.frames != [] && Top(s).pc + 1 < |at| && at[Top(s).pc] == b.pc < |body|
    requires S.Structural(body[b.pc]) && Follows(s, s', func, at, b, b')
    requires b'.log == if PopsCondition(body, b.pc) then C.Popped(b.log) else b.log
    requires b'.status == C.Running ==> s'.stack == LeftBy(s, PopsCondition(body, b.pc))
    ensures Simulates(s, s', func, body, at, b, b')
  {
    hide Follows, LeftBy, S.Structural, PopsCondition;
    assert b.log.trace + [] == b.log.trace;
  }

  lemma OverLogged(s: State, s': State, func: nat, body: seq<byte>, at: seq<nat>, b: C.ByteState)
    requires s.frames != [] && Top(s).pc < |at| && at[Top(s).pc] == b.pc && Returned(s, s.stack, s')
    requires b.pc >= |body| || body[b.pc] == 0x0F
    ensures Simulates(s, s', func, body, at, b, b.(status := C.Done))
  {
    hide Returned, Stands;
    assert b.log.trace + [] == b.log.trace;
  }

  /** After a plain instruction. */
  function Passed(body: seq<byte>, b: C.ByteState, next: nat): C.ByteState
    requires b.pc <= next <= |body|
  {
    b.(pc := next, log := b.log.(trace := b.log.trace + [body[b.pc..next]]))
  }

  lemma PlainLogged(s: State, s': State, func: nat, body: seq<byte>, at: seq<nat>, b: C.ByteState)
    requires s.frames != [] && Top(s).pc + 1 < |at| && at[Top(s).pc] == b.pc < at[Top(s).pc + 1] <= |body|
    requires !S.Structural(body[b.pc]) && b.status == C.Running
    requires Stands(s', |s.frames|, func, Top(s).ctrlBase, at, Passed(body, b, at[Top(s).pc + 1]))
    ensures Simulates(s, s', func, body, at, b, Passed(body, b, at[Top(s).pc + 1]))
  {
    hide Stands;
  }

  /** A turn of the run loop, from where a byte machine stands, is its next step: the frame returns exactly where the
      byte machine is done, with the condition popped if it popped one, and else stands where it stands, inside the same
      constructs. Control instructions touch nothing of the value stack but that condition. */
  lemma TurnSim(p: Program, s: State, s': State, func: nat, body: seq<byte>, at: seq<nat>, oracle: C.Oracle,
                b: C.ByteState)
    requires s.frames != [] && Turn(p, s, s') && Stands(s, |s.frames|, func, Top(s).ctrlBase, at, b)
    requires Tells(oracle, body, b, s)
    requires func < |p.funcs| && Decodes(body, p.funcs[func].body, at)
    ensures Simulates(s, s', func, body, at, b, C.ByteStep(body, Cap(Top(s).ctrlBase), oracle, b))
  {
    hide *;
    StandsTop(s, func, at, b);
    Fetched(p, s, func, body, at, b);
    if b.pc >= |body| || body[b.pc] == 0x0F {
      OverSim(p, s, s', func, body, at, oracle, b);
      OverLogged(s, s', func, body, at, b);
    } else if body[b.pc] == 0x00 {
      TrapAt(p, s, func, body, at, b);
      NoTrapTurn(p, s, s');
    } else if !S.Structural(body[b.pc]) {
      PlainSim(p, s, s', func, body, at, oracle, b);
      PlainLogged(s, s', func, body, at, b);
    } else {
      ControlSim(p, s, s', func, body, at, oracle, b);
    }
  }

  lemma ControlSim(p: Program, s: State, s': State, func: nat, body: seq<byte>, at: seq<nat>, oracle: C.Oracle,
                   b: C.ByteState)
    requires s.frames != [] && Turn(p, s, s') && Stands(s, |s.frames|, func, Top(s).ctrlBase, at, b)
    requires Tells(oracle, body, b, s)
    requires func < |p.funcs| && Decodes(body, p.funcs[func].body, at)
    requires b.pc < |body| && S.Structural(body[b.pc]) && body[b.pc] != 0x00 && body[b.pc] != 0x0F
    ensures Simulates(s, s', func, body, at, b, C.ByteStep(body, Cap(Top(s).ctrlBase), oracle, b))
  {
    hide *;
    StandsTop(s, func, at, b);
    Fetched(p, s, func, body, at, b);
    StructuralCases(body[b.pc]);
    Conditions(body, b.pc);
    LeftSame(s);
    var b' := C.ByteStep(body, Cap(Top(s).ctrlBase), oracle, b);
    if body[b.pc] == 0x02 || body[b.pc] == 0x03 {
      EnterSim(p, s, s', func, body, at, oracle, b);
    } else if body[b.pc] == 0x04 {
      IfSim(p, s, s', func, body, at, oracle, b);
    } else if body[b.pc] == 0x05 || body[b.pc] == 0x0B {
      MarkSim(p, s, s', func, body, at, oracle, b);
    } else {
      BranchSim(p, s, s', func, body, at, oracle, b);
    }
    ControlLogged(s, s', func, body, at, b, b');
  }

  lemma BranchSim(p: Program, s: State, s': State, func: nat, body: seq<byte>, at: seq<nat>, oracle: C.Oracle,
                  b: C.ByteState)
    requires s.frames != [] && Turn(p, s, s') && Stands(s, |s.frames|, func, Top(s).ctrlBase, at, b)
    requires Tells(oracle, body, b, s)
    requires func < |p.funcs| && Decodes(body, p.funcs[func].body, at) && b.status == C.Running
    requires b.pc < |body| && 0x0C <= body[b.pc] <= 0x0E
    ensures var b' := C.ByteStep(body, Cap(Top(s).ctrlBase), oracle, b);
            && Follows(s, s', func, at, b, b') && b'.log == (if body[b.pc] == 0x0C then b.log else C.Popped(b.log))
            && (b'.status == C.Running ==> s'.stack == LeftBy(s, body[b.pc] != 0x0C))
  {
    hide Turn, Stands, Tells, Decodes, C.ByteStep, Follows, LeftBy, Cap;
    if body[b.pc] == 0x0C {
      BrOnlySim(p, s, s', func, body, at, oracle, b);
    } else if body[b.pc] == 0x0D {
      BrIfSim(p, s, s', func, body, at, oracle, b);
    } else {
      BrTableSim(p, s, s', func, body, at, oracle, b);
    }
  }

  lemma Conditions(body: seq<byte>, pc: nat)
    requires pc < |body|
    ensures PopsCondition(body, pc) <==> body[pc] == 0x04 || body[pc] == 0x0D || body[pc] == 0x0E
  {
  }

  lemma LeftSame(s: State)
    ensures LeftBy(s, false) == s.stack
  {
  }

  lemma StructuralCases(op: byte)
    ensures S.Structural(op) <==> op == 0x00 || 0x02 <= op <= 0x05 || 0x0B <= op <= 0x0F
  {
  }
}
