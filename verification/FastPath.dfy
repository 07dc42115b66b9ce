/** The fast path of `call` against the interpreter: the same call through the machine code of the callee and through a
    frame of the run loop. */
module FastPath {
  import opened Words
  import opened Leb128
  import opened Opcode
  import opened Machine
  import opened MachineBytes
  import C = JitCompile
  import J = JitCorrect
  import A = JitAgree
  import X = X86
  import S = JitSize
  import P = JitPool
  import Q = JitExact

  // ---- a byte body as the run loop sees it ----------------------------------------------------------------------

  /** The decoded instruction at `pc`, for those the compiler knows, and where the next one starts. */
  function Instruction(body: seq<byte>, pc: nat): (r: Option<(Instr, nat)>)
    requires pc < |body|
    ensures r.Some? ==> pc < r.value.1 <= |body|
  {
    var op := body[pc];
    var operand := body[pc + 1..];
    if op == I32_CONST then
      match ReadI32(operand) case None => None case Some((v, n)) => Some((Const(ToWord(v)), pc + 1 + n))
    else if op == I64_CONST then
      match ReadI64(operand) case None => None case Some((v, n)) => Some((Const(v), pc + 1 + n))
    else if op == LOCAL_GET then
      match ReadU32(operand) case None => None case Some((x, n)) => Some((LocalGet(x), pc + 1 + n))
    else if op == LOCAL_SET then
      match ReadU32(operand) case None => None case Some((x, n)) => Some((LocalSet(x), pc + 1 + n))
    else if op == LOCAL_TEE then
      match ReadU32(operand) case None => None case Some((x, n)) => Some((LocalTee(x), pc + 1 + n))
    else if KnownOp(op) then Some((Alu(op), pc + 1))
    else if op == DROP then Some((Drop, pc + 1))
    else if op == NOP then Some((Nop, pc + 1))
    else None
  }

  /** From index `k` on `code` is `body` from `pc` on, up to its first return. */
  ghost predicate Lists(code: seq<Instr>, k: nat, body: seq<byte>, pc: nat)
    decreases |body| - pc
  {
    if pc >= |body| then k == |code|
    else if body[pc] == RETURN then k < |code| && code[k].Return?
    else if body[pc] == END then k < |code| && code[k].End?
    else
      && Instruction(body, pc).Some?
      && k < |code| && code[k] == Instruction(body, pc).value.0
      && Lists(code, k + 1, body, Instruction(body, pc).value.1)
  }

  /** The byte-level step is the step of the decoded instruction. */
  lemma StepIsDecoded(body: seq<byte>, pc: nat, f: J.Frame, room: nat)
    requires pc < |body| && J.StepOp(J.Narrow, body, pc, f, room).Some?
    ensures Instruction(body, pc).Some?
    ensures var (i, next) := Instruction(body, pc).value;
            && StepOf(i, f, room) == Some(J.StepOp(J.Narrow, body, pc, f, room).value.0)
            && next == J.StepOp(J.Narrow, body, pc, f, room).value.1
  {
    hide ReadI32, ReadU32, ReadI64, J.BinaryWord;
  }

  // ---- the interpreter's way ------------------------------------------------------------------------------------

  /** Inside function `func` with no block open, at the instruction that stands at `pc` in its bytes. */
  ghost predicate At(p: Program, s: State, func: nat, body: seq<byte>, pc: nat) {
    && s.frames != [] && Top(s).func == func < |p.funcs| && Top(s).vspBase <= |s.stack| <= STACK_DEPTH
    && |s.ctrl| == Top(s).ctrlBase && Lists(p.funcs[func].body, Top(s).pc, body, pc)
  }

  lemma Fetched(p: Program, s: State, func: nat, body: seq<byte>, pc: nat)
    requires At(p, s, func, body, pc) && !J.AtReturn(body, pc)
    ensures Instruction(body, pc).Some? && Fetch(p, s) == Some(Instruction(body, pc).value.0)
  {
    hide Instruction;
  }

  lemma InstructionKind(body: seq<byte>, pc: nat)
    requires pc < |body| && Instruction(body, pc).Some?
    ensures var i := Instruction(body, pc).value.0;
            && !IsControl(i) && !IsMemory(i) && !i.Call? && !i.CallIndirect? && !i.Return? && !i.End?
            && (i.Alu? ==> KnownOp(i.op))
  {
    hide ReadI32, ReadU32, ReadI64;
  }

  lemma PlainDisciplined(p: Program, s: State, i: Instr, room: nat)
    requires s.frames != [] && Top(s).vspBase <= |s.stack| && Fetch(p, s) == Some(i)
    requires !IsControl(i) && !IsMemory(i) && !i.Call? && !i.CallIndirect? && !i.Return? && !i.End?
    requires StepOf(i, FrameOf(s), room).Some?
    ensures Disciplined(p, s)
  {
    hide J.BinaryWord;
  }

  /** One instruction of the callee. */
  lemma InnerTurn(p: Program, s: State, func: nat, body: seq<byte>, pc: nat) returns (s': State)
    requires At(p, s, func, body, pc) && Numeric(p) && !J.AtReturn(body, pc)
    requires J.StepOp(J.Narrow, body, pc, FrameOf(s), STACK_DEPTH - Top(s).vspBase).Some?
    ensures var (g, next) := J.StepOp(J.Narrow, body, pc, FrameOf(s), STACK_DEPTH - Top(s).vspBase).value;
            Turn(p, s, s') && Becomes(s, s', g) && At(p, s', func, body, next) && FrameOf(s') == g
  {
    var room := STACK_DEPTH - Top(s).vspBase;
    var g := J.StepOp(J.Narrow, body, pc, FrameOf(s), room).value.0;
    Fetched(p, s, func, body, pc);
    StepIsDecoded(body, pc, FrameOf(s), room);
    InstructionKind(body, pc);
    StepFits(body, pc, FrameOf(s), room);
    var i := Instruction(body, pc).value.0;
    hide J.StepOp, Instruction, Exec, Disciplined, Becomes, StepOf, Fetch, J.BinaryWord;
    PlainDisciplined(p, s, i, room);
    MachineStep(p, s, ActiveBytes(s), i);
    s' := Exec(p, s, ActiveBytes(s)).s;
    NextAt(p, s, s', func, body, pc, g);
  }

  lemma StepFits(body: seq<byte>, pc: nat, f: J.Frame, room: nat)
    requires pc < |body| && J.StepOp(J.Narrow, body, pc, f, room).Some? && |f.stack| <= room
    ensures |J.StepOp(J.Narrow, body, pc, f, room).value.0.stack| <= room
  {
    hide ReadI32, ReadU32, ReadI64, J.BinaryWord;
  }

  lemma NextAt(p: Program, s: State, s': State, func: nat, body: seq<byte>, pc: nat, g: J.Frame)
    requires At(p, s, func, body, pc) && !J.AtReturn(body, pc) && Becomes(s, s', g)
    requires |g.stack| <= STACK_DEPTH - Top(s).vspBase
    ensures Instruction(body, pc).Some?
    ensures At(p, s', func, body, Instruction(body, pc).value.1) && FrameOf(s') == g
  {
    hide Instruction;
    var base := Top(s).vspBase;
    assert Top(s') == Top(s).(pc := Top(s).pc + 1, locals := g.locals);
    assert s'.stack[base..] == g.stack;
  }

  /** The caller's state with the callee's results on its stack. */
  function Returned(s: State, base: nat, out: seq<Word>): State
    requires s.frames != [] && base <= |s.stack|
  {
    s.(stack := s.stack[..base] + out, frames := s.frames[..|s.frames| - 1])
  }

  /** The last `n` operands. */
  function Last(stack: seq<Word>, n: nat): seq<Word>
    requires n <= |stack|
  {
    stack[|stack| - n..]
  }

  lemma ReturnStep(p: Program, s: State, func: nat, body: seq<byte>, pc: nat, results: nat)
    requires At(p, s, func, body, pc) && J.AtReturn(body, pc) && Top(s).resultCount == results
    requires |FrameOf(s).stack| >= results
    ensures Turn(p, s, Returned(s, Top(s).vspBase, Last(FrameOf(s).stack, results)))
  {
    var n, base := |s.stack|, Top(s).vspBase;
    assert Returning(p, s) == Some(s);
    assert s.stack[base..][n - base - results..] == s.stack[n - results..];
    assert s.ctrl[..Top(s).ctrlBase] == s.ctrl;
    ReturnDisciplined(p, s);
  }

  lemma ReturnDisciplined(p: Program, s: State)
    requires s.frames != [] && Returning(p, s) == Some(s) && CanReturn(s) && Top(s).vspBase <= |s.stack|
    requires Fetch(p, s).None? || Fetch(p, s).value.Return? || Fetch(p, s).value.End?
    ensures Disciplined(p, s)
  {
  }

  lemma BecomesReturned(s: State, s': State, g: J.Frame, out: seq<Word>)
    requires s.frames != [] && Top(s).vspBase <= |s.stack| && Becomes(s, s', g)
    ensures s'.frames != [] && Top(s').vspBase == Top(s).vspBase <= |s'.stack|
    ensures Top(s').resultCount == Top(s).resultCount
    ensures Returned(s', Top(s).vspBase, out) == Returned(s, Top(s).vspBase, out)
  {
    var base, d := Top(s).vspBase, |s.frames| - 1;
    assert s'.stack[..base] == s.stack[..base] && s'.frames[..d] == s.frames[..d];
  }

  lemma RunCons(p: Program, s: State, ss: seq<State>)
    requires Run(p, ss) && Turn(p, s, ss[0])
    ensures Run(p, [s] + ss)
  {
    hide Turn;
    var all := [s] + ss;
    forall i | 0 <= i < |all| - 1 ensures Turn(p, all[i], all[i + 1]) {
      if i > 0 { assert Turn(p, ss[i - 1], ss[i - 1 + 1]); }
    }
  }

  lemma RunOne(p: Program, s: State, s': State)
    requires Turn(p, s, s')
    ensures Run(p, [s, s'])
  {
    hide Turn;
  }

  /** The callee's frame, run to its return: the run loop arrives where the byte-level reading of the body says. */
  lemma {:induction false} CalleeRuns(p: Program, s: State, func: nat, body: seq<byte>, pc: nat, results: nat)
    returns (ss: seq<State>)
    requires At(p, s, func, body, pc) && Numeric(p) && Top(s).resultCount == results
    requires J.Interpret(J.Narrow, body, pc, FrameOf(s), results, STACK_DEPTH - Top(s).vspBase).Some?
    ensures var x := J.Interpret(J.Narrow, body, pc, FrameOf(s), results, STACK_DEPTH - Top(s).vspBase).value;
            && |x.stack| >= results && Run(p, ss) && |ss| >= 2 && ss[0] == s
            && ss[|ss| - 1] == Returned(s, Top(s).vspBase, Last(x.stack, results))
    decreases |body| - pc
  {
    hide Turn, Becomes, J.StepOp, Lists, Numeric, Run, Returned;
    if J.AtReturn(body, pc) {
      ReturnStep(p, s, func, body, pc, results);
      var s' := Returned(s, Top(s).vspBase, Last(FrameOf(s).stack, results));
      ss := [s, s'];
      RunOne(p, s, s');
    } else {
      var base := Top(s).vspBase;
      var (g, next) := J.StepOp(J.Narrow, body, pc, FrameOf(s), STACK_DEPTH - base).value;
      var x := J.Interpret(J.Narrow, body, next, g, results, STACK_DEPTH - base).value;
      var s' := InnerTurn(p, s, func, body, pc);
      BecomesReturned(s, s', g, []);
      var tail := CalleeRuns(p, s', func, body, next, results);
      BecomesReturned(s, s', g, Last(x.stack, results));
      ss := [s] + tail;
      RunCons(p, s, tail);
    }
  }

  // ---- the call, both ways --------------------------------------------------------------------------------------

  /** A call of function `func`, whose code is `body`, with its parameters on the caller's part of the stack. */
  ghost predicate CallSite(p: Program, s: State, func: nat, body: seq<byte>) {
    && s.frames != [] && func < |p.funcs| && Fetch(p, s) == Some(Call(p.imports + func))
    && Top(s).vspBase + p.funcs[func].params <= |s.stack| <= STACK_DEPTH
    && Lists(p.funcs[func].body, 0, body, 0)
  }

  /** The same program with every function left to the interpreter. */
  function Interpreted(p: Program): Program {
    p.(compiled := _ => false)
  }

  function BaseOf(p: Program, s: State, func: nat): nat
    requires func < |p.funcs| && p.funcs[func].params <= |s.stack|
  {
    |s.stack| - p.funcs[func].params
  }

  /** The caller after the call, with `out` for the arguments. */
  function Back(s: State, base: nat, out: seq<Word>): State
    requires s.frames != [] && base <= |s.stack|
  {
    Advance(s.(stack := s.stack[..base] + out))
  }

  /** The locals of the callee's frame. */
  function FrameLocals(p: Program, s: State, func: nat): seq<Word>
    requires func < |p.funcs| && p.funcs[func].params <= |s.stack|
  {
    s.stack[BaseOf(p, s, func)..] + Zeros(p.funcs[func].locals)
  }

  lemma CallDisciplined(p: Program, s: State, func: nat, body: seq<byte>)
    requires CallSite(p, s, func, body)
    ensures Disciplined(p, s)
  {
  }

  /** The frame the interpreter pushes. */
  lemma PushedFrame(p: Program, s: State, func: nat, body: seq<byte>) returns (s1: State)
    requires CallSite(p, s, func, body) && !p.compiled(func)
    requires |s.frames| < CALL_DEPTH && p.funcs[func].params + p.funcs[func].locals <= MAX_LOCALS
    ensures Turn(p, s, s1) && At(p, s1, func, body, 0)
    ensures s1.frames != [] && Top(s1).vspBase <= |s1.stack|
    ensures Top(s1).vspBase == BaseOf(p, s, func) && Top(s1).resultCount == p.funcs[func].results
    ensures FrameOf(s1) == J.Frame([], FrameLocals(p, s, func))
    ensures forall out :: Returned(s1, BaseOf(p, s, func), out) == Back(s, BaseOf(p, s, func), out)
  {
    hide Lists;
    CallDisciplined(p, s, func, body);
    hide Disciplined;
    var f, base := p.funcs[func], BaseOf(p, s, func);
    s1 := PushFrame(Advance(s), func, f).s;
    assert s.stack[base..] + seq(f.locals, _ => 0) == FrameLocals(p, s, func);
    assert Exec(p, s, ActiveBytes(s)) == Next(s1, ActiveBytes(s));
    assert s1.stack[base..] == [];
    forall out ensures Returned(s1, base, out) == Back(s, base, out) {
      assert s1.stack[..base] == s.stack[..base] && s1.frames[..|s.frames|] == Advance(s).frames;
    }
  }

  /** Through a frame: the run loop executes the callee and comes back with what its byte-level reading leaves. */
  lemma SlowCall(p: Program, s: State, func: nat, body: seq<byte>) returns (ss: seq<State>)
    requires CallSite(p, s, func, body) && Numeric(p) && !p.compiled(func)
    requires |s.frames| < CALL_DEPTH && p.funcs[func].params + p.funcs[func].locals <= MAX_LOCALS
    requires J.Interpret(J.Narrow, body, 0, J.Frame([], FrameLocals(p, s, func)), p.funcs[func].results,
                         STACK_DEPTH - BaseOf(p, s, func)).Some?
    ensures var x := J.Interpret(J.Narrow, body, 0, J.Frame([], FrameLocals(p, s, func)), p.funcs[func].results,
                                 STACK_DEPTH - BaseOf(p, s, func)).value;
            && |x.stack| >= p.funcs[func].results && Run(p, ss) && |ss| >= 3 && ss[0] == s
            && ss[|ss| - 1] == Back(s, BaseOf(p, s, func), Last(x.stack, p.funcs[func].results))
  {
    hide *;
    CallBounds(p, s, func, body);
    var s1 := PushedFrame(p, s, func, body);
    var tail := CalleeRuns(p, s1, func, body, 0, p.funcs[func].results);
    RunCons(p, s, tail);
    ss := [s] + tail;
  }

  lemma CallBounds(p: Program, s: State, func: nat, body: seq<byte>)
    requires CallSite(p, s, func, body)
    ensures s.frames != [] && func < |p.funcs| && p.funcs[func].params <= |s.stack| <= STACK_DEPTH
  {
    hide Lists;
  }

  /** Through the machine code: one turn, with the word it returns. */
  lemma FastCall(p: Program, s: State, func: nat, body: seq<byte>)
    requires CallSite(p, s, func, body) && p.compiled(func) && p.funcs[func].params <= MAX_LOCALS
    requires BaseOf(p, s, func) + (if p.funcs[func].results > 0 then 1 else 0) <= STACK_DEPTH
    ensures var word := p.native(func, LocalsArray(s, p.funcs[func].params));
            Turn(p, s, Back(s, BaseOf(p, s, func), if p.funcs[func].results > 0 then [word] else []))
  {
    CallDisciplined(p, s, func, body);
    hide Disciplined, Lists;
  }

  // ---- the compiled function gets an array of 64 locals ---------------------------------------------------------

  lemma PaddedStep(m: J.Mode, body: seq<byte>, pc: nat, f: J.Frame, pad: seq<Word>, room: nat)
    requires pc < |body| && J.StepOp(m, body, pc, f, room).Some?
    ensures var (g, next) := J.StepOp(m, body, pc, f, room).value;
            J.StepOp(m, body, pc, f.(locals := f.locals + pad), room) == Some((g.(locals := g.locals + pad), next))
  {
    hide ReadI32, ReadU32, ReadI64, J.BinaryWord;
    var r := ReadU32(body[pc + 1..]);
    if r.Some? && r.value.0 < |f.locals| && f.stack != [] {
      var k, v := r.value.0, f.stack[|f.stack| - 1];
      assert (f.locals + pad)[k := v] == f.locals[k := v] + pad;
    }
  }

  /** Locals that a body does not have make no difference to it. */
  lemma {:induction false} PaddedRun(m: J.Mode, body: seq<byte>, pc: nat, f: J.Frame, pad: seq<Word>, results: nat,
                                     room: nat)
    requires J.Interpret(m, body, pc, f, results, room).Some?
    ensures var g := J.Interpret(m, body, pc, f, results, room).value;
            J.Interpret(m, body, pc, f.(locals := f.locals + pad), results, room) == Some(g.(locals := g.locals + pad))
    decreases |body| - pc
  {
    hide J.StepOp;
    if !J.AtReturn(body, pc) {
      PaddedStep(m, body, pc, f, pad, room);
      var (g, next) := J.StepOp(m, body, pc, f, room).value;
      PaddedRun(m, body, next, g, pad, results, room);
    }
  }

  lemma ArrayIsPadded(p: Program, s: State, func: nat)
    requires func < |p.funcs| && p.funcs[func].params <= |s.stack|
    requires p.funcs[func].params + p.funcs[func].locals <= MAX_LOCALS
    ensures LocalsArray(s, p.funcs[func].params)
            == FrameLocals(p, s, func) + Zeros(MAX_LOCALS - p.funcs[func].params - p.funcs[func].locals)
  {
  }

  // ---- the two ways compared ------------------------------------------------------------------------------------

  /** The callee is compiled to code that fits the scratch buffer, has room for a frame's locals, and its interpretation
      returns. */
  ghost predicate Runnable(p: Program, s: State, func: nat, body: seq<byte>) {
    && CallSite(p, s, func, body) && Numeric(p) && p.compiled(func)
    && p.funcs[func].params + p.funcs[func].locals <= MAX_LOCALS && C.Jit(body, p.funcs[func].results).ok
    && S.EmittedSize(body, p.funcs[func].results) <= C.MAX_FN_BYTES
    && Reading(J.Narrow, p, s, func, body, FrameLocals(p, s, func)).Some?
  }

  /** It can be called either way: there is a call frame left as well. */
  ghost predicate Callable(p: Program, s: State, func: nat, body: seq<byte>) {
    Runnable(p, s, func, body) && |s.frames| < CALL_DEPTH
  }

  /** The callee's body, read from the given locals. */
  function Reading(m: J.Mode, p: Program, s: State, func: nat, body: seq<byte>, locals: seq<Word>): Option<J.Frame>
    requires func < |p.funcs| && p.funcs[func].params <= |s.stack| <= STACK_DEPTH
  {
    J.Interpret(m, body, 0, J.Frame([], locals), p.funcs[func].results, STACK_DEPTH - BaseOf(p, s, func))
  }

  /** `native` is the call of the installed bytes from `entry`, which holds the locals array and has `rest` behind the
      code. */
  ghost predicate NativeCall(p: Program, s: State, func: nat, body: seq<byte>, entry: X.State, rest: seq<byte>)
    requires func < |p.funcs| && p.funcs[func].params <= |s.stack| <= STACK_DEPTH && p.funcs[func].params <= MAX_LOCALS
  {
    var locals, results := LocalsArray(s, p.funcs[func].params), p.funcs[func].results;
    && J.Layout(entry, STACK_DEPTH - BaseOf(p, s, func), MAX_LOCALS) && J.LocalsAgree(entry, entry.mem, locals)
    && X.AllEncodable(C.Jit(body, results).code)
    && var r := X.Run(P.Kept(body, results) + rest, entry);
       r.Some? ==> p.native(func, locals) == r.value.state.regs[X.RAX]
  }

  /** For code that fits, that is the call of the whole function. */
  lemma NativeIsCalled(p: Program, s: State, func: nat, body: seq<byte>, entry: X.State, rest: seq<byte>)
    requires Runnable(p, s, func, body) && NativeCall(p, s, func, body, entry, rest)
    ensures X.AllEncodable(C.Jit(body, p.funcs[func].results).code)
    ensures var r := A.Called(body, p.funcs[func].results, rest, entry);
            r.Some? ==> p.native(func, LocalsArray(s, p.funcs[func].params)) == r.value.state.regs[X.RAX]
  {
    hide Lists, Numeric, J.Interpret, J.Layout, J.LocalsAgree, C.Jit, X.AllEncodable, X.EncodeAll, X.Run, S.EmittedSize;
    S.NothingDroppedIff(body, p.funcs[func].results);
  }

  lemma NarrowResults(p: Program, s: State, func: nat, body: seq<byte>)
    requires Runnable(p, s, func, body)
    ensures p.funcs[func].results <= 1 && BaseOf(p, s, func) + p.funcs[func].results <= STACK_DEPTH
    ensures |Reading(J.Narrow, p, s, func, body, FrameLocals(p, s, func)).value.stack| >= p.funcs[func].results
  {
    hide Lists, Numeric, J.Interpret;
    EnoughLeft(J.Narrow, body, 0, J.Frame([], FrameLocals(p, s, func)), p.funcs[func].results,
               STACK_DEPTH - BaseOf(p, s, func));
  }

  lemma {:induction false} EnoughLeft(m: J.Mode, body: seq<byte>, pc: nat, f: J.Frame, results: nat, room: nat)
    requires J.Interpret(m, body, pc, f, results, room).Some? && |f.stack| <= room
    ensures results <= |J.Interpret(m, body, pc, f, results, room).value.stack| <= room
    decreases |body| - pc
  {
    hide J.StepOp;
    if !J.AtReturn(body, pc) {
      Fitting(m, body, pc, f, room);
      var (g, next) := J.StepOp(m, body, pc, f, room).value;
      EnoughLeft(m, body, next, g, results, room);
    }
  }

  lemma Fitting(m: J.Mode, body: seq<byte>, pc: nat, f: J.Frame, room: nat)
    requires pc < |body| && J.StepOp(m, body, pc, f, room).Some? && |f.stack| <= room
    ensures |J.StepOp(m, body, pc, f, room).value.0.stack| <= room
  {
    hide ReadI32, ReadU32, ReadI64, J.BinaryWord;
  }

  /** The interpretation of the callee from the locals array, where it finds a few more locals. */
  lemma ReadingPadded(p: Program, s: State, func: nat, body: seq<byte>)
    requires Runnable(p, s, func, body)
    ensures var x := Reading(J.Narrow, p, s, func, body, FrameLocals(p, s, func)).value;
            var y := Reading(J.Narrow, p, s, func, body, LocalsArray(s, p.funcs[func].params));
            y.Some? && y.value.stack == x.stack
  {
    hide Lists, Numeric, J.Interpret, C.Jit, S.EmittedSize;
    var f, room := p.funcs[func], STACK_DEPTH - BaseOf(p, s, func);
    ArrayIsPadded(p, s, func);
    PaddedRun(J.Narrow, body, 0, J.Frame([], FrameLocals(p, s, func)), Zeros(MAX_LOCALS - f.params - f.locals),
              f.results, room);
  }

  /** The word the machine code returns is the wide reading's. */
  lemma NativeWord(p: Program, s: State, func: nat, body: seq<byte>, entry: X.State, rest: seq<byte>)
    requires Runnable(p, s, func, body) && NativeCall(p, s, func, body, entry, rest)
    ensures Reading(J.Wide, p, s, func, body, LocalsArray(s, p.funcs[func].params)).Some?
    ensures var w := Reading(J.Wide, p, s, func, body, LocalsArray(s, p.funcs[func].params)).value;
            p.funcs[func].results == 1 ==>
              w.stack != [] && p.native(func, LocalsArray(s, p.funcs[func].params)) == w.stack[|w.stack| - 1]
  {
    hide Lists, Numeric, J.Interpret, J.Layout, J.LocalsAgree, A.Called, C.Jit, X.AllEncodable, X.Run, P.Kept,
         S.EmittedSize;
    var f, room := p.funcs[func], STACK_DEPTH - BaseOf(p, s, func);
    ReadingPadded(p, s, func, body);
    NativeIsCalled(p, s, func, body, entry, rest);
    A.JitPreservesMeaning(entry, LocalsArray(s, f.params), body, f.results, room, rest);
  }

  lemma RunnableFacts(p: Program, s: State, func: nat, body: seq<byte>)
    requires Runnable(p, s, func, body)
    ensures CallSite(p, s, func, body) && p.compiled(func)
    ensures s.frames != [] && func < |p.funcs| && p.funcs[func].params <= |s.stack| <= STACK_DEPTH
    ensures p.funcs[func].params + p.funcs[func].locals <= MAX_LOCALS
    ensures Reading(J.Narrow, p, s, func, body, FrameLocals(p, s, func)).Some?
    ensures var q := Interpreted(p);
            && CallSite(q, s, func, body) && Numeric(q) && !q.compiled(func) && q.funcs == p.funcs
            && FrameLocals(q, s, func) == FrameLocals(p, s, func) && BaseOf(q, s, func) == BaseOf(p, s, func)
  {
    hide Lists, J.BinaryWord, C.Jit, Reading, S.EmittedSize;
  }

  lemma ReadingIs(m: J.Mode, p: Program, s: State, func: nat, body: seq<byte>, locals: seq<Word>)
    requires func < |p.funcs| && p.funcs[func].params <= |s.stack| <= STACK_DEPTH
    ensures BaseOf(p, s, func) <= |s.stack|
    ensures Reading(m, p, s, func, body, locals)
            == J.Interpret(m, body, 0, J.Frame([], locals), p.funcs[func].results, STACK_DEPTH - BaseOf(p, s, func))
  {
    hide J.Interpret;
  }

  lemma LastOf(stack: seq<Word>, results: nat)
    requires results <= 1 && (results == 1 ==> stack != [])
    ensures results <= |stack|
    ensures Last(stack, results) == if results > 0 then [stack[|stack| - 1]] else []
  {
  }

  lemma BackDiffers(s: State, base: nat, a: seq<Word>, b: seq<Word>)
    requires s.frames != [] && base <= |s.stack|
    ensures Back(s, base, a) == Back(s, base, b) <==> a == b
  {
    var front := s.stack[..base];
    assert (front + a)[base..] == a && (front + b)[base..] == b;
  }

  /** The turn of the fast path, with the word of the wide reading. */
  lemma FastTurn(p: Program, s: State, func: nat, body: seq<byte>, entry: X.State, rest: seq<byte>) returns (t: State)
    requires Runnable(p, s, func, body) && NativeCall(p, s, func, body, entry, rest)
    ensures Reading(J.Wide, p, s, func, body, LocalsArray(s, p.funcs[func].params)).Some?
    ensures var w := Reading(J.Wide, p, s, func, body, LocalsArray(s, p.funcs[func].params)).value;
            && p.funcs[func].results <= |w.stack| && Turn(p, s, t)
            && t == Back(s, BaseOf(p, s, func), Last(w.stack, p.funcs[func].results))
  {
    hide *;
    RunnableFacts(p, s, func, body);
    NarrowResults(p, s, func, body);
    NativeWord(p, s, func, body, entry, rest);
    FastCall(p, s, func, body);
    ReadingIs(J.Narrow, p, s, func, body, FrameLocals(p, s, func));
    var w := Reading(J.Wide, p, s, func, body, LocalsArray(s, p.funcs[func].params)).value;
    LastOf(w.stack, p.funcs[func].results);
    t := Back(s, BaseOf(p, s, func), Last(w.stack, p.funcs[func].results));
  }

  /** Calling a compiled function and calling its interpreter. For every call of a function whose code fits and whose
      interpretation returns: the run loop without the compiler comes back from it with the callee's result for its
      arguments; with the compiler it does so in one turn, with the result of the 64-bit reading; stacks, frames,
      locals, control stack, globals and memory are then the same if and only if the callee has no result or the two
      readings of its body end in the same word. */
  lemma FastPathAgrees(p: Program, s: State, func: nat, body: seq<byte>, entry: X.State, rest: seq<byte>)
    returns (ss: seq<State>, t: State)
    requires Callable(p, s, func, body) && NativeCall(p, s, func, body, entry, rest)
    ensures Run(Interpreted(p), ss) && |ss| >= 3 && ss[0] == s && Turn(p, s, t)
    ensures Reading(J.Wide, p, s, func, body, LocalsArray(s, p.funcs[func].params)).Some?
    ensures var x := Reading(J.Narrow, p, s, func, body, FrameLocals(p, s, func)).value;
            var w := Reading(J.Wide, p, s, func, body, LocalsArray(s, p.funcs[func].params)).value;
            var results := p.funcs[func].results;
            && results <= 1 && results <= |x.stack| && results <= |w.stack|
            && ss[|ss| - 1] == Back(s, BaseOf(p, s, func), Last(x.stack, results))
            && t == Back(s, BaseOf(p, s, func), Last(w.stack, results))
            && (t == ss[|ss| - 1] <==> Last(w.stack, results) == Last(x.stack, results))
  {
    hide *;
    CallableIs(p, s, func, body);
    RunnableFacts(p, s, func, body);
    var base, results := BaseOf(p, s, func), p.funcs[func].results;
    NarrowResults(p, s, func, body);
    ReadingIs(J.Narrow, p, s, func, body, FrameLocals(p, s, func));
    ss := SlowCall(Interpreted(p), s, func, body);
    t := FastTurn(p, s, func, body, entry, rest);
    var w := Reading(J.Wide, p, s, func, body, LocalsArray(s, p.funcs[func].params)).value;
    var x := Reading(J.Narrow, p, s, func, body, FrameLocals(p, s, func)).value;
    BackDiffers(s, base, Last(w.stack, results), Last(x.stack, results));
  }

  lemma CallableIs(p: Program, s: State, func: nat, body: seq<byte>)
    requires Callable(p, s, func, body)
    ensures Runnable(p, s, func, body) && |s.frames| < CALL_DEPTH
  {
    hide Runnable;
  }

  /** Checked on the callee's wide reading alone: when every binary operation in it is exact, the compiled call leaves
      the caller exactly as the interpreter does. */
  lemma FastPathExact(p: Program, s: State, func: nat, body: seq<byte>, entry: X.State, rest: seq<byte>)
    returns (ss: seq<State>)
    requires Callable(p, s, func, body) && NativeCall(p, s, func, body, entry, rest)
    requires Q.ExactRun(body, 0, J.Frame([], LocalsArray(s, p.funcs[func].params)), STACK_DEPTH - BaseOf(p, s, func))
    ensures Run(Interpreted(p), ss) && |ss| >= 3 && ss[0] == s && Turn(p, s, ss[|ss| - 1])
  {
    hide *;
    CallableIs(p, s, func, body);
    RunnableFacts(p, s, func, body);
    var t: State;
    ss, t := FastPathAgrees(p, s, func, body, entry, rest);
    ExactReadings(p, s, func, body);
  }

  lemma ExactReadings(p: Program, s: State, func: nat, body: seq<byte>)
    requires Runnable(p, s, func, body)
    requires Reading(J.Wide, p, s, func, body, LocalsArray(s, p.funcs[func].params)).Some?
    requires Q.ExactRun(body, 0, J.Frame([], LocalsArray(s, p.funcs[func].params)), STACK_DEPTH - BaseOf(p, s, func))
    ensures Reading(J.Wide, p, s, func, body, LocalsArray(s, p.funcs[func].params)).value.stack
            == Reading(J.Narrow, p, s, func, body, FrameLocals(p, s, func)).value.stack
  {
    hide *;
    RunnableFacts(p, s, func, body);
    var padded := LocalsArray(s, p.funcs[func].params);
    ReadingPadded(p, s, func, body);
    ReadingIs(J.Narrow, p, s, func, body, padded);
    ReadingIs(J.Wide, p, s, func, body, padded);
    Q.ExactRunIff(body, 0, J.Frame([], padded), STACK_DEPTH - BaseOf(p, s, func));
    Q.SameRunEnds(body, 0, J.Frame([], padded), p.funcs[func].results, STACK_DEPTH - BaseOf(p, s, func));
  }

  /** The fast path needs no frame: where the interpreter's call stack is full, only it goes on, to the result of the
      64-bit reading. */
  lemma FastIgnoresDepth(p: Program, s: State, func: nat, body: seq<byte>, entry: X.State, rest: seq<byte>)
    returns (t: State)
    requires Runnable(p, s, func, body) && NativeCall(p, s, func, body, entry, rest) && |s.frames| >= CALL_DEPTH
    ensures Exec(Interpreted(p), s, ActiveBytes(s)) == Stop(CallStackOverflow)
    ensures Reading(J.Wide, p, s, func, body, LocalsArray(s, p.funcs[func].params)).Some?
    ensures var w := Reading(J.Wide, p, s, func, body, LocalsArray(s, p.funcs[func].params)).value;
            && p.funcs[func].results <= |w.stack| && Turn(p, s, t)
            && t == Back(s, BaseOf(p, s, func), Last(w.stack, p.funcs[func].results))
  {
    hide *;
    RunnableFacts(p, s, func, body);
    NoFrameLeft(Interpreted(p), s, func, body);
    t := FastTurn(p, s, func, body, entry, rest);
  }

  lemma NoFrameLeft(p: Program, s: State, func: nat, body: seq<byte>)
    requires CallSite(p, s, func, body) && !p.compiled(func) && |s.frames| >= CALL_DEPTH
    ensures Exec(p, s, ActiveBytes(s)) == Stop(CallStackOverflow)
  {
    hide Lists;
  }
}
