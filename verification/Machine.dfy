/** The interpreter's run loop over decoded instructions: value stack, call frames, control stack, globals, linear
    memory and its cached size, the function table, host calls that may yield. An opener carries the positions of its
    own `end` and `else`, which Control and JumpTable are about. */
module Machine {
  import opened Words

  const STACK_DEPTH: nat := 256
  const CALL_DEPTH: nat := 128
  const MAX_LOCALS: nat := 64
  const MAX_CTRL_DEPTH: nat := 128
  const PAGE_SIZE: nat := 65536

  datatype Error =
    | StackOverflow | StackUnderflow | CallStackOverflow | CtrlStackOverflow | TooManyLocals | LocalIndexOutOfRange
    | GlobalIndexOutOfRange | GlobalImmutable | MemOutOfBounds | FuncIndexOutOfRange | IndirectCallNull
    | IndirectCallTypeMismatch | DivisionByZero | Unreachable | Panicked | HostError(code: nat)

  /** Loads and stores by width and sign; `memory.copy` and `memory.fill` take their operands from the stack. */
  datatype Instr =
    | Nop | Trap
    | Const(value: Word)
    | Drop
    | Select
    | Unary(op: byte) | Alu(op: byte)
    | LocalGet(local: nat) | LocalSet(local: nat) | LocalTee(local: nat)
    | GlobalGet(global: nat) | GlobalSet(global: nat)
    | Load(width: nat, signed: bool, offset: nat) | Store(width: nat, offset: nat)
    | MemorySize | MemoryGrow | MemoryCopy | MemoryFill
    | Block(end: nat) | Loop(end: nat) | If(end: nat, els: Option<nat>) | Else | End
    | Br(depth: nat) | BrIf(depth: nat) | BrTable(depths: seq<nat>, default: nat)
    | Call(callee: nat) | CallIndirect(typeIdx: nat)
    | Return

  datatype Func = Func(params: nat, results: nat, locals: nat, body: seq<Instr>)

  datatype Frame = Frame(func: nat, pc: nat, locals: seq<Word>, ctrlBase: nat, vspBase: nat, resultCount: nat)

  datatype CtrlFrame = CtrlFrame(isLoop: bool, start: nat, end: nat)

  datatype State = State(stack: seq<Word>, frames: seq<Frame>, ctrl: seq<CtrlFrame>, globals: seq<Word>, mem: seq<byte>,
                         pages: nat)

  /** What a host function does: its stack and memory effect, and how it returns. */
  datatype HostStatus = Completed | Yielded | Failed(code: nat)
  datatype HostResult = HostResult(status: HostStatus, stack: seq<Word>, mem: seq<byte>)

  /** A module with its environment; the numeric operations are parameters, a binary one may trap. Functions that are
      `compiled` are called through their machine code: `native` is the word it returns for an array of MAX_LOCALS
      locals. */
  datatype Program = Program(
    imports: nat, funcs: seq<Func>, maxPages: nat, table: seq<Option<nat>>, types: nat -> nat, mutable: nat -> bool,
    compiled: nat -> bool, native: (nat, seq<Word>) -> Word,
    host: (nat, seq<Word>, seq<byte>) -> HostResult,
    unary: (byte, Word) -> Word,
    alu: (byte, Word, Word) -> Option<Word>)

  datatype Outcome = Next(s: State, active: nat) | Yield(s: State) | Stop(error: Error)

  function Top(s: State): Frame
    requires s.frames != []
  {
    s.frames[|s.frames| - 1]
  }

  function WithTop(s: State, f: Frame): State
    requires s.frames != []
  {
    s.(frames := s.frames[|s.frames| - 1 := f])
  }

  function GoTo(s: State, pc: nat): State
    requires s.frames != []
  {
    WithTop(s, Top(s).(pc := pc))
  }

  function Advance(s: State): State
    requires s.frames != []
  {
    GoTo(s, Top(s).pc + 1)
  }

  /** The stack without its top value. */
  function Popped(s: State): State
    requires s.stack != []
  {
    s.(stack := s.stack[..|s.stack| - 1])
  }

  function TopValue(s: State): Word
    requires s.stack != []
  {
    s.stack[|s.stack| - 1]
  }

  /** The ordinary end of an instruction: `pops` values replaced by `pushes`. */
  function Replace(s: State, active: nat, pops: nat, pushes: seq<Word>): (o: Outcome)
    requires s.frames != []
    ensures !o.Yield?
    ensures o.Next? ==> o.active == active && o.s.pages == s.pages && o.s.mem == s.mem
  {
    if |s.stack| < pops then Stop(StackUnderflow)
    else if |s.stack| - pops + |pushes| > STACK_DEPTH then Stop(StackOverflow)
    else Next(Advance(s.(stack := s.stack[..|s.stack| - pops] + pushes)), active)
  }

  /** `push_frame`. */
  function PushFrame(s: State, func: nat, f: Func): (o: Outcome)
    ensures !o.Yield?
  {
    if |s.frames| >= CALL_DEPTH then Stop(CallStackOverflow)
    else if f.params + f.locals > MAX_LOCALS then Stop(TooManyLocals)
    else if |s.stack| < f.params then Stop(StackUnderflow)
    else
      var base := |s.stack| - f.params;
      var locals: seq<Word> := s.stack[base..] + seq(f.locals, _ => 0);
      Next(s.(stack := s.stack[..base], frames := s.frames + [Frame(func, 0, locals, |s.ctrl|, base, f.results)]), 0)
  }

  /** `do_return` with enough values on the frame's part of the stack, and its control frames in place. */
  predicate CanReturn(s: State) {
    s.frames != [] && Top(s).vspBase + Top(s).resultCount <= |s.stack| && Top(s).ctrlBase <= |s.ctrl|
  }

  function DoReturn(s: State): State
    requires CanReturn(s)
  {
    var f := Top(s);
    s.(stack := s.stack[..f.vspBase] + s.stack[|s.stack| - f.resultCount..],
       ctrl := s.ctrl[..f.ctrlBase],
       frames := s.frames[..|s.frames| - 1])
  }

  function Fetch(p: Program, s: State): Option<Instr>
    requires s.frames != []
  {
    var f := Top(s);
    if f.func < |p.funcs| && f.pc < |p.funcs[f.func].body| then Some(p.funcs[f.func].body[f.pc]) else None
  }

  /** The label a branch takes, and the state with its operand popped; `None` when it falls through or underflows. */
  function Taken(i: Instr, s: State): Option<(State, nat)> {
    match i
    case Br(n) => Some((s, n))
    case BrIf(n) => if s.stack != [] && TopValue(s) != 0 then Some((Popped(s), n)) else None
    case BrTable(ns, default) =>
      if s.stack == [] then None
      else
        var k := TopValue(s) % TWO32;
        Some((Popped(s), if k < |ns| then ns[k] else default))
    case _ => None
  }

  /** The state in which a turn returns from the current function, if it does: at the end of the body, by `return`, at
      the outermost `end`, or by a branch past all blocks. */
  function Returning(p: Program, s: State): (r: Option<State>)
    requires s.frames != []
    ensures r.Some? ==> r.value.frames == s.frames && r.value.ctrl == s.ctrl && r.value.mem == s.mem
                        && r.value.pages == s.pages && r.value.globals == s.globals
    ensures r.Some? ==> r.value.stack == s.stack || (s.stack != [] && r.value.stack == s.stack[..|s.stack| - 1])
  {
    var i, open := Fetch(p, s), |s.ctrl| - Top(s).ctrlBase;
    if i.None? || i.value.Return? then Some(s)
    else if i.value.End? then if open <= 0 then Some(s) else None
    else
      var t := Taken(i.value, s);
      if t.Some? && open <= t.value.1 then Some(t.value.0) else None
  }

  predicate Returns(p: Program, s: State)
    requires s.frames != []
  {
    Returning(p, s).Some?
  }

  /** The function a call instruction calls, and the state with a table index popped; `None` when the table look-up
      fails. */
  function Called(p: Program, i: Instr, s: State): Option<(State, nat)> {
    match i
    case Call(callee) => Some((s, callee))
    case CallIndirect(t) =>
      if s.stack == [] then None
      else
        var k := TopValue(s) % TWO32;
        if k < |p.table| && p.table[k].Some? && p.types(p.table[k].value) == t then Some((Popped(s), p.table[k].value))
        else None
    case _ => None
  }

  function ParamsOf(p: Program, callee: nat): nat {
    if p.imports <= callee < p.imports + |p.funcs| then p.funcs[callee - p.imports].params else 0
  }

  /** Values an instruction takes from the stack, at most; the parameters of a call come on top of these. */
  function Pops(i: Instr): nat {
    match i
    case Drop | Unary(_) | LocalSet(_) | LocalTee(_) | GlobalSet(_) | Load(_, _, _) | MemoryGrow => 1
    case If(_, _) | BrIf(_) | BrTable(_, _) | CallIndirect(_) => 1
    case Alu(_) | Store(_, _) => 2
    case Select | MemoryCopy | MemoryFill => 3
    case _ => 0
  }

  /** Stacks are used as validated code does: nothing below the frame's bases is taken, `else` closes a construct of
      its own function, a return finds its results, a host function keeps to the caller's part. */
  ghost predicate Disciplined(p: Program, s: State)
    requires s.frames != []
  {
    var base := Top(s).vspBase;
    && base <= |s.stack|
    && (Returns(p, s) ==> CanReturn(Returning(p, s).value))
    && (Fetch(p, s).Some? ==>
          var i := Fetch(p, s).value;
          && base + Pops(i) <= |s.stack|
          && (i.Else? ==> Top(s).ctrlBase < |s.ctrl|)
          && (Called(p, i, s).Some? ==>
                var (s1, callee) := Called(p, i, s).value;
                && base + ParamsOf(p, callee) <= |s1.stack|
                && (callee < p.imports ==>
                      var h := p.host(callee, s1.stack, s1.mem);
                      base <= |h.stack| <= STACK_DEPTH && h.stack[..base] == s1.stack[..base] && |h.mem| == |s.mem|)))
  }

  function ActiveBytes(s: State): nat {
    s.pages * PAGE_SIZE
  }

  // ---- one instruction ---------------------------------------------------------------------------------------

  function ExecLocal(s: State, active: nat, i: Instr): (o: Outcome)
    requires s.frames != [] && (i.LocalGet? || i.LocalSet? || i.LocalTee?)
    ensures !o.Yield?
    ensures o.Next? ==> o.active == active && o.s.pages == s.pages && o.s.mem == s.mem
  {
    var f := Top(s);
    var n := |s.stack|;
    if i.local >= |f.locals| then Stop(LocalIndexOutOfRange)
    else if i.LocalGet? then Replace(s, active, 0, [f.locals[i.local]])
    else if n == 0 then Stop(StackUnderflow)
    else
      var s' := WithTop(s, f.(locals := f.locals[i.local := s.stack[n - 1]]));
      if i.LocalSet? then Replace(s', active, 1, []) else Replace(s', active, 0, [])
  }

  // ---- memory values -------------------------------------------------------------------------------------------

  /** Little-endian value of a byte string. */
  function FromLe(bs: seq<byte>): nat {
    if bs == [] then 0 else bs[0] as int + 256 * FromLe(bs[1..])
  }

  /** The low `width` bytes of a value. */
  function ToLe(v: nat, width: nat): (bs: seq<byte>)
    ensures |bs| == width
  {
    if width == 0 then [] else [v % 256] + ToLe(v / 256, width - 1)
  }

  function Pow256(width: nat): (p: nat)
    ensures p > 0
  {
    if width == 0 then 1 else 256 * Pow256(width - 1)
  }

  /** The value a load pushes: zero- or sign-extended to 64 bits. */
  function Extended(v: nat, width: nat, signed: bool): Word {
    if signed && 2 * v >= Pow256(width) then ToWord(v - Pow256(width)) else ToWord(v)
  }

  function Written(s: State, ea: nat, bytes: seq<byte>): State
    requires ea + |bytes| <= |s.mem|
  {
    s.(mem := s.mem[..ea] + bytes + s.mem[ea + |bytes|..])
  }

  /** `delta` more pages, zeroed. */
  function Grown(s: State, delta: nat): (g: State)
    requires (s.pages + delta) * PAGE_SIZE <= |s.mem|
    ensures g.pages == s.pages + delta && g.frames == s.frames && g.stack == s.stack && g.ctrl == s.ctrl
  {
    var lo, hi := s.pages * PAGE_SIZE, (s.pages + delta) * PAGE_SIZE;
    MulMonotone(s.pages, delta);
    s.(mem := s.mem[..lo] + seq(hi - lo, _ => 0) + s.mem[hi..], pages := s.pages + delta)
  }

  lemma MulMonotone(a: nat, d: nat)
    ensures a * PAGE_SIZE <= (a + d) * PAGE_SIZE
  {
  }

  predicate IsMemory(i: Instr) {
    i.Load? || i.Store? || i.MemorySize? || i.MemoryGrow? || i.MemoryCopy? || i.MemoryFill?
  }

  /** `memory.grow`. */
  function ExecGrow(p: Program, s: State, active: nat): (o: Outcome)
    requires s.frames != []
    ensures !o.Yield?
    ensures o.Next? && active == ActiveBytes(s) ==> o.active == ActiveBytes(o.s)
  {
    if s.stack == [] then Stop(StackUnderflow)
    else
      var delta: nat := TopValue(s) % TWO32;
      if s.pages + delta <= p.maxPages then
        var hi := (s.pages + delta) * PAGE_SIZE;
        if hi > |s.mem| then Stop(MemOutOfBounds) else Replace(Grown(s, delta), hi, 1, [ToWord(s.pages)])
      else Replace(s, active, 1, [ToWord(-1)])
  }

  function Filled(k: nat, b: byte): (bs: seq<byte>)
    ensures |bs| == k
  {
    seq(k, _ => b)
  }

  /** The bytes an access touches lie within `limit`. */
  predicate InBounds(s: State, limit: nat, i: Instr)
    requires Pops(i) <= |s.stack|
  {
    var n := |s.stack|;
    match i
    case Load(width, _, offset) => s.stack[n - 1] % TWO32 + offset + width <= limit
    case Store(width, offset) => s.stack[n - 2] % TWO32 + offset + width <= limit
    case MemoryCopy =>
      s.stack[n - 2] as int + s.stack[n - 1] <= limit && s.stack[n - 3] as int + s.stack[n - 1] <= limit
    case MemoryFill => s.stack[n - 3] as int + s.stack[n - 1] <= limit
    case _ => true
  }

  /** Memory after an access, and what it pushes. */
  function Accessed(s: State, i: Instr): (r: (State, seq<Word>))
    requires IsMemory(i) && !i.MemoryGrow? && Pops(i) <= |s.stack| && InBounds(s, |s.mem|, i)
    ensures r.0 == s.(mem := r.0.mem) && |r.1| <= 1
  {
    var n := |s.stack|;
    match i
    case Load(width, signed, offset) =>
      var ea: nat := s.stack[n - 1] % TWO32 + offset;
      (s, [Extended(FromLe(s.mem[ea..ea + width]), width, signed)])
    case Store(width, offset) =>
      var ea: nat := s.stack[n - 2] % TWO32 + offset;
      (Written(s, ea, ToLe(s.stack[n - 1], width)), [])
    case MemoryCopy =>
      var dst, src, k := s.stack[n - 3], s.stack[n - 2], s.stack[n - 1];
      (Written(s, dst, s.mem[src..src as int + k]), [])
    case MemoryFill =>
      var dst, val, k := s.stack[n - 3], s.stack[n - 2], s.stack[n - 1];
      (Written(s, dst, Filled(k, val % 256)), [])
    case _ => (s, [ToWord(s.pages)])
  }

  /** The other memory instructions, checked against `active`, the cached size. */
  function ExecAccess(s: State, active: nat, i: Instr): (o: Outcome)
    requires s.frames != [] && IsMemory(i) && !i.MemoryGrow?
    ensures !o.Yield?
    ensures o.Next? ==> o.active == active && o.s.pages == s.pages
  {
    if |s.stack| < Pops(i) then Stop(StackUnderflow)
    else if !InBounds(s, active, i) || !InBounds(s, |s.mem|, i) then Stop(MemOutOfBounds)
    else Replace(Accessed(s, i).0, active, Pops(i), Accessed(s, i).1)
  }

  // ---- control -------------------------------------------------------------------------------------------------

  predicate IsControl(i: Instr) {
    i.Block? || i.Loop? || i.If? || i.Else? || i.End? || i.Br? || i.BrIf? || i.BrTable?
  }

  /** `ctrl_push`, then on to `pc`. */
  function Enter(s: State, active: nat, c: CtrlFrame, pc: nat): (o: Outcome)
    requires s.frames != []
    ensures !o.Yield?
    ensures o.Next? ==> o.active == active && o.s.pages == s.pages && o.s.mem == s.mem
  {
    if |s.ctrl| >= MAX_CTRL_DEPTH then Stop(CtrlStackOverflow)
    else Next(GoTo(s.(ctrl := s.ctrl + [c]), pc), active)
  }

  /** `do_br` to an enclosing construct of the function. */
  function Jump(s: State, n: nat): State
    requires s.frames != [] && n < |s.ctrl|
  {
    var k := |s.ctrl| - 1 - n;
    var c := s.ctrl[k];
    if c.isLoop then GoTo(s.(ctrl := s.ctrl[..k + 1]), c.start) else GoTo(s.(ctrl := s.ctrl[..k]), c.end + 1)
  }

  /** Control instructions that do not return. */
  function ExecControl(s: State, active: nat, i: Instr): (o: Outcome)
    requires s.frames != [] && IsControl(i)
    ensures !o.Yield?
    ensures o.Next? ==> o.active == active && o.s.pages == s.pages && o.s.mem == s.mem
  {
    var next, k := Top(s).pc + 1, |s.ctrl| - 1;
    if i.Block? then Enter(s, active, CtrlFrame(false, next, i.end), next)
    else if i.Loop? then Enter(s, active, CtrlFrame(true, next, i.end), next)
    else if i.If? then
      if s.stack == [] then Stop(StackUnderflow)
      else if TopValue(s) != 0 then Enter(Popped(s), active, CtrlFrame(false, next, i.end), next)
      else if i.els.Some? then Enter(Popped(s), active, CtrlFrame(false, next, i.end), i.els.value + 1)
      else Next(GoTo(Popped(s), i.end + 1), active)
    else if i.Else? || i.End? then
      if k < 0 then Stop(Unreachable)
      else Next(GoTo(s.(ctrl := s.ctrl[..k]), if i.Else? then s.ctrl[k].end + 1 else next), active)
    else ExecBranch(s, active, Taken(i, s))
  }

  /** A branch to an enclosing construct, or past a conditional branch not taken. */
  function ExecBranch(s: State, active: nat, t: Option<(State, nat)>): (o: Outcome)
    requires s.frames != []
    ensures !o.Yield?
    ensures o.Next? ==> o.active == active
    ensures o.Next? ==> var s1 := if t.Some? then t.value.0 else s; o.s.pages == s1.pages && o.s.mem == s1.mem
  {
    match t
    case None => if s.stack == [] then Stop(StackUnderflow) else Next(Advance(Popped(s)), active)
    case Some((s1, n)) => if s1.frames != [] && n < |s1.ctrl| then Next(Jump(s1, n), active) else Stop(Unreachable)
  }

  /** The call itself; `s` has the table index popped. */
  function ExecCall(p: Program, s: State, active: nat, callee: nat): Outcome
    requires s.frames != []
  {
    var s1 := Advance(s);
    if callee < p.imports then
      var h := p.host(callee, s1.stack, s1.mem);
      var s2 := s1.(stack := h.stack, mem := h.mem);
      match h.status
      case Completed => Next(s2, active)
      case Yielded => Yield(s2)
      case Failed(code) => Stop(HostError(code))
    else if callee - p.imports >= |p.funcs| then Stop(FuncIndexOutOfRange)
    else
      match PushFrame(s1, callee - p.imports, p.funcs[callee - p.imports])
      case Next(s2, _) => Next(s2, active)
      case o => o
  }

  /** A direct call of a compiled function; `call_indirect` never takes this path. */
  predicate Fast(p: Program, i: Instr) {
    i.Call? && p.imports <= i.callee < p.imports + |p.funcs| && p.compiled(i.callee - p.imports)
  }

  /** The parameters, then zeros, as the compiled function finds them. */
  function LocalsArray(s: State, params: nat): seq<Word>
    requires params <= |s.stack| && params <= MAX_LOCALS
  {
    s.stack[|s.stack| - params..] + Zeros(MAX_LOCALS - params)
  }

  function Zeros(n: nat): seq<Word> {
    seq(n, _ => 0)
  }

  /** The fast path: no frame is pushed. */
  function ExecFast(p: Program, s: State, active: nat, func: nat): (o: Outcome)
    requires s.frames != [] && func < |p.funcs|
    ensures !o.Yield?
    ensures o.Next? ==> o.active == active && o.s.pages == s.pages && o.s.mem == s.mem
  {
    var f := p.funcs[func];
    if |s.stack| < f.params then Stop(StackUnderflow)
    else if f.params > MAX_LOCALS then Stop(Panicked)
    else Replace(s, active, f.params, if f.results > 0 then [p.native(func, LocalsArray(s, f.params))] else [])
  }

  function IndirectFailure(p: Program, s: State): Error {
    if s.stack == [] then StackUnderflow
    else
      var k := TopValue(s) % TWO32;
      if k < |p.table| && p.table[k].Some? then IndirectCallTypeMismatch else IndirectCallNull
  }

  /** Constants, locals, globals and arithmetic. */
  function ExecPlain(p: Program, s: State, active: nat, i: Instr): (o: Outcome)
    requires s.frames != [] && !IsControl(i) && !IsMemory(i) && !i.Call? && !i.CallIndirect? && !i.Return?
    ensures !o.Yield?
    ensures o.Next? ==> o.active == active && o.s.pages == s.pages && o.s.mem == s.mem
  {
    var n := |s.stack|;
    if i.LocalGet? || i.LocalSet? || i.LocalTee? then ExecLocal(s, active, i)
    else if (i.GlobalGet? || i.GlobalSet?) && i.global >= |s.globals| then Stop(GlobalIndexOutOfRange)
    else if i.GlobalSet? && !p.mutable(i.global) then Stop(GlobalImmutable)
    else if n < Pops(i) then Stop(StackUnderflow)
    else if i.Nop? then Replace(s, active, 0, [])
    else if i.Const? then Replace(s, active, 0, [i.value])
    else if i.Drop? then Replace(s, active, 1, [])
    else if i.Select? then Replace(s, active, 3, [if s.stack[n - 1] != 0 then s.stack[n - 3] else s.stack[n - 2]])
    else if i.Unary? then Replace(s, active, 1, [p.unary(i.op, s.stack[n - 1])])
    else if i.Alu? then
      var v := p.alu(i.op, s.stack[n - 2], s.stack[n - 1]);
      if v.None? then Stop(DivisionByZero) else Replace(s, active, 2, [v.value])
    else if i.GlobalGet? then Replace(s, active, 0, [s.globals[i.global]])
    else if i.GlobalSet? then Replace(s.(globals := s.globals[i.global := s.stack[n - 1]]), active, 1, [])
    else Stop(Unreachable)
  }

  /** One turn of the `run` loop; a return that finds too few values stops the model. */
  function Exec(p: Program, s: State, active: nat): Outcome
    requires s.frames != []
  {
    var r := Returning(p, s);
    if r.Some? then
      if CanReturn(r.value) then Next(DoReturn(r.value), active) else Stop(StackUnderflow)
    else
      match Fetch(p, s)
      case None => Stop(Unreachable)
      case Some(i) =>
        if IsControl(i) then ExecControl(s, active, i)
        else if i.MemoryGrow? then ExecGrow(p, s, active)
        else if IsMemory(i) then ExecAccess(s, active, i)
        else if Fast(p, i) then ExecFast(p, s, active, i.callee - p.imports)
        else if i.Call? || i.CallIndirect? then
          (match Called(p, i, s)
           case None => Stop(IndirectFailure(p, s))
           case Some((s1, callee)) => ExecCall(p, s1, active, callee))
        else if i.Return? then Stop(Unreachable)
        else ExecPlain(p, s, active, i)
  }

  /** The state after a turn, a yield counting as an ordinary turn. */
  function After(o: Outcome): Option<State> {
    match o
    case Next(s, _) => Some(s)
    case Yield(s) => Some(s)
    case Stop(_) => None
  }

  // ---- frames ------------------------------------------------------------------------------------------------

  /** Bases grow with depth, for both stacks, and the live parts lie above the topmost bases. */
  ghost predicate Sorted(s: State) {
    && (forall i, j :: 0 <= i < j < |s.frames| ==>
          s.frames[i].vspBase <= s.frames[j].vspBase && s.frames[i].ctrlBase <= s.frames[j].ctrlBase)
    && (s.frames != [] ==> Top(s).vspBase <= |s.stack| && Top(s).ctrlBase <= |s.ctrl|)
  }

  /** A turn that stays in the current function: the frames below, the base data of the top frame, and both stacks
      below its bases are untouched. */
  ghost predicate Within(s: State, s': State)
    requires s.frames != []
  {
    var f := Top(s);
    && |s'.frames| == |s.frames| && s'.frames[..|s.frames| - 1] == s.frames[..|s.frames| - 1]
    && Top(s').vspBase == f.vspBase && Top(s').ctrlBase == f.ctrlBase && Top(s').resultCount == f.resultCount
    && f.vspBase <= |s'.stack| && f.vspBase <= |s.stack| && s'.stack[..f.vspBase] == s.stack[..f.vspBase]
    && f.ctrlBase <= |s'.ctrl| && f.ctrlBase <= |s.ctrl| && s'.ctrl[..f.ctrlBase] == s.ctrl[..f.ctrlBase]
  }

  /** A call that pushes a frame for a function of the module. */
  predicate Calls(p: Program, s: State)
    requires s.frames != []
  {
    && !Returns(p, s) && Fetch(p, s).Some? && Called(p, Fetch(p, s).value, s).Some?
    && Called(p, Fetch(p, s).value, s).value.1 >= p.imports && !Fast(p, Fetch(p, s).value)
  }

  /** Height of the value stack below the arguments, and the function called. */
  function CallBase(p: Program, s: State): (nat, nat)
    requires s.frames != [] && Calls(p, s)
  {
    var (s1, callee) := Called(p, Fetch(p, s).value, s).value;
    (if ParamsOf(p, callee) <= |s1.stack| then |s1.stack| - ParamsOf(p, callee) else 0, callee - p.imports)
  }

  lemma ReplaceWithin(s: State, s1: State, active: nat, pops: nat, pushes: seq<Word>)
    requires s.frames != [] && Within(s, s1) && s1.stack == s.stack && Top(s).vspBase + pops <= |s.stack|
    requires Replace(s1, active, pops, pushes).Next?
    ensures Within(s, Replace(s1, active, pops, pushes).s)
  {
    var base := Top(s).vspBase;
    var k := |s.stack| - pops;
    assert (s.stack[..k] + pushes)[..base] == s.stack[..base];
  }

  lemma SelfWithin(s: State)
    requires s.frames != [] && Top(s).vspBase <= |s.stack| && Top(s).ctrlBase <= |s.ctrl|
    ensures Within(s, s)
  {
  }

  lemma PoppedWithin(s: State)
    requires s.frames != [] && Top(s).vspBase < |s.stack| && Top(s).ctrlBase <= |s.ctrl|
    ensures Within(s, Popped(s))
  {
  }

  lemma GoToWithin(s: State, s1: State, pc: nat)
    requires s.frames != [] && s1.frames != [] && Within(s, s1)
    ensures Within(s, GoTo(s1, pc))
  {
  }

  lemma CtrlWithin(s: State, s1: State, ctrl: seq<CtrlFrame>)
    requires s.frames != [] && Within(s, s1) && Top(s).ctrlBase <= |ctrl|
    requires ctrl[..Top(s).ctrlBase] == s1.ctrl[..Top(s).ctrlBase]
    ensures Within(s, s1.(ctrl := ctrl))
  {
  }

  lemma EnterWithin(s: State, s1: State, active: nat, c: CtrlFrame, pc: nat)
    requires s.frames != [] && s1.frames != [] && Within(s, s1) && Enter(s1, active, c, pc).Next?
    ensures Within(s, Enter(s1, active, c, pc).s)
  {
    hide Within;
    assert (s1.ctrl + [c])[..Top(s).ctrlBase] == s1.ctrl[..Top(s).ctrlBase] by { CtrlBaseHolds(s, s1); }
    CtrlBaseHolds(s, s1);
    CtrlWithin(s, s1, s1.ctrl + [c]);
    GoToWithin(s, s1.(ctrl := s1.ctrl + [c]), pc);
  }

  lemma CtrlBaseHolds(s: State, s1: State)
    requires s.frames != [] && Within(s, s1)
    ensures Top(s).ctrlBase <= |s1.ctrl|
  {
  }

  lemma JumpWithin(s: State, s1: State, n: nat)
    requires s.frames != [] && s1.frames != [] && Within(s, s1) && Top(s).ctrlBase + n < |s1.ctrl|
    ensures Within(s, Jump(s1, n))
  {
    hide Within;
    CtrlBaseHolds(s, s1);
    var k := |s1.ctrl| - 1 - n;
    var c := s1.ctrl[k];
    var rest := if c.isLoop then s1.ctrl[..k + 1] else s1.ctrl[..k];
    CtrlWithin(s, s1, rest);
    GoToWithin(s, s1.(ctrl := rest), if c.isLoop then c.start else c.end + 1);
  }

  lemma ControlWithin(s: State, active: nat, i: Instr)
    requires s.frames != [] && IsControl(i)
    requires i.End? ==> Top(s).ctrlBase < |s.ctrl|
    requires Taken(i, s).Some? ==> Top(s).ctrlBase + Taken(i, s).value.1 < |s.ctrl|
    requires Within(s, s) && Top(s).vspBase + Pops(i) <= |s.stack| && (i.Else? ==> Top(s).ctrlBase < |s.ctrl|)
    requires ExecControl(s, active, i).Next?
    ensures Within(s, ExecControl(s, active, i).s)
  {
    CtrlBaseHolds(s, s);
    if Pops(i) == 1 { PoppedWithin(s); }
    hide Within, Enter, Jump, GoTo, WithTop;
    if i.Block? || i.Loop? || i.If? {
      OpenWithin(s, active, i);
    } else if i.Else? || i.End? {
      var k := |s.ctrl| - 1;
      CtrlWithin(s, s, s.ctrl[..k]);
      GoToWithin(s, s.(ctrl := s.ctrl[..k]), if i.Else? then s.ctrl[k].end + 1 else Top(s).pc + 1);
    } else if Taken(i, s).Some? {
      JumpWithin(s, Taken(i, s).value.0, Taken(i, s).value.1);
    } else {
      GoToWithin(s, Popped(s), Top(s).pc + 1);
    }
  }

  lemma OpenWithin(s: State, active: nat, i: Instr)
    requires s.frames != [] && (i.Block? || i.Loop? || i.If?) && Within(s, s)
    requires i.If? ==> s.stack != [] && Within(s, Popped(s))
    requires ExecControl(s, active, i).Next?
    ensures Within(s, ExecControl(s, active, i).s)
  {
    hide Within, Enter, GoTo;
    var next := Top(s).pc + 1;
    if i.Block? { EnterWithin(s, s, active, CtrlFrame(false, next, i.end), next); }
    else if i.Loop? { EnterWithin(s, s, active, CtrlFrame(true, next, i.end), next); }
    else if TopValue(s) != 0 { EnterWithin(s, Popped(s), active, CtrlFrame(false, next, i.end), next); }
    else if i.els.Some? { EnterWithin(s, Popped(s), active, CtrlFrame(false, next, i.end), i.els.value + 1); }
    else { GoToWithin(s, Popped(s), i.end + 1); }
  }

  lemma MemoryWithin(p: Program, s: State, active: nat, i: Instr)
    requires s.frames != [] && IsMemory(i) && Within(s, s) && Top(s).vspBase + Pops(i) <= |s.stack|
    ensures i.MemoryGrow? && ExecGrow(p, s, active).Next? ==> Within(s, ExecGrow(p, s, active).s)
    ensures !i.MemoryGrow? && ExecAccess(s, active, i).Next? ==> Within(s, ExecAccess(s, active, i).s)
  {
    if i.MemoryGrow? {
      if ExecGrow(p, s, active).Next? { GrowWithin(p, s, active); }
    } else if ExecAccess(s, active, i).Next? {
      AccessWithin(s, active, i);
    }
  }

  lemma GrowWithin(p: Program, s: State, active: nat)
    requires s.frames != [] && Within(s, s) && Top(s).vspBase + 1 <= |s.stack| && ExecGrow(p, s, active).Next?
    ensures Within(s, ExecGrow(p, s, active).s)
  {
    hide Replace;
    var delta: nat := TopValue(s) % TWO32;
    if s.pages + delta <= p.maxPages {
      assert Within(s, Grown(s, delta));
      ReplaceWithin(s, Grown(s, delta), (s.pages + delta) * PAGE_SIZE, 1, [ToWord(s.pages)]);
    } else {
      ReplaceWithin(s, s, active, 1, [ToWord(-1)]);
    }
  }

  lemma AccessWithin(s: State, active: nat, i: Instr)
    requires s.frames != [] && IsMemory(i) && !i.MemoryGrow? && Within(s, s) && Top(s).vspBase + Pops(i) <= |s.stack|
    requires ExecAccess(s, active, i).Next?
    ensures Within(s, ExecAccess(s, active, i).s)
  {
    hide Replace, Accessed, InBounds;
    ReplaceWithin(s, Accessed(s, i).0, active, Pops(i), Accessed(s, i).1);
  }

  lemma LocalWithin(s: State, active: nat, i: Instr)
    requires s.frames != [] && (i.LocalGet? || i.LocalSet? || i.LocalTee?)
    requires Within(s, s) && Top(s).vspBase + Pops(i) <= |s.stack| && ExecLocal(s, active, i).Next?
    ensures Within(s, ExecLocal(s, active, i).s)
  {
    hide Replace;
    var f, n := Top(s), |s.stack|;
    if i.LocalGet? {
      ReplaceWithin(s, s, active, 0, [f.locals[i.local]]);
    } else {
      var s1 := WithTop(s, f.(locals := f.locals[i.local := s.stack[n - 1]]));
      assert Within(s, s1);
      ReplaceWithin(s, s1, active, if i.LocalSet? then 1 else 0, []);
    }
  }

  lemma PlainWithin(p: Program, s: State, active: nat, i: Instr)
    requires s.frames != [] && !IsControl(i) && !IsMemory(i) && !i.Call? && !i.CallIndirect? && !i.Return?
    requires Within(s, s) && Top(s).vspBase + Pops(i) <= |s.stack| && ExecPlain(p, s, active, i).Next?
    ensures Within(s, ExecPlain(p, s, active, i).s)
  {
    hide Replace, ExecLocal, Within;
    var n := |s.stack|;
    if i.Nop? { ReplaceWithin(s, s, active, 0, []); }
    else if i.Const? { ReplaceWithin(s, s, active, 0, [i.value]); }
    else if i.Drop? { ReplaceWithin(s, s, active, 1, []); }
    else if i.Select? {
      ReplaceWithin(s, s, active, 3, [if s.stack[n - 1] != 0 then s.stack[n - 3] else s.stack[n - 2]]);
    } else if i.Unary? { ReplaceWithin(s, s, active, 1, [p.unary(i.op, s.stack[n - 1])]); }
    else if i.Alu? { ReplaceWithin(s, s, active, 2, [p.alu(i.op, s.stack[n - 2], s.stack[n - 1]).value]); }
    else if i.GlobalGet? { ReplaceWithin(s, s, active, 0, [s.globals[i.global]]); }
    else if i.GlobalSet? { GlobalWithin(s, active, i.global); }
    else { LocalWithin(s, active, i); }
  }

  lemma GlobalWithin(s: State, active: nat, g: nat)
    requires s.frames != [] && Within(s, s) && Top(s).vspBase + 1 <= |s.stack| && g < |s.globals|
    requires Replace(s.(globals := s.globals[g := TopValue(s)]), active, 1, []).Next?
    ensures Within(s, Replace(s.(globals := s.globals[g := TopValue(s)]), active, 1, []).s)
  {
    ReplaceWithin(s, s.(globals := s.globals[g := TopValue(s)]), active, 1, []);
  }

  /** Anything but a return or a call into the module leaves everything below the frame alone, branches included. */
  lemma OrdinaryTurn(p: Program, s: State, active: nat)
    requires s.frames != [] && Disciplined(p, s) && Top(s).ctrlBase <= |s.ctrl|
    requires !Returns(p, s) && !Calls(p, s) && After(Exec(p, s, active)).Some?
    ensures Within(s, After(Exec(p, s, active)).value)
  {
    SelfWithin(s);
    var i := Fetch(p, s).value;
    assert Fetch(p, s) == Some(i);
    hide ExecControl, ExecGrow, ExecAccess, ExecPlain, ExecCall, Within, Fetch;
    if IsControl(i) { ControlWithin(s, active, i); }
    else if IsMemory(i) { MemoryWithin(p, s, active, i); }
    else if Fast(p, i) { FastWithin(p, s, active, i); }
    else if i.Call? || i.CallIndirect? {
      var (s1, callee) := Called(p, i, s).value;
      HostWithin(p, s, s1, active, callee);
    } else { PlainWithin(p, s, active, i); }
  }

  lemma FastWithin(p: Program, s: State, active: nat, i: Instr)
    requires s.frames != [] && Within(s, s) && Fast(p, i) && Top(s).vspBase + ParamsOf(p, i.callee) <= |s.stack|
    requires ExecFast(p, s, active, i.callee - p.imports).Next?
    ensures Within(s, ExecFast(p, s, active, i.callee - p.imports).s)
  {
    hide Within, Replace;
    var f := p.funcs[i.callee - p.imports];
    var out := if f.results > 0 then [p.native(i.callee - p.imports, LocalsArray(s, f.params))] else [];
    ReplaceWithin(s, s, active, f.params, out);
  }

  lemma HostWithin(p: Program, s: State, s1: State, active: nat, callee: nat)
    requires s.frames != [] && callee < p.imports && Within(s, s) && (s1 == s || (s.stack != [] && s1 == Popped(s)))
    requires After(ExecCall(p, s1, active, callee)).Some?
    requires var base := Top(s).vspBase;
             var h := p.host(callee, s1.stack, s1.mem);
             base <= |h.stack| && base <= |s1.stack| && h.stack[..base] == s1.stack[..base]
    ensures Within(s, After(ExecCall(p, s1, active, callee)).value)
  {
    assert s1.stack[..Top(s).vspBase] == s.stack[..Top(s).vspBase];
  }

  /** The frame discipline holds over every disciplined run: bases stay sorted. */
  lemma TurnSorted(p: Program, s: State, active: nat)
    requires s.frames != [] && Disciplined(p, s) && Sorted(s) && After(Exec(p, s, active)).Some?
    ensures Sorted(After(Exec(p, s, active)).value)
  {
    assert Top(s).ctrlBase <= |s.ctrl|;
    hide Exec, Calls, Within, Sorted, Fetch, Returning;
    var s' := After(Exec(p, s, active)).value;
    if Returns(p, s) {
      ReturnTurn(p, s, active);
    } else if Calls(p, s) {
      CallTurn(p, s, active);
    } else {
      OrdinaryTurn(p, s, active);
      WithinSorted(s, s');
    }
  }

  lemma WithinSorted(s: State, s': State)
    requires s.frames != [] && Within(s, s') && Sorted(s)
    ensures Sorted(s')
  {
    var d := |s.frames| - 1;
    assert forall i :: 0 <= i < d ==> s'.frames[i] == s'.frames[..d][i] && s.frames[i] == s.frames[..d][i];
  }

  /** Every way of returning, branches with a popped condition included, collapses the stack to prefix and results. */
  lemma ReturnTurn(p: Program, s: State, active: nat)
    requires s.frames != [] && Returns(p, s) && CanReturn(Returning(p, s).value) && Sorted(s)
    ensures After(Exec(p, s, active)) == Some(DoReturn(Returning(p, s).value))
    ensures Sorted(DoReturn(Returning(p, s).value))
  {
    hide ExecControl, ExecGrow, ExecAccess, ExecPlain, ExecCall, Returning;
    var r := Returning(p, s).value;
    var s', f := DoReturn(r), Top(s);
    assert Top(r) == f && |s'.stack| == f.vspBase + f.resultCount;
    if s'.frames != [] { assert Top(s') == s.frames[|s.frames| - 2]; }
  }

  lemma CallTurn(p: Program, s: State, active: nat)
    requires s.frames != [] && Disciplined(p, s) && Calls(p, s) && Sorted(s) && After(Exec(p, s, active)).Some?
    ensures var (base, callee) := CallBase(p, s);
            && callee < |p.funcs| && base <= |s.stack|
            && var f, s' := p.funcs[callee], After(Exec(p, s, active)).value;
               && Sorted(s') && s'.stack == s.stack[..base]
               && |s'.frames| == |s.frames| + 1 && s'.frames[..|s.frames|] == Advance(s).frames
               && Top(s').vspBase == base && Top(s').ctrlBase == |s.ctrl| && s'.ctrl == s.ctrl
               && Top(s').resultCount == f.results && Top(s).vspBase <= base
  {
    var (s1, callee) := Called(p, Fetch(p, s).value, s).value;
    assert Exec(p, s, active) == ExecCall(p, s1, active, callee) by {
      hide ExecControl, ExecGrow, ExecAccess, ExecPlain, Returning, Fetch, ExecCall, Disciplined, Sorted;
    }
    assert s1.frames == s.frames && s1.ctrl == s.ctrl && ParamsOf(p, callee) <= |s1.stack|;
    assert Top(s).vspBase + ParamsOf(p, callee) <= |s1.stack|;
    var base := CallBase(p, s).0;
    assert s1.stack[..base] == s.stack[..base];
    hide Exec, Disciplined, Fetch, Called, Calls, CallBase, Sorted, PushFrame;
    var f := p.funcs[callee - p.imports];
    var s2 := PushFrame(Advance(s1), callee - p.imports, f).s;
    PushSorted(s, s1, callee - p.imports, f, s2);
  }

  /** A pushed frame stands on its parameters and on the current control depth. */
  lemma PushSorted(s: State, s1: State, func: nat, f: Func, s2: State)
    requires s.frames != [] && Sorted(s) && s1.frames == s.frames && s1.ctrl == s.ctrl
    requires Top(s).vspBase + f.params <= |s1.stack|
    requires PushFrame(Advance(s1), func, f).Next? && PushFrame(Advance(s1), func, f).s == s2
    ensures var base := |s1.stack| - f.params;
            && Sorted(s2) && s2.stack == s1.stack[..base] && s2.ctrl == s.ctrl
            && |s2.frames| == |s.frames| + 1 && s2.frames[..|s.frames|] == Advance(s).frames
            && Top(s2).vspBase == base && Top(s2).ctrlBase == |s.ctrl| && Top(s2).resultCount == f.results
  {
    var d := |s.frames|;
    assert Advance(s1).frames == Advance(s).frames;
    assert s2.frames == Advance(s).frames + [s2.frames[d]];
    assert forall i :: 0 <= i < d ==>
      s2.frames[i].vspBase == s.frames[i].vspBase && s2.frames[i].ctrlBase == s.frames[i].ctrlBase;
  }

  // ---- calls are isolated ------------------------------------------------------------------------------------

  ghost predicate Turn(p: Program, s: State, s': State) {
    s.frames != [] && Disciplined(p, s) && After(Exec(p, s, ActiveBytes(s))) == Some(s')
  }

  /** A disciplined run, yields included: consecutive states of the loop. */
  ghost predicate Run(p: Program, ss: seq<State>) {
    ss != [] && forall i :: 0 <= i < |ss| - 1 ==> Turn(p, ss[i], ss[i + 1])
  }

  /** Somewhere inside the call that `caller` makes, at any depth. */
  ghost predicate Inside(caller: State, base: nat, results: nat, s: State)
    requires caller.frames != []
  {
    var d := |caller.frames|;
    && |s.frames| > d && s.frames[..d] == Advance(caller).frames
    && s.frames[d].vspBase == base && s.frames[d].ctrlBase == |caller.ctrl| && s.frames[d].resultCount == results
    && base <= |s.stack| && base <= |caller.stack| && s.stack[..base] == caller.stack[..base]
    && |caller.ctrl| <= |s.ctrl| && s.ctrl[..|caller.ctrl|] == caller.ctrl
    && Sorted(s)
  }

  /** The call is over: results on the untouched prefix, everything else as the caller left it. */
  ghost predicate Back(caller: State, base: nat, results: seq<Word>, s: State)
    requires caller.frames != []
  {
    && base <= |caller.stack| && s.stack == caller.stack[..base] + results
    && s.frames == Advance(caller).frames && s.ctrl == caller.ctrl
  }

  lemma InsideWithin(caller: State, base: nat, results: nat, s: State, s': State)
    requires caller.frames != [] && Inside(caller, base, results, s) && Within(s, s') && Sorted(s')
    ensures Inside(caller, base, results, s')
  {
    var d, t, u := |caller.frames|, Top(s).vspBase, Top(s).ctrlBase;
    assert base <= t && |caller.ctrl| <= u;
    assert s'.frames[..d] == s'.frames[..|s.frames| - 1][..d] == s.frames[..|s.frames| - 1][..d] == s.frames[..d];
    Prefix(s.stack, s'.stack, t, base);
    Prefix(s.ctrl, s'.ctrl, u, |caller.ctrl|);
    if |s.frames| - 1 > d {
      assert s'.frames[d] == s'.frames[..|s.frames| - 1][d] == s.frames[..|s.frames| - 1][d] == s.frames[d];
    }
  }

  lemma Prefix<T>(a: seq<T>, b: seq<T>, n: nat, k: nat)
    requires k <= n <= |a| && n <= |b| && a[..n] == b[..n]
    ensures a[..k] == b[..k]
  {
    assert a[..n][..k] == a[..k] && b[..n][..k] == b[..k];
  }

  lemma InsideCall(p: Program, caller: State, base: nat, results: nat, s: State, s': State)
    requires caller.frames != [] && Inside(caller, base, results, s) && Turn(p, s, s') && Calls(p, s)
    ensures Inside(caller, base, results, s')
  {
    CallTurn(p, s, ActiveBytes(s));
    hide Exec, Disciplined, Calls, Fetch, Called;
    var d, m := |caller.frames|, |s.frames|;
    assert s'.frames[..d] == s'.frames[..m][..d] == Advance(s).frames[..d];
    if m - 1 > d { assert Advance(s).frames[d] == s.frames[d]; }
    assert s'.frames[d] == s'.frames[..m][d] == Advance(s).frames[d];
    if m - 1 >= d { assert Advance(s).frames[..d] == s.frames[..d]; }
    assert base <= Top(s).vspBase <= Top(s').vspBase;
    assert s'.stack[..base] == s.stack[..base];
  }

  lemma InsideReturn(p: Program, caller: State, base: nat, results: nat, s: State, s': State)
    requires caller.frames != [] && Inside(caller, base, results, s) && Turn(p, s, s') && Returns(p, s)
    ensures var last := Returning(p, s).value.stack;
            |s.frames| == |caller.frames| + 1 ==>
              results <= |last| && Back(caller, base, last[|last| - results..], s')
    ensures |s.frames| > |caller.frames| + 1 ==> Inside(caller, base, results, s')
  {
    ReturnTurn(p, s, ActiveBytes(s));
    hide Exec, Returning, Fetch;
    var r, d, t := Returning(p, s).value, |caller.frames|, Top(s).vspBase;
    assert Top(r) == Top(s) && s' == DoReturn(r);
    assert s.frames[d].vspBase <= t && s.frames[d].ctrlBase <= Top(s).ctrlBase;
    assert r.stack[..t] == s.stack[..t];
    if |s.frames| > d + 1 {
      assert s'.frames[..d] == s.frames[..d];
      assert s'.stack[..base] == r.stack[..t][..base] == s.stack[..base];
      assert s'.ctrl[..|caller.ctrl|] == s.ctrl[..|caller.ctrl|];
    }
  }

  /** The values on the stack when the turn returns; a branch has popped its condition. */
  function Leaving(p: Program, s: State): seq<Word>
    requires s.frames != []
  {
    if Returns(p, s) then Returning(p, s).value.stack else []
  }

  /** One turn inside a call either stays inside it or returns from it. */
  lemma InsideTurn(p: Program, caller: State, base: nat, results: nat, s: State, s': State)
    requires caller.frames != [] && Inside(caller, base, results, s) && Turn(p, s, s')
    ensures var last := Leaving(p, s);
            Returns(p, s) && |s.frames| == |caller.frames| + 1 ==>
              && results <= |last| && Back(caller, base, last[|last| - results..], s')
              && |s'.frames| == |caller.frames|
    ensures !(Returns(p, s) && |s.frames| == |caller.frames| + 1) ==>
              Inside(caller, base, results, s') && |s'.frames| > |caller.frames|
  {
    assert Sorted(s) && Top(s).ctrlBase <= |s.ctrl|;
    hide Exec, Disciplined, Inside, Calls, Returns, Back, Within;
    if Returns(p, s) {
      InsideReturn(p, caller, base, results, s, s');
      InsideDepth(caller, base, results, s);
      if |s.frames| == |caller.frames| + 1 {
        BackDepth(caller, base, Leaving(p, s)[|Leaving(p, s)| - results..], s');
      } else {
        InsideDepth(caller, base, results, s');
      }
    } else {
      if Calls(p, s) {
        InsideCall(p, caller, base, results, s, s');
      } else {
        OrdinaryTurn(p, s, ActiveBytes(s));
        WithinSorted(s, s');
        InsideWithin(caller, base, results, s, s');
      }
      InsideDepth(caller, base, results, s');
    }
  }

  lemma InsideDepth(caller: State, base: nat, results: nat, s: State)
    requires caller.frames != [] && Inside(caller, base, results, s)
    ensures |s.frames| > |caller.frames|
  {
  }

  /** From the call to just before its return, everything of the caller is untouched. */
  lemma {:induction false} InsideRun(p: Program, ss: seq<State>, k: nat, base: nat, results: nat)
    requires Run(p, ss) && 1 <= k < |ss| && ss[0].frames != []
    requires Inside(ss[0], base, results, ss[1])
    requires forall i :: 1 <= i <= k ==> |ss[i].frames| > |ss[0].frames|
    ensures Inside(ss[0], base, results, ss[k])
  {
    hide Inside, Turn;
    if k > 1 {
      InsideRun(p, ss, k - 1, base, results);
      assert Turn(p, ss[k - 1], ss[k - 1 + 1]);
      assert Turn(p, ss[k - 1], ss[k]);
      assert ss[k - 1].frames != [] by { InsideDepth(ss[0], base, results, ss[k - 1]); }
      InsideTurn(p, ss[0], base, results, ss[k - 1], ss[k]);
    }
  }

  lemma BackDepth(caller: State, base: nat, results: seq<Word>, s: State)
    requires caller.frames != [] && Back(caller, base, results, s)
    ensures |s.frames| == |caller.frames|
  {
  }

  /** Call/return isolation. For every disciplined run from a direct or indirect call to the return that brings the
      depth back, with any control flow, nested calls and yields between: the caller's stack is its prefix below the
      arguments followed by exactly the results the callee left on top, and frames, locals and control stack are the
      caller's. */
  lemma CallIsolated(p: Program, ss: seq<State>)
    requires Run(p, ss) && |ss| >= 3 && ss[0].frames != [] && Calls(p, ss[0]) && Sorted(ss[0])
    requires forall i :: 1 <= i < |ss| - 1 ==> |ss[i].frames| > |ss[0].frames|
    requires |ss[|ss| - 1].frames| <= |ss[0].frames|
    ensures var (base, callee) := CallBase(p, ss[0]);
            && callee < |p.funcs| && ss[|ss| - 2].frames != []
            && var last, results := Leaving(p, ss[|ss| - 2]), p.funcs[callee].results;
               results <= |last| && Back(ss[0], base, last[|last| - results..], ss[|ss| - 1])
  {
    var n := |ss| - 1;
    assert Turn(p, ss[0], ss[0 + 1]);
    CallTurn(p, ss[0], ActiveBytes(ss[0]));
    var (base, callee) := CallBase(p, ss[0]);
    var results := p.funcs[callee].results;
    assert Inside(ss[0], base, results, ss[1]);
    hide Inside, Turn, Calls, Fetch, Back, Leaving, CallBase;
    InsideRun(p, ss, n - 1, base, results);
    assert Turn(p, ss[n - 1], ss[n - 1 + 1]);
    InsideDepth(ss[0], base, results, ss[n - 1]);
    InsideTurn(p, ss[0], base, results, ss[n - 1], ss[n]);
  }

  /** Frame bases stay sorted at every moment of a disciplined run. */
  lemma {:induction false} RunSorted(p: Program, ss: seq<State>, k: nat)
    requires Run(p, ss) && k < |ss| && Sorted(ss[0])
    ensures Sorted(ss[k])
  {
    hide Sorted, Exec, Disciplined;
    if k > 0 {
      RunSorted(p, ss, k - 1);
      assert Turn(p, ss[k - 1], ss[k - 1 + 1]);
      TurnSorted(p, ss[k - 1], ActiveBytes(ss[k - 1]));
    }
  }

  // ---- memory ------------------------------------------------------------------------------------------------

  /** Memory from the current size on: new pages are zero, everything above them is as it was. */
  ghost predicate Confined(s: State, s': State) {
    && |s'.mem| == |s.mem| && s.pages <= s'.pages
    && (forall k :: ActiveBytes(s) <= k < ActiveBytes(s') && k < |s.mem| ==> s'.mem[k] == 0)
    && (forall k :: ActiveBytes(s') <= k < |s.mem| ==> s'.mem[k] == s.mem[k])
  }

  lemma SameConfined(s: State, s': State)
    requires s'.mem == s.mem && s'.pages == s.pages
    ensures Confined(s, s')
  {
  }

  lemma WrittenConfined(s: State, at: nat, bytes: seq<byte>)
    requires at + |bytes| <= ActiveBytes(s) && at + |bytes| <= |s.mem|
    ensures Confined(s, Written(s, at, bytes))
  {
  }

  lemma GrownConfined(s: State, delta: nat)
    requires (s.pages + delta) * PAGE_SIZE <= |s.mem|
    ensures Confined(s, Grown(s, delta))
  {
  }

  /** Every access, bulk ones included, stays below the size it is checked against. */
  lemma AccessedConfined(s: State, i: Instr)
    requires IsMemory(i) && !i.MemoryGrow? && Pops(i) <= |s.stack|
    requires InBounds(s, ActiveBytes(s), i) && InBounds(s, |s.mem|, i)
    ensures Confined(s, Accessed(s, i).0)
  {
    hide Confined, Written, Extended, FromLe, ToLe, Filled;
    var n := |s.stack|;
    if i.Store? {
      var ea: nat := s.stack[n - 2] % TWO32 + i.offset;
      WrittenConfined(s, ea, ToLe(s.stack[n - 1], i.width));
    } else if i.MemoryCopy? {
      WrittenConfined(s, s.stack[n - 3], s.mem[s.stack[n - 2]..s.stack[n - 2] as int + s.stack[n - 1]]);
    } else if i.MemoryFill? {
      WrittenConfined(s, s.stack[n - 3], Filled(s.stack[n - 1], s.stack[n - 2] % 256));
    } else {
      SameConfined(s, s);
    }
  }

  lemma ReplaceConfined(s: State, s1: State, active: nat, pops: nat, pushes: seq<Word>)
    requires s1.frames != [] && Confined(s, s1) && Replace(s1, active, pops, pushes).Next?
    ensures Confined(s, Replace(s1, active, pops, pushes).s)
  {
  }

  lemma GrowConfined(p: Program, s: State)
    requires s.frames != [] && ExecGrow(p, s, ActiveBytes(s)).Next?
    ensures Confined(s, ExecGrow(p, s, ActiveBytes(s)).s)
  {
    hide Replace, Confined, Grown;
    var delta: nat := TopValue(s) % TWO32;
    if s.pages + delta <= p.maxPages {
      GrownConfined(s, delta);
      ReplaceConfined(s, Grown(s, delta), (s.pages + delta) * PAGE_SIZE, 1, [ToWord(s.pages)]);
    } else {
      SameConfined(s, s);
      ReplaceConfined(s, s, ActiveBytes(s), 1, [ToWord(-1)]);
    }
  }

  lemma AccessConfined(s: State, i: Instr)
    requires s.frames != [] && IsMemory(i) && !i.MemoryGrow? && ExecAccess(s, ActiveBytes(s), i).Next?
    ensures Confined(s, ExecAccess(s, ActiveBytes(s), i).s)
  {
    hide Replace, Confined, Accessed, InBounds;
    AccessedConfined(s, i);
    ReplaceConfined(s, Accessed(s, i).0, ActiveBytes(s), Pops(i), Accessed(s, i).1);
  }

  /** Whether the turn calls a host function. */
  predicate CallsHost(p: Program, s: State)
    requires s.frames != []
  {
    !Returns(p, s) && Fetch(p, s).Some? && Called(p, Fetch(p, s).value, s).Some?
    && Called(p, Fetch(p, s).value, s).value.1 < p.imports
  }

  /** Except through host functions, a turn never touches memory above the current size; pages that `memory.grow`
      adds come in zeroed. */
  lemma GuestConfined(p: Program, s: State)
    requires s.frames != [] && After(Exec(p, s, ActiveBytes(s))).Some? && !CallsHost(p, s)
    ensures Confined(s, After(Exec(p, s, ActiveBytes(s))).value)
  {
    hide ExecGrow, ExecAccess, ExecControl, ExecPlain, Fetch, Returning, Confined, PushFrame;
    var s' := After(Exec(p, s, ActiveBytes(s))).value;
    if Returns(p, s) || !IsMemory(Fetch(p, s).value) {
      if Calls(p, s) { ModuleCallMemory(p, s); }
      SameConfined(s, s');
    } else if Fetch(p, s).value.MemoryGrow? {
      GrowConfined(p, s);
    } else {
      AccessConfined(s, Fetch(p, s).value);
    }
  }

  lemma ModuleCallMemory(p: Program, s: State)
    requires s.frames != [] && Calls(p, s) && After(Exec(p, s, ActiveBytes(s))).Some?
    ensures var s' := After(Exec(p, s, ActiveBytes(s))).value; s'.mem == s.mem && s'.pages == s.pages
  {
    hide ExecGrow, ExecAccess, ExecControl, ExecPlain, Fetch, Returning;
  }
}
