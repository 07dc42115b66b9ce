/** The run loop over decoded instructions against the byte-level interpreter step that the compiler is proved
    against: wherever the byte step is defined, both do the same. */
module MachineBytes {
  import opened Words
  import opened Leb128
  import opened Opcode
  import opened Machine
  import E = Emitter
  import B = Bytes
  import C = JitCompile
  import J = JitCorrect
  import Y = MemoryBytes

  /** The decoded form of an assembled instruction, for those both interpreters know. */
  function Decoded(i: E.Instr): Option<Instr> {
    match i
    case Simple(op) =>
      if op == NOP then Some(Nop)
      else if op == DROP then Some(Drop)
      else if KnownOp(op) then Some(Alu(op))
      else None
    case Indexed(op, n) =>
      if op == LOCAL_GET then Some(LocalGet(n))
      else if op == LOCAL_SET then Some(LocalSet(n))
      else if op == LOCAL_TEE then Some(LocalTee(n))
      else None
    case Const(op, v) =>
      if (op == I32_CONST || op == I64_CONST) && -TWO31 <= v < TWO31 then Some(Const(ToWord(v))) else None
    case Memory(op, _, offset) => Y.MemoryOp(op, offset)
    case _ => None
  }

  /** The binary operations that the byte-level step knows. */
  predicate KnownOp(op: byte) {
    C.AluOf(op).Some? || C.ShiftOf(op).Some?
  }

  /** The program computes these as the interpreter does; of the other operations nothing is said. */
  ghost predicate Numeric(p: Program) {
    forall op, a, b :: KnownOp(op) ==> p.alu(op, a, b) == Some(J.BinaryWord(J.Narrow, op, a, b))
  }

  /** The part of a state that the current function sees. */
  function FrameOf(s: State): J.Frame
    requires s.frames != [] && Top(s).vspBase <= |s.stack|
  {
    J.Frame(s.stack[Top(s).vspBase..], Top(s).locals)
  }

  /** `s'` is `s` after one instruction that turned the visible frame into `g`. */
  ghost predicate Becomes(s: State, s': State, g: J.Frame)
    requires s.frames != [] && Top(s).vspBase <= |s.stack|
  {
    && s' == WithTop(s, Top(s).(pc := Top(s).pc + 1, locals := g.locals)).(stack := s.stack[..Top(s).vspBase] + g.stack)
  }

  /** What the byte step does at an instruction both know. */
  function StepOf(i: Instr, f: J.Frame, room: nat): Option<J.Frame> {
    var d := |f.stack|;
    match i
    case Nop => Some(f)
    case Drop => if d > 0 then Some(f.(stack := f.stack[..d - 1])) else None
    case Alu(op) =>
      if d < 2 then None
      else Some(f.(stack := f.stack[..d - 2] + [J.BinaryWord(J.Narrow, op, f.stack[d - 2], f.stack[d - 1])]))
    case LocalGet(n) => if n < |f.locals| && d < room then Some(f.(stack := f.stack + [f.locals[n]])) else None
    case LocalSet(n) =>
      if n < |f.locals| && d > 0 then Some(J.Frame(f.stack[..d - 1], f.locals[n := f.stack[d - 1]])) else None
    case LocalTee(n) => if n < |f.locals| && d > 0 then Some(f.(locals := f.locals[n := f.stack[d - 1]])) else None
    case Const(v) => if d < room then Some(f.(stack := f.stack + [v])) else None
    case _ => None
  }

  function StepAt(i: E.Instr, f: J.Frame, room: nat): Option<J.Frame>
    requires Decoded(i).Some?
  {
    StepOf(Decoded(i).value, f, room)
  }

  lemma SimpleBytes(body: seq<byte>, pc: nat, op: byte, f: J.Frame, room: nat)
    requires B.At(body, pc, E.InstrBytes(E.Simple(op))) && Decoded(E.Simple(op)).Some?
    ensures pc < |body|
    ensures J.StepOp(J.Narrow, body, pc, f, room)
            == match StepAt(E.Simple(op), f, room) case None => None case Some(g) => Some((g, pc + 1))
  {
    B.AtOne(body, pc, op);
    hide ReadI32, ReadU32, ReadI64, J.Arithmetic, J.Shifted;
  }

  lemma U32At(body: seq<byte>, cur: nat, n: u32)
    requires B.At(body, cur, WriteU32(n))
    ensures cur <= |body| && ReadU32(body[cur..]) == Some((n, |WriteU32(n)|))
  {
    hide WriteU32, ReadU32;
    var rest := body[cur + |WriteU32(n)|..];
    assert body[cur..] == WriteU32(n) + rest;
    U32RoundTrip(n, rest);
  }

  lemma I32At(body: seq<byte>, cur: nat, v: int)
    requires -TWO31 <= v < TWO31 && B.At(body, cur, WriteI32(v))
    ensures cur <= |body| && ReadI32(body[cur..]) == Some((v, |WriteI32(v)|))
    ensures ReadI64(body[cur..]) == Some((ToWord(v), |WriteI32(v)|))
  {
    hide WriteI32, ReadI32, ReadI64;
    var rest := body[cur + |WriteI32(v)|..];
    assert body[cur..] == WriteI32(v) + rest;
    I32RoundTrip(v, rest);
  }

  lemma IndexedBytes(body: seq<byte>, pc: nat, op: byte, n: u32, f: J.Frame, room: nat)
    requires B.At(body, pc, [op] + WriteU32(n)) && Decoded(E.Indexed(op, n)).Some?
    ensures pc < |body|
    ensures J.StepOp(J.Narrow, body, pc, f, room)
            == match StepAt(E.Indexed(op, n), f, room)
               case None => None
               case Some(g) => Some((g, pc + 1 + |WriteU32(n)|))
  {
    hide *;
    B.AtSplit(body, pc, [op], WriteU32(n));
    B.AtOne(body, pc, op);
    U32At(body, pc + 1, n);
    IndexedStep(body, pc, n, |WriteU32(n)|, f, room);
  }

  lemma IndexedStep(body: seq<byte>, pc: nat, n: u32, k: nat, f: J.Frame, room: nat)
    requires pc < |body| && ReadU32(body[pc + 1..]) == Some((n, k)) && Decoded(E.Indexed(body[pc], n)).Some?
    ensures J.StepOp(J.Narrow, body, pc, f, room)
            == match StepAt(E.Indexed(body[pc], n), f, room) case None => None case Some(g) => Some((g, pc + 1 + k))
  {
    hide ReadI32, ReadU32, ReadI64, J.Arithmetic, J.Shifted, J.BinaryWord;
  }

  lemma ConstBytes(body: seq<byte>, pc: nat, op: byte, v: int, f: J.Frame, room: nat)
    requires B.At(body, pc, [op] + WriteI32(v)) && Decoded(E.Const(op, v)).Some? && -TWO31 <= v < TWO31
    ensures pc < |body|
    ensures J.StepOp(J.Narrow, body, pc, f, room)
            == match StepAt(E.Const(op, v), f, room)
               case None => None
               case Some(g) => Some((g, pc + 1 + |WriteI32(v)|))
  {
    hide *;
    B.AtSplit(body, pc, [op], WriteI32(v));
    B.AtOne(body, pc, op);
    I32At(body, pc + 1, v);
    ConstStep(body, pc, v, |WriteI32(v)|, f, room);
  }

  lemma ConstStep(body: seq<byte>, pc: nat, v: int, k: nat, f: J.Frame, room: nat)
    requires pc < |body| && Decoded(E.Const(body[pc], v)).Some?
    requires ReadI32(body[pc + 1..]) == Some((v, k)) && ReadI64(body[pc + 1..]) == Some((ToWord(v), k))
    ensures J.StepOp(J.Narrow, body, pc, f, room)
            == match StepAt(E.Const(body[pc], v), f, room) case None => None case Some(g) => Some((g, pc + 1 + k))
  {
    hide ReadI32, ReadU32, ReadI64, J.Arithmetic, J.Shifted, J.BinaryWord;
  }

  /** Memory is not part of the byte step that the compiler is proved against. */
  lemma NoStep(body: seq<byte>, pc: nat, op: byte, align: u32, offset: u32, f: J.Frame, room: nat)
    requires B.At(body, pc, E.InstrBytes(E.Memory(op, align, offset))) && Y.MemoryOp(op, offset).Some?
    ensures pc < |body| && J.StepOp(J.Narrow, body, pc, f, room).None?
    ensures StepAt(E.Memory(op, align, offset), f, room).None?
  {
    hide B.At, ReadI32, ReadU32, ReadI64, J.Arithmetic, J.Shifted, Y.ReadMemArg, E.InstrBytes;
    Y.MemArgAt(body, pc, op, align, offset);
  }

  /** The byte step at an assembled instruction, wherever it stands. */
  lemma BytesStep(body: seq<byte>, pc: nat, i: E.Instr, f: J.Frame, room: nat)
    requires B.At(body, pc, E.InstrBytes(i)) && Decoded(i).Some?
    ensures pc < |body|
    ensures J.StepOp(J.Narrow, body, pc, f, room)
            == match StepAt(i, f, room) case None => None case Some(g) => Some((g, pc + |E.InstrBytes(i)|))
  {
    hide J.StepOp, StepAt, StepOf, B.At, WriteU32, WriteI32;
    match i
    case Simple(op) => SimpleBytes(body, pc, op, f, room);
    case Indexed(op, n) => IndexedBytes(body, pc, op, n, f, room);
    case Const(op, v) => ConstBytes(body, pc, op, v, f, room);
    case Memory(op, align, offset) => NoStep(body, pc, op, align, offset, f, room);
  }

  /** The ordinary end of an instruction, seen from the frame. */
  lemma ReplaceBecomes(s: State, locals: seq<Word>, active: nat, pops: nat, pushes: seq<Word>, g: J.Frame)
    requires s.frames != [] && Top(s).vspBase + pops <= |s.stack| && |s.stack| - pops + |pushes| <= STACK_DEPTH
    requires g.locals == locals && g.stack == s.stack[Top(s).vspBase..|s.stack| - pops] + pushes
    ensures var o := Replace(WithTop(s, Top(s).(locals := locals)), active, pops, pushes);
            o.Next? && o.active == active && Becomes(s, o.s, g)
  {
    var base, k := Top(s).vspBase, |s.stack| - pops;
    assert s.stack[..k] == s.stack[..base] + s.stack[base..k];
    assert s.stack[..k] + pushes == s.stack[..base] + g.stack;
    var s1 := WithTop(s, Top(s).(locals := locals));
    assert Top(s1) == Top(s).(locals := locals);
    assert s1.frames[|s.frames| - 1 := Top(s1).(pc := Top(s).pc + 1)]
           == s.frames[|s.frames| - 1 := Top(s).(pc := Top(s).pc + 1, locals := locals)];
  }

  lemma SameTop(s: State)
    requires s.frames != []
    ensures WithTop(s, Top(s).(locals := Top(s).locals)) == s
  {
    assert s.frames[|s.frames| - 1 := Top(s)] == s.frames;
  }

  /** Values taken, values left and locals afterwards, for the instructions both know. */
  function EffectOf(i: Instr, f: J.Frame): (nat, seq<Word>, seq<Word>) {
    var d := |f.stack|;
    match i
    case Drop => (1, [], f.locals)
    case Alu(op) => (2, [if d >= 2 then J.BinaryWord(J.Narrow, op, f.stack[d - 2], f.stack[d - 1]) else 0], f.locals)
    case LocalGet(n) => (0, [if n < |f.locals| then f.locals[n] else 0], f.locals)
    case LocalSet(n) => (1, [], if n < |f.locals| && d > 0 then f.locals[n := f.stack[d - 1]] else f.locals)
    case LocalTee(n) => (0, [], if n < |f.locals| && d > 0 then f.locals[n := f.stack[d - 1]] else f.locals)
    case Const(v) => (0, [v], f.locals)
    case _ => (0, [], f.locals)
  }

  lemma EffectIs(i: Instr, f: J.Frame, room: nat)
    requires StepOf(i, f, room).Some? && |f.stack| <= room
    ensures var (pops, pushes, locals) := EffectOf(i, f);
            var g := StepOf(i, f, room).value;
            && pops <= |f.stack| && |f.stack| - pops + |pushes| <= room
            && g.stack == f.stack[..|f.stack| - pops] + pushes && g.locals == locals
  {
    hide J.BinaryWord;
    var d := |f.stack|;
    match i
    case Drop => KeepAll(f.stack[..d - 1], []);
    case Alu(_) =>
    case LocalGet(n) => KeepAll(f.stack, [f.locals[n]]);
    case LocalSet(_) => KeepAll(f.stack[..d - 1], []);
    case Const(v) => KeepAll(f.stack, [v]);
    case _ => KeepAll(f.stack, []);
  }

  lemma KeepAll(s: seq<Word>, t: seq<Word>)
    ensures s[..|s|] + t == s + t && (t == [] ==> s + t == s)
  {
  }

  lemma ExecIsReplace(p: Program, s: State, active: nat, i: Instr)
    requires s.frames != [] && Top(s).vspBase <= |s.stack| <= STACK_DEPTH && Fetch(p, s) == Some(i)
    requires Numeric(p) && (i.Alu? ==> KnownOp(i.op))
    requires StepOf(i, FrameOf(s), STACK_DEPTH - Top(s).vspBase).Some?
    ensures var (pops, pushes, locals) := EffectOf(i, FrameOf(s));
            Exec(p, s, active) == Replace(WithTop(s, Top(s).(locals := locals)), active, pops, pushes)
  {
    hide J.BinaryWord, ExecPlain, Fetch, Replace, WithTop;
    assert !IsControl(i) && !IsMemory(i) && !i.Call? && !i.CallIndirect? && !i.Return?;
    ExecIsPlain(p, s, active, i);
    PlainIsReplace(p, s, active, i);
  }

  lemma ExecIsPlain(p: Program, s: State, active: nat, i: Instr)
    requires s.frames != [] && Fetch(p, s) == Some(i)
    requires !IsControl(i) && !IsMemory(i) && !i.Call? && !i.CallIndirect? && !i.Return?
    ensures Exec(p, s, active) == ExecPlain(p, s, active, i)
  {
    hide ExecPlain, ExecAccess, ExecGrow, ExecControl, ExecCall, Fetch;
  }

  lemma PlainIsReplace(p: Program, s: State, active: nat, i: Instr)
    requires s.frames != [] && Top(s).vspBase <= |s.stack|
    requires !IsControl(i) && !IsMemory(i) && !i.Call? && !i.CallIndirect? && !i.Return?
    requires Numeric(p) && (i.Alu? ==> KnownOp(i.op))
    requires StepOf(i, FrameOf(s), STACK_DEPTH - Min(Top(s).vspBase, STACK_DEPTH)).Some?
    ensures var (pops, pushes, locals) := EffectOf(i, FrameOf(s));
            ExecPlain(p, s, active, i) == Replace(WithTop(s, Top(s).(locals := locals)), active, pops, pushes)
  {
    hide J.BinaryWord, Replace, WithTop, ExecLocal;
    var n, f := |s.stack|, FrameOf(s);
    FrameTops(s);
    if i.LocalGet? || i.LocalSet? || i.LocalTee? {
      LocalIsReplace(s, active, i);
    } else {
      SameTop(s);
    }
  }

  lemma FrameTops(s: State)
    requires s.frames != [] && Top(s).vspBase <= |s.stack|
    ensures var n, f := |s.stack|, FrameOf(s);
            && (|f.stack| >= 1 ==> f.stack[|f.stack| - 1] == s.stack[n - 1])
            && (|f.stack| >= 2 ==> f.stack[|f.stack| - 2] == s.stack[n - 2])
            && |f.stack| <= n
  {
  }

  lemma LocalIsReplace(s: State, active: nat, i: Instr)
    requires s.frames != [] && Top(s).vspBase <= |s.stack| && (i.LocalGet? || i.LocalSet? || i.LocalTee?)
    requires i.local < |Top(s).locals| && (i.LocalGet? || Top(s).vspBase < |s.stack|)
    ensures var (pops, pushes, locals) := EffectOf(i, FrameOf(s));
            ExecLocal(s, active, i) == Replace(WithTop(s, Top(s).(locals := locals)), active, pops, pushes)
  {
    hide Replace, WithTop;
    FrameTops(s);
    SameTop(s);
  }

  /** The decoded loop makes the same step. */
  lemma MachineStep(p: Program, s: State, active: nat, i: Instr)
    requires s.frames != [] && Top(s).vspBase <= |s.stack| <= STACK_DEPTH && Fetch(p, s) == Some(i)
    requires Numeric(p) && (i.Alu? ==> KnownOp(i.op))
    requires StepOf(i, FrameOf(s), STACK_DEPTH - Top(s).vspBase).Some?
    ensures Exec(p, s, active).Next? && Exec(p, s, active).active == active
    ensures Becomes(s, Exec(p, s, active).s, StepOf(i, FrameOf(s), STACK_DEPTH - Top(s).vspBase).value)
  {
    hide Exec, Becomes, Replace, StepOf, EffectOf, J.BinaryWord, Fetch;
    var base, n, f := Top(s).vspBase, |s.stack|, FrameOf(s);
    var g := StepOf(i, f, STACK_DEPTH - base).value;
    var (pops, pushes, locals) := EffectOf(i, f);
    EffectIs(i, f, STACK_DEPTH - base);
    ExecIsReplace(p, s, active, i);
    assert f.stack[..|f.stack| - pops] == s.stack[base..n - pops];
    ReplaceBecomes(s, locals, active, pops, pushes, g);
  }

  lemma StepAtIs(p: Program, s: State, active: nat, i: E.Instr)
    requires s.frames != [] && Top(s).vspBase <= |s.stack| <= STACK_DEPTH
    requires Decoded(i).Some? && Fetch(p, s) == Decoded(i)
    requires Numeric(p)
    requires StepAt(i, FrameOf(s), STACK_DEPTH - Top(s).vspBase).Some?
    ensures Exec(p, s, active).Next?
    ensures Becomes(s, Exec(p, s, active).s, StepAt(i, FrameOf(s), STACK_DEPTH - Top(s).vspBase).value)
  {
    hide Exec, Becomes, StepOf, J.BinaryWord, Fetch;
    MachineStep(p, s, active, Decoded(i).value);
  }

  /** Both interpreters agree: where the byte-level step from the visible frame is defined, the decoded loop reaches the
      same visible frame, and the bytes passed are exactly the instruction's. A memory instruction does what its bytes
      say. */
  lemma InterpretersAgree(p: Program, s: State, active: nat, i: E.Instr, body: seq<byte>, pc: nat)
    requires s.frames != [] && Top(s).vspBase <= |s.stack| <= STACK_DEPTH
    requires Decoded(i).Some? && Fetch(p, s) == Decoded(i) && B.At(body, pc, E.InstrBytes(i))
    requires Numeric(p)
    ensures pc < |body|
    ensures var r := J.StepOp(J.Narrow, body, pc, FrameOf(s), STACK_DEPTH - Top(s).vspBase);
            r.Some? ==>
              && r.value.1 == pc + |E.InstrBytes(i)|
              && Exec(p, s, active).Next? && Becomes(s, Exec(p, s, active).s, r.value.0)
    ensures i.Memory? ==>
              var o, a := Exec(p, s, active), Y.ReadMemArg(body[pc + 1..]);
              var ea := Y.Address(body, pc, s.stack);
              && a.Some? && pc + 1 + a.value.1 == pc + |E.InstrBytes(i)|
              && (o.Next? <==> ea.Some? && ea.value + Y.Touched(body[pc]) <= active
                               && ea.value + Y.Touched(body[pc]) <= |s.mem|)
              && (o.Next? ==> Y.Accesses(body, pc, s.stack, s.mem, active, o.s.stack, o.s.mem)
                              && o == Next(Advance(s.(stack := o.s.stack, mem := o.s.mem)), active))
  {
    hide J.StepOp, StepAt, Exec, Becomes, J.BinaryWord, Y.MemoryOp, Y.Accesses, Y.Address, Y.Touched, Y.ReadMemArg,
         B.At, E.InstrBytes, Fetch;
    if i.Memory? {
      Y.MemArgAt(body, pc, i.op, i.align, i.offset);
      Y.AccessMeans(p, s, active, i.offset, body, pc);
    }
    var room := STACK_DEPTH - Top(s).vspBase;
    BytesStep(body, pc, i, FrameOf(s), room);
    if StepAt(i, FrameOf(s), room).Some? { StepAtIs(p, s, active, i); }
  }

  // ---- memory ------------------------------------------------------------------------------------------------

  lemma {:induction false} LeRoundTrip(v: nat, width: nat)
    ensures FromLe(ToLe(v, width)) == v % Pow256(width)
    decreases width
  {
    if width > 0 {
      var q := Pow256(width - 1);
      LeRoundTrip(v / 256, width - 1);
      assert ToLe(v, width)[1..] == ToLe(v / 256, width - 1);
      SplitByte(v, q);
    }
  }

  /** A low byte and the rest, modulo 256 q. */
  lemma SplitByte(v: nat, q: nat)
    requires q > 0
    ensures v % 256 + 256 * (v / 256 % q) == v % (256 * q)
  {
    var a, b := v / 256, v % 256;
    var r := b + 256 * (a % q);
    assert a == a / q * q + a % q;
    assert v == a / q * (256 * q) + r by { Regroup(a / q, q, a % q, b, v); }
    ModUnique(v, 256 * q, a / q, r);
  }

  lemma Regroup(k: nat, q: nat, m: nat, b: nat, v: nat)
    requires v == 256 * (k * q + m) + b
    ensures v == k * (256 * q) + (b + 256 * m)
  {
    assert k * (256 * q) == 256 * (k * q);
  }

  lemma WordExtension(v: Word)
    ensures Extended(v % Pow256(4), 4, true) == SignExtend32(v) && Extended(v % Pow256(8), 8, true) == v
  {
    assert Pow256(2) == 65536 && Pow256(4) == TWO32;
    assert Pow256(6) == 65536 * TWO32 && Pow256(8) == TWO64;
  }

  /** What a store puts into memory a load of the same width and address brings back: the low bytes of the value,
      extended, and nothing else in memory moved. For 32 bits that is the sign extension of the low half, for 64 bits
      the value itself. */
  lemma StoreThenLoad(p: Program, s: State, width: nat, signed: bool, offset: nat, s1: State, a1: nat, s2: State,
                      a2: nat)
    requires s.frames != [] && |s.stack| >= 3
    requires Fetch(p, s) == Some(Store(width, offset)) && Exec(p, s, ActiveBytes(s)) == Next(s1, a1)
    requires s1.frames != [] && Fetch(p, s1) == Some(Load(width, signed, offset)) && Exec(p, s1, a1) == Next(s2, a2)
    requires s.stack[|s.stack| - 3] == s.stack[|s.stack| - 2]
    ensures var n := |s.stack|;
            var v := s.stack[n - 1];
            && s2.stack == s.stack[..n - 3] + [Extended(v % Pow256(width), width, signed)]
            && (signed && width == 4 ==> s2.stack == s.stack[..n - 3] + [SignExtend32(v)])
            && (signed && width == 8 ==> s2.stack == s.stack[..n - 3] + [v])
            && var ea: nat := s.stack[n - 2] % TWO32 + offset;
               ea + width <= |s.mem| && s2.mem == s.mem[..ea] + ToLe(v, width) + s.mem[ea + width..]
  {
    hide Exec, Fetch, Extended, ToLe, FromLe, Pow256, SignExtend32, ActiveBytes;
    var n, v := |s.stack|, TopValue(s);
    var ea: nat := s.stack[n - 2] % TWO32 + offset;
    WordExtension(v);
    LeRoundTrip(v, width);
    StoreTurn(p, s, width, offset, s1, a1);
    LoadTurn(p, s1, a1, width, signed, offset, s2, a2);
    assert s1.mem[ea..ea + width] == ToLe(v, width);
    assert s1.stack[..n - 3] == s.stack[..n - 3];
  }

  lemma StoreTurn(p: Program, s: State, width: nat, offset: nat, s1: State, a1: nat)
    requires s.frames != [] && |s.stack| >= 2 && Fetch(p, s) == Some(Store(width, offset))
    requires Exec(p, s, ActiveBytes(s)) == Next(s1, a1)
    ensures var n := |s.stack|;
            var ea: nat := s.stack[n - 2] % TWO32 + offset;
            && s1.stack == s.stack[..n - 2] && ea + width <= |s.mem|
            && s1.mem == s.mem[..ea] + ToLe(s.stack[n - 1], width) + s.mem[ea + width..]
  {
    hide Fetch, ToLe;
    assert ExecAccess(s, ActiveBytes(s), Store(width, offset)) == Next(s1, a1);
  }

  lemma LoadTurn(p: Program, s: State, active: nat, width: nat, signed: bool, offset: nat, s1: State, a1: nat)
    requires s.frames != [] && |s.stack| >= 1 && Fetch(p, s) == Some(Load(width, signed, offset))
    requires Exec(p, s, active) == Next(s1, a1)
    ensures var n := |s.stack|;
            var ea: nat := s.stack[n - 1] % TWO32 + offset;
            && ea + width <= |s.mem| && s1.mem == s.mem
            && s1.stack == s.stack[..n - 1] + [Extended(FromLe(s.mem[ea..ea + width]), width, signed)]
  {
    hide Fetch, FromLe, Extended;
    assert ExecAccess(s, active, Load(width, signed, offset)) == Next(s1, a1);
  }
}
