/** The compiled code against a byte-level reading of the body.

    A reading is the dispatch loop of `interp.rs` restricted to one frame of straight-line code, with the
    value stack seen from the frame's base: popping below the base, overflowing `room` slots, or naming a
    local out of range stops it. The compiled code computes with 64-bit forms, so it is proved equal, word
    for word, to the `Wide` reading; JitAgree compares that with the interpreter's `Narrow` one. */
module JitCorrect {
  import opened Words
  import opened X86
  import opened CodeBuffer
  import opened Opcode
  import opened Leb128
  import opened JitCompile

  /** A frame: operands above `vsp_base`, and locals. */
  datatype Frame = Frame(stack: seq<Word>, locals: seq<Word>)

  /** The value the interpreter pushes for a 32-bit binary operation: `wrapping_*` on `i32`, then
      sign extension. */
  function I32Binary(op: AluOp, a: Word, b: Word): Word {
    match op
    case Add => SignExtend32(ToI32(a) + ToI32(b))
    case Sub => SignExtend32(ToI32(a) - ToI32(b))
    case Imul => SignExtend32(ToI32(a) * ToI32(b))
    case And => SignExtend32(Bitwise(BitAnd, Low32(a), Low32(b), 32))
    case Or => SignExtend32(Bitwise(BitOr, Low32(a), Low32(b), 32))
    case Xor => SignExtend32(Bitwise(BitXor, Low32(a), Low32(b), 32))
  }

  /** 32-bit shifts: the count is taken modulo 32, and `shr_u` pushes an unsigned value. */
  function I32Shift(op: ShiftOp, a: Word, b: Word): Word {
    var c := b % 32;
    match op
    case Shl => SignExtend32(ToI32(a) * Pow2(c))
    case Shr => DivBound(Low32(a), Pow2(c)); Low32(a) / Pow2(c)
    case Sar => SignExtend32(ToI32(a) / Pow2(c))
  }

  /** Two readings of the same bytes: the interpreter's 32-bit arithmetic, and the 64-bit operations that the compiler
      emits, with shift counts taken modulo 64. */
  datatype Mode = Narrow | Wide

  function Arithmetic(m: Mode, op: AluOp, a: Word, b: Word): Word {
    if m.Wide? then AluResult(op, a, b) else I32Binary(op, a, b)
  }

  function Shifted(m: Mode, op: ShiftOp, a: Word, b: Word): Word {
    if m.Wide? then ShiftResult(op, a, b) else I32Shift(op, a, b)
  }

  function BinaryWord(m: Mode, op: byte, a: Word, b: Word): Word {
    if AluOf(op).Some? then Arithmetic(m, AluOf(op).value, a, b)
    else if ShiftOf(op).Some? then Shifted(m, ShiftOf(op).value, a, b)
    else 0
  }

  /** One instruction that does not end the function: the new frame and position, or `None` where the
      interpreter traps or would touch the caller's operands. */
  function StepOp(m: Mode, body: seq<byte>, pc: nat, f: Frame, room: nat): (r: Option<(Frame, nat)>)
    requires pc < |body|
    ensures r.Some? ==> pc < r.value.1 <= |body|
  {
    var op := body[pc];
    var operand := body[pc + 1..];
    var d := |f.stack|;
    if op == I32_CONST then
      match ReadI32(operand)
      case None => None
      case Some((v, n)) =>
        if d < room then Some((f.(stack := f.stack + [ToWord(v)]), pc + 1 + n)) else None
    else if op == I64_CONST then
      match ReadI64(operand)
      case None => None
      case Some((v, n)) =>
        if d < room then Some((f.(stack := f.stack + [v]), pc + 1 + n)) else None
    else if op == LOCAL_GET then
      match ReadU32(operand)
      case None => None
      case Some((idx, n)) =>
        if idx < |f.locals| && d < room then
          Some((f.(stack := f.stack + [f.locals[idx]]), pc + 1 + n))
        else None
    else if op == LOCAL_SET then
      match ReadU32(operand)
      case None => None
      case Some((idx, n)) =>
        if idx < |f.locals| && d > 0 then
          Some((Frame(f.stack[..d - 1], f.locals[idx := f.stack[d - 1]]), pc + 1 + n))
        else None
    else if op == LOCAL_TEE then
      match ReadU32(operand)
      case None => None
      case Some((idx, n)) =>
        if idx < |f.locals| && d > 0 then
          Some((f.(locals := f.locals[idx := f.stack[d - 1]]), pc + 1 + n))
        else None
    else if AluOf(op).Some? || ShiftOf(op).Some? then
      if d < 2 then None
      else Some((f.(stack := f.stack[..d - 2] + [BinaryWord(m, op, f.stack[d - 2], f.stack[d - 1])]), pc + 1))
    else if op == DROP then
      if d > 0 then Some((f.(stack := f.stack[..d - 1]), pc + 1)) else None
    else if op == NOP then Some((f, pc + 1))
    else None
  }

  predicate AtReturn(body: seq<byte>, pc: nat) {
    pc >= |body| || body[pc] == RETURN || body[pc] == END
  }

  /** The frame at the moment of return, if the body runs to a return that leaves `results` operands. */
  function Interpret(m: Mode, body: seq<byte>, pc: nat, f: Frame, results: nat, room: nat): Option<Frame>
    decreases |body| - pc
  {
    if AtReturn(body, pc) then
      if |f.stack| >= results then Some(f) else None
    else
      match StepOp(m, body, pc, f, room)
      case None => None
      case Some((f', next)) => Interpret(m, body, next, f', results, room)
  }

  // ---- the simulation relation ----------------------------------------------------------------

  /** Memory of a call: the stack below the return address has room for the saved registers, the padding
      and `room` operands; the locals buffer is mapped and apart from it. */
  ghost predicate Layout(entry: State, room: nat, n: nat) {
    var top: int, lb: int := entry.regs[RSP], entry.regs[RDX];
    && top % 8 == 0 && lb % 8 == 0
    && 0 <= top - 56 - 8 * room && top + 8 < TWO64 && lb + 8 * n <= TWO64 && n <= 64
    && (forall a :: a % 8 == 0 && top - 56 - 8 * room <= a <= top ==> a in entry.mem)
    && (forall a :: a % 8 == 0 && lb <= a < lb + 8 * n ==> a in entry.mem)
    && (lb + 8 * n <= top - 56 - 8 * room || top + 8 <= lb)
  }

  /** Address of operand `i` and of local `j`. */
  function OperandCell(entry: State, i: int): int {
    entry.regs[RSP] as int - 56 - 8 * (i + 1)
  }

  function LocalCell(entry: State, j: int): int {
    entry.regs[RDX] as int + 8 * j
  }

  /** The callee-saved registers sit where the prologue pushed them. */
  ghost predicate Saved(entry: State, mem: map<int, Word>) {
    var top: int := entry.regs[RSP];
    && top - 8 in mem && mem[top - 8] == entry.regs[RBP]
    && top - 16 in mem && mem[top - 16] == entry.regs[RBX]
    && top - 24 in mem && mem[top - 24] == entry.regs[R12]
    && top - 32 in mem && mem[top - 32] == entry.regs[R13]
    && top - 40 in mem && mem[top - 40] == entry.regs[R14]
    && top - 48 in mem && mem[top - 48] == entry.regs[R15]
  }

  /** Cells that are neither below the return address nor locals keep their contents. */
  ghost predicate OutsideKept(entry: State, mem: map<int, Word>, room: nat, n: nat) {
    && mem.Keys == entry.mem.Keys
    && forall a | a in entry.mem && !(OperandCell(entry, room - 1) <= a < entry.regs[RSP])
                  && !(LocalCell(entry, 0) <= a < LocalCell(entry, n)) :: mem[a] == entry.mem[a]
  }

  ghost predicate LocalsAgree(entry: State, mem: map<int, Word>, locals: seq<Word>) {
    forall j :: 0 <= j < |locals| ==>
      LocalCell(entry, j) in mem && mem[LocalCell(entry, j)] == locals[j]
  }

  ghost predicate OperandsAgree(entry: State, mem: map<int, Word>, stack: seq<Word>) {
    forall i :: 0 <= i < |stack| ==>
      OperandCell(entry, i) in mem && mem[OperandCell(entry, i)] == stack[i]
  }

  /** Between instructions of the body, machine state `s` stands for frame `f`. */
  ghost predicate Rel(entry: State, s: State, f: Frame, room: nat, n: nat) {
    && |f.locals| == n && |f.stack| <= room
    && s.regs[RSP] == OperandCell(entry, |f.stack| - 1)
    && s.regs[R12] == OperandCell(entry, -1)
    && s.regs[R13] == entry.regs[RDX]
    && OperandsAgree(entry, s.mem, f.stack)
    && LocalsAgree(entry, s.mem, f.locals)
    && Saved(entry, s.mem)
    && OutsideKept(entry, s.mem, room, n)
  }

  lemma PushExec(s: State, a: nat)
    requires s.regs[RSP] as int - 8 == a && CellAt(s.mem, a)
    ensures Exec(Push(RAX), s) == Some(State(s.regs[RSP := a], s.mem[a := s.regs[RAX]]))
  {
  }

  lemma PushRel(entry: State, s: State, f: Frame, v: Word, room: nat, n: nat)
    requires Layout(entry, room, n) && Rel(entry, s, f, room, n)
    requires |f.stack| < room && s.regs[RAX] == v
    ensures Exec(Push(RAX), s).Some?
    ensures Rel(entry, Exec(Push(RAX), s).value, f.(stack := f.stack + [v]), room, n)
  {
    hide Exec;
    var a := OperandCell(entry, |f.stack|);
    assert a == s.regs[RSP] as int - 8 && a % 8 == 0 && a in s.mem;
    PushExec(s, a);
  }

  lemma PopRel(entry: State, s: State, f: Frame, r: Reg, room: nat, n: nat)
    requires Layout(entry, room, n) && Rel(entry, s, f, room, n)
    requires |f.stack| > 0 && (r == RAX || r == RCX)
    ensures Exec(Pop(r), s).Some?
    ensures var s' := Exec(Pop(r), s).value;
            && Rel(entry, s', f.(stack := f.stack[..|f.stack| - 1]), room, n)
            && s'.regs[r] == f.stack[|f.stack| - 1]
            && (r == RAX ==> s'.regs[RCX] == s.regs[RCX])
  {
    var a := OperandCell(entry, |f.stack| - 1);
    assert a == s.regs[RSP] && a % 8 == 0 && a in s.mem;
  }

  /** RAX and RCX are scratch. */
  lemma ScratchRel(entry: State, s: State, f: Frame, w: Word, room: nat, n: nat)
    requires Rel(entry, s, f, room, n)
    ensures Rel(entry, s.(regs := s.regs[RAX := w]), f, room, n)
  {
  }

  lemma LoadRel(entry: State, s: State, f: Frame, idx: u32, room: nat, n: nat)
    requires Layout(entry, room, n) && Rel(entry, s, f, room, n) && idx < n
    ensures Exec(Load(RAX, R13, LocalOffset(idx)), s).Some?
    ensures var s' := Exec(Load(RAX, R13, LocalOffset(idx)), s).value;
            Rel(entry, s', f, room, n) && s'.regs[RAX] == f.locals[idx]
  {
    LocalAddress(entry, s, idx, room, n);
    ScratchRel(entry, s, f, s.mem[LocalCell(entry, idx)], room, n);
  }

  lemma LocalAddress(entry: State, s: State, idx: u32, room: nat, n: nat)
    requires Layout(entry, room, n) && idx < n && s.regs[R13] == entry.regs[RDX]
    ensures (s.regs[R13] + LocalOffset(idx)) % TWO64 == LocalCell(entry, idx)
    ensures LocalCell(entry, idx) % 8 == 0 && LocalCell(entry, idx) in entry.mem
  {
    ModUnique(8 * idx, TWO32, 0, 8 * idx);
    ModUnique(LocalCell(entry, idx), TWO64, 0, LocalCell(entry, idx));
  }

  lemma StoreRel(entry: State, s: State, f: Frame, idx: u32, v: Word, room: nat, n: nat)
    requires Layout(entry, room, n) && Rel(entry, s, f, room, n) && idx < n
    requires s.regs[RAX] == v
    ensures Exec(Store(RAX, R13, LocalOffset(idx)), s).Some?
    ensures Rel(entry, Exec(Store(RAX, R13, LocalOffset(idx)), s).value,
                f.(locals := f.locals[idx := v]), room, n)
  {
    LocalAddress(entry, s, idx, room, n);
    hide LocalOffset;
    var a := LocalCell(entry, idx);
    var s' := Exec(Store(RAX, R13, LocalOffset(idx)), s).value;
    assert s' == s.(mem := s.mem[a := s.regs[RAX]]);
  }

  // ---- one WASM instruction ---------------------------------------------------------------------

  lemma PushBlock(entry: State, s: State, f: Frame, first: Instr, v: Word, room: nat, n: nat)
    requires Layout(entry, room, n) && |f.stack| < room && first != Ret
    requires Exec(first, s).Some? && Rel(entry, Exec(first, s).value, f, room, n)
    requires Exec(first, s).value.regs[RAX] == v
    ensures ExecBlock([first, Push(RAX)], s).Some?
    ensures Rel(entry, ExecBlock([first, Push(RAX)], s).value, f.(stack := f.stack + [v]), room, n)
  {
    var s1 := Exec(first, s).value;
    PushRel(entry, s1, f, v, room, n);
    hide Exec, Rel;
    ExecTwo(first, Push(RAX), s);
  }

  lemma ExecTwo(i: Instr, j: Instr, s: State)
    requires Exec(i, s).Some?
    ensures ExecBlock([i, j], s) == Exec(j, Exec(i, s).value)
  {
    hide Exec;
    assert [i, j][1..] == [j];
    ExecOne(j, Exec(i, s).value);
  }

  lemma ExecOne(i: Instr, s: State)
    ensures ExecBlock([i], s) == Exec(i, s)
  {
    hide Exec;
    assert [i][1..] == [];
  }

  lemma ExecThree(i: Instr, j: Instr, k: Instr, s: State)
    requires Exec(i, s).Some? && Exec(j, Exec(i, s).value).Some?
    ensures ExecBlock([i, j, k], s) == Exec(k, Exec(j, Exec(i, s).value).value)
  {
    hide Exec;
    assert [i, j, k][1..] == [j, k];
    ExecTwo(j, k, Exec(i, s).value);
  }

  lemma ExecFour(i: Instr, j: Instr, k: Instr, l: Instr, s: State)
    requires Exec(i, s).Some? && Exec(j, Exec(i, s).value).Some?
    requires Exec(k, Exec(j, Exec(i, s).value).value).Some?
    ensures ExecBlock([i, j, k, l], s) == Exec(l, Exec(k, Exec(j, Exec(i, s).value).value).value)
  {
    hide Exec;
    assert [i, j, k, l][1..] == [j, k, l];
    ExecThree(j, k, l, Exec(i, s).value);
  }

  /** `pop rcx; pop rax`: the two operands, in order. */
  lemma PopTwo(entry: State, s: State, f: Frame, room: nat, n: nat) returns (s2: State)
    requires Layout(entry, room, n) && Rel(entry, s, f, room, n) && |f.stack| >= 2
    ensures Exec(Pop(RCX), s).Some? && Exec(Pop(RAX), Exec(Pop(RCX), s).value) == Some(s2)
    ensures Rel(entry, s2, f.(stack := f.stack[..|f.stack| - 2]), room, n)
    ensures s2.regs[RAX] == f.stack[|f.stack| - 2]
    ensures s2.regs[RCX] == f.stack[|f.stack| - 1]
  {
    PopRel(entry, s, f, RCX, room, n);
    var s1, f1 := Exec(Pop(RCX), s).value, f.(stack := f.stack[..|f.stack| - 1]);
    PopRel(entry, s1, f1, RAX, room, n);
    s2 := Exec(Pop(RAX), s1).value;
    assert f1.stack[..|f1.stack| - 1] == f.stack[..|f.stack| - 2];
  }

  /** `pop rcx; pop rax; i; push rax`, where `i` leaves `w` in RAX. */
  lemma BinaryBlock(entry: State, s: State, s2: State, f: Frame, i: Instr, w: Word, room: nat, n: nat)
    requires Layout(entry, room, n) && |f.stack| < room && Rel(entry, s2, f, room, n)
    requires Exec(Pop(RCX), s).Some? && Exec(Pop(RAX), Exec(Pop(RCX), s).value) == Some(s2)
    requires Exec(i, s2) == Some(s2.(regs := s2.regs[RAX := w]))
    ensures ExecBlock([Pop(RCX), Pop(RAX), i, Push(RAX)], s).Some?
    ensures Rel(entry, ExecBlock([Pop(RCX), Pop(RAX), i, Push(RAX)], s).value,
                f.(stack := f.stack + [w]), room, n)
  {
    hide Exec, Rel, Layout;
    ScratchRel(entry, s2, f, w, room, n);
    PushRel(entry, s2.(regs := s2.regs[RAX := w]), f, w, room, n);
    ExecFour(Pop(RCX), Pop(RAX), i, Push(RAX), s);
  }

  /** The code of one instruction carries the relation from its frame to the next. */
  lemma TranslateRel(entry: State, s: State, f: Frame, body: seq<byte>, pc: nat, room: nat, n: nat)
    requires Layout(entry, room, n) && Rel(entry, s, f, room, n)
    requires !AtReturn(body, pc) && StepOp(Wide, body, pc, f, room).Some?
    ensures Translate(body, pc).Some?
    ensures Translate(body, pc).value.1 == StepOp(Wide, body, pc, f, room).value.1
    ensures ExecBlock(Translate(body, pc).value.0, s).Some?
    ensures Rel(entry, ExecBlock(Translate(body, pc).value.0, s).value, StepOp(Wide, body, pc, f, room).value.0, room,
                n)
  {
    var op := body[pc];
    if op == I32_CONST || op == I64_CONST {
      ConstRel(entry, s, f, body, pc, room, n);
    } else if op == LOCAL_GET || op == LOCAL_SET || op == LOCAL_TEE {
      LocalRel(entry, s, f, body, pc, room, n);
    } else if AluOf(op).Some? || ShiftOf(op).Some? {
      BinaryRel(entry, s, f, body, pc, room, n);
    } else if op == DROP {
      DropRel(entry, s, f, room, n);
    }
  }

  lemma DropRel(entry: State, s: State, f: Frame, room: nat, n: nat)
    requires Layout(entry, room, n) && Rel(entry, s, f, room, n) && |f.stack| > 0
    ensures ExecBlock([AddI8(RSP, 8)], s).Some?
    ensures Rel(entry, ExecBlock([AddI8(RSP, 8)], s).value, f.(stack := f.stack[..|f.stack| - 1]), room, n)
  {
    ExecOne(AddI8(RSP, 8), s);
  }

  lemma ConstRel(entry: State, s: State, f: Frame, body: seq<byte>, pc: nat, room: nat, n: nat)
    requires Layout(entry, room, n) && Rel(entry, s, f, room, n)
    requires pc < |body| && (body[pc] == I32_CONST || body[pc] == I64_CONST) && StepOp(Wide, body, pc, f, room).Some?
    ensures Translate(body, pc).Some? && Translate(body, pc).value.1 == StepOp(Wide, body, pc, f, room).value.1
    ensures ExecBlock(Translate(body, pc).value.0, s).Some?
    ensures Rel(entry, ExecBlock(Translate(body, pc).value.0, s).value, StepOp(Wide, body, pc, f, room).value.0, room,
                n)
  {
    var (code, next) := Translate(body, pc).value;
    var v: Word := if body[pc] == I32_CONST then ToWord(ReadI32(body[pc + 1..]).value.0)
                   else ReadI64(body[pc + 1..]).value.0;
    assert code == [MovRI64(RAX, v), Push(RAX)];
    assert StepOp(Wide, body, pc, f, room).value.0 == f.(stack := f.stack + [v]);
    ScratchRel(entry, s, f, v, room, n);
    PushBlock(entry, s, f, MovRI64(RAX, v), v, room, n);
  }

  lemma LocalRel(entry: State, s: State, f: Frame, body: seq<byte>, pc: nat, room: nat, n: nat)
    requires Layout(entry, room, n) && Rel(entry, s, f, room, n)
    requires pc < |body| && (body[pc] == LOCAL_GET || body[pc] == LOCAL_SET || body[pc] == LOCAL_TEE)
    requires StepOp(Wide, body, pc, f, room).Some?
    ensures Translate(body, pc).Some? && Translate(body, pc).value.1 == StepOp(Wide, body, pc, f, room).value.1
    ensures ExecBlock(Translate(body, pc).value.0, s).Some?
    ensures Rel(entry, ExecBlock(Translate(body, pc).value.0, s).value, StepOp(Wide, body, pc, f, room).value.0, room,
                n)
  {
    LocalShape(body, pc, f, room);
    var idx := ReadU32(body[pc + 1..]).value.0;
    assert idx < n && |f.stack| <= room;
    hide *;
    if body[pc] == LOCAL_GET {
      GetRel(entry, s, f, idx, room, n);
    } else if body[pc] == LOCAL_SET {
      SetRel(entry, s, f, idx, room, n);
    } else {
      TeeRel(entry, s, f, idx, room, n);
    }
  }

  /** What the interpreter does and the compiler emits for an access to a local. */
  lemma LocalShape(body: seq<byte>, pc: nat, f: Frame, room: nat)
    requires pc < |body| && (body[pc] == LOCAL_GET || body[pc] == LOCAL_SET || body[pc] == LOCAL_TEE)
    requires StepOp(Wide, body, pc, f, room).Some?
    ensures ReadU32(body[pc + 1..]).Some? && Translate(body, pc).Some?
    ensures Translate(body, pc).value.1 == StepOp(Wide, body, pc, f, room).value.1
    ensures var (idx, d) := (ReadU32(body[pc + 1..]).value.0, |f.stack|);
            var f' := StepOp(Wide, body, pc, f, room).value.0;
            && idx < |f.locals|
            && (body[pc] == LOCAL_GET ==>
                  && d < room && f' == f.(stack := f.stack + [f.locals[idx]])
                  && Translate(body, pc).value.0 == [Load(RAX, R13, LocalOffset(idx)), Push(RAX)])
            && (body[pc] == LOCAL_SET ==>
                  && d > 0 && f' == Frame(f.stack[..d - 1], f.locals[idx := f.stack[d - 1]])
                  && Translate(body, pc).value.0 == [Pop(RAX), Store(RAX, R13, LocalOffset(idx))])
            && (body[pc] == LOCAL_TEE ==>
                  && d > 0 && f' == f.(locals := f.locals[idx := f.stack[d - 1]])
                  && Translate(body, pc).value.0 == [Pop(RAX), Push(RAX), Store(RAX, R13, LocalOffset(idx))])
  {
    hide ReadU32, LocalOffset;
  }

  lemma GetRel(entry: State, s: State, f: Frame, idx: u32, room: nat, n: nat)
    requires Layout(entry, room, n) && Rel(entry, s, f, room, n) && idx < n == |f.locals| && |f.stack| < room
    ensures var r := ExecBlock([Load(RAX, R13, LocalOffset(idx)), Push(RAX)], s);
            r.Some? && Rel(entry, r.value, f.(stack := f.stack + [f.locals[idx]]), room, n)
  {
    hide *;
    LoadRel(entry, s, f, idx, room, n);
    PushBlock(entry, s, f, Load(RAX, R13, LocalOffset(idx)), f.locals[idx], room, n);
  }

  lemma SetRel(entry: State, s: State, f: Frame, idx: u32, room: nat, n: nat)
    requires Layout(entry, room, n) && Rel(entry, s, f, room, n) && idx < n == |f.locals| && |f.stack| > 0
    ensures var (d, r) := (|f.stack|, ExecBlock([Pop(RAX), Store(RAX, R13, LocalOffset(idx))], s));
            r.Some? && Rel(entry, r.value, Frame(f.stack[..d - 1], f.locals[idx := f.stack[d - 1]]), room, n)
  {
    hide *;
    var d := |f.stack|;
    PopRel(entry, s, f, RAX, room, n);
    var s1 := Exec(Pop(RAX), s).value;
    StoreRel(entry, s1, f.(stack := f.stack[..d - 1]), idx, f.stack[d - 1], room, n);
    ExecTwo(Pop(RAX), Store(RAX, R13, LocalOffset(idx)), s);
  }

  lemma PushKeepsRax(s: State)
    requires Exec(Push(RAX), s).Some?
    ensures Exec(Push(RAX), s).value.regs[RAX] == s.regs[RAX]
  {
  }

  lemma TeeRel(entry: State, s: State, f: Frame, idx: u32, room: nat, n: nat)
    requires Layout(entry, room, n) && Rel(entry, s, f, room, n) && idx < n == |f.locals| && 0 < |f.stack| <= room
    ensures var (d, r) := (|f.stack|, ExecBlock([Pop(RAX), Push(RAX), Store(RAX, R13, LocalOffset(idx))], s));
            r.Some? && Rel(entry, r.value, f.(locals := f.locals[idx := f.stack[d - 1]]), room, n)
  {
    hide *;
    var d := |f.stack|;
    PopRel(entry, s, f, RAX, room, n);
    var s1 := Exec(Pop(RAX), s).value;
    PushRel(entry, s1, f.(stack := f.stack[..d - 1]), f.stack[d - 1], room, n);
    assert f.stack[..d - 1] + [f.stack[d - 1]] == f.stack;
    PushKeepsRax(s1);
    StoreRel(entry, Exec(Push(RAX), s1).value, f, idx, f.stack[d - 1], room, n);
    ExecThree(Pop(RAX), Push(RAX), Store(RAX, R13, LocalOffset(idx)), s);
  }

  lemma BinaryRel(entry: State, s: State, f: Frame, body: seq<byte>, pc: nat, room: nat, n: nat)
    requires Layout(entry, room, n) && Rel(entry, s, f, room, n)
    requires pc < |body| && StepOp(Wide, body, pc, f, room).Some?
    requires AluOf(body[pc]).Some? || ShiftOf(body[pc]).Some?
    ensures Translate(body, pc).Some? && Translate(body, pc).value.1 == StepOp(Wide, body, pc, f, room).value.1
    ensures ExecBlock(Translate(body, pc).value.0, s).Some?
    ensures Rel(entry, ExecBlock(Translate(body, pc).value.0, s).value, StepOp(Wide, body, pc, f, room).value.0, room,
                n)
  {
    BinaryShape(body, pc, f, room);
    hide *;
    var d := |f.stack|;
    var s2 := PopTwo(entry, s, f, room, n);
    BinaryExec(body[pc], s2, f.stack[d - 2], f.stack[d - 1]);
    BinaryBlock(entry, s, s2, f.(stack := f.stack[..d - 2]), BinaryInstr(body[pc]),
                BinaryWord(Wide, body[pc], f.stack[d - 2], f.stack[d - 1]), room, n);
  }

  function BinaryInstr(op: byte): Instr {
    match AluOf(op)
    case Some(alu) => Alu(alu, RAX, RCX)
    case None => match ShiftOf(op) case Some(shift) => ShiftCl(shift, RAX) case None => Ret
  }

  lemma BinaryShape(body: seq<byte>, pc: nat, f: Frame, room: nat)
    requires pc < |body| && StepOp(Wide, body, pc, f, room).Some?
    requires AluOf(body[pc]).Some? || ShiftOf(body[pc]).Some?
    ensures |f.stack| >= 2
    ensures Translate(body, pc) == Some(([Pop(RCX), Pop(RAX), BinaryInstr(body[pc]), Push(RAX)], pc + 1))
    ensures var d := |f.stack|;
            StepOp(Wide, body, pc, f, room)
            == Some((f.(stack := f.stack[..d - 2] + [BinaryWord(Wide, body[pc], f.stack[d - 2], f.stack[d - 1])]),
                     pc + 1))
  {
    hide AluResult, ShiftResult;
  }

  lemma BinaryExec(op: byte, s: State, x: Word, y: Word)
    requires (AluOf(op).Some? || ShiftOf(op).Some?) && s.regs[RAX] == x && s.regs[RCX] == y
    ensures Exec(BinaryInstr(op), s) == Some(s.(regs := s.regs[RAX := BinaryWord(Wide, op, x, y)]))
  {
    hide AluResult, ShiftResult;
  }

  // ---- entry and return ---------------------------------------------------------------------------

  lemma {:induction false} ExecConcat(a: seq<Instr>, b: seq<Instr>, s: State)
    requires ExecBlock(a, s).Some?
    ensures ExecBlock(a + b, s) == ExecBlock(b, ExecBlock(a, s).value)
  {
    hide Exec;
    if a == [] {
      assert a + b == b;
    } else {
      assert (a + b)[1..] == a[1..] + b;
      ExecConcat(a[1..], b, Exec(a[0], s).value);
    }
  }

  /** State after the first half of the prologue. */
  ghost function Half(entry: State): State
    requires 24 <= entry.regs[RSP]
  {
    var top := entry.regs[RSP];
    State(entry.regs[RBP := top - 8][RSP := top - 24],
          entry.mem[top - 8 := entry.regs[RBP]][top - 16 := entry.regs[RBX]][top - 24 := entry.regs[R12]])
  }

  lemma PrologueFirst(entry: State, room: nat, n: nat)
    requires Layout(entry, room, n)
    ensures ExecBlock([Push(RBP), MovRR(RBP, RSP), Push(RBX), Push(R12)], entry) == Some(Half(entry))
  {
    var top := entry.regs[RSP];
    assert CellAt(entry.mem, top - 8) && CellAt(entry.mem, top - 16) && CellAt(entry.mem, top - 24);
    var s1 := Exec(Push(RBP), entry).value;
    var s2 := Exec(MovRR(RBP, RSP), s1).value;
    var s3 := Exec(Push(RBX), s2).value;
    var s4 := Exec(Push(R12), s3).value;
    ExecFour(Push(RBP), MovRR(RBP, RSP), Push(RBX), Push(R12), entry);
    assert s4.regs == Half(entry).regs;
  }

  /** State after the prologue. */
  ghost function Framed(entry: State): State
    requires 56 <= entry.regs[RSP]
  {
    var top := entry.regs[RSP];
    var h := Half(entry);
    State(h.regs[RSP := top - 56],
          h.mem[top - 32 := entry.regs[R13]][top - 40 := entry.regs[R14]][top - 48 := entry.regs[R15]])
  }

  lemma PrologueSecond(entry: State, room: nat, n: nat)
    requires Layout(entry, room, n)
    ensures ExecBlock([Push(R13), Push(R14), Push(R15), SubI8(RSP, 8)], Half(entry)) == Some(Framed(entry))
  {
    hide Exec, ExecBlock, Layout;
    LayoutCells(entry, room, n);
    var top: nat := entry.regs[RSP];
    var q: Regs := entry.regs[RBP := top - 8];
    PushThree(q, top - 24, Half(entry).mem);
    assert q[RSP := top - 24][RSP := top - 56] == q[RSP := top - 56];
  }

  lemma LayoutCells(entry: State, room: nat, n: nat)
    requires Layout(entry, room, n)
    ensures var top: int := entry.regs[RSP];
            && 56 <= top && CellAt(entry.mem, top - 8) && CellAt(entry.mem, top - 16) && CellAt(entry.mem, top - 24)
            && CellAt(entry.mem, top - 32) && CellAt(entry.mem, top - 40) && CellAt(entry.mem, top - 48)
  {
  }

  lemma PushThree(q: Regs, x: nat, mem: map<int, Word>)
    requires 32 <= x < TWO64 && CellAt(mem, x - 8) && CellAt(mem, x - 16) && CellAt(mem, x - 24)
    ensures ExecBlock([Push(R13), Push(R14), Push(R15), SubI8(RSP, 8)], State(q[RSP := x], mem))
            == Some(State(q[RSP := x - 32], mem[x - 8 := q[R13]][x - 16 := q[R14]][x - 24 := q[R15]]))
  {
    hide Exec, ExecBlock;
    PushKept(q, x, R13, mem);
    var m1 := mem[x - 8 := q[R13]];
    PushKept(q, x - 8, R14, m1);
    var m2 := m1[x - 16 := q[R14]];
    PushKept(q, x - 16, R15, m2);
    SubExec(q, x - 24, m2[x - 24 := q[R15]]);
    ExecFour(Push(R13), Push(R14), Push(R15), SubI8(RSP, 8), State(q[RSP := x], mem));
  }

  /** A push, with the stack pointer kept apart from the other registers. */
  lemma PushKept(q: Regs, x: nat, r: Reg, mem: map<int, Word>)
    requires r != RSP && 8 <= x < TWO64 && CellAt(mem, x - 8)
    ensures Exec(Push(r), State(q[RSP := x], mem)) == Some(State(q[RSP := x - 8], mem[x - 8 := q[r]]))
  {
    assert q[RSP := x][RSP := x - 8] == q[RSP := x - 8];
  }

  lemma SubExec(q: Regs, x: nat, mem: map<int, Word>)
    requires 8 <= x < TWO64
    ensures Exec(SubI8(RSP, 8), State(q[RSP := x], mem)) == Some(State(q[RSP := x - 8], mem))
  {
    assert q[RSP := x][RSP := x - 8] == q[RSP := x - 8];
  }

  lemma AliasesExec(s: State)
    ensures ExecBlock(Aliases(), s) ==
            Some(s.(regs := s.regs[R15 := s.regs[RDI]][R14 := s.regs[RSI]][R13 := s.regs[RDX]][R12 := s.regs[RSP]]))
  {
    ExecFour(MovRR(R15, RDI), MovRR(R14, RSI), MovRR(R13, RDX), MovRR(R12, RSP), s);
  }

  /** The prologue writes the save area and nothing else. */
  lemma FramedMemory(entry: State, locals: seq<Word>, room: nat)
    requires Layout(entry, room, |locals|) && LocalsAgree(entry, entry.mem, locals)
    ensures Saved(entry, Framed(entry).mem)
    ensures OutsideKept(entry, Framed(entry).mem, room, |locals|)
    ensures LocalsAgree(entry, Framed(entry).mem, locals)
  {
    FramedCells(entry, room, |locals|);
    hide Framed, Half;
  }

  /** Memory `m` differs from the entry memory only in the save area, and keeps its domain. */
  ghost predicate OnlySaveArea(entry: State, m: map<int, Word>) {
    && m.Keys == entry.mem.Keys
    && forall a | a in entry.mem && !(OperandCell(entry, -1) <= a < entry.regs[RSP]) :: m[a] == entry.mem[a]
  }

  lemma HalfCells(entry: State, room: nat, n: nat)
    requires Layout(entry, room, n)
    ensures OnlySaveArea(entry, Half(entry).mem)
  {
    var top: int := entry.regs[RSP];
    assert CellAt(entry.mem, top - 8) && CellAt(entry.mem, top - 16) && CellAt(entry.mem, top - 24);
    assert Half(entry).mem.Keys == entry.mem.Keys;
  }

  lemma FramedCells(entry: State, room: nat, n: nat)
    requires Layout(entry, room, n)
    ensures Saved(entry, Framed(entry).mem) && OnlySaveArea(entry, Framed(entry).mem)
  {
    var top: int := entry.regs[RSP];
    assert CellAt(entry.mem, top - 32) && CellAt(entry.mem, top - 40) && CellAt(entry.mem, top - 48);
    HalfCells(entry, room, n);
    hide Layout, Saved, OnlySaveArea, Half;
    FramedSaved(entry);
    FramedOnly(entry);
  }

  lemma FramedSaved(entry: State)
    requires 56 <= entry.regs[RSP]
    ensures Saved(entry, Framed(entry).mem)
  {
  }

  lemma FramedOnly(entry: State)
    requires 56 <= entry.regs[RSP] && OnlySaveArea(entry, Half(entry).mem)
    requires var top: int := entry.regs[RSP]; {top - 32, top - 40, top - 48} <= entry.mem.Keys
    ensures OnlySaveArea(entry, Framed(entry).mem)
  {
    var top: int := entry.regs[RSP];
    assert top - 32 in {top - 32, top - 40, top - 48} && top - 40 in {top - 32, top - 40, top - 48}
           && top - 48 in {top - 32, top - 40, top - 48};
    hide Half;
    assert Framed(entry).mem.Keys == Half(entry).mem.Keys;
  }

  lemma EntryExec(entry: State, room: nat, n: nat)
    requires Layout(entry, room, n)
    ensures ExecBlock(Prologue() + Aliases(), entry) == ExecBlock(Aliases(), Framed(entry))
  {
    PrologueFirst(entry, room, n);
    PrologueSecond(entry, room, n);
    var p := [Push(RBP), MovRR(RBP, RSP), Push(RBX), Push(R12)];
    var q := [Push(R13), Push(R14), Push(R15), SubI8(RSP, 8)];
    assert Prologue() == p + q;
    hide Exec, ExecBlock, Half, Framed, Aliases;
    ExecConcat(p, q, entry);
    ExecConcat(Prologue(), Aliases(), entry);
  }

  /** The entry sequence establishes the relation for an empty operand stack. */
  lemma EntryRel(entry: State, locals: seq<Word>, room: nat)
    requires Layout(entry, room, |locals|) && LocalsAgree(entry, entry.mem, locals)
    ensures ExecBlock(Prologue() + Aliases(), entry).Some?
    ensures Rel(entry, ExecBlock(Prologue() + Aliases(), entry).value, Frame([], locals), room, |locals|)
  {
    FramedMemory(entry, locals, room);
    EntryExec(entry, room, |locals|);
    AliasesExec(Framed(entry));
    var s := ExecBlock(Aliases(), Framed(entry)).value;
    hide Exec, ExecBlock, Saved, OutsideKept, LocalsAgree;
    assert s.mem == Framed(entry).mem;
  }

  /** What the caller of a compiled function may rely on: control returns to the return address, the stack
      pointer is back above it, the callee-saved registers hold their entry values, the result (or zero)
      is in RAX, the locals buffer agrees with the frame, and nothing else outside the stack area moved. */
  ghost predicate Conforms(entry: State, r: Returned, f: Frame, results: nat, room: nat) {
    && entry.regs[RSP] in entry.mem && r.address == entry.mem[entry.regs[RSP]]
    && r.state.regs[RSP] == entry.regs[RSP] as int + 8
    && r.state.regs[RBX] == entry.regs[RBX] && r.state.regs[RBP] == entry.regs[RBP]
    && r.state.regs[R12] == entry.regs[R12] && r.state.regs[R13] == entry.regs[R13]
    && r.state.regs[R14] == entry.regs[R14] && r.state.regs[R15] == entry.regs[R15]
    && (results == 0 ==> r.state.regs[RAX] == 0)
    && (results == 1 ==> |f.stack| > 0 && r.state.regs[RAX] == f.stack[|f.stack| - 1])
    && LocalsAgree(entry, r.state.mem, f.locals)
    && OutsideKept(entry, r.state.mem, room, |f.locals|)
  }

  /** Registers and memory when the operand stack has been unwound and RAX holds the result. */
  ghost predicate Unwound(entry: State, s: State, f: Frame, results: nat, room: nat, n: nat) {
    && s.regs[RSP] == OperandCell(entry, -1)
    && (results == 0 ==> s.regs[RAX] == 0)
    && (results == 1 ==> |f.stack| > 0 && s.regs[RAX] == f.stack[|f.stack| - 1])
    && |f.locals| == n && LocalsAgree(entry, s.mem, f.locals)
    && Saved(entry, s.mem) && OutsideKept(entry, s.mem, room, n)
  }

  lemma UnwindRel(entry: State, s: State, f: Frame, results: nat, room: nat, n: nat) returns (t: State)
    requires Layout(entry, room, n) && Rel(entry, s, f, room, n) && results <= 1 && |f.stack| >= results
    ensures RunList(ReturnCode(results), s) == RunList(Epilogue(), t)
    ensures Unwound(entry, t, f, results, room, n)
  {
    var head := if results > 0 then [Pop(RAX), MovRR(RSP, R12)] else [MovRR(RSP, R12), MovRI32(RAX, 0)];
    if results > 0 {
      PopRel(entry, s, f, RAX, room, n);
      var s1 := Exec(Pop(RAX), s).value;
      ExecTwo(Pop(RAX), MovRR(RSP, R12), s);
      t := s1.(regs := s1.regs[RSP := s1.regs[R12]]);
    } else {
      ExecTwo(MovRR(RSP, R12), MovRI32(RAX, 0), s);
      t := s.(regs := s.regs[RSP := s.regs[R12]][RAX := 0]);
    }
    assert ExecBlock(head, s) == Some(t);
    hide Exec, ExecBlock;
    RunListConcat(head, Epilogue(), s);
  }

  lemma EpilogueRel(entry: State, s: State, f: Frame, results: nat, room: nat, n: nat)
    requires Layout(entry, room, n) && Unwound(entry, s, f, results, room, n)
    ensures RunList(Epilogue(), s).Some?
    ensures Conforms(entry, RunList(Epilogue(), s).value, f, results, room)
  {
    var top: int := entry.regs[RSP];
    assert CellAt(entry.mem, top) && top in s.mem && s.mem[top] == entry.mem[top];
    assert Saved(entry, s.mem) && 56 <= top && top + 8 < TWO64 && top % 8 == 0;
    hide Exec, ExecBlock, LocalsAgree, OutsideKept, Layout, Saved, RunList;
    var a, b := [AddI8(RSP, 8), Pop(R15), Pop(R14), Pop(R13)], [Pop(R12), Pop(RBX), Pop(RBP)];
    var s1 := s.(regs := s.regs[R15 := entry.regs[R15]][R14 := entry.regs[R14]][R13 := entry.regs[R13]]
                         [RSP := top - 24]);
    FirstPops(entry, s, s1);
    var s2 := s1.(regs := s1.regs[R12 := entry.regs[R12]][RBX := entry.regs[RBX]][RBP := entry.regs[RBP]][RSP := top]);
    LastPops(entry, s1, s2);
    assert Epilogue() == a + (b + [Ret]);
    RunListConcat(a, b + [Ret], s);
    RunListConcat(b, [Ret], s1);
    RunRet(s2);
  }

  lemma RunRet(s: State)
    requires CellAt(s.mem, s.regs[RSP]) && s.regs[RSP] as int + 8 < TWO64
    ensures RunList([Ret], s) == Some(Returned(s.(regs := s.regs[RSP := s.regs[RSP] as int + 8]), s.mem[s.regs[RSP]]))
  {
    hide Exec;
    assert RunList([Ret], s) == ExecRet(s);
  }

  /** A pop, with the stack pointer kept apart from the other registers. */
  lemma PopExec(q: Regs, x: nat, r: Reg, mem: map<int, Word>)
    requires r != RSP && x + 8 < TWO64 && CellAt(mem, x)
    ensures Exec(Pop(r), State(q[RSP := x], mem)) == Some(State(q[r := mem[x]][RSP := x + 8], mem))
  {
    assert q[RSP := x][RSP := x + 8][r := mem[x]] == q[r := mem[x]][RSP := x + 8];
  }

  lemma AddExec(q: Regs, x: nat, mem: map<int, Word>)
    requires x + 8 < TWO64
    ensures Exec(AddI8(RSP, 8), State(q[RSP := x], mem)) == Some(State(q[RSP := x + 8], mem))
  {
    assert q[RSP := x][RSP := x + 8] == q[RSP := x + 8];
  }

  lemma FirstPops(entry: State, s: State, s1: State)
    requires 56 <= entry.regs[RSP] && entry.regs[RSP] + 8 < TWO64 && entry.regs[RSP] % 8 == 0
    requires Saved(entry, s.mem) && s.regs[RSP] == OperandCell(entry, -1)
    requires s1 == s.(regs := s.regs[R15 := entry.regs[R15]][R14 := entry.regs[R14]][R13 := entry.regs[R13]]
                              [RSP := entry.regs[RSP] - 24])
    ensures ExecBlock([AddI8(RSP, 8), Pop(R15), Pop(R14), Pop(R13)], s) == Some(s1)
  {
    hide Exec, ExecBlock;
    var top: nat, q: Regs := entry.regs[RSP], s.regs;
    assert q[RSP := top - 56] == q;
    AddExec(q, top - 56, s.mem);
    PopExec(q, top - 48, R15, s.mem);
    var q1: Regs := q[R15 := entry.regs[R15]];
    PopExec(q1, top - 40, R14, s.mem);
    var q2: Regs := q1[R14 := entry.regs[R14]];
    PopExec(q2, top - 32, R13, s.mem);
    ExecFour(AddI8(RSP, 8), Pop(R15), Pop(R14), Pop(R13), s);
  }

  lemma LastPops(entry: State, s1: State, s2: State)
    requires 56 <= entry.regs[RSP] && entry.regs[RSP] + 8 < TWO64 && entry.regs[RSP] % 8 == 0
    requires Saved(entry, s1.mem) && s1.regs[RSP] == entry.regs[RSP] - 24
    requires s2 == s1.(regs := s1.regs[R12 := entry.regs[R12]][RBX := entry.regs[RBX]][RBP := entry.regs[RBP]]
                               [RSP := entry.regs[RSP]])
    ensures ExecBlock([Pop(R12), Pop(RBX), Pop(RBP)], s1) == Some(s2)
  {
    hide Exec, ExecBlock;
    var top: nat, q: Regs := entry.regs[RSP], s1.regs;
    assert q[RSP := top - 24] == q;
    PopExec(q, top - 24, R12, s1.mem);
    var q1: Regs := q[R12 := entry.regs[R12]];
    PopExec(q1, top - 16, RBX, s1.mem);
    var q2: Regs := q1[RBX := entry.regs[RBX]];
    PopExec(q2, top - 8, RBP, s1.mem);
    ExecThree(Pop(R12), Pop(RBX), Pop(RBP), s1);
  }

  lemma ReturnRel(entry: State, s: State, f: Frame, results: nat, room: nat, n: nat)
    requires Layout(entry, room, n) && Rel(entry, s, f, room, n) && results <= 1 && |f.stack| >= results
    ensures RunList(ReturnCode(results), s).Some?
    ensures Conforms(entry, RunList(ReturnCode(results), s).value, f, results, room)
  {
    hide RunList, Rel, Layout, ReturnCode, Conforms, Unwound;
    var t := UnwindRel(entry, s, f, results, room, n);
    EpilogueRel(entry, t, f, results, room, n);
  }

  // ---- whole bodies ---------------------------------------------------------------------------------

  lemma {:induction false} CompiledBodyRel(
    entry: State, s: State, f: Frame, body: seq<byte>, pc: nat, results: nat, room: nat, n: nat)
    requires Layout(entry, room, n) && Rel(entry, s, f, room, n) && results <= 1
    requires CompileFrom(body, pc, results).ok
    requires Interpret(Wide, body, pc, f, results, room).Some?
    ensures RunList(CompileFrom(body, pc, results).code, s).Some?
    ensures Conforms(entry, RunList(CompileFrom(body, pc, results).code, s).value,
                     Interpret(Wide, body, pc, f, results, room).value, results, room)
    decreases |body| - pc
  {
    hide Layout, Rel, Conforms, RunList, StepOp, Translate, ReturnCode, ExecBlock;
    if AtReturn(body, pc) {
      ReturnRel(entry, s, f, results, room, n);
    } else {
      TranslateRel(entry, s, f, body, pc, room, n);
      var (code, next) := Translate(body, pc).value;
      var s' := ExecBlock(code, s).value;
      CompiledBodyRel(entry, s', StepOp(Wide, body, pc, f, room).value.0, body, next, results, room, n);
      RunListConcat(code, CompileFrom(body, next, results).code, s);
    }
  }

  /** The instructions of a compiled function, run from a System V entry state. */
  lemma CompiledListRuns(entry: State, locals: seq<Word>, body: seq<byte>, results: nat, room: nat)
    requires Layout(entry, room, |locals|) && LocalsAgree(entry, entry.mem, locals)
    requires Jit(body, results).ok
    requires Interpret(Wide, body, 0, Frame([], locals), results, room).Some?
    ensures var r := RunList(Jit(body, results).code, entry);
            && r.Some?
            && Conforms(entry, r.value, Interpret(Wide, body, 0, Frame([], locals), results, room).value, results, room)
  {
    hide Layout, Rel, Conforms, RunList, Interpret, ExecBlock, LocalsAgree, CompileFrom;
    EntryRel(entry, locals, room);
    var head := Prologue() + Aliases();
    var s := ExecBlock(head, entry).value;
    CompiledBodyRel(entry, s, Frame([], locals), body, 0, results, room, |locals|);
    RunListConcat(head, CompileFrom(body, 0, results).code, entry);
  }

  /** Compiler correctness and the calling convention.

      For every body the compiler accepts whose wide reading returns, calling the emitted BYTES (with anything after
      them in the code buffer) from a System V entry state returns, and the outcome is exactly the final frame of the
      wide reading: the whole result word and every local. */
  lemma CompiledRunsWide(entry: State, locals: seq<Word>, body: seq<byte>, results: nat, room: nat, rest: seq<byte>)
    requires Layout(entry, room, |locals|) && LocalsAgree(entry, entry.mem, locals)
    requires Jit(body, results).ok
    requires Interpret(Wide, body, 0, Frame([], locals), results, room).Some?
    ensures AllEncodable(Jit(body, results).code)
    ensures var r := Run(EncodeAll(Jit(body, results).code) + rest, entry);
            && r.Some?
            && Conforms(entry, r.value, Interpret(Wide, body, 0, Frame([], locals), results, room).value, results, room)
  {
    hide Layout, Conforms, RunList, Run, Interpret, LocalsAgree, Jit;
    JitEncodable(body, results);
    CompiledListRuns(entry, locals, body, results, room);
    RunEncoded(Jit(body, results).code, rest, entry);
  }
}
