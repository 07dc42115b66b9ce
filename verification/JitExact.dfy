/** When a compiled function returns the interpreter's word itself, and not only its low half: a condition on the wide
    reading alone. */
module JitExact {
  import opened Words
  import opened X86
  import opened JitCompile
  import opened JitCorrect
  import opened JitShifts
  import opened JitAgree

  /** `v` is a word the interpreter could push for `op`: zero-extended for `shr_u`, sign-extended for the others. */
  predicate Pushable(op: byte, v: Word) {
    if ShiftOf(op) == Some(Shr) then v < TWO32 else v == SignExtend32(v)
  }

  /** The machine's result for `op` is such a word, and if `op` is a shift it fits its operands. */
  predicate ExactOp(op: byte, a: Word, b: Word) {
    && Pushable(op, BinaryWord(Wide, op, a, b))
    && (ShiftOf(op).Some? ==> ShiftFits(ShiftOf(op).value, a, a, b))
  }

  lemma SignExtendTwice(w: int)
    ensures SignExtend32(SignExtend32(w)) == SignExtend32(w)
  {
    SignExtendLow(w);
    hide ToWord;
  }

  lemma NarrowPushable(op: byte, a: Word, b: Word)
    requires AluOf(op).Some? || ShiftOf(op).Some?
    ensures Pushable(op, BinaryWord(Narrow, op, a, b))
  {
    if AluOf(op).Some? {
      NarrowAlu(AluOf(op).value, a, b);
    } else {
      NarrowShift(ShiftOf(op).value, a, b);
    }
  }

  lemma NarrowAlu(op: AluOp, a: Word, b: Word)
    ensures SignExtend32(I32Binary(op, a, b)) == I32Binary(op, a, b)
  {
    hide SignExtend32, ToI32, Low32, Bitwise;
    match op
    case Add => SignExtendTwice(ToI32(a) + ToI32(b));
    case Sub => SignExtendTwice(ToI32(a) - ToI32(b));
    case Imul => SignExtendTwice(ToI32(a) * ToI32(b));
    case And => SignExtendTwice(Bitwise(BitAnd, Low32(a), Low32(b), 32));
    case Or => SignExtendTwice(Bitwise(BitOr, Low32(a), Low32(b), 32));
    case Xor => SignExtendTwice(Bitwise(BitXor, Low32(a), Low32(b), 32));
  }

  lemma NarrowShift(op: ShiftOp, a: Word, b: Word)
    ensures op != Shr ==> SignExtend32(I32Shift(op, a, b)) == I32Shift(op, a, b)
    ensures op == Shr ==> I32Shift(op, a, b) < TWO32
  {
    hide SignExtend32, ToI32, Pow2;
    match op
    case Shl => SignExtendTwice(ToI32(a) * Pow2(b % 32));
    case Shr => DivBound(Low32(a), Pow2(b % 32));
    case Sar => SignExtendTwice(ToI32(a) / Pow2(b % 32));
  }

  /** Two words of that kind are equal when their low halves are. */
  lemma PushableEqual(op: byte, v: Word, w: Word)
    requires Pushable(op, v) && Pushable(op, w) && Low32(v) == Low32(w)
    ensures v == w
  {
    hide ToWord;
  }

  /** From the same operands the two readings compute the same word exactly when the machine's is one the interpreter
      could push, and a shift fits. */
  lemma ExactOpIff(op: byte, a: Word, b: Word)
    requires AluOf(op).Some? || ShiftOf(op).Some?
    ensures BinaryWord(Wide, op, a, b) == BinaryWord(Narrow, op, a, b) <==> ExactOp(op, a, b)
  {
    hide Pushable, AluResult, ShiftResult, I32Binary, I32Shift, ShiftFits, Low32;
    NarrowPushable(op, a, b);
    if AluOf(op).Some? { AluAgrees(AluOf(op).value, a, b, a, b); } else { ShiftLow(ShiftOf(op).value, a, b, a, b); }
    assert AluOf(op).Some? ==> ShiftOf(op).None?;
    if ExactOp(op, a, b) { PushableEqual(op, BinaryWord(Wide, op, a, b), BinaryWord(Narrow, op, a, b)); }
  }

  /** At `pc`: not a binary operation, or an exact one. */
  predicate ExactAt(body: seq<byte>, pc: nat, f: Frame)
    requires pc < |body|
  {
    var op, d := body[pc], |f.stack|;
    (AluOf(op).Some? || ShiftOf(op).Some?) && d >= 2 ==> ExactOp(op, f.stack[d - 2], f.stack[d - 1])
  }

  lemma ExactStepIff(body: seq<byte>, pc: nat, f: Frame, room: nat)
    requires pc < |body| && StepOp(Wide, body, pc, f, room).Some?
    ensures StepOp(Narrow, body, pc, f, room) == StepOp(Wide, body, pc, f, room) <==> ExactAt(body, pc, f)
  {
    if AluOf(body[pc]).Some? || ShiftOf(body[pc]).Some? {
      BinaryExactStep(body, pc, f, room);
    } else {
      OtherSame(body, pc, f, room);
    }
  }

  lemma OtherSame(body: seq<byte>, pc: nat, f: Frame, room: nat)
    requires pc < |body| && AluOf(body[pc]).None? && ShiftOf(body[pc]).None?
    ensures StepOp(Narrow, body, pc, f, room) == StepOp(Wide, body, pc, f, room)
  {
  }

  lemma WideNeedsTwo(body: seq<byte>, pc: nat, f: Frame, room: nat)
    requires pc < |body| && (AluOf(body[pc]).Some? || ShiftOf(body[pc]).Some?)
    requires StepOp(Wide, body, pc, f, room).Some?
    ensures |f.stack| >= 2
  {
  }

  lemma BinaryExactStep(body: seq<byte>, pc: nat, f: Frame, room: nat)
    requires pc < |body| && (AluOf(body[pc]).Some? || ShiftOf(body[pc]).Some?)
    requires StepOp(Wide, body, pc, f, room).Some?
    ensures StepOp(Narrow, body, pc, f, room) == StepOp(Wide, body, pc, f, room) <==> ExactAt(body, pc, f)
  {
    hide StepOp, BinaryWord, ExactOp, AluOf, ShiftOf;
    WideNeedsTwo(body, pc, f, room);
    var d := |f.stack|;
    var v, w := BinaryWord(Wide, body[pc], f.stack[d - 2], f.stack[d - 1]),
                BinaryWord(Narrow, body[pc], f.stack[d - 2], f.stack[d - 1]);
    BinaryStepIs(Wide, body, pc, f, room);
    BinaryStepIs(Narrow, body, pc, f, room);
    ExactOpIff(body[pc], f.stack[d - 2], f.stack[d - 1]);
    assert (f.stack[..d - 2] + [v])[d - 2] == v && (f.stack[..d - 2] + [w])[d - 2] == w;
  }

  /** Every binary operation of the wide reading is exact. */
  predicate ExactRun(body: seq<byte>, pc: nat, f: Frame, room: nat)
    decreases |body| - pc
  {
    !AtReturn(body, pc) && StepOp(Wide, body, pc, f, room).Some? ==>
      && ExactAt(body, pc, f)
      && var (g, next) := StepOp(Wide, body, pc, f, room).value; ExactRun(body, next, g, room)
  }

  /** The two readings go through the same frames. */
  predicate SameRun(body: seq<byte>, pc: nat, f: Frame, room: nat)
    decreases |body| - pc
  {
    !AtReturn(body, pc) && StepOp(Wide, body, pc, f, room).Some? ==>
      && StepOp(Narrow, body, pc, f, room) == StepOp(Wide, body, pc, f, room)
      && var (g, next) := StepOp(Wide, body, pc, f, room).value; SameRun(body, next, g, room)
  }

  lemma {:induction false} ExactRunIff(body: seq<byte>, pc: nat, f: Frame, room: nat)
    ensures SameRun(body, pc, f, room) <==> ExactRun(body, pc, f, room)
    decreases |body| - pc
  {
    hide StepOp, ExactAt;
    if !AtReturn(body, pc) && StepOp(Wide, body, pc, f, room).Some? {
      ExactStepIff(body, pc, f, room);
      var (g, next) := StepOp(Wide, body, pc, f, room).value;
      ExactRunIff(body, next, g, room);
    }
  }

  lemma {:induction false} SameRunEnds(body: seq<byte>, pc: nat, f: Frame, results: nat, room: nat)
    requires SameRun(body, pc, f, room) && Interpret(Wide, body, pc, f, results, room).Some?
    ensures Interpret(Narrow, body, pc, f, results, room) == Interpret(Wide, body, pc, f, results, room)
    decreases |body| - pc
  {
    hide StepOp;
    if !AtReturn(body, pc) {
      var (g, next) := StepOp(Wide, body, pc, f, room).value;
      SameRunEnds(body, next, g, results, room);
    }
  }

  /** A compiled function whose wide reading is exact returns the interpreter's word and locals, all 64 bits. */
  lemma ExactPreserved(entry: State, locals: seq<Word>, body: seq<byte>, results: nat, room: nat, rest: seq<byte>)
    requires Layout(entry, room, |locals|) && LocalsAgree(entry, entry.mem, locals)
    requires Jit(body, results).ok && ExactRun(body, 0, Frame([], locals), room)
    requires Interpret(Narrow, body, 0, Frame([], locals), results, room).Some?
    ensures AllEncodable(Jit(body, results).code) && Called(body, results, rest, entry).Some?
    ensures Conforms(entry, Called(body, results, rest, entry).value,
                     Interpret(Narrow, body, 0, Frame([], locals), results, room).value, results, room)
  {
    hide Layout, LocalsAgree, Interpret, ExactRun, SameRun, Jit, AllEncodable, Conforms, Called, ShiftsFit, LowSame;
    JitPreservesMeaning(entry, locals, body, results, room, rest);
    ExactRunIff(body, 0, Frame([], locals), room);
    SameRunEnds(body, 0, Frame([], locals), results, room);
  }
}
