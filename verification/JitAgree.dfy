/** The compiled function against the interpreter: the two readings of a body run side by side. */
module JitAgree {
  import opened Words
  import opened X86
  import opened Leb128
  import opened JitCompile
  import opened JitCorrect
  import opened JitShifts

  // ---- stack safety does not depend on the arithmetic ----------------------------------------------------------

  predicate SameShape(f: Frame, g: Frame) {
    |f.stack| == |g.stack| && |f.locals| == |g.locals|
  }

  lemma StepShape(body: seq<byte>, pc: nat, f: Frame, g: Frame, room: nat)
    requires pc < |body| && SameShape(f, g)
    ensures StepOp(Wide, body, pc, f, room).Some? <==> StepOp(Narrow, body, pc, g, room).Some?
    ensures StepOp(Wide, body, pc, f, room).Some? ==>
              var (f', next) := StepOp(Wide, body, pc, f, room).value;
              var (g', next') := StepOp(Narrow, body, pc, g, room).value;
              next == next' && SameShape(f', g')
  {
    hide ReadI32, ReadU32, ReadI64, Arithmetic, Shifted;
  }

  /** A body returns under one reading if and only if it does under the other, with equally many operands. */
  lemma {:induction false} SameSafety(body: seq<byte>, pc: nat, f: Frame, g: Frame, results: nat, room: nat)
    requires SameShape(f, g)
    ensures Interpret(Wide, body, pc, f, results, room).Some? <==> Interpret(Narrow, body, pc, g, results, room).Some?
    ensures Interpret(Wide, body, pc, f, results, room).Some? ==>
              SameShape(Interpret(Wide, body, pc, f, results, room).value,
                        Interpret(Narrow, body, pc, g, results, room).value)
    decreases |body| - pc
  {
    hide StepOp;
    if !AtReturn(body, pc) {
      StepShape(body, pc, f, g, room);
      if StepOp(Wide, body, pc, f, room).Some? {
        var (f', next) := StepOp(Wide, body, pc, f, room).value;
        SameSafety(body, next, f', StepOp(Narrow, body, pc, g, room).value.0, results, room);
      }
    }
  }

  // ---- low halves in step ------------------------------------------------------------------------------------

  predicate LowSame(f: Frame, g: Frame) {
    && SameShape(f, g)
    && (forall i :: 0 <= i < |f.stack| ==> Low32(f.stack[i]) == Low32(g.stack[i]))
    && (forall j :: 0 <= j < |f.locals| ==> Low32(f.locals[j]) == Low32(g.locals[j]))
  }

  /** The exact condition under which a machine shift of `a` keeps the low half of the interpreter's shift of `x`, both
      by the count `y`. */
  predicate ShiftFits(op: ShiftOp, a: Word, x: Word, y: Word) {
    match op
    case Shl => y % 64 < 32 || Low32(x * Pow2(y % 32)) == 0
    case Shr =>
      if y % 64 < 32 then (a / TWO32) % Pow2(y % 32) == 0
      else (a / TWO32) / Pow2(y % 32) == Low32(a) / Pow2(y % 32)
    case Sar =>
      if y % 64 < 32 then ((Signed64(a) - ToI32(x)) / TWO32) % Pow2(y % 32) == 0
      else (Signed64(a) / TWO32) / Pow2(y % 32) == ToI32(x) / Pow2(y % 32)
  }

  /** The instruction at `pc` is no shift, or one that fits its operands. */
  predicate Fits(body: seq<byte>, pc: nat, f: Frame, g: Frame)
    requires pc < |body| && SameShape(f, g)
  {
    var d := |f.stack|;
    ShiftOf(body[pc]).Some? && d >= 2 ==>
      ShiftFits(ShiftOf(body[pc]).value, f.stack[d - 2], g.stack[d - 2], g.stack[d - 1])
  }

  lemma ShiftLow(op: ShiftOp, a: Word, b: Word, x: Word, y: Word)
    requires Low32(a) == Low32(x) && Low32(b) == Low32(y)
    ensures Low32(ShiftResult(op, a, b)) == Low32(I32Shift(op, x, y)) <==> ShiftFits(op, a, x, y)
  {
    match op
    case Shl => ShlAgrees(a, b, x, y);
    case Shr => ShrAgrees(a, b, x, y);
    case Sar => SarAgrees(a, b, x, y);
  }

  lemma BinaryLow(body: seq<byte>, pc: nat, f: Frame, g: Frame, room: nat)
    requires pc < |body| && LowSame(f, g) && |f.stack| >= 2
    requires AluOf(body[pc]).Some? || ShiftOf(body[pc]).Some?
    ensures StepOp(Wide, body, pc, f, room).Some? && StepOp(Narrow, body, pc, g, room).Some?
    ensures LowSame(StepOp(Wide, body, pc, f, room).value.0, StepOp(Narrow, body, pc, g, room).value.0)
            <==> Fits(body, pc, f, g)
  {
    var d := |f.stack|;
    var a, b, x, y := f.stack[d - 2], f.stack[d - 1], g.stack[d - 2], g.stack[d - 1];
    var v, w := BinaryWord(Wide, body[pc], a, b), BinaryWord(Narrow, body[pc], x, y);
    BinaryStepIs(Wide, body, pc, f, room);
    BinaryStepIs(Narrow, body, pc, g, room);
    if AluOf(body[pc]).Some? { AluAgrees(AluOf(body[pc]).value, a, b, x, y); }
    else { ShiftLow(ShiftOf(body[pc]).value, a, b, x, y); }
    assert AluOf(body[pc]).Some? ==> ShiftOf(body[pc]).None?;
    hide StepOp, AluResult, ShiftResult, I32Binary, I32Shift, ShiftFits, AluOf, ShiftOf;
    ReplacedTop(f, g, v, w);
  }

  lemma BinaryStepIs(m: Mode, body: seq<byte>, pc: nat, f: Frame, room: nat)
    requires pc < |body| && |f.stack| >= 2 && (AluOf(body[pc]).Some? || ShiftOf(body[pc]).Some?)
    ensures var d := |f.stack|;
            StepOp(m, body, pc, f, room)
            == Some((f.(stack := f.stack[..d - 2] + [BinaryWord(m, body[pc], f.stack[d - 2], f.stack[d - 1])]), pc + 1))
  {
    hide ReadI32, ReadU32, ReadI64, Arithmetic, Shifted;
  }

  lemma ReplacedTop(f: Frame, g: Frame, v: Word, w: Word)
    requires LowSame(f, g) && |f.stack| >= 2
    ensures var d := |f.stack|;
            LowSame(f.(stack := f.stack[..d - 2] + [v]), g.(stack := g.stack[..d - 2] + [w])) <==> Low32(v) == Low32(w)
  {
    hide Low32;
    var d := |f.stack|;
    var s, t := f.stack[..d - 2] + [v], g.stack[..d - 2] + [w];
    assert s[d - 2] == v && t[d - 2] == w;
  }

  /** Frames that agree in their low halves still agree after one instruction if and only if it fits. */
  lemma StepLow(body: seq<byte>, pc: nat, f: Frame, g: Frame, room: nat)
    requires pc < |body| && LowSame(f, g) && StepOp(Narrow, body, pc, g, room).Some?
    ensures StepOp(Wide, body, pc, f, room).Some?
    ensures LowSame(StepOp(Wide, body, pc, f, room).value.0, StepOp(Narrow, body, pc, g, room).value.0)
            <==> Fits(body, pc, f, g)
  {
    StepShape(body, pc, f, g, room);
    if AluOf(body[pc]).Some? || ShiftOf(body[pc]).Some? {
      assert |f.stack| >= 2 by { BinaryNeedsTwo(body, pc, g, room); }
      BinaryLow(body, pc, f, g, room);
    } else {
      OtherLow(body, pc, f, g, room);
    }
  }

  lemma BinaryNeedsTwo(body: seq<byte>, pc: nat, f: Frame, room: nat)
    requires pc < |body| && (AluOf(body[pc]).Some? || ShiftOf(body[pc]).Some?)
    requires StepOp(Narrow, body, pc, f, room).Some?
    ensures |f.stack| >= 2
  {
    hide ReadI32, ReadU32, ReadI64;
  }

  lemma OtherLow(body: seq<byte>, pc: nat, f: Frame, g: Frame, room: nat)
    requires pc < |body| && LowSame(f, g) && AluOf(body[pc]).None? && ShiftOf(body[pc]).None?
    requires StepOp(Wide, body, pc, f, room).Some? && StepOp(Narrow, body, pc, g, room).Some?
    ensures LowSame(StepOp(Wide, body, pc, f, room).value.0, StepOp(Narrow, body, pc, g, room).value.0)
  {
    hide ReadI32, ReadU32, ReadI64, Low32, Arithmetic, Shifted;
  }

  /** The readings agree in their low halves before every instruction and at the return. */
  predicate InStep(body: seq<byte>, pc: nat, f: Frame, g: Frame, room: nat)
    decreases |body| - pc
  {
    && LowSame(f, g)
    && (!AtReturn(body, pc) && StepOp(Wide, body, pc, f, room).Some? && StepOp(Narrow, body, pc, g, room).Some? ==>
          var (f', next) := StepOp(Wide, body, pc, f, room).value;
          InStep(body, next, f', StepOp(Narrow, body, pc, g, room).value.0, room))
  }

  /** Every shift executed fits. */
  predicate ShiftsFit(body: seq<byte>, pc: nat, f: Frame, g: Frame, room: nat)
    decreases |body| - pc
  {
    var a, b := if AtReturn(body, pc) then None else StepOp(Wide, body, pc, f, room),
                if AtReturn(body, pc) then None else StepOp(Narrow, body, pc, g, room);
    SameShape(f, g) && a.Some? && b.Some? ==>
      Fits(body, pc, f, g) && ShiftsFit(body, a.value.1, a.value.0, b.value.0, room)
  }

  /** From frames with equal low halves the two readings stay in step if and only if every shift executed fits. */
  lemma {:induction false} InStepIff(body: seq<byte>, pc: nat, f: Frame, g: Frame, room: nat)
    requires LowSame(f, g)
    ensures InStep(body, pc, f, g, room) <==> ShiftsFit(body, pc, f, g, room)
    decreases |body| - pc
  {
    hide StepOp, Fits;
    if !AtReturn(body, pc) && StepOp(Wide, body, pc, f, room).Some? && StepOp(Narrow, body, pc, g, room).Some? {
      StepLow(body, pc, f, g, room);
      var (f', next) := StepOp(Wide, body, pc, f, room).value;
      var g' := StepOp(Narrow, body, pc, g, room).value.0;
      if LowSame(f', g') { InStepIff(body, next, f', g', room); }
    }
  }

  lemma {:induction false} InStepEnds(body: seq<byte>, pc: nat, f: Frame, g: Frame, results: nat, room: nat)
    requires InStep(body, pc, f, g, room) && Interpret(Narrow, body, pc, g, results, room).Some?
    ensures Interpret(Wide, body, pc, f, results, room).Some?
    ensures LowSame(Interpret(Wide, body, pc, f, results, room).value,
                    Interpret(Narrow, body, pc, g, results, room).value)
    decreases |body| - pc
  {
    hide StepOp;
    SameSafety(body, pc, f, g, results, room);
    if !AtReturn(body, pc) {
      StepShape(body, pc, f, g, room);
      var (f', next) := StepOp(Wide, body, pc, f, room).value;
      InStepEnds(body, next, f', StepOp(Narrow, body, pc, g, room).value.0, results, room);
    }
  }

  // ---- the compiled function --------------------------------------------------------------------------------

  /** What a call of the compiled bytes returns, `None` if it does not return. */
  function Called(body: seq<byte>, results: nat, rest: seq<byte>, entry: State): Option<Returned>
    requires AllEncodable(Jit(body, results).code)
  {
    Run(EncodeAll(Jit(body, results).code) + rest, entry)
  }

  /** The compiled function against the interpreter, shifts included. For every accepted body whose interpretation
      returns, calling the emitted bytes returns exactly the result word and the locals of the wide reading; and when
      every shift executed fits, these have the interpreter's low halves. */
  lemma JitPreservesMeaning(entry: State, locals: seq<Word>, body: seq<byte>, results: nat, room: nat, rest: seq<byte>)
    requires Layout(entry, room, |locals|) && LocalsAgree(entry, entry.mem, locals)
    requires Jit(body, results).ok
    requires Interpret(Narrow, body, 0, Frame([], locals), results, room).Some?
    ensures AllEncodable(Jit(body, results).code) && Called(body, results, rest, entry).Some?
    ensures Interpret(Wide, body, 0, Frame([], locals), results, room).Some?
    ensures var r := Called(body, results, rest, entry).value;
            var w := Interpret(Wide, body, 0, Frame([], locals), results, room).value;
            var x := Interpret(Narrow, body, 0, Frame([], locals), results, room).value;
            && Conforms(entry, r, w, results, room) && SameShape(w, x)
            && (results == 1 ==> x.stack != [] && r.state.regs[RAX] == w.stack[|x.stack| - 1])
            && (ShiftsFit(body, 0, Frame([], locals), Frame([], locals), room) ==> LowSame(w, x))
  {
    var f := Frame([], locals);
    hide Layout, LocalsAgree, Run, Interpret, ShiftsFit, InStep, Jit, EncodeAll, AllEncodable, LowSame;
    SameSafety(body, 0, f, f, results, room);
    CompiledRunsWide(entry, locals, body, results, room, rest);
    assert LowSame(f, f) by { LowSelf(f); }
    InStepIff(body, 0, f, f, room);
    if ShiftsFit(body, 0, f, f, room) { InStepEnds(body, 0, f, f, results, room); }
  }

  lemma LowSelf(f: Frame)
    ensures LowSame(f, f)
  {
  }

  /** No instruction from `pc` on is a shift. */
  predicate ShiftFree(body: seq<byte>, pc: nat)
    decreases |body| - pc
  {
    !AtReturn(body, pc) ==>
      && ShiftOf(body[pc]).None?
      && (Translate(body, pc).Some? ==> ShiftFree(body, Translate(body, pc).value.1))
  }

  lemma SameNext(m: Mode, body: seq<byte>, pc: nat, f: Frame, room: nat)
    requires pc < |body| && StepOp(m, body, pc, f, room).Some?
    ensures Translate(body, pc).Some? && Translate(body, pc).value.1 == StepOp(m, body, pc, f, room).value.1
  {
    hide ReadI32, ReadU32, ReadI64, BinaryWord, LocalCode, BinaryCode, LocalOffset;
  }

  /** A body without shift instructions never fails to fit, whatever its immediates. */
  lemma {:induction false} NoShiftsFit(body: seq<byte>, pc: nat, f: Frame, g: Frame, room: nat)
    requires ShiftFree(body, pc)
    ensures ShiftsFit(body, pc, f, g, room)
    decreases |body| - pc
  {
    hide StepOp, Translate;
    if !AtReturn(body, pc) && SameShape(f, g) && StepOp(Wide, body, pc, f, room).Some?
       && StepOp(Narrow, body, pc, g, room).Some? {
      SameNext(Wide, body, pc, f, room);
      var (f', next) := StepOp(Wide, body, pc, f, room).value;
      NoShiftsFit(body, next, f', StepOp(Narrow, body, pc, g, room).value.0, room);
    }
  }

  /** For every accepted body over constants, locals, addition, subtraction, multiplication, the bitwise operations,
      drop and nop, whose interpretation returns, the compiled function returns the interpreter's result and locals
      modulo 2^32. */
  lemma ShiftFreePreserved(entry: State, locals: seq<Word>, body: seq<byte>, results: nat, room: nat, rest: seq<byte>)
    requires Layout(entry, room, |locals|) && LocalsAgree(entry, entry.mem, locals)
    requires Jit(body, results).ok && ShiftFree(body, 0)
    requires Interpret(Narrow, body, 0, Frame([], locals), results, room).Some?
    ensures AllEncodable(Jit(body, results).code) && Called(body, results, rest, entry).Some?
    ensures Interpret(Wide, body, 0, Frame([], locals), results, room).Some?
    ensures var r := Called(body, results, rest, entry).value;
            var w := Interpret(Wide, body, 0, Frame([], locals), results, room).value;
            var x := Interpret(Narrow, body, 0, Frame([], locals), results, room).value;
            && Conforms(entry, r, w, results, room) && LowSame(w, x)
            && (results == 1 ==> x.stack != [] && Low32(r.state.regs[RAX]) == Low32(x.stack[|x.stack| - 1]))
  {
    hide Layout, LocalsAgree, Run, Interpret, ShiftsFit, ShiftFree, Jit, EncodeAll, AllEncodable, Conforms, Called;
    JitPreservesMeaning(entry, locals, body, results, room, rest);
    NoShiftsFit(body, 0, Frame([], locals), Frame([], locals), room);
  }
}
