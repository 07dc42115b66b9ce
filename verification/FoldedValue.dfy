/** From a folded arithmetic expression to its value: the assembled bytes push exactly what the tree means, in the
    interpreter's 32-bit reading and in the 64-bit reading that the machine code computes. */
module FoldedValue {
  import opened Words
  import opened Leb128
  import opened Opcode
  import E = Emitter
  import F = Folded
  import B = Bytes
  import R = RoundTrip
  import C = JitCompile
  import J = JitCorrect
  import X = X86
  import S = JitShifts

  /** Trees over `i32.const`, `local.get` and the binary i32 operators, with `n` locals. */
  predicate Arith(e: F.Expr, n: nat) {
    e.Apply?
    && match e.op
       case Cst(op, v, _) => op == I32_CONST && -TWO31 <= v < TWO31 && e.args.Nil?
       case Idx(op, i, _) => op == LOCAL_GET && i < n && e.args.Nil?
       case NoImm(op) =>
         && (C.AluOf(op).Some? || C.ShiftOf(op).Some?)
         && e.args.Cons? && e.args.tail.Cons? && e.args.tail.tail.Nil?
         && Arith(e.args.head, n) && Arith(e.args.tail.head, n)
       case Mem(_, _, _, _) => false
  }

  /** What the tree means under either reading. */
  function Value(m: J.Mode, e: F.Expr, locals: seq<Word>): Word
    requires Arith(e, |locals|)
  {
    match e.op
    case Cst(_, v, _) => ToWord(v)
    case Idx(_, i, _) => locals[i]
    case NoImm(op) => J.BinaryWord(m, op, Value(m, e.args.head, locals), Value(m, e.args.tail.head, locals))
  }

  /** Operand stack the evaluation needs. */
  function Need(e: F.Expr): nat
    requires e.Apply?
    decreases e
  {
    if e.args.Cons? && e.args.head.Apply? && e.args.tail.Cons? && e.args.tail.head.Apply? then
      var a, b := Need(e.args.head), 1 + Need(e.args.tail.head);
      if a < b then b else a
    else 1
  }

  predicate NoShifts(e: F.Expr)
    requires e.Apply?
    decreases e
  {
    && (e.op.NoImm? ==> C.ShiftOf(e.op.op).None?)
    && (e.args.Cons? && e.args.head.Apply? ==> NoShifts(e.args.head))
    && (e.args.Cons? && e.args.tail.Cons? && e.args.tail.head.Apply? ==> NoShifts(e.args.tail.head))
  }

  function Code(e: F.Expr): seq<byte> {
    E.Concat(E.InstrBytes, F.Post(e))
  }

  // ---- code of a tree --------------------------------------------------------------------------------------

  lemma {:induction false} ConcatAppend<T>(f: T -> seq<byte>, xs: seq<T>, ys: seq<T>)
    ensures E.Concat(f, xs + ys) == E.Concat(f, xs) + E.Concat(f, ys)
    decreases |ys|
  {
    if ys == [] {
      assert xs + ys == xs;
      assert E.Concat(f, xs) + [] == E.Concat(f, xs);
    } else {
      var n := |ys| - 1;
      assert xs + ys == (xs + ys[..n]) + [ys[n]];
      E.ConcatSnoc(f, xs + ys[..n], ys[n]);
      ConcatAppend(f, xs, ys[..n]);
      E.Assoc(E.Concat(f, xs), E.Concat(f, ys[..n]), f(ys[n]));
    }
  }

  lemma LeafCode(e: F.Expr)
    requires e.Apply? && e.args.Nil?
    ensures Code(e) == E.InstrBytes(F.OpInstr(e.op))
  {
    var i := F.OpInstr(e.op);
    assert F.Post(e) == [i];
    assert [i][..0] == [];
    assert E.Concat(E.InstrBytes, [i]) == [] + E.InstrBytes(i);
  }

  lemma PostBinary(op: byte, a: F.Expr, b: F.Expr)
    ensures F.Post(F.Apply(F.NoImm(op), F.Cons(a, F.Cons(b, F.Nil)))) == F.Post(a) + F.Post(b) + [E.Simple(op)]
  {
    assert F.PostArgs(F.Cons(b, F.Nil)) == F.Post(b) + F.PostArgs(F.Nil) == F.Post(b);
    assert F.PostArgs(F.Cons(a, F.Cons(b, F.Nil))) == F.Post(a) + F.Post(b);
  }

  lemma BinaryCode(op: byte, a: F.Expr, b: F.Expr)
    ensures Code(F.Apply(F.NoImm(op), F.Cons(a, F.Cons(b, F.Nil)))) == Code(a) + (Code(b) + [op])
  {
    var e := F.Apply(F.NoImm(op), F.Cons(a, F.Cons(b, F.Nil)));
    var i := E.Simple(op);
    PostBinary(op, a, b);
    hide F.Post;
    ConcatAppend(E.InstrBytes, F.Post(a) + F.Post(b), [i]);
    ConcatAppend(E.InstrBytes, F.Post(a), F.Post(b));
    assert [i][..0] == [];
    assert E.Concat(E.InstrBytes, [i]) == [] + E.InstrBytes(i) == [op];
    E.Assoc(Code(a), Code(b), [op]);
  }

  // ---- one instruction ---------------------------------------------------------------------------------------

  /** Reading `m` and the compiler pass over the bytes from `pc` to `next` in step, from frame `f` to `g`. */
  ghost predicate Passes(m: J.Mode, body: seq<byte>, pc: nat, f: J.Frame, next: nat, g: J.Frame, room: nat) {
    && (forall results: nat ::
          J.Interpret(m, body, pc, f, results, room) == J.Interpret(m, body, next, g, results, room))
    && (forall results: nat :: C.CompileFrom(body, pc, results).ok == C.CompileFrom(body, next, results).ok)
  }

  lemma PassOne(m: J.Mode, body: seq<byte>, pc: nat, f: J.Frame, next: nat, g: J.Frame, room: nat)
    requires pc < |body| && !J.AtReturn(body, pc) && J.StepOp(m, body, pc, f, room) == Some((g, next))
    requires C.Translate(body, pc).Some? && C.Translate(body, pc).value.1 == next
    ensures Passes(m, body, pc, f, next, g, room)
  {
    hide J.StepOp, C.Translate;
  }

  lemma PassTwo(m: J.Mode, body: seq<byte>, pc: nat, f: J.Frame, mid: nat, g: J.Frame, next: nat, h: J.Frame, room: nat)
    requires Passes(m, body, pc, f, mid, g, room) && Passes(m, body, mid, g, next, h, room)
    ensures Passes(m, body, pc, f, next, h, room)
  {
    hide J.Interpret, C.CompileFrom;
  }

  lemma ConstPasses(m: J.Mode, body: seq<byte>, pc: nat, v: int, f: J.Frame, room: nat)
    requires -TWO31 <= v < TWO31 && B.At(body, pc, [I32_CONST] + WriteI32(v)) && |f.stack| < room
    ensures Passes(m, body, pc, f, pc + 1 + |WriteI32(v)|, f.(stack := f.stack + [ToWord(v)]), room)
  {
    B.AtSplit(body, pc, [I32_CONST], WriteI32(v));
    B.AtOne(body, pc, I32_CONST);
    var rest := body[pc + 1 + |WriteI32(v)|..];
    assert body[pc + 1..] == WriteI32(v) + rest;
    I32RoundTrip(v, rest);
    hide WriteI32, ReadI32, ReadI64;
    PassOne(m, body, pc, f, pc + 1 + |WriteI32(v)|, f.(stack := f.stack + [ToWord(v)]), room);
  }

  lemma LocalPasses(m: J.Mode, body: seq<byte>, pc: nat, i: u32, f: J.Frame, room: nat)
    requires B.At(body, pc, [LOCAL_GET] + WriteU32(i)) && |f.stack| < room && i < |f.locals|
    ensures Passes(m, body, pc, f, pc + 1 + |WriteU32(i)|, f.(stack := f.stack + [f.locals[i]]), room)
  {
    B.AtSplit(body, pc, [LOCAL_GET], WriteU32(i));
    B.AtOne(body, pc, LOCAL_GET);
    var rest := body[pc + 1 + |WriteU32(i)|..];
    assert body[pc + 1..] == WriteU32(i) + rest;
    U32RoundTrip(i, rest);
    hide WriteU32, ReadU32;
    PassOne(m, body, pc, f, pc + 1 + |WriteU32(i)|, f.(stack := f.stack + [f.locals[i]]), room);
  }

  lemma BinaryPasses(m: J.Mode, body: seq<byte>, pc: nat, op: byte, f: J.Frame, a: Word, b: Word, room: nat)
    requires B.At(body, pc, [op]) && (C.AluOf(op).Some? || C.ShiftOf(op).Some?)
    ensures Passes(m, body, pc, f.(stack := f.stack + [a] + [b]), pc + 1,
                   f.(stack := f.stack + [J.BinaryWord(m, op, a, b)]), room)
  {
    B.AtOne(body, pc, op);
    hide J.StepOp, C.Translate, Passes, J.BinaryWord, B.At;
    BinaryStep(m, body, pc, f, a, b, room);
    BinaryTranslated(body, pc);
    PassOne(m, body, pc, f.(stack := f.stack + [a] + [b]), pc + 1, f.(stack := f.stack + [J.BinaryWord(m, op, a, b)]),
            room);
  }

  lemma BinaryStep(m: J.Mode, body: seq<byte>, pc: nat, f: J.Frame, a: Word, b: Word, room: nat)
    requires pc < |body| && (C.AluOf(body[pc]).Some? || C.ShiftOf(body[pc]).Some?)
    ensures J.StepOp(m, body, pc, f.(stack := f.stack + [a] + [b]), room)
            == Some((f.(stack := f.stack + [J.BinaryWord(m, body[pc], a, b)]), pc + 1))
  {
    var s := f.stack + [a] + [b];
    assert s[..|s| - 2] == f.stack;
    hide J.Arithmetic, J.Shifted, ReadI32, ReadU32, ReadI64;
  }

  lemma BinaryTranslated(body: seq<byte>, pc: nat)
    requires pc < |body| && (C.AluOf(body[pc]).Some? || C.ShiftOf(body[pc]).Some?)
    ensures !J.AtReturn(body, pc)
    ensures C.Translate(body, pc).Some? && C.Translate(body, pc).value.1 == pc + 1
  {
    hide ReadI32, ReadU32, ReadI64;
  }

  // ---- whole trees -------------------------------------------------------------------------------------------

  /** Executing the code of a tree pushes exactly its value and changes nothing else. */
  lemma {:induction false} TreePasses(m: J.Mode, body: seq<byte>, pc: nat, e: F.Expr, f: J.Frame, room: nat)
    requires Arith(e, |f.locals|) && B.At(body, pc, Code(e)) && |f.stack| + Need(e) <= room
    ensures Passes(m, body, pc, f, pc + |Code(e)|, f.(stack := f.stack + [Value(m, e, f.locals)]), room)
    decreases e, 1
  {
    if e.args.Nil? { LeafPasses(m, body, pc, e, f, room); } else { BinaryTreePasses(m, body, pc, e, f, room); }
  }

  lemma LeafPasses(m: J.Mode, body: seq<byte>, pc: nat, e: F.Expr, f: J.Frame, room: nat)
    requires Arith(e, |f.locals|) && e.args.Nil? && B.At(body, pc, Code(e)) && |f.stack| < room
    ensures Passes(m, body, pc, f, pc + |Code(e)|, f.(stack := f.stack + [Value(m, e, f.locals)]), room)
  {
    hide Passes, Code, B.At, WriteI32, WriteU32;
    LeafCode(e);
    if e.op.Cst? { ConstPasses(m, body, pc, e.op.v, f, room); } else { LocalPasses(m, body, pc, e.op.i, f, room); }
  }

  lemma {:induction false} BinaryTreePasses(m: J.Mode, body: seq<byte>, pc: nat, e: F.Expr, f: J.Frame, room: nat)
    requires Arith(e, |f.locals|) && e.op.NoImm? && B.At(body, pc, Code(e)) && |f.stack| + Need(e) <= room
    ensures Passes(m, body, pc, f, pc + |Code(e)|, f.(stack := f.stack + [Value(m, e, f.locals)]), room)
    decreases e, 0
  {
    hide *;
    BinaryParts(m, e, f.locals);
    var op, a, b := e.op.op, e.args.head, e.args.tail.head;
    var va, vb := Value(m, a, f.locals), Value(m, b, f.locals);
    BinaryCode(op, a, b);
    var p1, p2 := pc + |Code(a)|, pc + |Code(a)| + |Code(b)|;
    B.AtSplit(body, pc, Code(a), Code(b) + [op]);
    B.AtSplit(body, p1, Code(b), [op]);
    TreePasses(m, body, pc, a, f, room);
    TreePasses(m, body, p1, b, f.(stack := f.stack + [va]), room);
    JoinOperands(m, body, pc, p1, p2, op, f, va, vb, room);
  }

  lemma BinaryParts(m: J.Mode, e: F.Expr, locals: seq<Word>)
    requires Arith(e, |locals|) && e.op.NoImm?
    ensures C.AluOf(e.op.op).Some? || C.ShiftOf(e.op.op).Some?
    ensures e.args.Cons? && e.args.tail.Cons?
    ensures var op, a, b := e.op.op, e.args.head, e.args.tail.head;
            && e == F.Apply(F.NoImm(op), F.Cons(a, F.Cons(b, F.Nil)))
            && Arith(a, |locals|) && Arith(b, |locals|) && a.Apply? && b.Apply?
            && Need(a) <= Need(e) && 1 + Need(b) <= Need(e)
            && Value(m, e, locals) == J.BinaryWord(m, op, Value(m, a, locals), Value(m, b, locals))
  {
    hide J.BinaryWord;
  }

  lemma JoinOperands(m: J.Mode, body: seq<byte>, pc: nat, p1: nat, p2: nat, op: byte, f: J.Frame, a: Word, b: Word,
                     room: nat)
    requires B.At(body, p2, [op]) && (C.AluOf(op).Some? || C.ShiftOf(op).Some?)
    requires Passes(m, body, pc, f, p1, f.(stack := f.stack + [a]), room)
    requires Passes(m, body, p1, f.(stack := f.stack + [a]), p2, f.(stack := f.stack + [a] + [b]), room)
    ensures Passes(m, body, pc, f, p2 + 1, f.(stack := f.stack + [J.BinaryWord(m, op, a, b)]), room)
  {
    hide Passes, J.BinaryWord, B.At;
    var f2 := f.(stack := f.stack + [a] + [b]);
    BinaryPasses(m, body, p2, op, f, a, b, room);
    PassTwo(m, body, pc, f, p1, f.(stack := f.stack + [a]), p2, f2, room);
    PassTwo(m, body, pc, f, p2, f2, p2 + 1, f.(stack := f.stack + [J.BinaryWord(m, op, a, b)]), room);
  }

  /** A function whose body is the folded expression returns its value, under either reading. */
  lemma FunctionValue(m: J.Mode, e: F.Expr, locals: seq<Word>, room: nat)
    requires Arith(e, |locals|) && Need(e) <= room
    ensures J.Interpret(m, Code(e) + [END], 0, J.Frame([], locals), 1, room)
            == Some(J.Frame([Value(m, e, locals)], locals))
    ensures C.CompileFrom(Code(e) + [END], 0, 1).ok
  {
    var body := Code(e) + [END];
    var f := J.Frame([], locals);
    R.AtWhole(body);
    B.AtSplit(body, 0, Code(e), [END]);
    TreePasses(m, body, 0, e, f, room);
    assert f.stack + [Value(m, e, locals)] == [Value(m, e, locals)];
    var g := J.Frame([Value(m, e, locals)], locals);
    hide J.StepOp, C.Translate, Code, Value;
    assert body[|Code(e)|] == END;
    assert J.Interpret(m, body, |Code(e)|, g, 1, room) == Some(g);
    assert C.CompileFrom(body, |Code(e)|, 1).ok;
  }

  /** Source text to machine code: the bytes compiled for a folded expression, shifts included, return in RAX exactly
      the tree's 64-bit value, under the calling convention. */
  lemma CompiledValue(e: F.Expr, entry: X.State, locals: seq<Word>, room: nat, rest: seq<byte>)
    requires Arith(e, |locals|) && Need(e) <= room
    requires J.Layout(entry, room, |locals|) && J.LocalsAgree(entry, entry.mem, locals)
    ensures var code := C.Jit(Code(e) + [END], 1).code;
            && X.AllEncodable(code)
            && var r := X.Run(X.EncodeAll(code) + rest, entry);
               && r.Some?
               && J.Conforms(entry, r.value, J.Frame([Value(J.Wide, e, locals)], locals), 1, room)
               && r.value.state.regs[X.RAX] == Value(J.Wide, e, locals)
  {
    FunctionValue(J.Wide, e, locals, room);
    hide J.Layout, J.LocalsAgree, X.Run, J.Interpret, C.CompileFrom, Code, Value, Need, Arith;
    J.CompiledRunsWide(entry, locals, Code(e) + [END], 1, room, rest);
  }

  /** Without shifts the two values have the same low half. */
  lemma {:induction false} ValuesAgree(e: F.Expr, locals: seq<Word>)
    requires Arith(e, |locals|) && NoShifts(e)
    ensures Low32(Value(J.Wide, e, locals)) == Low32(Value(J.Narrow, e, locals))
    decreases e
  {
    if e.op.NoImm? {
      var a, b := e.args.head, e.args.tail.head;
      ValuesAgree(a, locals);
      ValuesAgree(b, locals);
      S.AluAgrees(C.AluOf(e.op.op).value, Value(J.Wide, a, locals), Value(J.Wide, b, locals),
                  Value(J.Narrow, a, locals), Value(J.Narrow, b, locals));
      hide X.AluResult, J.I32Binary;
    }
  }

  // ---- bodies on which the readings part ----------------------------------------------------------------------

  function Lit(v: int): F.Expr {
    F.Apply(F.Cst(I32_CONST, v, true), F.Nil)
  }

  function Bin(op: byte, a: F.Expr, b: F.Expr): F.Expr {
    F.Apply(F.NoImm(op), F.Cons(a, F.Cons(b, F.Nil)))
  }

  lemma LitValue(m: J.Mode, v: int)
    requires -TWO31 <= v < TWO31
    ensures Arith(Lit(v), 0) && Value(m, Lit(v), []) == ToWord(v)
  {
  }

  lemma BinValue(m: J.Mode, op: byte, a: F.Expr, b: F.Expr)
    requires Arith(a, 0) && Arith(b, 0) && (C.AluOf(op).Some? || C.ShiftOf(op).Some?)
    ensures Arith(Bin(op, a, b), 0)
    ensures Value(m, Bin(op, a, b), []) == J.BinaryWord(m, op, Value(m, a, []), Value(m, b, []))
  {
    hide J.BinaryWord;
  }

  /** (i32.shr_u (i32.const -1) (i32.const 1)): the machine word keeps its high bits. */
  lemma ShrBodyDiffers()
    ensures var e := Bin(I32_SHR_U, Lit(-1), Lit(1));
            && Arith(e, 0) && Low32(Value(J.Wide, e, [])) == 0xFFFF_FFFF && Low32(Value(J.Narrow, e, [])) == 0x7FFF_FFFF
  {
    LitValue(J.Wide, -1); LitValue(J.Wide, 1); LitValue(J.Narrow, -1); LitValue(J.Narrow, 1);
    BinValue(J.Wide, I32_SHR_U, Lit(-1), Lit(1));
    BinValue(J.Narrow, I32_SHR_U, Lit(-1), Lit(1));
    S.ShrDiffers();
    hide X.ShiftResult, J.I32Shift, Value, Arith;
  }

  /** (i32.shl (i32.const 1) (i32.const 32)): shifted by 32 against shifted by 0. */
  lemma ShlBodyDiffers()
    ensures var e := Bin(I32_SHL, Lit(1), Lit(32));
            Arith(e, 0) && Low32(Value(J.Wide, e, [])) == 0 && Low32(Value(J.Narrow, e, [])) == 1
  {
    LitValue(J.Wide, 1); LitValue(J.Wide, 32); LitValue(J.Narrow, 1); LitValue(J.Narrow, 32);
    BinValue(J.Wide, I32_SHL, Lit(1), Lit(32));
    BinValue(J.Narrow, I32_SHL, Lit(1), Lit(32));
    S.ShlDiffers();
    hide X.ShiftResult, J.I32Shift, Value, Arith;
  }

  /** (i32.shr_s (i32.add (i32.const 0x7FFFFFFF) (i32.const 1)) (i32.const 1)): the sum has no sign in 64 bits. */
  lemma SarBodyDiffers()
    ensures var e := Bin(I32_SHR_S, Bin(I32_ADD, Lit(0x7FFF_FFFF), Lit(1)), Lit(1));
            Arith(e, 0) && Low32(Value(J.Wide, e, [])) != Low32(Value(J.Narrow, e, []))
  {
    var sum := Bin(I32_ADD, Lit(0x7FFF_FFFF), Lit(1));
    LitValue(J.Wide, 0x7FFF_FFFF); LitValue(J.Wide, 1); LitValue(J.Narrow, 0x7FFF_FFFF); LitValue(J.Narrow, 1);
    BinValue(J.Wide, I32_ADD, Lit(0x7FFF_FFFF), Lit(1));
    BinValue(J.Narrow, I32_ADD, Lit(0x7FFF_FFFF), Lit(1));
    BinValue(J.Wide, I32_SHR_S, sum, Lit(1));
    BinValue(J.Narrow, I32_SHR_S, sum, Lit(1));
    S.SumSigns();
    S.SarDiffers();
    hide X.ShiftResult, J.I32Shift, X.AluResult, J.I32Binary, Value, Arith;
  }

  /** (i32.add (i32.const -0x80000000) (i32.const -0x80000000)): equal low halves, but the machine word is not zero, so
      a test of all 64 bits takes the other branch. */
  lemma SumBodyDiffers()
    ensures var e := Bin(I32_ADD, Lit(-0x8000_0000), Lit(-0x8000_0000));
            && Arith(e, 0) && Value(J.Narrow, e, []) == 0
            && Value(J.Wide, e, []) == 0xFFFF_FFFF_0000_0000 && Low32(Value(J.Wide, e, [])) == 0
  {
    var k := Lit(-0x8000_0000);
    LitValue(J.Wide, -0x8000_0000); LitValue(J.Narrow, -0x8000_0000);
    BinValue(J.Wide, I32_ADD, k, k);
    BinValue(J.Narrow, I32_ADD, k, k);
    hide Value, Arith;
  }
}
