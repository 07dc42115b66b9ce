/** What the instructions of straight-line code mean, by opcode byte: integer arithmetic of section 4.3.2 of the
    WebAssembly Core Specification, for the interpreter on 32 bits and for the compiled code on 64. */
module OpcodeMeaning {
  import opened Words
  import opened Leb128
  import opened X86
  import opened JitCorrect
  import C = JitCompile

  function Bit(w: nat, k: nat): nat {
    (w / Pow2(k)) % 2
  }

  /** The two's complement value of the low `n` bits. */
  function Signed(w: nat, n: nat): int
    requires n > 0
  {
    var u := w % Pow2(n);
    if u < Pow2(n - 1) then u else u - Pow2(n)
  }

  /** On `n`-bit words, `w` is what the operation gives for `a` and `b`. */
  ghost predicate Computes(op: byte, n: nat, a: Word, b: Word, w: Word)
    requires n > 0
  {
    match op
    case 0x6A => w % Pow2(n) == (a as int + b) % Pow2(n)
    case 0x6B => w % Pow2(n) == (a as int - b) % Pow2(n)
    case 0x6C => w % Pow2(n) == (a as int * b) % Pow2(n)
    case 0x71 => forall k: nat :: k < n ==> (Bit(w, k) == 1 <==> Bit(a, k) == 1 && Bit(b, k) == 1)
    case 0x72 => forall k: nat :: k < n ==> (Bit(w, k) == 1 <==> Bit(a, k) == 1 || Bit(b, k) == 1)
    case 0x73 => forall k: nat :: k < n ==> (Bit(w, k) == 1 <==> Bit(a, k) != Bit(b, k))
    case 0x74 => w % Pow2(n) == (a as int * Pow2(b % n)) % Pow2(n)
    case 0x75 => Signed(w, n) == Signed(a, n) / Pow2(b % n)
    case 0x76 => w % Pow2(n) == (a % Pow2(n)) / Pow2(b % n)
    case _ => false
  }

  predicate Binary(op: byte) {
    0x6A <= op <= 0x6C || 0x71 <= op <= 0x76
  }

  /** How the interpreter keeps a 32-bit result: `shr_u` zero-extended, the others sign-extended. */
  predicate Kept(op: byte, w: Word) {
    if op == 0x76 then w < 0x1_0000_0000 else w < 0x8000_0000 || w >= 0xFFFF_FFFF_8000_0000
  }

  // ---- bits ----------------------------------------------------------------------------------------------------

  lemma BitNext(w: nat, k: nat)
    ensures Bit(w, k + 1) == Bit(w / 2, k)
  {
    var p := Pow2(k);
    assert Pow2(k + 1) == 2 * p;
    hide Pow2;
    var q, r := w / 2 / p, w / 2 % p;
    assert w == 2 * (q * p + r) + w % 2;
    assert 2 * (q * p) == q * (2 * p);
    DivUnique(w, 2 * p, q, 2 * r + w % 2);
  }

  lemma BitZero(w: nat)
    ensures Bit(w, 0) == w % 2
  {
  }

  /** A bitwise result, bit by bit. */
  lemma {:induction false} BitwiseBit(op: BitOp, a: nat, b: nat, n: nat, k: nat)
    requires k < n
    ensures Bit(Bitwise(op, a, b, n), k) == BitOf(op, Bit(a, k), Bit(b, k))
  {
    hide Bit, BitOf;
    var low := BitOf(op, a % 2, b % 2);
    BitOfBit(op, a % 2, b % 2);
    var high := Bitwise(op, a / 2, b / 2, n - 1);
    assert Bitwise(op, a, b, n) == low + 2 * high;
    if k == 0 {
      BitZero(a);
      BitZero(b);
      BitZero(low + 2 * high);
    } else {
      BitNext(a, k - 1);
      BitNext(b, k - 1);
      BitNext(low + 2 * high, k - 1);
      BitwiseBit(op, a / 2, b / 2, n - 1, k - 1);
    }
  }

  lemma {:induction false} BitLow(w: nat, n: nat, k: nat)
    requires k < n
    ensures Bit(w % Pow2(n), k) == Bit(w, k)
  {
    hide Bit;
    var p := Pow2(n - 1);
    assert Pow2(n) == 2 * p;
    HalfMod(w, p);
    if k == 0 {
      BitZero(w);
      BitZero(w % Pow2(n));
    } else {
      BitNext(w, k - 1);
      BitNext(w % Pow2(n), k - 1);
      BitLow(w / 2, n - 1, k - 1);
    }
  }

  function BitOpOf(op: byte): BitOp {
    if op == 0x71 then BitAnd else if op == 0x72 then BitOr else BitXor
  }

  /** A word whose low `n` bits are those of a bitwise result. */
  lemma BitsComputed(op: byte, n: nat, a: Word, b: Word, w: Word)
    requires 0 < n && 0x71 <= op <= 0x73 && w % Pow2(n) == Bitwise(BitOpOf(op), a % Pow2(n), b % Pow2(n), n)
    ensures Computes(op, n, a, b, w)
  {
    hide Pow2, Bitwise, Bit;
    forall k: nat | k < n
      ensures 0 <= Bit(a, k) <= 1 && 0 <= Bit(b, k) <= 1 && Bit(w, k) == BitOf(BitOpOf(op), Bit(a, k), Bit(b, k))
    {
      BitBounds(a, k);
      BitBounds(b, k);
      BitLow(w, n, k);
      BitLow(a, n, k);
      BitLow(b, n, k);
      BitwiseBit(BitOpOf(op), a % Pow2(n), b % Pow2(n), n, k);
    }
  }

  lemma BitBounds(w: nat, k: nat)
    ensures 0 <= Bit(w, k) <= 1
  {
    hide Pow2;
  }

  // ---- the interpreter's operations ----------------------------------------------------------------------------

  lemma SignExtendKept(x: int)
    ensures SignExtend32(x) < 0x8000_0000 || SignExtend32(x) >= 0xFFFF_FFFF_8000_0000
    ensures SignExtend32(x) % 0x1_0000_0000 == x % 0x1_0000_0000
  {
    SignExtendLow(x);
  }

  lemma NarrowAdd(a: Word, b: Word)
    ensures var w := BinaryWord(Narrow, 0x6A, a, b); Computes(0x6A, 32, a, b, w) && Kept(0x6A, w)
  {
    Pow2Values();
    hide Pow2, SignExtend32, ToI32;
    SignExtendKept(ToI32(a) + ToI32(b));
    var i := SignedIs(a);
    var j := SignedIs(b);
    ModShift(a as int + b, i + j, TWO32);
  }

  lemma NarrowSub(a: Word, b: Word)
    ensures var w := BinaryWord(Narrow, 0x6B, a, b); Computes(0x6B, 32, a, b, w) && Kept(0x6B, w)
  {
    Pow2Values();
    hide Pow2, SignExtend32, ToI32;
    SignExtendKept(ToI32(a) - ToI32(b));
    var i := SignedIs(a);
    var j := SignedIs(b);
    ModShift(a as int - b, i - j, TWO32);
  }

  lemma NarrowMul(a: Word, b: Word)
    ensures var w := BinaryWord(Narrow, 0x6C, a, b); Computes(0x6C, 32, a, b, w) && Kept(0x6C, w)
  {
    Pow2Values();
    hide Pow2, SignExtend32, ToI32;
    SignExtendKept(ToI32(a) * ToI32(b));
    var i := SignedIs(a);
    var j := SignedIs(b);
    Product(a, i, b, j, TWO32);
    ModShift(a as int * b, a * j + i * b + i * j * TWO32, TWO32);
  }

  lemma SignedIs(a: Word) returns (k: int)
    ensures ToI32(a) == a + k * 0x1_0000_0000
  {
    k := if a % TWO32 < TWO31 then -(a / TWO32) else -(a / TWO32) - 1;
  }

  lemma Product(a: int, i: int, b: int, j: int, m: int)
    ensures (a + i * m) * (b + j * m) == a * b + (a * j + i * b + i * j * m) * m
  {
  }

  lemma NarrowBitsIs(op: byte, a: Word, b: Word)
    requires 0x71 <= op <= 0x73
    ensures BinaryWord(Narrow, op, a, b) == SignExtend32(Bitwise(BitOpOf(op), a % TWO32, b % TWO32, 32))
  {
    hide SignExtend32, Bitwise;
  }

  lemma NarrowBits(op: byte, a: Word, b: Word)
    requires 0x71 <= op <= 0x73
    ensures var w := BinaryWord(Narrow, op, a, b); Computes(op, 32, a, b, w) && Kept(op, w)
  {
    hide SignExtend32, Computes, Bitwise, BinaryWord, BitOpOf, Pow2;
    Pow2Values();
    var r := Bitwise(BitOpOf(op), a % TWO32, b % TWO32, 32);
    NarrowBitsIs(op, a, b);
    SignExtendKept(r);
    ModUnique(r, TWO32, 0, r);
    BitsComputed(op, 32, a, b, SignExtend32(r));
  }

  lemma NarrowShl(a: Word, b: Word)
    ensures var w := BinaryWord(Narrow, 0x74, a, b); Computes(0x74, 32, a, b, w) && Kept(0x74, w)
  {
    Pow2Values();
    hide Pow2, SignExtend32, ToI32;
    var p := Pow2(b % 32);
    SignExtendKept(ToI32(a) * p);
    var i := SignedIs(a);
    Scaled(a, i, p, TWO32);
    ModShift(a * p, i * p, TWO32);
  }

  lemma Scaled(a: int, i: int, p: int, m: int)
    ensures (a + i * m) * p == a * p + (i * p) * m
  {
  }

  lemma NarrowSar(a: Word, b: Word)
    ensures var w := BinaryWord(Narrow, 0x75, a, b); Computes(0x75, 32, a, b, w) && Kept(0x75, w)
  {
    Pow2Values();
    assert Pow2(31) == TWO31;
    hide Pow2, SignExtend32, ToI32, Signed;
    var p := Pow2(b % 32);
    SignedRange(a);
    QuotientBounds(ToI32(a), p, TWO31);
    SignedAgain(ToI32(a) / p);
    SignExtendKept(ToI32(a) / p);
    SignedOf(a);
  }

  lemma NarrowShr(a: Word, b: Word)
    ensures var w := BinaryWord(Narrow, 0x76, a, b); Computes(0x76, 32, a, b, w) && Kept(0x76, w)
  {
    Pow2Values();
    hide Pow2, SignExtend32, ToI32;
    var p := Pow2(b % 32);
    DivBound(a % TWO32, p);
    ModUnique(a % TWO32 / p, TWO32, 0, a % TWO32 / p);
  }

  lemma SignedRange(a: Word)
    ensures -TWO31 <= ToI32(a) < TWO31
  {
  }

  lemma SignedOf(a: Word)
    requires Pow2(32) == TWO32 && Pow2(31) == TWO31
    ensures Signed(a, 32) == ToI32(a)
  {
    hide Pow2;
  }

  /** A signed value in range is what its sign extension reads as. */
  lemma SignedAgain(x: int)
    requires -TWO31 <= x < TWO31 && Pow2(32) == TWO32 && Pow2(31) == TWO31
    ensures Signed(SignExtend32(x), 32) == x
  {
    hide Pow2;
    SignExtendKept(x);
    hide SignExtend32;
  }

  lemma QuotientBounds(x: int, p: nat, m: int)
    requires p > 0 && m > 0 && -m <= x < m
    ensures -m <= x / p < m
  {
    var q := x / p;
    assert x == q * p + x % p;
    if q >= m { MulGrows(q, p); }
    if q < -m { Negated(q, p); }
  }

  lemma Negated(q: int, p: nat)
    requires p > 0 && q < 0
    ensures q * p + p <= q + 1
  {
    MulGrows(-q - 1, p);
    assert (-q - 1) * p == -(q * p) - p;
  }

  lemma MulGrows(q: nat, p: nat)
    requires p > 0
    ensures q * p >= q
  {
    if q > 0 { MulBounds(p, q); }
  }

  /** The interpreter pushes the 32-bit result. */
  lemma NarrowComputes(op: byte, a: Word, b: Word)
    requires Binary(op)
    ensures var w := BinaryWord(Narrow, op, a, b); Computes(op, 32, a, b, w) && Kept(op, w)
  {
    hide Computes, BinaryWord;
    if op == 0x6A { NarrowAdd(a, b); }
    else if op == 0x6B { NarrowSub(a, b); }
    else if op == 0x6C { NarrowMul(a, b); }
    else if op <= 0x73 { NarrowBits(op, a, b); }
    else if op == 0x74 { NarrowShl(a, b); }
    else if op == 0x75 { NarrowSar(a, b); }
    else { NarrowShr(a, b); }
  }

  // ---- the machine's operations --------------------------------------------------------------------------------

  lemma WideBitsIs(op: byte, a: Word, b: Word)
    requires 0x71 <= op <= 0x73
    ensures BinaryWord(Wide, op, a, b) == Bitwise(BitOpOf(op), a, b, 64)
  {
    hide Bitwise;
  }

  lemma WideBits(op: byte, a: Word, b: Word)
    requires 0x71 <= op <= 0x73
    ensures Computes(op, 64, a, b, BinaryWord(Wide, op, a, b))
  {
    hide Computes, Bitwise, BinaryWord, BitOpOf, Pow2;
    Pow2Values();
    WideBitsIs(op, a, b);
    assert a % TWO64 == a && b % TWO64 == b;
    ModUnique(BinaryWord(Wide, op, a, b), TWO64, 0, BinaryWord(Wide, op, a, b));
    BitsComputed(op, 64, a, b, BinaryWord(Wide, op, a, b));
  }

  lemma WideSar(a: Word, b: Word)
    ensures Computes(0x75, 64, a, b, BinaryWord(Wide, 0x75, a, b))
  {
    Pow2Values();
    assert Pow2(63) == TWO63;
    hide Pow2;
    var p := Pow2(b % 64);
    var x := if a < TWO63 then a else a as int - TWO64;
    QuotientBounds(x, p, TWO63);
    Signed64Is(a);
    Signed64Again(x / p);
    hide Signed;
  }

  lemma Signed64Is(a: Word)
    requires Pow2(64) == TWO64 && Pow2(63) == TWO63
    ensures Signed(a, 64) == if a < TWO63 then a else a as int - TWO64
  {
    hide Pow2;
  }

  lemma Signed64Again(x: int)
    requires -TWO63 <= x < TWO63 && Pow2(64) == TWO64 && Pow2(63) == TWO63
    ensures Signed(ToWord(x), 64) == x
  {
    hide Pow2;
  }

  lemma WideShr(a: Word, b: Word)
    ensures Computes(0x76, 64, a, b, BinaryWord(Wide, 0x76, a, b))
  {
    Pow2Values();
    hide Pow2;
    DivBound(a, Pow2(b % 64));
  }

  lemma WideShl(a: Word, b: Word)
    ensures Computes(0x74, 64, a, b, BinaryWord(Wide, 0x74, a, b))
  {
    Pow2Values();
    hide Pow2;
  }

  /** The machine computes the 64-bit result. */
  lemma WideComputes(op: byte, a: Word, b: Word)
    requires Binary(op)
    ensures Computes(op, 64, a, b, BinaryWord(Wide, op, a, b))
  {
    hide Computes, BinaryWord;
    if op <= 0x6C { WideArithmetic(op, a, b); }
    else if op <= 0x73 { WideBits(op, a, b); }
    else if op == 0x74 { WideShl(a, b); }
    else if op == 0x75 { WideSar(a, b); }
    else { WideShr(a, b); }
  }

  lemma WideArithmetic(op: byte, a: Word, b: Word)
    requires 0x6A <= op <= 0x6C
    ensures Computes(op, 64, a, b, BinaryWord(Wide, op, a, b))
  {
    Pow2Values();
    hide Pow2, Bit, Signed;
    if op == 0x6A {
      assert BinaryWord(Wide, op, a, b) == (a + b) % TWO64;
    } else if op == 0x6B {
      assert BinaryWord(Wide, op, a, b) == (a - b) % TWO64;
    } else {
      assert BinaryWord(Wide, op, a, b) == (a * b) % TWO64;
    }
    hide BinaryWord;
  }

  // ---- one instruction -----------------------------------------------------------------------------------------

  /** The index after the opcode, and the position behind it. */
  function IndexAt(body: seq<byte>, pc: nat): Option<(nat, nat)>
    requires pc < |body|
  {
    match ReadU32(body[pc + 1..])
    case None => None
    case Some((i, k)) => Some((i, pc + 1 + k))
  }

  /** The constant after the opcode, as the bits of 64, and the position behind it. */
  function ConstAt(body: seq<byte>, pc: nat): Option<(Word, nat)>
    requires pc < |body|
  {
    if body[pc] == 0x41 then
      match ReadI32(body[pc + 1..])
      case None => None
      case Some((v, k)) => Some((v % 0x1_0000_0000_0000_0000, pc + 1 + k))
    else
      match ReadI64(body[pc + 1..])
      case None => None
      case Some((v, k)) => Some((v, pc + 1 + k))
  }

  /** The instruction at `pc` is one of these sixteen, its immediate can be read, its local is one of the function's,
      and its operands and its result have room. */
  predicate Enabled(body: seq<byte>, pc: nat, f: Frame, room: nat)
    requires pc < |body|
  {
    var op, d := body[pc], |f.stack|;
    || op == 0x01
    || (op == 0x1A && d >= 1)
    || (0x20 <= op <= 0x22 && IndexAt(body, pc).Some? && IndexAt(body, pc).value.0 < |f.locals|
        && if op == 0x20 then d < room else d >= 1)
    || ((op == 0x41 || op == 0x42) && ConstAt(body, pc).Some? && d < room)
    || (Binary(op) && d >= 2)
  }

  /** It takes frame `f` to `g` and goes on at `next`, computing on `n` bits. */
  ghost predicate Means(n: nat, body: seq<byte>, pc: nat, f: Frame, room: nat, g: Frame, next: nat)
    requires n > 0 && pc < |body| && Enabled(body, pc, f, room)
  {
    var op, d := body[pc], |f.stack|;
    if op == 0x01 then g == f && next == pc + 1
    else if op == 0x1A then g == Frame(f.stack[..d - 1], f.locals) && next == pc + 1
    else if op == 0x41 || op == 0x42 then
      g == Frame(f.stack + [ConstAt(body, pc).value.0], f.locals) && next == ConstAt(body, pc).value.1
    else if op <= 0x22 then
      var (i, behind) := IndexAt(body, pc).value;
      && next == behind
      && if op == 0x20 then g == Frame(f.stack + [f.locals[i]], f.locals)
         else if op == 0x21 then g == Frame(f.stack[..d - 1], f.locals[i := f.stack[d - 1]])
         else g == Frame(f.stack, f.locals[i := f.stack[d - 1]])
    else
      && next == pc + 1 && |g.stack| == d - 1 && g.stack[..d - 2] == f.stack[..d - 2] && g.locals == f.locals
      && Computes(op, n, f.stack[d - 2], f.stack[d - 1], g.stack[d - 2])
      && (n == 32 ==> Kept(op, g.stack[d - 2]))
  }

  /** Each reading of the bytes does this, and stops exactly where the instruction is not enabled: the interpreter's
      on 32 bits, the compiled code's on 64. */
  lemma StepMeans(m: Mode, body: seq<byte>, pc: nat, f: Frame, room: nat)
    requires pc < |body|
    ensures StepOp(m, body, pc, f, room).Some? <==> Enabled(body, pc, f, room)
    ensures StepOp(m, body, pc, f, room).Some? ==>
              var (g, next) := StepOp(m, body, pc, f, room).value;
              Means(if m.Narrow? then 32 else 64, body, pc, f, room, g, next)
  {
    hide Computes, BinaryWord, ReadI32, ReadU32, ReadI64, Kept;
    var d := |f.stack|;
    if Binary(body[pc]) && d >= 2 {
      NarrowComputes(body[pc], f.stack[d - 2], f.stack[d - 1]);
      WideComputes(body[pc], f.stack[d - 2], f.stack[d - 1]);
    }
  }

  // ---- one compiled operation ----------------------------------------------------------------------------------

  /** `local.get 0`, `local.get 1`, the operation, `end`. */
  function OperationBody(op: byte): seq<byte> {
    [0x20, 0x00, 0x20, 0x01, op, 0x0B]
  }

  lemma SmallIndex(body: seq<byte>, i: nat)
    requires i < |body| && body[i] < 128
    ensures ReadU32(body[i..]) == Some((body[i], 1))
  {
    assert body[i..][0] == body[i];
  }

  lemma GetAccepted(body: seq<byte>, ip: nat)
    requires ip + 1 < |body| && body[ip] == 0x20 && body[ip + 1] < 128
    ensures C.Translate(body, ip).Some? && C.Translate(body, ip).value.1 == ip + 2
  {
    hide ReadU32, C.LocalCode, C.LocalOffset;
    SmallIndex(body, ip + 1);
  }

  lemma OperationTranslated(body: seq<byte>, ip: nat)
    requires ip < |body| && Binary(body[ip])
    ensures C.Translate(body, ip).Some? && C.Translate(body, ip).value.1 == ip + 1
  {
    hide ReadU32, ReadI32, ReadI64, C.BinaryCode;
  }

  lemma AcceptedNext(body: seq<byte>, ip: nat, next: nat)
    requires ip < |body| && body[ip] != 0x0B && body[ip] != 0x0F
    requires C.Translate(body, ip).Some? && C.Translate(body, ip).value.1 == next
    requires C.CompileFrom(body, next, 1).ok
    ensures C.CompileFrom(body, ip, 1).ok
  {
    hide C.Translate, C.ReturnCode;
  }

  lemma OperationAccepted(op: byte)
    requires Binary(op)
    ensures C.Jit(OperationBody(op), 1).ok
  {
    var body := OperationBody(op);
    assert C.CompileFrom(body, 5, 1).ok;
    hide C.CompileFrom, C.Translate;
    OperationTranslated(body, 4);
    AcceptedNext(body, 4, 5);
    GetAccepted(body, 2);
    AcceptedNext(body, 2, 4);
    GetAccepted(body, 0);
    AcceptedNext(body, 0, 2);
  }

  lemma RunsNext(m: Mode, body: seq<byte>, pc: nat, f: Frame, g: Frame, next: nat, room: nat)
    requires pc < |body| && body[pc] != 0x0B && body[pc] != 0x0F
    requires StepOp(m, body, pc, f, room) == Some((g, next))
    ensures Interpret(m, body, pc, f, 1, room) == Interpret(m, body, next, g, 1, room)
  {
    hide StepOp;
  }

  lemma GetRuns(m: Mode, body: seq<byte>, pc: nat, f: Frame, room: nat)
    requires pc + 1 < |body| && body[pc] == 0x20 && body[pc + 1] < 128 && body[pc + 1] < |f.locals| && |f.stack| < room
    ensures Interpret(m, body, pc, f, 1, room)
            == Interpret(m, body, pc + 2, Frame(f.stack + [f.locals[body[pc + 1]]], f.locals), 1, room)
  {
    hide Interpret, StepOp, ReadU32;
    SmallIndex(body, pc + 1);
    StepMeans(m, body, pc, f, room);
    RunsNext(m, body, pc, f, Frame(f.stack + [f.locals[body[pc + 1]]], f.locals), pc + 2, room);
  }

  lemma OperationRuns(m: Mode, op: byte, locals: seq<Word>, room: nat)
    requires Binary(op) && |locals| >= 2 && room >= 2
    ensures var r := Interpret(m, OperationBody(op), 0, Frame([], locals), 1, room);
            && r.Some? && r.value.locals == locals && |r.value.stack| == 1
            && Computes(op, if m.Narrow? then 32 else 64, locals[0], locals[1], r.value.stack[0])
  {
    hide Interpret, StepOp, Computes, Kept;
    var body := OperationBody(op);
    GetRuns(m, body, 0, Frame([], locals), room);
    GetRuns(m, body, 2, Frame([] + [locals[0]], locals), room);
    var f := Frame([] + [locals[0]] + [locals[1]], locals);
    StepMeans(m, body, 4, f, room);
    var g := StepOp(m, body, 4, f, room).value.0;
    RunsNext(m, body, 4, f, g, 5, room);
    AtEnd(m, body, 5, g, room);
  }

  lemma AtEnd(m: Mode, body: seq<byte>, pc: nat, f: Frame, room: nat)
    requires pc < |body| && body[pc] == 0x0B && |f.stack| >= 1
    ensures Interpret(m, body, pc, f, 1, room) == Some(f)
  {
    hide StepOp;
  }

  /** The machine code of a function that applies one operation to its two parameters: called with any values, any other
      locals and anything behind it in the buffer, it returns in RAX the 64-bit result of that operation. */
  lemma CompiledComputes(entry: State, locals: seq<Word>, op: byte, room: nat, rest: seq<byte>)
    requires Binary(op) && |locals| >= 2 && room >= 2
    requires Layout(entry, room, |locals|) && LocalsAgree(entry, entry.mem, locals)
    ensures AllEncodable(C.Jit(OperationBody(op), 1).code)
    ensures var r := Run(EncodeAll(C.Jit(OperationBody(op), 1).code) + rest, entry);
            && r.Some? && r.value.address == entry.mem[entry.regs[RSP]]
            && Computes(op, 64, locals[0], locals[1], r.value.state.regs[RAX])
  {
    hide Layout, LocalsAgree, OutsideKept, C.Jit, Run, Interpret, Computes, AllEncodable, EncodeAll, OperationBody;
    OperationAccepted(op);
    OperationRuns(Wide, op, locals, room);
    CompiledRunsWide(entry, locals, OperationBody(op), 1, room, rest);
  }
}
