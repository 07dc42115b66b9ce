/** The x86-64 fragment the JIT uses: instructions, their byte encoding as `emit.rs` writes it, a
    decoder following the REX/ModRM layout of the Intel manual (volume 2, chapter 2), and a machine.

    Memory is a map of aligned 8-byte cells. An access that is unaligned or unmapped, or a stack
    pointer that would wrap, leaves the machine stuck (`None`), so a theorem that execution yields
    `Some` also says that every access is aligned and mapped. Flags are not modelled: no instruction
    of the fragment reads them. */
module X86 {
  import opened Words
  import opened Bytes

  /** A general-purpose register by its hardware number. */
  type Reg = r: int | 0 <= r < 16
  const RAX: Reg := 0
  const RCX: Reg := 1
  const RDX: Reg := 2
  const RBX: Reg := 3
  const RSP: Reg := 4
  const RBP: Reg := 5
  const RSI: Reg := 6
  const RDI: Reg := 7
  const R12: Reg := 12
  const R13: Reg := 13
  const R14: Reg := 14
  const R15: Reg := 15

  datatype AluOp = Add | Sub | And | Or | Xor | Imul
  datatype ShiftOp = Shl | Shr | Sar

  datatype Instr =
    | MovRR(dst: Reg, src: Reg)
    | MovRI64(dst: Reg, imm64: Word)
    | MovRI32(dst: Reg, imm32: u32)
    | Push(reg: Reg)
    | Pop(reg: Reg)
    | Alu(op: AluOp, dst: Reg, src: Reg)
    | ShiftCl(shift: ShiftOp, reg: Reg)
    | Load(dst: Reg, base: Reg, disp: int)
    | Store(src: Reg, base: Reg, disp: int)
    | AddI8(reg: Reg, imm8: int)
    | SubI8(reg: Reg, imm8: int)
    | Ret

  /** What the emitters can encode: a base register that needs no SIB byte and operands in range.
      `add`/`sub` with an 8-bit immediate is emitted for RSP only. */
  predicate Encodable(i: Instr) {
    match i
    case Load(_, base, disp) => base % 8 != 4 && -TWO31 <= disp < TWO31
    case Store(_, base, disp) => base % 8 != 4 && -TWO31 <= disp < TWO31
    case AddI8(reg, imm) => reg == RSP && -128 <= imm < 128
    case SubI8(reg, imm) => reg == RSP && -128 <= imm < 128
    case _ => true
  }

  // ---- encoding ---------------------------------------------------------------------------

  function Le64(v: Word): (bs: seq<byte>)
    ensures |bs| == 8
  {
    Le32(v % TWO32) + Le32(v / TWO32)
  }

  /** `emit_rex_rr`: REX.W, with REX.R for the reg field and REX.B for the rm field. */
  function Rex(reg: Reg, rm: Reg): byte {
    0x48 + (if reg >= 8 then 4 else 0) + (if rm >= 8 then 1 else 0)
  }

  function RexB(reg: Reg): seq<byte> {
    if reg >= 8 then [0x41] else []
  }

  /** ModRM byte with the given mod bits. */
  function ModRM(mod: int, reg: Reg, rm: Reg): byte
    requires 0 <= mod < 4
  {
    0x40 * mod + 8 * (reg % 8) + rm % 8
  }

  /** `emit_mem_modrm`. */
  function MemOperand(reg: Reg, base: Reg, disp: int): seq<byte>
    requires -TWO31 <= disp < TWO31
  {
    if disp == 0 && base % 8 != 5 then [ModRM(0, reg, base)]
    else if -128 <= disp <= 127 then [ModRM(1, reg, base), disp % 256]
    else [ModRM(2, reg, base)] + Le32(disp % TWO32)
  }

  function AluOpcode(op: AluOp): seq<byte> {
    match op
    case Add => [0x03]
    case Sub => [0x2B]
    case And => [0x23]
    case Or => [0x0B]
    case Xor => [0x33]
    case Imul => [0x0F, 0xAF]
  }

  /** The ModRM opcode extension of a shift by CL. */
  function ShiftExt(op: ShiftOp): int {
    match op
    case Shl => 4
    case Shr => 5
    case Sar => 7
  }

  /** MOV between a register and memory; RSP and R12 as base would need a byte the emitter does not write. */
  function MemMove(opcode: byte, reg: Reg, base: Reg, disp: int): seq<byte>
    requires -TWO31 <= disp < TWO31
  {
    [Rex(reg, base), opcode] + MemOperand(reg, base, disp)
  }

  function Encode(i: Instr): (bs: seq<byte>)
    requires Encodable(i)
    ensures |bs| > 0
  {
    match i
    case MovRR(dst, src) => [Rex(src, dst), 0x89, ModRM(3, src, dst)]
    case MovRI64(dst, imm) => [if dst >= 8 then 0x49 else 0x48, 0xB8 + dst % 8] + Le64(imm)
    case MovRI32(dst, imm) => RexB(dst) + [0xB8 + dst % 8] + Le32(imm)
    case Push(reg) => RexB(reg) + [0x50 + reg % 8]
    case Pop(reg) => RexB(reg) + [0x58 + reg % 8]
    case Alu(op, dst, src) => [Rex(dst, src)] + AluOpcode(op) + [ModRM(3, dst, src)]
    case ShiftCl(op, reg) => [Rex(RCX, reg), 0xD3, 0xC0 + 8 * ShiftExt(op) + reg % 8]
    case Load(dst, base, disp) => MemMove(0x8B, dst, base, disp)
    case Store(src, base, disp) => MemMove(0x89, src, base, disp)
    case AddI8(_, imm) => [0x48, 0x83, 0xC4, imm % 256]
    case SubI8(_, imm) => [0x48, 0x83, 0xEC, imm % 256]
    case Ret => [0xC3]
  }

  predicate AllEncodable(code: seq<Instr>) {
    forall k :: 0 <= k < |code| ==> Encodable(code[k])
  }

  function EncodeAll(code: seq<Instr>): seq<byte>
    requires AllEncodable(code)
  {
    if code == [] then [] else Encode(code[0]) + EncodeAll(code[1..])
  }

  lemma {:induction false} EncodeAllConcat(a: seq<Instr>, b: seq<Instr>)
    requires AllEncodable(a) && AllEncodable(b)
    ensures AllEncodable(a + b) && EncodeAll(a + b) == EncodeAll(a) + EncodeAll(b)
  {
    hide Encode, Encodable;
    if a == [] {
      assert a + b == b && EncodeAll(a) + EncodeAll(b) == EncodeAll(b);
    } else {
      assert (a + b)[0] == a[0] && (a + b)[1..] == a[1..] + b;
      EncodeAllConcat(a[1..], b);
      assert Encode(a[0]) + (EncodeAll(a[1..]) + EncodeAll(b)) == Encode(a[0]) + EncodeAll(a[1..]) + EncodeAll(b);
    }
  }

  // ---- decoding ---------------------------------------------------------------------------

  function FromLe64(bs: seq<byte>): Word
    requires |bs| >= 8
  {
    FromLe32(bs) + TWO32 * FromLe32(bs[4..])
  }

  function SignedByte(b: byte): int {
    if b < 128 then b else b - 256
  }

  /** The memory operand after an opcode: (base, displacement, bytes used). SIB forms and
      RIP-relative addressing are outside the fragment. */
  function DecodeMem(bs: seq<byte>, rexB: int): Option<(Reg, int, nat)>
    requires 0 <= rexB <= 1
  {
    if |bs| == 0 then None
    else
      var mod, rm := bs[0] / 0x40, bs[0] % 8;
      if rm == 4 || mod == 3 || (mod == 0 && rm == 5) then None
      else if mod == 0 then Some((rm + 8 * rexB, 0, 1))
      else if mod == 1 then if |bs| < 2 then None else Some((rm + 8 * rexB, SignedByte(bs[1]), 2))
      else if |bs| < 5 then None
      else Some((rm + 8 * rexB, ToI32(FromLe32(bs[1..])), 5))
  }

  function DecodeAlu(opcode: byte): Option<AluOp> {
    if opcode == 0x03 then Some(Add)
    else if opcode == 0x2B then Some(Sub)
    else if opcode == 0x23 then Some(And)
    else if opcode == 0x0B then Some(Or)
    else if opcode == 0x33 then Some(Xor)
    else None
  }

  /** An opcode under REX.W with a ModRM byte; `bs` starts at the opcode. */
  function DecodeModRM(bs: seq<byte>, rexR: int, rexB: int): Option<(Instr, nat)>
    requires 0 <= rexR <= 1 && 0 <= rexB <= 1
  {
    if |bs| < 2 then None
    else
      var mod, reg, rm := bs[1] / 0x40, (bs[1] / 8) % 8 + 8 * rexR, bs[1] % 8 + 8 * rexB;
      if bs[0] == 0x89 then
        if mod == 3 then Some((MovRR(rm, reg), 2))
        else
          match DecodeMem(bs[1..], rexB)
          case None => None
          case Some((base, disp, n)) => Some((Store(reg, base, disp), 1 + n))
      else if bs[0] == 0x8B then
        if mod == 3 then Some((MovRR(reg, rm), 2))
        else
          match DecodeMem(bs[1..], rexB)
          case None => None
          case Some((base, disp, n)) => Some((Load(reg, base, disp), 1 + n))
      else if bs[0] == 0x0F then
        if |bs| < 3 || bs[1] != 0xAF || bs[2] / 0x40 != 3 then None
        else Some((Alu(Imul, (bs[2] / 8) % 8 + 8 * rexR, bs[2] % 8 + 8 * rexB), 3))
      else if bs[0] == 0x83 then
        if |bs| < 3 || mod != 3 then None
        else if (bs[1] / 8) % 8 == 0 then Some((AddI8(rm, SignedByte(bs[2])), 3))
        else if (bs[1] / 8) % 8 == 5 then Some((SubI8(rm, SignedByte(bs[2])), 3))
        else None
      else if bs[0] == 0xD3 then
        if mod != 3 then None
        else if (bs[1] / 8) % 8 == 4 then Some((ShiftCl(Shl, rm), 2))
        else if (bs[1] / 8) % 8 == 5 then Some((ShiftCl(Shr, rm), 2))
        else if (bs[1] / 8) % 8 == 7 then Some((ShiftCl(Sar, rm), 2))
        else None
      else
        match DecodeAlu(bs[0])
        case None => None
        case Some(op) => if mod != 3 then None else Some((Alu(op, reg, rm), 2))
  }

  /** `bs` starts at the opcode; the REX bits have been split off. */
  function DecodeOpcode(bs: seq<byte>, rexW: int, rexR: int, rexB: int): Option<(Instr, nat)>
    requires 0 <= rexW <= 1 && 0 <= rexR <= 1 && 0 <= rexB <= 1
  {
    if |bs| == 0 then None
    else if 0x50 <= bs[0] < 0x58 then Some((Push(bs[0] - 0x50 + 8 * rexB), 1))
    else if 0x58 <= bs[0] < 0x60 then Some((Pop(bs[0] - 0x58 + 8 * rexB), 1))
    else if 0xB8 <= bs[0] < 0xC0 then
      if rexW == 1 then
        if |bs| < 9 then None else Some((MovRI64(bs[0] - 0xB8 + 8 * rexB, FromLe64(bs[1..])), 9))
      else
        if |bs| < 5 then None else Some((MovRI32(bs[0] - 0xB8 + 8 * rexB, FromLe32(bs[1..])), 5))
    else if bs[0] == 0xC3 then Some((Ret, 1))
    else if rexW == 1 then DecodeModRM(bs, rexR, rexB)
    else None
  }

  function Decode(bs: seq<byte>): (r: Option<(Instr, nat)>)
    ensures r.Some? ==> 0 < r.value.1 <= |bs|
  {
    if |bs| > 0 && 0x40 <= bs[0] < 0x50 then
      match DecodeOpcode(bs[1..], (bs[0] / 8) % 2, (bs[0] / 4) % 2, bs[0] % 2)
      case None => None
      case Some((i, n)) => Some((i, n + 1))
    else DecodeOpcode(bs, 0, 0, 0)
  }

  // ---- the encoder is undone by the decoder -------------------------------------------------

  lemma Le64RoundTrip(v: Word, rest: seq<byte>)
    ensures FromLe64(Le64(v) + rest) == v
  {
    Le32RoundTrip(v % TWO32, Le32(v / TWO32) + rest);
    Le32RoundTrip(v / TWO32, rest);
    assert Le64(v) + rest == Le32(v % TWO32) + (Le32(v / TWO32) + rest);
    assert (Le64(v) + rest)[4..] == Le32(v / TWO32) + rest;
  }

  lemma RexFields(reg: Reg, rm: Reg)
    ensures var x := Rex(reg, rm);
            0x40 <= x < 0x50 && (x / 8) % 2 == 1
            && 8 * ((x / 4) % 2) + reg % 8 == reg && 8 * (x % 2) + rm % 8 == rm
  {
  }

  lemma ModRMFields(mod: int, reg: Reg, rm: Reg)
    requires 0 <= mod < 4
    ensures var m := ModRM(mod, reg, rm);
            m / 0x40 == mod && (m / 8) % 8 == reg % 8 && m % 8 == rm % 8
  {
    var a, b := reg % 8, rm % 8;
    DivUnique(ModRM(mod, reg, rm), 0x40, mod, 8 * a + b);
    DivUnique(ModRM(mod, reg, rm), 8, 8 * mod + a, b);
    DivUnique(8 * mod + a, 8, mod, a);
  }

  lemma MemRoundTrip(reg: Reg, base: Reg, disp: int, rest: seq<byte>)
    requires base % 8 != 4 && -TWO31 <= disp < TWO31
    ensures DecodeMem(MemOperand(reg, base, disp) + rest, if base >= 8 then 1 else 0)
         == Some((base, disp, |MemOperand(reg, base, disp)|))
    ensures |MemOperand(reg, base, disp)| > 0
    ensures MemOperand(reg, base, disp)[0] / 0x40 != 3
    ensures (MemOperand(reg, base, disp)[0] / 8) % 8 == reg % 8
  {
    hide *;
    if disp == 0 && base % 8 != 5 {
      PlainRoundTrip(reg, base, disp, rest);
    } else if -128 <= disp <= 127 {
      ByteRoundTrip(reg, base, disp, rest);
    } else {
      WideRoundTrip(reg, base, disp, rest);
    }
  }

  lemma PlainRoundTrip(reg: Reg, base: Reg, disp: int, rest: seq<byte>)
    requires base % 8 != 4 && disp == 0 && base % 8 != 5
    ensures DecodeMem(MemOperand(reg, base, disp) + rest, if base >= 8 then 1 else 0)
         == Some((base, disp, |MemOperand(reg, base, disp)|))
    ensures |MemOperand(reg, base, disp)| > 0
    ensures MemOperand(reg, base, disp)[0] / 0x40 != 3
    ensures (MemOperand(reg, base, disp)[0] / 8) % 8 == reg % 8
  {
    hide ModRM;
    ModRMFields(0, reg, base);
  }

  lemma ByteRoundTrip(reg: Reg, base: Reg, disp: int, rest: seq<byte>)
    requires base % 8 != 4 && -128 <= disp <= 127 && !(disp == 0 && base % 8 != 5)
    ensures DecodeMem(MemOperand(reg, base, disp) + rest, if base >= 8 then 1 else 0)
         == Some((base, disp, |MemOperand(reg, base, disp)|))
    ensures |MemOperand(reg, base, disp)| > 0
    ensures MemOperand(reg, base, disp)[0] / 0x40 != 3
    ensures (MemOperand(reg, base, disp)[0] / 8) % 8 == reg % 8
  {
    hide ModRM;
    ModRMFields(1, reg, base);
    SignedByteOf(disp);
    hide SignedByte;
  }

  lemma SignedByteOf(disp: int)
    requires -128 <= disp <= 127
    ensures SignedByte(disp % 256) == disp
  {
  }

  lemma WideRoundTrip(reg: Reg, base: Reg, disp: int, rest: seq<byte>)
    requires base % 8 != 4 && -TWO31 <= disp < TWO31 && !(-128 <= disp <= 127)
    ensures DecodeMem(MemOperand(reg, base, disp) + rest, if base >= 8 then 1 else 0)
         == Some((base, disp, |MemOperand(reg, base, disp)|))
    ensures |MemOperand(reg, base, disp)| > 0
    ensures MemOperand(reg, base, disp)[0] / 0x40 != 3
    ensures (MemOperand(reg, base, disp)[0] / 8) % 8 == reg % 8
  {
    hide ModRM, Le32, FromLe32;
    var bs := MemOperand(reg, base, disp) + rest;
    ModRMFields(2, reg, base);
    assert bs[1..] == Le32(disp % TWO32) + rest;
    Le32RoundTrip(disp % TWO32, rest);
  }

  lemma DecodeWithRex(x: byte, ops: seq<byte>)
    requires 0x40 <= x < 0x50
    ensures Decode([x] + ops) ==
            (match DecodeOpcode(ops, (x / 8) % 2, (x / 4) % 2, x % 2)
             case None => None
             case Some((i, n)) => Some((i, n + 1)))
  {
    hide DecodeOpcode;
    assert ([x] + ops)[1..] == ops;
  }

  /** One-byte opcodes that carry the register in their low bits. */
  lemma DecodePushPop(i: Instr, rest: seq<byte>)
    requires i.Push? || i.Pop?
    ensures Decode(Encode(i) + rest) == Some((i, |Encode(i)|))
  {
    var op := [(if i.Push? then 0x50 else 0x58) + i.reg % 8] + rest;
    assert Encode(i) + rest == RexB(i.reg) + op;
    if i.reg >= 8 { DecodeWithRex(0x41, op); }
  }

  lemma DecodeMovRR(dst: Reg, src: Reg, rest: seq<byte>)
    ensures Decode(Encode(MovRR(dst, src)) + rest) == Some((MovRR(dst, src), 3))
  {
    var ops := [0x89, ModRM(3, src, dst)] + rest;
    assert Encode(MovRR(dst, src)) + rest == [Rex(src, dst)] + ops;
    RexFields(src, dst);
    ModRMFields(3, src, dst);
    hide Decode, Rex, ModRM;
    DecodeWithRex(Rex(src, dst), ops);
  }

  lemma ShiftFields(op: ShiftOp, reg: Reg)
    ensures var m := 0xC0 + 8 * ShiftExt(op) + reg % 8;
            0 <= m < 0x100 && m / 0x40 == 3 && (m / 8) % 8 == ShiftExt(op) && m % 8 == reg % 8
  {
  }

  lemma ShiftBytes(op: ShiftOp, reg: Reg, rest: seq<byte>)
    ensures Encode(ShiftCl(op, reg)) + rest == [Rex(RCX, reg)] + ([0xD3, 0xC0 + 8 * ShiftExt(op) + reg % 8] + rest)
  {
    hide Rex, ShiftExt;
  }

  lemma DecodeShift(op: ShiftOp, reg: Reg, rest: seq<byte>)
    ensures Decode(Encode(ShiftCl(op, reg)) + rest) == Some((ShiftCl(op, reg), 3))
  {
    hide Decode, Rex, Encode;
    var ops := [0xD3, 0xC0 + 8 * ShiftExt(op) + reg % 8] + rest;
    ShiftBytes(op, reg, rest);
    RexFields(RCX, reg);
    ShiftFields(op, reg);
    DecodeWithRex(Rex(RCX, reg), ops);
  }

  lemma RspBytes(i: Instr, rest: seq<byte>)
    requires (i.AddI8? || i.SubI8?) && Encodable(i)
    ensures Encode(i) + rest == [0x48] + ([0x83, if i.AddI8? then 0xC4 else 0xEC, i.imm8 % 256] + rest)
    ensures SignedByte(i.imm8 % 256) == i.imm8
  {
  }

  lemma DecodeRspImmediate(i: Instr, rest: seq<byte>)
    requires (i.AddI8? || i.SubI8?) && Encodable(i)
    ensures Decode(Encode(i) + rest) == Some((i, 4))
  {
    hide Decode, Encode, SignedByte;
    var ops := [0x83, if i.AddI8? then 0xC4 else 0xEC, i.imm8 % 256] + rest;
    RspBytes(i, rest);
    DecodeWithRex(0x48, ops);
  }

  lemma DecodeAluForm(op: AluOp, dst: Reg, src: Reg, rest: seq<byte>)
    ensures Decode(Encode(Alu(op, dst, src)) + rest) == Some((Alu(op, dst, src), |Encode(Alu(op, dst, src))|))
  {
    RexFields(dst, src);
    ModRMFields(3, dst, src);
    var ops := AluOpcode(op) + [ModRM(3, dst, src)] + rest;
    assert Encode(Alu(op, dst, src)) + rest == [Rex(dst, src)] + ops;
    hide Decode, Rex, ModRM;
    DecodeWithRex(Rex(dst, src), ops);
  }

  lemma Imm64Bytes(dst: Reg, imm: Word, rest: seq<byte>)
    ensures Encode(MovRI64(dst, imm)) + rest
            == [if dst >= 8 then 0x49 else 0x48] + ([0xB8 + dst % 8] + (Le64(imm) + rest))
  {
    hide Le64;
  }

  lemma DecodeImm64(dst: Reg, imm: Word, rest: seq<byte>)
    ensures Decode(Encode(MovRI64(dst, imm)) + rest) == Some((MovRI64(dst, imm), 10))
  {
    hide Decode, FromLe64, Le64, Encode;
    var x: byte := if dst >= 8 then 0x49 else 0x48;
    var ops := [0xB8 + dst % 8] + (Le64(imm) + rest);
    Imm64Bytes(dst, imm, rest);
    assert ops[1..] == Le64(imm) + rest;
    Le64RoundTrip(imm, rest);
    DecodeWithRex(x, ops);
  }

  lemma DecodeImm32(dst: Reg, imm: u32, rest: seq<byte>)
    ensures Decode(Encode(MovRI32(dst, imm)) + rest) == Some((MovRI32(dst, imm), |Encode(MovRI32(dst, imm))|))
  {
    var ops := [0xB8 + dst % 8] + (Le32(imm) + rest);
    assert Encode(MovRI32(dst, imm)) + rest == RexB(dst) + ops;
    assert ops[1..] == Le32(imm) + rest;
    Le32RoundTrip(imm, rest);
    hide FromLe32, Le32;
    if dst >= 8 { DecodeWithRex(0x41, ops); }
  }

  lemma MemBytes(i: Instr, reg: Reg, rest: seq<byte>)
    requires (i.Load? && reg == i.dst) || (i.Store? && reg == i.src)
    requires Encodable(i)
    ensures Encode(i) + rest
            == [Rex(reg, i.base)] + ([if i.Load? then 0x8B else 0x89] + (MemOperand(reg, i.base, i.disp) + rest))
    ensures |Encode(i)| == 2 + |MemOperand(reg, i.base, i.disp)|
  {
    hide Rex, MemOperand;
  }

  lemma DecodeMemForms(i: Instr, rest: seq<byte>)
    requires i.Load? || i.Store?
    requires Encodable(i)
    ensures Decode(Encode(i) + rest) == Some((i, |Encode(i)|))
  {
    hide Decode, Rex, MemOperand, DecodeMem, Encode;
    var reg := if i.Load? then i.dst else i.src;
    var mem := MemOperand(reg, i.base, i.disp);
    var ops := [if i.Load? then 0x8B else 0x89] + (mem + rest);
    MemBytes(i, reg, rest);
    RexFields(reg, i.base);
    MemRoundTrip(reg, i.base, i.disp, rest);
    assert ops[1..] == mem + rest;
    DecodeWithRex(Rex(reg, i.base), ops);
  }

  /** Every instruction the emitters can write decodes back to itself, with its exact length,
      whatever bytes follow. */
  lemma DecodeEncode(i: Instr, rest: seq<byte>)
    requires Encodable(i)
    ensures Decode(Encode(i) + rest) == Some((i, |Encode(i)|))
  {
    match i
    case MovRR(dst, src) => DecodeMovRR(dst, src, rest);
    case MovRI64(dst, imm) => DecodeImm64(dst, imm, rest);
    case MovRI32(dst, imm) => DecodeImm32(dst, imm, rest);
    case Push(_) => DecodePushPop(i, rest);
    case Pop(_) => DecodePushPop(i, rest);
    case Alu(op, dst, src) => DecodeAluForm(op, dst, src, rest);
    case ShiftCl(op, reg) => DecodeShift(op, reg, rest);
    case Load(_, _, _) => DecodeMemForms(i, rest);
    case Store(_, _, _) => DecodeMemForms(i, rest);
    case AddI8(_, _) => DecodeRspImmediate(i, rest);
    case SubI8(_, _) => DecodeRspImmediate(i, rest);
    case Ret =>
  }

  // ---- the machine ------------------------------------------------------------------------

  type Regs = s: seq<Word> | |s| == 16 witness seq(16, _ => 0)
  datatype State = State(regs: Regs, mem: map<int, Word>)

  predicate CellAt(mem: map<int, Word>, a: int) {
    a % 8 == 0 && a in mem
  }

  function AluResult(op: AluOp, a: Word, b: Word): Word {
    match op
    case Add => (a + b) % TWO64
    case Sub => (a - b) % TWO64
    case Imul => (a * b) % TWO64
    case And => BitwiseLow32(BitAnd, a, b); Bitwise(BitAnd, a, b, 64)
    case Or => BitwiseLow32(BitOr, a, b); Bitwise(BitOr, a, b, 64)
    case Xor => BitwiseLow32(BitXor, a, b); Bitwise(BitXor, a, b, 64)
  }

  /** A 64-bit shift by CL: the count is taken modulo 64. */
  function ShiftResult(op: ShiftOp, a: Word, cl: Word): Word {
    var c := cl % 64;
    match op
    case Shl => (a * Pow2(c)) % TWO64
    case Shr => DivBound(a, Pow2(c)); a / Pow2(c)
    case Sar => ToWord((if a < TWO63 then a else a - TWO64) / Pow2(c))
  }

  lemma DivBound(a: nat, d: nat)
    requires d > 0
    ensures 0 <= a / d <= a
  {
    if a / d > a { MulBounds(d, a / d); }
  }

  /** One instruction other than `ret`; `None` is a stuck machine. */
  function Exec(i: Instr, s: State): Option<State> {
    match i
    case MovRR(dst, src) => Some(s.(regs := s.regs[dst := s.regs[src]]))
    case MovRI64(dst, imm) => Some(s.(regs := s.regs[dst := imm]))
    case MovRI32(dst, imm) => Some(s.(regs := s.regs[dst := imm]))
    case Push(reg) =>
      var a: int := s.regs[RSP] as int - 8;
      if a < 0 || !CellAt(s.mem, a) then None
      else Some(State(s.regs[RSP := a], s.mem[a := s.regs[reg]]))
    case Pop(reg) =>
      var a: int := s.regs[RSP];
      if a + 8 >= TWO64 || !CellAt(s.mem, a) then None
      else Some(s.(regs := s.regs[RSP := a + 8][reg := s.mem[a]]))
    case Alu(op, dst, src) => Some(s.(regs := s.regs[dst := AluResult(op, s.regs[dst], s.regs[src])]))
    case ShiftCl(op, reg) => Some(s.(regs := s.regs[reg := ShiftResult(op, s.regs[reg], s.regs[RCX])]))
    case Load(dst, base, disp) =>
      var a: int := (s.regs[base] + disp) % TWO64;
      if !CellAt(s.mem, a) then None else Some(s.(regs := s.regs[dst := s.mem[a]]))
    case Store(src, base, disp) =>
      var a: int := (s.regs[base] + disp) % TWO64;
      if !CellAt(s.mem, a) then None else Some(s.(mem := s.mem[a := s.regs[src]]))
    case AddI8(reg, imm) =>
      var a: int := s.regs[reg] + imm;
      if 0 <= a < TWO64 then Some(s.(regs := s.regs[reg := a])) else None
    case SubI8(reg, imm) =>
      var a: int := s.regs[reg] - imm;
      if 0 <= a < TWO64 then Some(s.(regs := s.regs[reg := a])) else None
    case Ret => None
  }

  /** How a call ended: the state after `ret` and the return address it jumped to. */
  datatype Returned = Returned(state: State, address: Word)

  function ExecRet(s: State): Option<Returned> {
    var a: int := s.regs[RSP];
    if a + 8 >= TWO64 || !CellAt(s.mem, a) then None
    else Some(Returned(s.(regs := s.regs[RSP := a + 8]), s.mem[a]))
  }

  /** Fetch, decode and execute from the front of `code` until `ret`. The fragment has no jumps, so
      the instruction pointer only moves forward. */
  function Run(code: seq<byte>, s: State): Option<Returned>
    decreases |code|
  {
    match Decode(code)
    case None => None
    case Some((i, n)) =>
      if i == Ret then ExecRet(s)
      else
        match Exec(i, s)
        case None => None
        case Some(s') => Run(code[n..], s')
  }

  /** The same on a list of instructions. */
  function RunList(code: seq<Instr>, s: State): Option<Returned> {
    if code == [] then None
    else if code[0] == Ret then ExecRet(s)
    else
      match Exec(code[0], s)
      case None => None
      case Some(s') => RunList(code[1..], s')
  }

  /** Running the emitted bytes is running the instructions they were emitted from. */
  lemma {:induction false} RunEncoded(code: seq<Instr>, rest: seq<byte>, s: State)
    requires AllEncodable(code) && RunList(code, s).Some?
    ensures Run(EncodeAll(code) + rest, s) == RunList(code, s)
  {
    hide Decode, Encode, Exec, ExecRet;
    var tail := EncodeAll(code[1..]) + rest;
    var bytes := EncodeAll(code) + rest;
    DecodeEncode(code[0], tail);
    assert bytes == Encode(code[0]) + tail;
    if code[0] != Ret {
      var s' := Exec(code[0], s).value;
      RunEncoded(code[1..], rest, s');
      assert bytes[|Encode(code[0])|..] == tail;
    }
  }

  /** Straight-line execution of a block without `ret`. */
  function ExecBlock(code: seq<Instr>, s: State): Option<State> {
    if code == [] then Some(s)
    else
      match Exec(code[0], s)
      case None => None
      case Some(s') => ExecBlock(code[1..], s')
  }

  lemma {:induction false} RunListConcat(a: seq<Instr>, b: seq<Instr>, s: State)
    requires ExecBlock(a, s).Some?
    ensures RunList(a + b, s) == RunList(b, ExecBlock(a, s).value)
  {
    if a == [] {
      assert a + b == b;
    } else {
      assert (a + b)[1..] == a[1..] + b;
      RunListConcat(a[1..], b, Exec(a[0], s).value);
    }
  }
}
