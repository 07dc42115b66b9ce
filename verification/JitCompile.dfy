/** `jit_compile_body`: from a WASM function body to x86-64 bytes.

    `Jit` gives the instructions the compiler emits, as a function of the body; the method follows the
    loop of the source and writes their encodings into a `CodeBuf`. */
module JitCompile {
  import opened Words
  import opened Bytes
  import opened X86
  import opened CodeBuffer
  import opened Opcode
  import opened Leb128

  /** Whether the body was accepted, and what had been emitted when compilation stopped. */
  datatype Emission = Emission(ok: bool, code: seq<Instr>)

  /** The register aliases set up from the System V arguments. */
  function Aliases(): seq<Instr> {
    [MovRR(R15, RDI), MovRR(R14, RSI), MovRR(R13, RDX), MovRR(R12, RSP)]
  }

  function ReturnCode(results: nat): seq<Instr> {
    (if results > 0 then [Pop(RAX), MovRR(RSP, R12)] else [MovRR(RSP, R12), MovRI32(RAX, 0)]) + Epilogue()
  }

  function AluOf(opcode: byte): Option<AluOp> {
    if opcode == I32_ADD then Some(Add)
    else if opcode == I32_SUB then Some(Sub)
    else if opcode == I32_MUL then Some(Imul)
    else if opcode == I32_AND then Some(And)
    else if opcode == I32_OR then Some(Or)
    else if opcode == I32_XOR then Some(Xor)
    else None
  }

  function ShiftOf(opcode: byte): Option<ShiftOp> {
    if opcode == I32_SHL then Some(Shl)
    else if opcode == I32_SHR_U then Some(Shr)
    else if opcode == I32_SHR_S then Some(Sar)
    else None
  }

  /** `(idx as usize).wrapping_mul(8) as i32`. */
  function LocalOffset(idx: u32): (r: int)
    ensures -TWO31 <= r < TWO31
  {
    ToI32(8 * idx)
  }

  function LocalCode(op: byte, offset: int): seq<Instr> {
    if op == LOCAL_GET then [Load(RAX, R13, offset), Push(RAX)]
    else if op == LOCAL_SET then [Pop(RAX), Store(RAX, R13, offset)]
    else [Pop(RAX), Push(RAX), Store(RAX, R13, offset)]
  }

  function BinaryCode(op: byte): seq<Instr> {
    match AluOf(op)
    case Some(alu) => [Pop(RCX), Pop(RAX), Alu(alu, RAX, RCX), Push(RAX)]
    case None =>
      match ShiftOf(op)
      case Some(shift) => [Pop(RCX), Pop(RAX), ShiftCl(shift, RAX), Push(RAX)]
      case None => []
  }

  /** Code and next position for an instruction that does not end the function; `None` where the
      compiler gives up. */
  function Translate(body: seq<byte>, ip: nat): (r: Option<(seq<Instr>, nat)>)
    requires ip < |body|
    ensures r.Some? ==> ip < r.value.1 <= |body|
  {
    var op := body[ip];
    var operand := body[ip + 1..];
    if op == I32_CONST then
      match ReadI32(operand)
      case None => None
      case Some((v, n)) => Some(([MovRI64(RAX, ToWord(v)), Push(RAX)], ip + 1 + n))
    else if op == I64_CONST then
      match ReadI64(operand)
      case None => None
      case Some((v, n)) => Some(([MovRI64(RAX, v), Push(RAX)], ip + 1 + n))
    else if op == LOCAL_GET || op == LOCAL_SET || op == LOCAL_TEE then
      match ReadU32(operand)
      case None => None
      case Some((idx, n)) => Some((LocalCode(op, LocalOffset(idx)), ip + 1 + n))
    else if AluOf(op).Some? || ShiftOf(op).Some? then Some((BinaryCode(op), ip + 1))
    else if op == DROP then Some(([AddI8(RSP, 8)], ip + 1))
    else if op == NOP then Some(([], ip + 1))
    else None
  }

  function CompileFrom(body: seq<byte>, ip: nat, results: nat): (e: Emission)
    decreases |body| - ip
  {
    if ip >= |body| then Emission(true, ReturnCode(results))
    else if body[ip] == RETURN then Emission(true, ReturnCode(results))
    else if body[ip] == END then
      if ip + 1 == |body| then Emission(true, ReturnCode(results)) else Emission(false, [])
    else
      match Translate(body, ip)
      case None => Emission(false, [])
      case Some((code, next)) =>
        var rest := CompileFrom(body, next, results);
        Emission(rest.ok, code + rest.code)
  }

  function Jit(body: seq<byte>, results: nat): Emission {
    if results > 1 then Emission(false, [])
    else
      var e := CompileFrom(body, 0, results);
      Emission(e.ok, Prologue() + Aliases() + e.code)
  }

  lemma {:induction false} CompileEncodable(body: seq<byte>, ip: nat, results: nat)
    ensures AllEncodable(CompileFrom(body, ip, results).code)
    decreases |body| - ip
  {
    if ip < |body| && body[ip] != RETURN && body[ip] != END && Translate(body, ip).Some? {
      CompileEncodable(body, Translate(body, ip).value.1, results);
    }
  }

  lemma JitEncodable(body: seq<byte>, results: nat)
    ensures AllEncodable(Jit(body, results).code)
  {
    CompileEncodable(body, 0, results);
  }

  lemma EntryEncodable()
    ensures AllEncodable(Prologue()) && AllEncodable(Aliases()) && AllEncodable(Prologue() + Aliases())
  {
  }

  // ---- the compiler loop --------------------------------------------------------------------

  /** Emitting one block after another. */
  lemma EmitAfter(start: seq<byte>, a: seq<Instr>, b: seq<Instr>)
    requires AllEncodable(a) && AllEncodable(b)
    ensures AllEncodable(a + b)
    ensures start + EncodeAll(a) + EncodeAll(b) == start + EncodeAll(a + b)
  {
    hide Encode, Encodable;
    EncodeAllConcat(a, b);
  }

  lemma Before(i: Instr, code: seq<Instr>)
    requires Encodable(i) && AllEncodable(code)
    ensures AllEncodable([i] + code) && EncodeAll([i] + code) == Encode(i) + EncodeAll(code)
  {
    hide Encode, Encodable;
    assert ([i] + code)[1..] == code;
  }

  /** `bytes` is the encoding of `code`. */
  predicate Encodes(code: seq<Instr>, bytes: seq<byte>) {
    AllEncodable(code) && EncodeAll(code) == bytes
  }

  lemma FourBytes(a: Instr, b: Instr, c: Instr, d: Instr)
    requires Encodable(a) && Encodable(b) && Encodable(c) && Encodable(d)
    ensures Encodes([a, b, c, d], Encode(a) + Encode(b) + Encode(c) + Encode(d))
  {
    hide Encode, Encodable;
    Before(d, []);
    Before(c, [d]);
    Before(b, [c, d]);
    Before(a, [b, c, d]);
    hide EncodeAll, AllEncodable;
    assert [d] + [] == [d] && [c] + [d] == [c, d] && [b] + [c, d] == [b, c, d] && [a] + [b, c, d] == [a, b, c, d];
  }

  lemma Blocks(a: seq<Instr>, x: seq<byte>, b: seq<Instr>, y: seq<byte>)
    requires Encodes(a, x) && Encodes(b, y)
    ensures Encodes(a + b, x + y)
  {
    EncodeAllConcat(a, b);
  }

  lemma SaveBytes()
    ensures Encodes([Push(RBP), MovRR(RBP, RSP), Push(RBX), Push(R12)], [0x55, 0x48, 0x89, 0xE5, 0x53, 0x41, 0x54])
  {
    FourBytes(Push(RBP), MovRR(RBP, RSP), Push(RBX), Push(R12));
    hide Encodes;
  }

  lemma SaveMoreBytes()
    ensures Encodes([Push(R13), Push(R14), Push(R15), SubI8(RSP, 8)],
                    [0x41, 0x55, 0x41, 0x56, 0x41, 0x57, 0x48, 0x83, 0xEC, 0x08])
  {
    FourBytes(Push(R13), Push(R14), Push(R15), SubI8(RSP, 8));
    hide Encodes;
  }

  lemma AliasBytes()
    ensures Encodes(Aliases(), [0x49, 0x89, 0xFF, 0x49, 0x89, 0xF6, 0x49, 0x89, 0xD5, 0x49, 0x89, 0xE4])
  {
    FourBytes(MovRR(R15, RDI), MovRR(R14, RSI), MovRR(R13, RDX), MovRR(R12, RSP));
    hide Encodes;
  }

  lemma EpilogueBytes()
    ensures Encodes(Epilogue(),
                    [0x48, 0x83, 0xC4, 0x08, 0x41, 0x5F, 0x41, 0x5E, 0x41, 0x5D, 0x41, 0x5C, 0x5B, 0x5D, 0xC3])
  {
    hide Encodes;
    RestoreBytes();
    RestoreMoreBytes();
    var x: seq<byte> := [0x48, 0x83, 0xC4, 0x08, 0x41, 0x5F, 0x41, 0x5E, 0x41, 0x5D];
    var y: seq<byte> := [0x41, 0x5C, 0x5B, 0x5D, 0xC3];
    Blocks([AddI8(RSP, 8), Pop(R15), Pop(R14), Pop(R13)], x, [Pop(R12), Pop(RBX), Pop(RBP), Ret], y);
    assert Epilogue() == [AddI8(RSP, 8), Pop(R15), Pop(R14), Pop(R13)] + [Pop(R12), Pop(RBX), Pop(RBP), Ret];
    assert x + y == [0x48, 0x83, 0xC4, 0x08, 0x41, 0x5F, 0x41, 0x5E, 0x41, 0x5D, 0x41, 0x5C, 0x5B, 0x5D, 0xC3];
  }

  lemma RestoreBytes()
    ensures Encodes([AddI8(RSP, 8), Pop(R15), Pop(R14), Pop(R13)],
                    [0x48, 0x83, 0xC4, 0x08, 0x41, 0x5F, 0x41, 0x5E, 0x41, 0x5D])
  {
    FourBytes(AddI8(RSP, 8), Pop(R15), Pop(R14), Pop(R13));
    hide Encodes;
  }

  lemma RestoreMoreBytes()
    ensures Encodes([Pop(R12), Pop(RBX), Pop(RBP), Ret], [0x41, 0x5C, 0x5B, 0x5D, 0xC3])
  {
    FourBytes(Pop(R12), Pop(RBX), Pop(RBP), Ret);
    hide Encodes;
  }

  lemma TwoBytes(a: Instr, b: Instr)
    requires Encodable(a) && Encodable(b)
    ensures Encodes([a, b], Encode(a) + Encode(b))
  {
    hide Encode, Encodable;
    Before(b, []);
    Before(a, [b]);
    assert [b] + [] == [b] && [a] + [b] == [a, b];
  }

  /** Every compiled function starts with these bytes: RBP, RBX and R12 to R15 saved, RDI, RSI, RDX and RSP kept in R15,
      R14, R13 and R12. */
  lemma EntryBytes()
    ensures Encodes(Prologue() + Aliases(),
                    [0x55, 0x48, 0x89, 0xE5, 0x53, 0x41, 0x54]
                    + [0x41, 0x55, 0x41, 0x56, 0x41, 0x57, 0x48, 0x83, 0xEC, 0x08]
                    + [0x49, 0x89, 0xFF, 0x49, 0x89, 0xF6, 0x49, 0x89, 0xD5, 0x49, 0x89, 0xE4])
  {
    hide Encodes;
    SaveBytes();
    SaveMoreBytes();
    AliasBytes();
    var a, b := [Push(RBP), MovRR(RBP, RSP), Push(RBX), Push(R12)], [Push(R13), Push(R14), Push(R15), SubI8(RSP, 8)];
    var x: seq<byte> := [0x55, 0x48, 0x89, 0xE5, 0x53, 0x41, 0x54];
    var y: seq<byte> := [0x41, 0x55, 0x41, 0x56, 0x41, 0x57, 0x48, 0x83, 0xEC, 0x08];
    Blocks(a, x, b, y);
    assert Prologue() == a + b;
    Blocks(Prologue(), x + y, Aliases(), [0x49, 0x89, 0xFF, 0x49, 0x89, 0xF6, 0x49, 0x89, 0xD5, 0x49, 0x89, 0xE4]);
  }

  /** And returns with these: the result in RAX, or zero, the stack pointer as it was, the registers restored. */
  lemma ReturnBytes(results: nat)
    ensures Encodes(ReturnCode(results),
                    (if results > 0 then [0x58, 0x4C, 0x89, 0xE4] else [0x4C, 0x89, 0xE4, 0xB8, 0x00, 0x00, 0x00, 0x00])
                    + [0x48, 0x83, 0xC4, 0x08, 0x41, 0x5F, 0x41, 0x5E, 0x41, 0x5D, 0x41, 0x5C, 0x5B, 0x5D, 0xC3])
  {
    hide Encodes;
    ResultBytes();
    ZeroBytes();
    EpilogueBytes();
    hide Epilogue;
    var head := if results > 0 then [Pop(RAX), MovRR(RSP, R12)] else [MovRR(RSP, R12), MovRI32(RAX, 0)];
    Blocks(head,
           if results > 0 then [0x58, 0x4C, 0x89, 0xE4] else [0x4C, 0x89, 0xE4, 0xB8, 0x00, 0x00, 0x00, 0x00],
           Epilogue(),
           [0x48, 0x83, 0xC4, 0x08, 0x41, 0x5F, 0x41, 0x5E, 0x41, 0x5D, 0x41, 0x5C, 0x5B, 0x5D, 0xC3]);
  }

  lemma ResultBytes()
    ensures Encodes([Pop(RAX), MovRR(RSP, R12)], [0x58, 0x4C, 0x89, 0xE4])
  {
    TwoBytes(Pop(RAX), MovRR(RSP, R12));
    hide Encodes;
  }

  lemma ZeroBytes()
    ensures Encodes([MovRR(RSP, R12), MovRI32(RAX, 0)], [0x4C, 0x89, 0xE4, 0xB8, 0x00, 0x00, 0x00, 0x00])
  {
    TwoBytes(MovRR(RSP, R12), MovRI32(RAX, 0));
    hide Encodes;
  }

  method EmitAliases(buf: CodeBuf)
    requires buf.Valid()
    modifies buf, buf.buf
    ensures buf.Valid() && buf.stream == old(buf.stream) + EncodeAll(Aliases())
  {
    EmitShortBlock(buf.stream, Aliases());
    hide Encode, Clip, EncodeAll;
    buf.EmitMovRR(R15, RDI);
    buf.EmitMovRR(R14, RSI);
    buf.EmitMovRR(R13, RDX);
    buf.EmitMovRR(R12, RSP);
  }

  /** `emit_return`. */
  method EmitReturn(buf: CodeBuf, results: nat)
    requires buf.Valid()
    modifies buf, buf.buf
    ensures AllEncodable(ReturnCode(results))
    ensures buf.Valid() && buf.stream == old(buf.stream) + EncodeAll(ReturnCode(results))
  {
    ghost var head := if results > 0 then [Pop(RAX), MovRR(RSP, R12)] else [MovRR(RSP, R12), MovRI32(RAX, 0)];
    EmitShortBlock(buf.stream, head);
    EmitAfter(buf.stream, head, Epilogue());
    hide Encode, Clip, EncodeAll, Encodable;
    if results > 0 { buf.EmitPop(RAX); }
    buf.EmitMovRR(RSP, R12);
    if results == 0 { buf.EmitMovRI32(RAX, 0); }
    buf.EmitEpilogue();
  }

  /** One turn of the dispatch: emits the code of a translatable instruction and moves past it. */
  method EmitOne(body: seq<byte>, ip: nat, buf: CodeBuf) returns (next: Option<nat>)
    requires ip < |body| && body[ip] != RETURN && body[ip] != END && buf.Valid()
    modifies buf, buf.buf
    ensures buf.Valid()
    ensures next.None? ==> Translate(body, ip).None? && buf.stream == old(buf.stream)
    ensures next.Some? ==>
              && Translate(body, ip).Some? && next.value == Translate(body, ip).value.1
              && AllEncodable(Translate(body, ip).value.0)
              && buf.stream == old(buf.stream) + EncodeAll(Translate(body, ip).value.0)
  {
    hide Encode, Clip, EncodeAll, ReadI32, ReadU32, ReadI64, LocalOffset, LocalCode, BinaryCode;
    var op := body[ip];
    var operand := body[ip + 1..];
    if op == I32_CONST {
      var r := DecodeI32(operand);
      if r.None? { return None; }
      EmitConst(buf, ToWord(r.value.0));
      return Some(ip + 1 + r.value.1);
    } else if op == I64_CONST {
      var r := DecodeI64(operand);
      if r.None? { return None; }
      EmitConst(buf, r.value.0);
      return Some(ip + 1 + r.value.1);
    } else if op == LOCAL_GET || op == LOCAL_SET || op == LOCAL_TEE {
      var r := DecodeU32(operand);
      if r.None? { return None; }
      EmitLocal(buf, op, LocalOffset(r.value.0));
      return Some(ip + 1 + r.value.1);
    } else if AluOf(op).Some? || ShiftOf(op).Some? {
      EmitBinary(buf, op);
      return Some(ip + 1);
    } else if op == DROP {
      EmitShortBlock(buf.stream, [AddI8(RSP, 8)]);
      buf.EmitAddRspI8(8);
      return Some(ip + 1);
    } else if op == NOP {
      EmitShortBlock(buf.stream, []);
      return Some(ip + 1);
    } else {
      return None;
    }
  }

  method EmitConst(buf: CodeBuf, w: Word)
    requires buf.Valid()
    modifies buf, buf.buf
    ensures var code := [MovRI64(RAX, w), Push(RAX)];
            buf.Valid() && AllEncodable(code) && buf.stream == old(buf.stream) + EncodeAll(code)
  {
    EmitShortBlock(buf.stream, [MovRI64(RAX, w), Push(RAX)]);
    hide Encode, Clip, EncodeAll;
    buf.EmitMovRI64(RAX, w);
    buf.EmitPush(RAX);
  }

  method EmitLocal(buf: CodeBuf, op: byte, offset: int)
    requires buf.Valid() && -TWO31 <= offset < TWO31
    modifies buf, buf.buf
    ensures buf.Valid() && AllEncodable(LocalCode(op, offset))
    ensures buf.stream == old(buf.stream) + EncodeAll(LocalCode(op, offset))
  {
    EmitShortBlock(buf.stream, LocalCode(op, offset));
    hide Encode, Clip, EncodeAll;
    if op == LOCAL_GET {
      buf.EmitLoadMem(RAX, R13, offset);
      buf.EmitPush(RAX);
    } else if op == LOCAL_SET {
      buf.EmitPop(RAX);
      buf.EmitStoreMem(RAX, R13, offset);
    } else {
      buf.EmitPop(RAX);
      buf.EmitPush(RAX);
      buf.EmitStoreMem(RAX, R13, offset);
    }
  }

  method EmitBinary(buf: CodeBuf, op: byte)
    requires buf.Valid() && (AluOf(op).Some? || ShiftOf(op).Some?)
    modifies buf, buf.buf
    ensures buf.Valid() && AllEncodable(BinaryCode(op))
    ensures buf.stream == old(buf.stream) + EncodeAll(BinaryCode(op))
  {
    EmitShortBlock(buf.stream, BinaryCode(op));
    hide Encode, Clip, EncodeAll;
    buf.EmitPop(RCX);
    buf.EmitPop(RAX);
    if op == I32_MUL {
      buf.EmitImulRR(RAX, RCX);
    } else if AluOf(op).Some? {
      buf.EmitAluRR(AluOf(op).value, RAX, RCX);
    } else {
      buf.EmitShiftCl(ShiftOf(op).value, RAX);
    }
    buf.EmitPush(RAX);
  }

  /** `whole` is what remains to be emitted at `ip`, after `code`. */
  ghost predicate Pending(whole: Emission, code: seq<Instr>, body: seq<byte>, ip: nat, results: nat) {
    var rest := CompileFrom(body, ip, results);
    whole == Emission(rest.ok, code + rest.code)
  }

  lemma CompileStep(whole: Emission, code: seq<Instr>, body: seq<byte>, ip: nat, results: nat)
    requires Pending(whole, code, body, ip, results)
    ensures ip >= |body| || body[ip] == RETURN || (body[ip] == END && ip + 1 == |body|) ==>
              whole == Emission(true, code + ReturnCode(results))
    ensures ip < |body| && body[ip] == END && ip + 1 != |body| ==> whole == Emission(false, code)
    ensures ip < |body| && body[ip] != RETURN && body[ip] != END && Translate(body, ip).None? ==>
              whole == Emission(false, code)
    ensures ip < |body| && body[ip] != RETURN && body[ip] != END && Translate(body, ip).Some? ==>
              Pending(whole, code + Translate(body, ip).value.0, body, Translate(body, ip).value.1, results)
  {
    hide Translate, ReturnCode;
    assert code + [] == code;
    if ip < |body| && body[ip] != RETURN && body[ip] != END && Translate(body, ip).Some? {
      var (block, next) := Translate(body, ip).value;
      var rest := CompileFrom(body, next, results).code;
      assert code + (block + rest) == (code + block) + rest;
    }
  }

  /** The dispatch loop of `jit_compile_body`, with the three places that emit the return sequence
      (explicit `return`, final `end`, running off the end) joined. */
  method CompileLoop(body: seq<byte>, results: nat, buf: CodeBuf) returns (ok: bool)
    requires buf.Valid()
    modifies buf, buf.buf
    ensures buf.Valid() && ok == CompileFrom(body, 0, results).ok
    ensures AllEncodable(CompileFrom(body, 0, results).code)
    ensures buf.stream == old(buf.stream) + EncodeAll(CompileFrom(body, 0, results).code)
  {
    CompileEncodable(body, 0, results);
    EncodeNone();
    ghost var whole := CompileFrom(body, 0, results);
    ghost var code: seq<Instr> := [];
    assert AllEncodable(code) && Pending(whole, code, body, 0, results);
    hide Encode, Clip, Encodable, EncodeAll, AllEncodable, Translate, ReturnCode, CompileFrom, Pending;
    var ip := 0;
    while ip < |body|
      invariant ip <= |body| && buf.Valid()
      invariant AllEncodable(code) && buf.stream == old(buf.stream) + EncodeAll(code)
      invariant Pending(whole, code, body, ip, results)
    {
      CompileStep(whole, code, body, ip, results);
      if body[ip] == RETURN || (body[ip] == END && ip + 1 == |body|) { break; }
      if body[ip] == END { return false; }
      var next := EmitOne(body, ip, buf);
      if next.None? { return false; }
      EmitAfter(old(buf.stream), code, Translate(body, ip).value.0);
      code := code + Translate(body, ip).value.0;
      ip := next.value;
    }
    CompileStep(whole, code, body, ip, results);
    EmitReturn(buf, results);
    EmitAfter(old(buf.stream), code, ReturnCode(results));
    return true;
  }

  /** `jit_compile_body`: accepts exactly the bodies `Jit` accepts, and appends exactly the encodings of
      its instructions. */
  method JitCompileBody(body: seq<byte>, results: nat, buf: CodeBuf) returns (ok: bool)
    requires buf.Valid()
    modifies buf, buf.buf
    ensures buf.Valid() && ok == Jit(body, results).ok
    ensures AllEncodable(Jit(body, results).code)
    ensures buf.stream == old(buf.stream) + EncodeAll(Jit(body, results).code)
  {
    JitEncodable(body, results);
    EncodeNone();
    if results > 1 { return false; }
    EntryEncodable();
    hide Encode, Clip, Encodable, EncodeAll, CompileFrom;
    EmitAfter(buf.stream, Prologue(), Aliases());
    buf.EmitPrologue();
    EmitAliases(buf);
    ok := CompileLoop(body, results, buf);
    EmitAfter(old(buf.stream), Prologue() + Aliases(), CompileFrom(body, 0, results).code);
  }

  const MAX_FN_BYTES: nat := 4096

  /** The per-function step of `compile_jit`: compile into the scratch buffer and keep what it holds. A
      stream that does not fit is installed truncated. (An accepted body emits at least its prologue, so
      the source's test for an empty result never succeeds.) */
  method CompileFunction(body: seq<byte>, results: nat) returns (code: Option<seq<byte>>)
    ensures AllEncodable(Jit(body, results).code)
    ensures code.Some? <==> Jit(body, results).ok
    ensures code.Some? ==> code.value == Clip(EncodeAll(Jit(body, results).code), MAX_FN_BYTES)
  {
    hide Jit, Encode, EncodeAll, Encodable, AllEncodable;
    var tmp := new byte[MAX_FN_BYTES](_ => 0);
    var buf := new CodeBuf(tmp);
    var ok := JitCompileBody(body, results, buf);
    if !ok { return None; }
    assert [] + EncodeAll(Jit(body, results).code) == EncodeAll(Jit(body, results).code);
    return Some(tmp[..buf.cursor]);
  }

  // ---- the code pool ------------------------------------------------------------------------------

  const JIT_BUF_SIZE: nat := 2048 * 1024

  function Aligned(fill: nat): (a: nat)
    ensures fill <= a < fill + 16 && a % 16 == 0
  {
    (fill + 15) / 16 * 16
  }

  /** What happens to one function: interpreted because unsupported, installed at an address, or not reached because the
      pool ran out at it or before. */
  datatype Slot = Interpreted | Installed(start: nat, code: seq<byte>) | NoRoom

  /** Where the pool is filled to after `slots`. */
  function FillAfter(slots: seq<Slot>, used: nat): nat {
    if slots == [] then used
    else
      var last := slots[|slots| - 1];
      if last.Installed? then last.start + |last.code| else FillAfter(slots[..|slots| - 1], used)
  }

  predicate Exhausted(slots: seq<Slot>) {
    slots != [] && slots[|slots| - 1].NoRoom?
  }

  /** What the loop does with one function after `prior`: nothing once the pool was exhausted; otherwise `jit_alloc`
      at the aligned end of the last function installed. */
  ghost function SlotFor(prior: seq<Slot>, used: nat, body: seq<byte>, results: nat): Slot
    requires AllEncodable(Jit(body, results).code)
  {
    if Exhausted(prior) then NoRoom
    else if !Jit(body, results).ok then Interpreted
    else
      var code := Clip(EncodeAll(Jit(body, results).code), MAX_FN_BYTES);
      var start := Aligned(FillAfter(prior, used));
      if start + |code| > JIT_BUF_SIZE then NoRoom else Installed(start, code)
  }

  /** Every slot is what the loop makes of its function. */
  ghost predicate SlotsOf(slots: seq<Slot>, used: nat, bodies: seq<seq<byte>>, results: seq<nat>)
    requires |slots| <= |bodies| == |results|
  {
    forall i :: 0 <= i < |slots| ==>
      AllEncodable(Jit(bodies[i], results[i]).code) && slots[i] == SlotFor(slots[..i], used, bodies[i], results[i])
  }

  /** The code of every installed function stands in the pool at its start. */
  ghost predicate Holds(pool: seq<byte>, slots: seq<Slot>) {
    forall i :: 0 <= i < |slots| && slots[i].Installed? ==> At(pool, slots[i].start, slots[i].code)
  }

  /** Installed functions lie above what was used before, 16-byte aligned, one after another. */
  ghost predicate Packed(slots: seq<Slot>, used: nat) {
    var fill := FillAfter(slots, used);
    && used <= fill <= JIT_BUF_SIZE
    && (forall i :: 0 <= i < |slots| && slots[i].Installed? ==>
          slots[i].start % 16 == 0 && used <= slots[i].start && slots[i].start + |slots[i].code| <= fill)
    && (forall i, j :: 0 <= i < j < |slots| && slots[i].Installed? && slots[j].Installed? ==>
          slots[i].start + |slots[i].code| <= slots[j].start)
  }

  lemma PackedNext(slots: seq<Slot>, used: nat, slot: Slot)
    requires Packed(slots, used)
    requires slot.Installed? ==>
               slot.start == Aligned(FillAfter(slots, used)) && slot.start + |slot.code| <= JIT_BUF_SIZE
    ensures Packed(slots + [slot], used)
    ensures FillAfter(slots + [slot], used)
            == if slot.Installed? then slot.start + |slot.code| else FillAfter(slots, used)
  {
    hide Aligned;
    assert (slots + [slot])[..|slots|] == slots;
  }

  lemma SlotsNext(slots: seq<Slot>, used: nat, bodies: seq<seq<byte>>, results: seq<nat>, slot: Slot)
    requires |slots| < |bodies| == |results| && SlotsOf(slots, used, bodies, results)
    requires AllEncodable(Jit(bodies[|slots|], results[|slots|]).code)
    requires slot == SlotFor(slots, used, bodies[|slots|], results[|slots|])
    ensures SlotsOf(slots + [slot], used, bodies, results)
  {
    hide Jit, AllEncodable, SlotFor;
    forall i | 0 <= i < |slots| + 1
      ensures AllEncodable(Jit(bodies[i], results[i]).code)
              && (slots + [slot])[i] == SlotFor((slots + [slot])[..i], used, bodies[i], results[i])
    {
      assert (slots + [slot])[..i] == slots[..i];
      if i == |slots| { assert slots[..i] == slots; }
    }
  }

  lemma HoldsNext(pool: seq<byte>, pool': seq<byte>, slots: seq<Slot>, used: nat, slot: Slot)
    requires Packed(slots, used) && Holds(pool, slots) && |pool'| == |pool| && slot.Installed?
    requires FillAfter(slots, used) <= slot.start <= |pool| && pool'[..slot.start] == pool[..slot.start]
    requires At(pool', slot.start, slot.code)
    ensures Holds(pool', slots + [slot])
  {
    forall i | 0 <= i < |slots| && slots[i].Installed? ensures At(pool', slots[i].start, slots[i].code) {
      var a, b := slots[i].start, slots[i].start + |slots[i].code|;
      assert pool'[a..b] == pool'[..slot.start][a..b];
      assert pool[a..b] == pool[..slot.start][a..b];
    }
  }

  /** `copy_nonoverlapping` into the pool. */
  method CopyCode(pool: array<byte>, start: nat, code: seq<byte>)
    requires start + |code| <= pool.Length
    modifies pool
    ensures At(pool[..], start, code) && pool[..start] == old(pool[..start])
    ensures pool[start + |code|..] == old(pool[start + |code|..])
  {
    forall k | 0 <= k < |code| { pool[start + k] := code[k]; }
    assert pool[..][start..start + |code|] == code;
  }

  predicate Outside(was: seq<byte>, now: seq<byte>, lo: nat, hi: nat) {
    lo <= hi <= |was| == |now| && was[..lo] == now[..lo] && was[hi..] == now[hi..]
  }

  lemma OutsideNext(first: seq<byte>, was: seq<byte>, now: seq<byte>, lo: nat, hi: nat, start: nat, hi': nat)
    requires Outside(first, was, lo, hi) && hi <= start <= hi' <= |was| == |now|
    requires now[..start] == was[..start] && now[hi'..] == was[hi'..]
    ensures Outside(first, now, lo, hi')
  {
    assert now[..lo] == now[..start][..lo] && was[..lo] == was[..start][..lo];
    assert was[hi'..] == was[hi..][hi' - hi..] && first[hi'..] == first[hi..][hi' - hi..];
  }

  /** The loop of `compile_jit`: every function is installed as compiled at the aligned end of the one before, left to
      the interpreter when unsupported, or left out from the first one on that finds the pool full. */
  method CompileAll(bodies: seq<seq<byte>>, results: seq<nat>, used: nat, pool: array<byte>) returns (slots: seq<Slot>)
    requires |bodies| == |results| && used <= pool.Length == 0x20_0000
    modifies pool
    ensures |slots| == |bodies| && SlotsOf(slots, used, bodies, results)
    ensures Packed(slots, used) && Holds(pool[..], slots)
    ensures pool[..used] == old(pool[..used]) && pool[FillAfter(slots, used)..] == old(pool[FillAfter(slots, used)..])
  {
    hide Jit, EncodeAll, AllEncodable, Clip, At, Packed, SlotsOf, Holds, Outside;
    slots := [];
    var fill, full := used, false;
    ghost var first := pool[..];
    OutsideStart(first, used);
    StartEmpty(pool[..], used, bodies, results);
    for i := 0 to |bodies|
      invariant |slots| == i && SlotsOf(slots, used, bodies, results) && Packed(slots, used) && Holds(pool[..], slots)
      invariant used <= fill == FillAfter(slots, used) <= JIT_BUF_SIZE && full == Exhausted(slots)
      invariant Outside(first, pool[..], used, fill)
    {
      var code := CompileFunction(bodies[i], results[i]);
      var slot := if full then NoRoom
                  else if code.None? then Interpreted
                  else if Aligned(fill) + |code.value| > JIT_BUF_SIZE then NoRoom
                  else Installed(Aligned(fill), code.value);
      ghost var was := pool[..];
      SlotsNext(slots, used, bodies, results, slot);
      PackedNext(slots, used, slot);
      if slot.Installed? {
        CopyCode(pool, slot.start, slot.code);
        HoldsNext(was, pool[..], slots, used, slot);
        OutsideNext(first, was, pool[..], used, fill, slot.start, slot.start + |slot.code|);
        fill := slot.start + |slot.code|;
      } else {
        HoldsSkip(pool[..], slots, slot);
      }
      full := slot.NoRoom?;
      slots := slots + [slot];
    }
    OutsideMeans(first, pool[..], used, fill);
  }

  lemma OutsideStart(pool: seq<byte>, used: nat)
    requires used <= |pool|
    ensures Outside(pool, pool, used, used)
  {
  }

  lemma OutsideMeans(was: seq<byte>, now: seq<byte>, lo: nat, hi: nat)
    requires Outside(was, now, lo, hi)
    ensures hi <= |was| == |now| && now[..lo] == was[..lo] && now[hi..] == was[hi..]
  {
  }

  lemma StartEmpty(pool: seq<byte>, used: nat, bodies: seq<seq<byte>>, results: seq<nat>)
    requires used <= JIT_BUF_SIZE && |bodies| == |results|
    ensures SlotsOf([], used, bodies, results) && Packed([], used) && Holds(pool, []) && FillAfter([], used) == used
  {
  }

  lemma HoldsSkip(pool: seq<byte>, slots: seq<Slot>, slot: Slot)
    requires Holds(pool, slots) && !slot.Installed?
    ensures Holds(pool, slots + [slot])
  {
    hide At;
  }

  /** Behind a function that fills the scratch buffer the next one installed starts at once: its length is a multiple of
      the alignment. */
  lemma NextBehind(slots: seq<Slot>, used: nat, bodies: seq<seq<byte>>, results: seq<nat>, i: nat, j: nat)
    requires |slots| == |bodies| == |results| && SlotsOf(slots, used, bodies, results) && i < j < |slots|
    requires slots[i].Installed? && |slots[i].code| == MAX_FN_BYTES && slots[j].Installed?
    requires forall k :: i < k < j ==> !slots[k].Installed?
    ensures slots[j].start == slots[i].start + MAX_FN_BYTES
  {
    hide Jit, EncodeAll, AllEncodable, Clip;
    FillSkips(slots, used, i, j);
    assert slots[i] == SlotFor(slots[..i], used, bodies[i], results[i]);
    assert slots[j] == SlotFor(slots[..j], used, bodies[j], results[j]);
    AlignedStays(slots[i].start);
  }

  lemma AlignedStays(a: nat)
    requires a % 16 == 0
    ensures Aligned(a + MAX_FN_BYTES) == a + MAX_FN_BYTES
  {
  }

  lemma {:induction false} FillSkips(slots: seq<Slot>, used: nat, i: nat, j: nat)
    requires i < j <= |slots| && slots[i].Installed? && forall k :: i < k < j ==> !slots[k].Installed?
    ensures FillAfter(slots[..j], used) == slots[i].start + |slots[i].code|
    decreases j
  {
    if i < j - 1 {
      FillSkips(slots, used, i, j - 1);
      assert slots[..j][..j - 1] == slots[..j - 1];
    }
  }
}
