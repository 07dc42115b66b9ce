/** Exactly when the scratch buffer of `compile_jit` holds the whole function, and where a cut one ends. */
module JitSize {
  import opened Words
  import opened X86
  import opened CodeBuffer
  import opened Opcode
  import opened Leb128
  import opened JitCompile
  import opened JitCorrect

  // ---- the emitted size, opcode by opcode -----------------------------------------------------------------------

  /** A load or store of a local: a one-byte displacement up to index 15, four bytes beyond. */
  function LocalAccess(idx: u32): nat {
    if -128 <= LocalOffset(idx) <= 127 then 4 else 7
  }

  /** Machine code bytes of the instruction at `ip`, and where the next one starts. */
  function OpSize(body: seq<byte>, ip: nat): (r: Option<(nat, nat)>)
    requires ip < |body|
    ensures r.Some? ==> ip < r.value.1 <= |body|
  {
    var op := body[ip];
    var operand := body[ip + 1..];
    if op == I32_CONST then
      match ReadI32(operand) case None => None case Some((_, n)) => Some((11, ip + 1 + n))
    else if op == I64_CONST then
      match ReadI64(operand) case None => None case Some((_, n)) => Some((11, ip + 1 + n))
    else if op == LOCAL_GET || op == LOCAL_SET then
      match ReadU32(operand) case None => None case Some((idx, n)) => Some((1 + LocalAccess(idx), ip + 1 + n))
    else if op == LOCAL_TEE then
      match ReadU32(operand) case None => None case Some((idx, n)) => Some((2 + LocalAccess(idx), ip + 1 + n))
    else if op == I32_MUL then Some((7, ip + 1))
    else if AluOf(op).Some? || ShiftOf(op).Some? then Some((6, ip + 1))
    else if op == DROP then Some((4, ip + 1))
    else if op == NOP then Some((0, ip + 1))
    else None
  }

  const ENTRY_SIZE: nat := 29

  function ReturnBytes(results: nat): nat {
    if results > 0 then 19 else 23
  }

  function BodySize(body: seq<byte>, ip: nat, results: nat): nat
    decreases |body| - ip
  {
    if AtReturn(body, ip) then ReturnBytes(results)
    else
      match OpSize(body, ip)
      case None => 0
      case Some((n, next)) => n + BodySize(body, next, results)
  }

  /** Size of the machine code of a body. */
  function EmittedSize(body: seq<byte>, results: nat): nat {
    ENTRY_SIZE + BodySize(body, 0, results)
  }

  // ---- it is the length of the encoding -------------------------------------------------------------------------

  function SizeOf(i: Instr): nat {
    match i
    case MovRR(_, _) => 3
    case MovRI64(_, _) => 10
    case MovRI32(dst, _) => if dst >= 8 then 6 else 5
    case Push(r) => if r >= 8 then 2 else 1
    case Pop(r) => if r >= 8 then 2 else 1
    case Alu(op, _, _) => if op == Imul then 4 else 3
    case ShiftCl(_, _) => 3
    case Load(_, base, disp) => if disp == 0 && base % 8 != 5 then 3 else if -128 <= disp <= 127 then 4 else 7
    case Store(_, base, disp) => if disp == 0 && base % 8 != 5 then 3 else if -128 <= disp <= 127 then 4 else 7
    case AddI8(_, _) => 4
    case SubI8(_, _) => 4
    case Ret => 1
  }

  lemma EncodeSize(i: Instr)
    requires Encodable(i)
    ensures |Encode(i)| == SizeOf(i)
  {
  }

  function Sizes(code: seq<Instr>): nat {
    if code == [] then 0 else SizeOf(code[0]) + Sizes(code[1..])
  }

  lemma {:induction false} EncodeAllSize(code: seq<Instr>)
    requires AllEncodable(code)
    ensures |EncodeAll(code)| == Sizes(code)
    decreases |code|
  {
    hide Encode, SizeOf, Encodable;
    if code != [] {
      EncodeSize(code[0]);
      EncodeAllSize(code[1..]);
    }
  }

  lemma {:induction false} SizesConcat(a: seq<Instr>, b: seq<Instr>)
    ensures Sizes(a + b) == Sizes(a) + Sizes(b)
    decreases |a|
  {
    hide SizeOf;
    if a == [] {
      assert a + b == b;
    } else {
      assert (a + b)[1..] == a[1..] + b;
      SizesConcat(a[1..], b);
    }
  }

  lemma SizesTwo(i: Instr, j: Instr)
    ensures Sizes([i, j]) == SizeOf(i) + SizeOf(j)
  {
    hide SizeOf;
    assert [i, j][1..] == [j];
    SizesOne(j);
  }

  lemma SizesThree(i: Instr, j: Instr, k: Instr)
    ensures Sizes([i, j, k]) == SizeOf(i) + SizeOf(j) + SizeOf(k)
  {
    hide SizeOf;
    assert [i, j, k][1..] == [j, k];
    SizesTwo(j, k);
  }

  lemma SizesFour(i: Instr, j: Instr, k: Instr, l: Instr)
    ensures Sizes([i, j, k, l]) == SizeOf(i) + SizeOf(j) + SizeOf(k) + SizeOf(l)
  {
    hide SizeOf;
    assert [i, j, k, l][1..] == [j, k, l];
    SizesThree(j, k, l);
  }

  /** One translated instruction: same acceptance, same next position, and the size said above. */
  lemma TranslatedSize(body: seq<byte>, ip: nat)
    requires ip < |body|
    ensures Translate(body, ip).Some? <==> OpSize(body, ip).Some?
    ensures Translate(body, ip).Some? ==>
              OpSize(body, ip).value == (Sizes(Translate(body, ip).value.0), Translate(body, ip).value.1)
  {
    hide ReadI32, ReadU32, ReadI64, LocalOffset, Sizes;
    if Translate(body, ip).Some? {
      var code := Translate(body, ip).value.0;
      if |code| == 0 { SizesNone(); }
      if |code| == 1 { SizesOne(code[0]); assert code == [code[0]]; }
      if |code| == 2 { SizesTwo(code[0], code[1]); assert code == [code[0], code[1]]; }
      if |code| == 3 { SizesThree(code[0], code[1], code[2]); assert code == [code[0], code[1], code[2]]; }
      if |code| == 4 {
        SizesFour(code[0], code[1], code[2], code[3]);
        assert code == [code[0], code[1], code[2], code[3]];
      }
    }
  }

  lemma SizesNone()
    ensures Sizes([]) == 0
  {
  }

  lemma SizesOne(i: Instr)
    ensures Sizes([i]) == SizeOf(i)
  {
    assert [i][1..] == [];
  }

  lemma EightSizes(a: seq<Instr>, b: seq<Instr>)
    requires |a| == 4 && |b| == 4
    ensures Sizes(a + b) == SizeOf(a[0]) + SizeOf(a[1]) + SizeOf(a[2]) + SizeOf(a[3])
                            + SizeOf(b[0]) + SizeOf(b[1]) + SizeOf(b[2]) + SizeOf(b[3])
  {
    hide SizeOf;
    SizesConcat(a, b);
    assert a == [a[0], a[1], a[2], a[3]] && b == [b[0], b[1], b[2], b[3]];
    SizesFour(a[0], a[1], a[2], a[3]);
    SizesFour(b[0], b[1], b[2], b[3]);
  }

  lemma FixedSizes(results: nat)
    ensures Sizes(Prologue() + Aliases()) == ENTRY_SIZE && Sizes(ReturnCode(results)) == ReturnBytes(results)
  {
    hide Sizes;
    assert Prologue() == Prologue()[..4] + Prologue()[4..] && Epilogue() == Epilogue()[..4] + Epilogue()[4..];
    EightSizes(Prologue()[..4], Prologue()[4..]);
    EightSizes(Epilogue()[..4], Epilogue()[4..]);
    SizesConcat(Prologue(), Aliases());
    SizesFour(MovRR(R15, RDI), MovRR(R14, RSI), MovRR(R13, RDX), MovRR(R12, RSP));
    SizesTwo(Pop(RAX), MovRR(RSP, R12));
    SizesTwo(MovRR(RSP, R12), MovRI32(RAX, 0));
    var head := if results > 0 then [Pop(RAX), MovRR(RSP, R12)] else [MovRR(RSP, R12), MovRI32(RAX, 0)];
    SizesConcat(head, Epilogue());
  }

  lemma {:induction false} CompiledSize(body: seq<byte>, ip: nat, results: nat)
    requires CompileFrom(body, ip, results).ok
    ensures Sizes(CompileFrom(body, ip, results).code) == BodySize(body, ip, results)
    decreases |body| - ip
  {
    hide Translate, OpSize, Sizes, ReturnCode, ReturnBytes;
    if AtReturn(body, ip) {
      FixedSizes(results);
    } else {
      TranslatedSize(body, ip);
      var (code, next) := Translate(body, ip).value;
      CompiledSize(body, next, results);
      SizesConcat(code, CompileFrom(body, next, results).code);
    }
  }

  /** The machine code of an accepted body is exactly as long as its opcodes say. */
  lemma ExactSize(body: seq<byte>, results: nat)
    requires Jit(body, results).ok
    ensures AllEncodable(Jit(body, results).code) && |EncodeAll(Jit(body, results).code)| == EmittedSize(body, results)
  {
    JitEncodable(body, results);
    hide Sizes, CompileFrom, BodySize, Prologue, Aliases, EncodeAll, AllEncodable;
    EncodeAllSize(Jit(body, results).code);
    SizesConcat(Prologue() + Aliases(), CompileFrom(body, 0, results).code);
    FixedSizes(results);
    CompiledSize(body, 0, results);
  }

  /** Nothing is dropped if and only if that is at most 4096 bytes. */
  lemma NothingDroppedIff(body: seq<byte>, results: nat)
    requires Jit(body, results).ok
    ensures AllEncodable(Jit(body, results).code)
    ensures Clip(EncodeAll(Jit(body, results).code), MAX_FN_BYTES) == EncodeAll(Jit(body, results).code)
            <==> EmittedSize(body, results) <= MAX_FN_BYTES
  {
    hide EncodeAll, AllEncodable, Jit, EmittedSize;
    ExactSize(body, results);
  }

  lemma {:induction false} BodySizeBound(body: seq<byte>, ip: nat, results: nat)
    requires ip <= |body|
    ensures BodySize(body, ip, results) <= 23 + 7 * (|body| - ip)
    decreases |body| - ip
  {
    hide OpSize;
    if !AtReturn(body, ip) && OpSize(body, ip).Some? {
      OpSizeBound(body, ip);
      BodySizeBound(body, OpSize(body, ip).value.1, results);
    }
  }

  lemma OpSizeBound(body: seq<byte>, ip: nat)
    requires ip < |body| && OpSize(body, ip).Some?
    ensures var (n, next) := OpSize(body, ip).value; n <= 7 * (next - ip)
  {
    hide ReadI32, ReadU32, ReadI64;
  }

  /** A body of L bytes compiles to at most 52 + 7 L bytes of machine code, so the 4096-byte scratch buffer of
      `compile_jit` drops nothing for bodies of up to 577 bytes. */
  lemma ScratchBufferSuffices(body: seq<byte>, results: nat)
    requires Jit(body, results).ok
    ensures AllEncodable(Jit(body, results).code)
    ensures |EncodeAll(Jit(body, results).code)| <= 52 + 7 * |body|
    ensures |body| <= 577 ==>
              Clip(EncodeAll(Jit(body, results).code), MAX_FN_BYTES) == EncodeAll(Jit(body, results).code)
  {
    hide EncodeAll, AllEncodable, Jit, BodySize;
    ExactSize(body, results);
    BodySizeBound(body, 0, results);
  }

  // ---- a cut function ends before its return --------------------------------------------------------------------

  /** The decoder looks no further than the instruction it finds. */
  lemma DecodeMemMonotone(bs: seq<byte>, more: seq<byte>, rexB: int)
    requires 0 <= rexB <= 1 && DecodeMem(bs, rexB).Some?
    ensures DecodeMem(bs + more, rexB) == DecodeMem(bs, rexB)
  {
  }

  lemma DecodeModRMMonotone(bs: seq<byte>, more: seq<byte>, rexR: int, rexB: int)
    requires 0 <= rexR <= 1 && 0 <= rexB <= 1 && DecodeModRM(bs, rexR, rexB).Some?
    ensures DecodeModRM(bs + more, rexR, rexB) == DecodeModRM(bs, rexR, rexB)
  {
    assert (bs + more)[1..] == bs[1..] + more;
    if DecodeMem(bs[1..], rexB).Some? { DecodeMemMonotone(bs[1..], more, rexB); }
    hide DecodeMem;
  }

  lemma DecodeOpcodeMonotone(bs: seq<byte>, more: seq<byte>, rexW: int, rexR: int, rexB: int)
    requires 0 <= rexW <= 1 && 0 <= rexR <= 1 && 0 <= rexB <= 1 && DecodeOpcode(bs, rexW, rexR, rexB).Some?
    ensures DecodeOpcode(bs + more, rexW, rexR, rexB) == DecodeOpcode(bs, rexW, rexR, rexB)
  {
    if DecodeModRM(bs, rexR, rexB).Some? { DecodeModRMMonotone(bs, more, rexR, rexB); }
    hide DecodeModRM;
    assert (bs + more)[1..] == bs[1..] + more;
  }

  lemma DecodeMonotone(bs: seq<byte>, more: seq<byte>)
    requires Decode(bs).Some?
    ensures Decode(bs + more) == Decode(bs)
  {
    hide DecodeOpcode;
    if |bs| > 0 && 0x40 <= bs[0] < 0x50 {
      assert (bs + more)[1..] == bs[1..] + more;
      DecodeOpcodeMonotone(bs[1..], more, (bs[0] / 8) % 2, (bs[0] / 4) % 2, bs[0] % 2);
    } else {
      assert |bs| > 0 by { if |bs| == 0 { NothingDecodes(); } }
      DecodeOpcodeMonotone(bs, more, 0, 0, 0);
    }
  }

  lemma NothingDecodes()
    ensures DecodeOpcode([], 0, 0, 0).None?
  {
  }

  /** A proper prefix of an instruction does not decode. */
  lemma CutInstruction(i: Instr, k: nat)
    requires Encodable(i) && k < |Encode(i)|
    ensures Decode(Encode(i)[..k]).None?
  {
    hide Decode, Encode, Encodable;
    var bs := Encode(i);
    DecodeEncode(i, []);
    assert bs + [] == bs && bs[..k] + bs[k..] == bs;
    if Decode(bs[..k]).Some? { DecodeMonotone(bs[..k], bs[k..]); }
  }

  predicate NoRet(code: seq<Instr>) {
    forall k :: 0 <= k < |code| ==> code[k] != Ret
  }

  /** Executing a proper prefix of the bytes of a function, whose only `ret` is its last instruction, runs off its end:
      what happens next is up to the bytes that follow. */
  lemma {:induction false} CutCode(code: seq<Instr>, k: nat, s: State)
    requires AllEncodable(code) && code != [] && NoRet(code[..|code| - 1]) && k < |EncodeAll(code)|
    ensures Run(EncodeAll(code)[..k], s).None?
    decreases |code|
  {
    hide Decode, Encode, Exec, ExecRet, Encodable;
    var first, bytes := Encode(code[0]), EncodeAll(code);
    if k < |first| {
      assert bytes[..k] == first[..k];
      CutInstruction(code[0], k);
    } else {
      var rest := EncodeAll(code[1..])[..k - |first|];
      assert bytes[..k] == first + rest;
      DecodeEncode(code[0], rest);
      assert code[1..] != [];
      assert code[0] == code[..|code| - 1][0];
      if Exec(code[0], s).Some? {
        assert (first + rest)[|first|..] == rest;
        forall j | 0 <= j < |code[1..]| - 1 ensures code[1..][j] != Ret {
          assert code[1..][j] == code[..|code| - 1][j + 1];
        }
        CutCode(code[1..], k - |first|, Exec(code[0], s).value);
      }
    }
  }

  lemma {:induction false} CompiledRets(body: seq<byte>, ip: nat, results: nat)
    requires CompileFrom(body, ip, results).ok
    ensures var code := CompileFrom(body, ip, results).code; code != [] && NoRet(code[..|code| - 1])
    decreases |body| - ip
  {
    hide Translate;
    if !AtReturn(body, ip) {
      var (code, next) := Translate(body, ip).value;
      TranslatedRets(body, ip);
      CompiledRets(body, next, results);
      var tail := CompileFrom(body, next, results).code;
      assert (code + tail)[..|code + tail| - 1] == code + tail[..|tail| - 1];
    }
  }

  lemma TranslatedRets(body: seq<byte>, ip: nat)
    requires ip < |body| && Translate(body, ip).Some?
    ensures NoRet(Translate(body, ip).value.0)
  {
    hide ReadI32, ReadU32, ReadI64;
  }

  lemma JitRets(body: seq<byte>, results: nat)
    requires Jit(body, results).ok
    ensures var code := Jit(body, results).code; code != [] && NoRet(code[..|code| - 1])
  {
    CompiledRets(body, 0, results);
    var head, tail := Prologue() + Aliases(), CompileFrom(body, 0, results).code;
    hide CompileFrom;
    assert NoRet(head);
    assert (head + tail)[..|head + tail| - 1] == head + tail[..|tail| - 1];
  }
}
