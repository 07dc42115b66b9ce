/** `CodeBuf`: a write cursor over a fixed byte array. A byte that does not fit is silently dropped,
    so what the buffer holds is always the longest prefix of the emitted stream that fits. */
module CodeBuffer {
  import opened Words
  import opened Bytes
  import opened X86

  /** The part of `s` that fits `n` bytes. */
  function Clip(s: seq<byte>, n: nat): (r: seq<byte>)
    ensures |r| == Min(|s|, n) && r <= s
  {
    if |s| <= n then s else s[..n]
  }

  function Prologue(): seq<Instr> {
    [Push(RBP), MovRR(RBP, RSP), Push(RBX), Push(R12), Push(R13), Push(R14), Push(R15), SubI8(RSP, 8)]
  }

  function Epilogue(): seq<Instr> {
    [AddI8(RSP, 8), Pop(R15), Pop(R14), Pop(R13), Pop(R12), Pop(RBX), Pop(RBP), Ret]
  }

  lemma EncodeSnoc(code: seq<Instr>, i: Instr)
    requires AllEncodable(code) && Encodable(i)
    ensures AllEncodable(code + [i]) && EncodeAll(code + [i]) == EncodeAll(code) + Encode(i)
  {
    hide Encode, Encodable;
    EncodeAllConcat(code, [i]);
    assert [i][1..] == [];
  }

  /** Emitting the k-th instruction of a block after the first k. */
  lemma EmitNext(start: seq<byte>, code: seq<Instr>, k: nat)
    requires k < |code| && AllEncodable(code)
    ensures AllEncodable(code[..k]) && AllEncodable(code[..k + 1])
    ensures start + EncodeAll(code[..k]) + Encode(code[k]) == start + EncodeAll(code[..k + 1])
    ensures start + EncodeAll([]) == start
    ensures code[..|code|] == code
  {
    hide Encode, Encodable;
    EncodeSnoc(code[..k], code[k]);
    assert code[..k] + [code[k]] == code[..k + 1];
  }

  /** A short block emitted instruction by instruction. */
  lemma EmitShortBlock(start: seq<byte>, code: seq<Instr>)
    requires |code| <= 4 && AllEncodable(code)
    ensures code == [] ==> start + EncodeAll(code) == start
    ensures |code| == 1 ==> start + EncodeAll(code) == start + Encode(code[0])
    ensures |code| == 2 ==> start + EncodeAll(code) == start + Encode(code[0]) + Encode(code[1])
    ensures |code| == 3 ==> start + EncodeAll(code) == start + Encode(code[0]) + Encode(code[1]) + Encode(code[2])
    ensures |code| == 4 ==> start + EncodeAll(code) ==
                            start + Encode(code[0]) + Encode(code[1]) + Encode(code[2]) + Encode(code[3])
  {
    hide Encode, Encodable, EncodeAll;
    if |code| > 0 { EmitNext(start, code, 0); } else { assert EncodeAll(code) == [] by { EncodeNone(); } }
    if |code| > 1 { EmitNext(start, code, 1); }
    if |code| > 2 { EmitNext(start, code, 2); }
    if |code| > 3 { EmitNext(start, code, 3); }
  }

  lemma EncodeNone()
    ensures EncodeAll([]) == []
  {
  }

  lemma EpilogueEncodable()
    ensures AllEncodable(Epilogue())
  {
  }

  lemma EmitEight(start: seq<byte>, code: seq<Instr>)
    requires |code| == 8 && AllEncodable(code)
    ensures start + EncodeAll(code) ==
            start + Encode(code[0]) + Encode(code[1]) + Encode(code[2]) + Encode(code[3])
                  + Encode(code[4]) + Encode(code[5]) + Encode(code[6]) + Encode(code[7])
  {
    hide Encode, Encodable, EncodeAll;
    EmitNext(start, code, 0);
    EmitNext(start, code, 1);
    EmitNext(start, code, 2);
    EmitNext(start, code, 3);
    EmitNext(start, code, 4);
    EmitNext(start, code, 5);
    EmitNext(start, code, 6);
    EmitNext(start, code, 7);
  }

  class CodeBuf {
    const buf: array<byte>
    var cursor: nat
    /** Every byte emitted so far, kept or dropped. */
    ghost var stream: seq<byte>

    ghost predicate Valid()
      reads this, buf
    {
      cursor <= buf.Length && buf[..cursor] == Clip(stream, buf.Length)
    }

    constructor (b: array<byte>)
      ensures Valid() && buf == b && stream == []
    {
      buf := b;
      cursor := 0;
      stream := [];
    }

    method EmitU8(b: byte)
      requires Valid()
      modifies this, buf
      ensures Valid() && stream == old(stream) + [b]
    {
      stream := stream + [b];
      if cursor < buf.Length {
        buf[cursor] := b;
        cursor := cursor + 1;
      }
    }

    method EmitU32(v: u32)
      requires Valid()
      modifies this, buf
      ensures Valid() && stream == old(stream) + Le32(v)
    {
      EmitU8(v % 256);
      EmitU8((v / 0x100) % 256);
      EmitU8((v / 0x1_0000) % 256);
      EmitU8(v / 0x100_0000);
    }

    method EmitU64(v: Word)
      requires Valid()
      modifies this, buf
      ensures Valid() && stream == old(stream) + Le64(v)
    {
      hide Le32, Clip;
      EmitU32(v % TWO32);
      EmitU32(v / TWO32);
    }

    /** `emit_rex_rr`. */
    method EmitRexRR(reg: Reg, rm: Reg)
      requires Valid()
      modifies this, buf
      ensures Valid() && stream == old(stream) + [Rex(reg, rm)]
    {
      var r := if reg >= 8 then 4 else 0;
      var b := if rm >= 8 then 1 else 0;
      EmitU8(0x48 + r + b);
    }

    method EmitModRMRR(reg: Reg, rm: Reg)
      requires Valid()
      modifies this, buf
      ensures Valid() && stream == old(stream) + [ModRM(3, reg, rm)]
    {
      EmitU8(0xC0 + 8 * (reg % 8) + rm % 8);
    }

    /** The shape of most register forms: REX, opcode, ModRM. */
    method EmitRexOpModRM(reg: Reg, rm: Reg, opcode: byte)
      requires Valid()
      modifies this, buf
      ensures Valid() && stream == old(stream) + [Rex(reg, rm), opcode, ModRM(3, reg, rm)]
    {
      EmitRexRR(reg, rm);
      EmitU8(opcode);
      EmitModRMRR(reg, rm);
    }

    method EmitMovRR(dst: Reg, src: Reg)
      requires Valid()
      modifies this, buf
      ensures Valid() && stream == old(stream) + Encode(MovRR(dst, src))
    {
      EmitRexOpModRM(src, dst, 0x89);
    }

    method EmitMovRI64(dst: Reg, imm: Word)
      requires Valid()
      modifies this, buf
      ensures Valid() && stream == old(stream) + Encode(MovRI64(dst, imm))
    {
      hide Le64, Clip, Encodable;
      if dst >= 8 { EmitU8(0x49); } else { EmitU8(0x48); }
      EmitU8(0xB8 + dst % 8);
      EmitU64(imm);
    }

    /** An optional REX.B followed by an opcode that holds the register in its low bits. */
    method EmitShort(reg: Reg, opcode: byte)
      requires Valid() && opcode <= 0xF8
      modifies this, buf
      ensures Valid() && stream == old(stream) + (RexB(reg) + [opcode + reg % 8])
    {
      if reg >= 8 { EmitU8(0x41); }
      EmitU8(opcode + reg % 8);
    }

    method EmitMovRI32(dst: Reg, imm: u32)
      requires Valid()
      modifies this, buf
      ensures Valid() && stream == old(stream) + Encode(MovRI32(dst, imm))
    {
      hide Le32, Clip, Encodable;
      EmitShort(dst, 0xB8);
      EmitU32(imm);
    }

    method EmitPush(reg: Reg)
      requires Valid()
      modifies this, buf
      ensures Valid() && stream == old(stream) + Encode(Push(reg))
    {
      EmitShort(reg, 0x50);
    }

    method EmitPop(reg: Reg)
      requires Valid()
      modifies this, buf
      ensures Valid() && stream == old(stream) + Encode(Pop(reg))
    {
      EmitShort(reg, 0x58);
    }

    /** `emit_add_rr`, `emit_sub_rr`, `emit_and_rr`, `emit_or_rr`, `emit_xor_rr`. */
    method EmitAluRR(op: AluOp, dst: Reg, src: Reg)
      requires Valid() && op != Imul
      modifies this, buf
      ensures Valid() && stream == old(stream) + Encode(Alu(op, dst, src))
    {
      EmitRexOpModRM(dst, src, AluOpcode(op)[0]);
    }

    method EmitImulRR(dst: Reg, src: Reg)
      requires Valid()
      modifies this, buf
      ensures Valid() && stream == old(stream) + Encode(Alu(Imul, dst, src))
    {
      EmitRexRR(dst, src);
      EmitU8(0x0F);
      EmitU8(0xAF);
      EmitModRMRR(dst, src);
    }

    /** `emit_shl_rcx`, `emit_shr_rcx`, `emit_sar_rcx`. */
    method EmitShiftCl(op: ShiftOp, reg: Reg)
      requires Valid()
      modifies this, buf
      ensures Valid() && stream == old(stream) + Encode(ShiftCl(op, reg))
    {
      EmitRexRR(RCX, reg);
      EmitU8(0xD3);
      EmitU8(0xC0 + 8 * ShiftExt(op) + reg % 8);
    }

    /** `emit_mem_modrm`. */
    method EmitMemModRM(reg: Reg, base: Reg, offset: int)
      requires Valid() && -TWO31 <= offset < TWO31
      modifies this, buf
      ensures Valid() && stream == old(stream) + MemOperand(reg, base, offset)
    {
      hide Le32, Clip;
      if offset == 0 && base % 8 != 5 {
        EmitU8(8 * (reg % 8) + base % 8);
      } else if -128 <= offset <= 127 {
        EmitU8(0x40 + 8 * (reg % 8) + base % 8);
        EmitU8(offset % 256);
      } else {
        EmitU8(0x80 + 8 * (reg % 8) + base % 8);
        EmitU32(offset % TWO32);
      }
    }

    method EmitLoadMem(dst: Reg, base: Reg, offset: int)
      requires Valid() && -TWO31 <= offset < TWO31
      modifies this, buf
      ensures Valid() && stream == old(stream) + MemMove(0x8B, dst, base, offset)
      ensures base % 8 != 4 ==> stream == old(stream) + Encode(Load(dst, base, offset))
    {
      hide MemOperand, Rex, Clip;
      EmitRexRR(dst, base);
      EmitU8(0x8B);
      EmitMemModRM(dst, base, offset);
    }

    method EmitStoreMem(src: Reg, base: Reg, offset: int)
      requires Valid() && -TWO31 <= offset < TWO31
      modifies this, buf
      ensures Valid() && stream == old(stream) + MemMove(0x89, src, base, offset)
      ensures base % 8 != 4 ==> stream == old(stream) + Encode(Store(src, base, offset))
    {
      hide MemOperand, Rex, Clip;
      EmitRexRR(src, base);
      EmitU8(0x89);
      EmitMemModRM(src, base, offset);
    }

    method EmitAddRspI8(imm: int)
      requires Valid() && -128 <= imm < 128
      modifies this, buf
      ensures Valid() && stream == old(stream) + Encode(AddI8(RSP, imm))
    {
      EmitU8(0x48);
      EmitU8(0x83);
      EmitU8(0xC4);
      EmitU8(imm % 256);
    }

    method EmitSubRspI8(imm: int)
      requires Valid() && -128 <= imm < 128
      modifies this, buf
      ensures Valid() && stream == old(stream) + Encode(SubI8(RSP, imm))
    {
      EmitU8(0x48);
      EmitU8(0x83);
      EmitU8(0xEC);
      EmitU8(imm % 256);
    }

    method EmitRet()
      requires Valid()
      modifies this, buf
      ensures Valid() && stream == old(stream) + Encode(Ret)
    {
      EmitU8(0xC3);
    }

    method EmitPrologue()
      requires Valid()
      modifies this, buf
      ensures Valid() && stream == old(stream) + EncodeAll(Prologue())
    {
      assert AllEncodable(Prologue());
      hide Encode, Clip, EncodeAll, Encodable;
      EmitEight(stream, Prologue());
      EmitPush(RBP);
      EmitMovRR(RBP, RSP);
      EmitPush(RBX);
      EmitPush(R12);
      EmitPush(R13);
      EmitPush(R14);
      EmitPush(R15);
      EmitSubRspI8(8);
    }

    method EmitEpilogue()
      requires Valid()
      modifies this, buf
      ensures Valid() && stream == old(stream) + EncodeAll(Epilogue())
    {
      hide Encode, Clip, EncodeAll, Encodable;
      EpilogueEncodable();
      EmitEight(stream, Epilogue());
      EmitAddRspI8(8);
      EmitPop(R15);
      EmitPop(R14);
      EmitPop(R13);
      EmitPop(R12);
      EmitPop(RBX);
      EmitPop(RBP);
      EmitRet();
    }
  }
}
