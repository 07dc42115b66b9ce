/** Loads and stores of the run loop against their bytes: `read_memarg`, and the address, width and sign of every memory
    opcode. */
module MemoryBytes {
  import opened Words
  import opened Leb128
  import opened Machine
  import E = Emitter
  import B = Bytes

  /** `read_memarg`: the alignment is read and ignored. */
  function ReadMemArg(bs: seq<byte>): (r: Option<(u32, nat)>)
    ensures r.Some? ==> r.value.1 <= |bs|
  {
    match ReadU32(bs)
    case None => None
    case Some((_, n)) =>
      match ReadU32(bs[n..])
      case None => None
      case Some((offset, k)) => Some((offset, n + k))
  }

  /** The decoded instruction of a memory opcode. */
  function MemoryOp(op: byte, offset: nat): Option<Instr> {
    match op
    case 0x28 | 0x34 => Some(Load(4, true, offset))
    case 0x29 | 0x2B => Some(Load(8, false, offset))
    case 0x2A | 0x35 => Some(Load(4, false, offset))
    case 0x2C | 0x30 => Some(Load(1, true, offset))
    case 0x2D | 0x31 => Some(Load(1, false, offset))
    case 0x2E | 0x32 => Some(Load(2, true, offset))
    case 0x2F | 0x33 => Some(Load(2, false, offset))
    case 0x36 | 0x38 | 0x3E => Some(Store(4, offset))
    case 0x37 | 0x39 => Some(Store(8, offset))
    case 0x3A | 0x3C => Some(Store(1, offset))
    case 0x3B | 0x3D => Some(Store(2, offset))
    case _ => None
  }

  // ---- what the bytes say ----------------------------------------------------------------------------------------

  function U16(m: seq<byte>): (v: nat)
    requires |m| >= 2
    ensures v < 0x1_0000
  {
    var low: int, high: int := m[0], m[1];
    low + 0x100 * high
  }

  function U32(m: seq<byte>): (v: nat)
    requires |m| >= 4
    ensures v < 0x1_0000_0000
  {
    U16(m) + 0x1_0000 * U16(m[2..])
  }

  function U64(m: seq<byte>): (v: nat)
    requires |m| >= 8
    ensures v < 0x1_0000_0000_0000_0000
  {
    U32(m) + 0x1_0000_0000 * U32(m[4..])
  }

  /** An `n`-valued quantity read as signed, in 64 bits. */
  function Extend(v: nat, n: nat): Word
    requires v < n <= 0x1_0000_0000
  {
    if 2 * v >= n then v - n + 0x1_0000_0000_0000_0000 else v
  }

  /** Bytes touched by a memory opcode. */
  function Touched(op: byte): nat {
    if op == 0x29 || op == 0x2B || op == 0x37 || op == 0x39 then 8
    else if op == 0x28 || op == 0x2A || op == 0x34 || op == 0x35 || op == 0x36 || op == 0x38 || op == 0x3E then 4
    else if op == 0x2E || op == 0x2F || op == 0x32 || op == 0x33 || op == 0x3B || op == 0x3D then 2
    else 1
  }

  /** The value a load opcode finds in memory: sign-extended for `i32.load` and the `_s` opcodes. */
  function Found(op: byte, m: seq<byte>): Word
    requires |m| >= Touched(op)
  {
    var signed := op == 0x28 || op == 0x2C || op == 0x2E || op == 0x30 || op == 0x32 || op == 0x34;
    if Touched(op) == 8 then U64(m)
    else if Touched(op) == 4 then if signed then Extend(U32(m), 0x1_0000_0000) else U32(m)
    else if Touched(op) == 2 then if signed then Extend(U16(m), 0x1_0000) else U16(m)
    else if signed then Extend(m[0], 0x100)
    else m[0]
  }

  /** Memory after the low bytes of `v` have been stored at `ea`, the lowest first. */
  ghost predicate Stored(mem: seq<byte>, ea: nat, width: nat, v: Word, mem': seq<byte>)
    requires ea + width <= |mem|
  {
    && |mem'| == |mem|
    && (forall k: nat :: k < width ==> mem'[ea + k] == (v / Pow256(k)) % 256)
    && forall k: nat :: k < |mem| && !(ea <= k < ea + width) ==> mem'[k] == mem[k]
  }

  /** Where the memory instruction at `pc` accesses memory, if its immediates and operands are there. */
  function Address(body: seq<byte>, pc: nat, stack: seq<Word>): Option<nat>
    requires pc < |body|
  {
    var operands, a := if body[pc] < 0x36 then 1 else 2, ReadMemArg(body[pc + 1..]);
    if a.None? || |stack| < operands then None
    else Some(stack[|stack| - operands] % 0x1_0000_0000 + a.value.0)
  }

  /** The memory instruction at `pc`, by its bytes: within `limit` and the array, a load replaces the address by what it
      finds, and a store takes address and value and stores the value's low bytes. */
  ghost predicate Accesses(body: seq<byte>, pc: nat, stack: seq<Word>, mem: seq<byte>, limit: nat, stack': seq<Word>,
                           mem': seq<byte>)
    requires pc < |body|
  {
    var op, n, ea := body[pc], |stack|, Address(body, pc, stack);
    && ea.Some? && ea.value + Touched(op) <= limit && ea.value + Touched(op) <= |mem|
    && if op < 0x36 then mem' == mem && stack' == stack[..n - 1] + [Found(op, mem[ea.value..])]
       else stack' == stack[..n - 2] && Stored(mem, ea.value, Touched(op), stack[n - 1], mem')
  }

  // ---- the immediates, as assembled ------------------------------------------------------------------------------

  lemma MemoryForm(op: byte, align: u32, offset: u32)
    ensures E.InstrBytes(E.Memory(op, align, offset)) == [op] + (WriteU32(align) + WriteU32(offset))
  {
    hide WriteU32;
  }

  /** `read_memarg` at an assembled memory instruction, wherever it stands. */
  lemma MemArgAt(body: seq<byte>, pc: nat, op: byte, align: u32, offset: u32)
    requires B.At(body, pc, E.InstrBytes(E.Memory(op, align, offset)))
    ensures pc < |body| && body[pc] == op
    ensures ReadMemArg(body[pc + 1..]) == Some((offset, |E.InstrBytes(E.Memory(op, align, offset))| - 1))
  {
    hide *;
    MemoryForm(op, align, offset);
    B.AtSplit(body, pc, [op], WriteU32(align) + WriteU32(offset));
    B.AtOne(body, pc, op);
    B.AtSplit(body, pc + 1, WriteU32(align), WriteU32(offset));
    TwoRead(body, pc + 1, align, offset);
  }

  lemma TwoRead(body: seq<byte>, i: nat, align: u32, offset: u32)
    requires B.At(body, i, WriteU32(align)) && B.At(body, i + |WriteU32(align)|, WriteU32(offset))
    ensures i <= |body| && ReadMemArg(body[i..]) == Some((offset, |WriteU32(align)| + |WriteU32(offset)|))
  {
    hide WriteU32, ReadU32;
    var a, o := WriteU32(align), WriteU32(offset);
    var rest := body[i + |a| + |o|..];
    assert body[i..] == a + (o + rest) && body[i..][|a|..] == o + rest;
    U32RoundTrip(align, o + rest);
    U32RoundTrip(offset, rest);
  }

  // ---- values ----------------------------------------------------------------------------------------------------

  lemma LittleEndian(m: seq<byte>)
    ensures |m| >= 1 ==> FromLe(m[..1]) == m[0]
    ensures |m| >= 2 ==> FromLe(m[..2]) == U16(m)
    ensures |m| >= 4 ==> FromLe(m[..4]) == U32(m)
    ensures |m| >= 8 ==> FromLe(m[..8]) == U64(m)
  {
    hide U32, U64;
    if |m| >= 1 { assert m[..1] == [m[0]]; }
    if |m| >= 2 { TwoBytes(m); }
    if |m| >= 4 { FourBytes(m); }
    if |m| >= 8 {
      FourBytes(m);
      FourBytes(m[4..]);
      Split(m[..4], m[4..8]);
      assert m[..4] + m[4..8] == m[..8] && m[4..][..4] == m[4..8];
      assert U64(m) == U32(m) + 0x1_0000_0000 * U32(m[4..]) by { Unfold64(m); }
      assert Pow256(4) == 0x1_0000_0000 by { PowerOfFour(); }
    }
  }

  lemma PowerOfFour()
    ensures Pow256(4) == 0x1_0000_0000 && Pow256(2) == 0x1_0000 && Pow256(1) == 0x100
  {
    assert Pow256(2) == 256 * Pow256(1) && Pow256(3) == 256 * Pow256(2);
  }

  lemma Unfold64(m: seq<byte>)
    requires |m| >= 8
    ensures U64(m) == U32(m) + 0x1_0000_0000 * U32(m[4..])
  {
    hide U32;
  }

  lemma TwoBytes(m: seq<byte>)
    requires |m| >= 2
    ensures FromLe(m[..2]) == U16(m)
  {
    var high := [m[1]];
    assert m[..2][1..] == high && high[1..] == [] && FromLe(high) == m[1] as int + 256 * FromLe([]);
    assert m[..2][0] == m[0];
  }

  lemma FourBytes(m: seq<byte>)
    requires |m| >= 4
    ensures FromLe(m[..4]) == U32(m)
  {
    TwoBytes(m);
    TwoBytes(m[2..]);
    hide FromLe, U16;
    PowerOfFour();
    Split(m[..2], m[2..4]);
    assert m[..2] + m[2..4] == m[..4] && m[2..][..2] == m[2..4];
  }

  lemma {:induction false} Split(a: seq<byte>, b: seq<byte>)
    ensures FromLe(a + b) == FromLe(a) + Pow256(|a|) * FromLe(b)
  {
    if a == [] {
      assert a + b == b;
    } else {
      assert (a + b)[1..] == a[1..] + b;
      Split(a[1..], b);
      assert 256 * (Pow256(|a| - 1) * FromLe(b)) == 256 * Pow256(|a| - 1) * FromLe(b);
    }
  }

  lemma {:induction false} StoredByte(v: nat, width: nat, k: nat)
    requires k < width
    ensures ToLe(v, width)[k] == (v / Pow256(k)) % 256
  {
    if k > 0 {
      StoredByte(v / 256, width - 1, k - 1);
      DivTwice(v, Pow256(k - 1));
    }
  }

  lemma DivTwice(v: nat, d: nat)
    requires d > 0
    ensures v / 256 / d == v / (256 * d)
  {
    var q := v / 256;
    var m := 256 * (q % d) + v % 256;
    assert v == 256 * (q / d * d + q % d) + v % 256;
    assert 256 * (q / d * d) == q / d * (256 * d);
    DivUnique(v, 256 * d, q / d, m);
  }

  // ---- the run loop ----------------------------------------------------------------------------------------------

  lemma ExtendedIs(v: nat, width: nat, signed: bool)
    requires (width == 1 && v < 0x100) || (width == 2 && v < 0x1_0000) || (width == 4 && v < 0x1_0000_0000)
    ensures Extended(v, width, signed)
            == if signed then Extend(v, if width == 1 then 0x100 else if width == 2 then 0x1_0000 else 0x1_0000_0000)
               else v
  {
    PowerOfFour();
    hide Pow256;
  }

  lemma WholeWord(v: nat)
    requires v < 0x1_0000_0000_0000_0000
    ensures Extended(v, 8, false) == v
  {
    hide Pow256;
  }

  lemma LoadFinds(op: byte, offset: nat, m: seq<byte>)
    requires MemoryOp(op, offset).Some? && op < 0x36 && |m| >= Touched(op)
    ensures var i := MemoryOp(op, offset).value;
            i.Load? && i.width == Touched(op) && Extended(FromLe(m[..i.width]), i.width, i.signed) == Found(op, m)
  {
    LittleEndian(m);
    var i := MemoryOp(op, offset).value;
    hide FromLe, U16, U32, U64, Extended, Extend;
    if i.width == 8 { WholeWord(U64(m)); }
    else if i.width == 4 { ExtendedIs(U32(m), 4, i.signed); }
    else if i.width == 2 { ExtendedIs(U16(m), 2, i.signed); }
    else { ExtendedIs(m[0], 1, i.signed); }
  }

  lemma WrittenStored(s: State, ea: nat, width: nat, v: Word)
    requires ea + width <= |s.mem|
    ensures Stored(s.mem, ea, width, v, Written(s, ea, ToLe(v, width)).mem)
  {
    hide ToLe, Pow256;
    forall k: nat | k < width
      ensures ToLe(v, width)[k] == (v / Pow256(k)) % 256
    {
      StoredByte(v, width, k);
    }
  }

  lemma MemoryExec(p: Program, s: State, active: nat, i: Instr)
    requires s.frames != [] && Fetch(p, s) == Some(i) && (i.Load? || i.Store?)
    ensures Exec(p, s, active) == ExecAccess(s, active, i)
  {
    hide ExecControl, ExecPlain, ExecAccess, ExecGrow, ExecFast, ExecCall, Fetch;
  }

  lemma LoadExec(s: State, active: nat, width: nat, signed: bool, offset: nat)
    requires s.frames != [] && |s.stack| <= STACK_DEPTH
    ensures var n, o := |s.stack|, ExecAccess(s, active, Load(width, signed, offset));
            if n == 0 then o == Stop(StackUnderflow)
            else
              var ea := s.stack[n - 1] % TWO32 + offset;
              if ea + width > active || ea + width > |s.mem| then o == Stop(MemOutOfBounds)
              else
                o == Next(Advance(s.(stack := s.stack[..n - 1]
                                              + [Extended(FromLe(s.mem[ea..ea + width]), width, signed)])), active)
  {
    hide Advance, Extended, FromLe;
  }

  lemma StoreExec(s: State, active: nat, width: nat, offset: nat)
    requires s.frames != [] && |s.stack| <= STACK_DEPTH
    ensures var n, o := |s.stack|, ExecAccess(s, active, Store(width, offset));
            if n < 2 then o == Stop(StackUnderflow)
            else
              var ea := s.stack[n - 2] % TWO32 + offset;
              if ea + width > active || ea + width > |s.mem| then o == Stop(MemOutOfBounds)
              else
                o == Next(Advance(s.(mem := Written(s, ea, ToLe(s.stack[n - 1], width)).mem,
                                     stack := s.stack[..n - 2])), active)
  {
    hide Advance, ToLe;
    if |s.stack| >= 2 { assert s.stack[..|s.stack| - 2] + [] == s.stack[..|s.stack| - 2]; }
  }

  lemma LoadShape(op: byte, offset: nat)
    requires MemoryOp(op, offset).Some?
    ensures var i := MemoryOp(op, offset).value;
            if op < 0x36 then i.Load? && i == Load(Touched(op), i.signed, offset) else i == Store(Touched(op), offset)
  {
  }

  lemma AddressIs(body: seq<byte>, pc: nat, stack: seq<Word>, offset: u32)
    requires pc < |body| && ReadMemArg(body[pc + 1..]).Some? && ReadMemArg(body[pc + 1..]).value.0 == offset
    ensures var operands := if body[pc] < 0x36 then 1 else 2;
            Address(body, pc, stack)
            == if |stack| < operands then None else Some(stack[|stack| - operands] % TWO32 + offset)
  {
    hide ReadMemArg;
  }

  lemma LoadMeans(s: State, active: nat, op: byte, offset: u32, body: seq<byte>, pc: nat)
    requires s.frames != [] && |s.stack| <= STACK_DEPTH && pc < |body| && body[pc] == op
    requires MemoryOp(op, offset).Some? && op < 0x36
    requires ReadMemArg(body[pc + 1..]).Some? && ReadMemArg(body[pc + 1..]).value.0 == offset
    ensures var i := MemoryOp(op, offset).value;
            var ea := Address(body, pc, s.stack);
            && i.Load?
            && if ea.None? then ExecAccess(s, active, i) == Stop(StackUnderflow)
               else if ea.value + Touched(op) > active || ea.value + Touched(op) > |s.mem| then
                 ExecAccess(s, active, i) == Stop(MemOutOfBounds)
               else
                 ExecAccess(s, active, i)
                 == Next(Advance(s.(stack := s.stack[..|s.stack| - 1] + [Found(op, s.mem[ea.value..])])), active)
  {
    hide ReadMemArg, Advance, Found, Extended, FromLe, MemoryOp, Touched, Address, ExecAccess;
    var i, ea := MemoryOp(op, offset).value, Address(body, pc, s.stack);
    LoadShape(op, offset);
    AddressIs(body, pc, s.stack, offset);
    LoadExec(s, active, i.width, i.signed, offset);
    if ea.Some? && ea.value + Touched(op) <= |s.mem| {
      LoadFinds(op, offset, s.mem[ea.value..]);
      assert s.mem[ea.value..ea.value + i.width] == s.mem[ea.value..][..i.width];
    }
  }

  lemma StoreMeans(s: State, active: nat, op: byte, offset: u32, body: seq<byte>, pc: nat)
    requires s.frames != [] && |s.stack| <= STACK_DEPTH && pc < |body| && body[pc] == op
    requires MemoryOp(op, offset).Some? && op >= 0x36
    requires ReadMemArg(body[pc + 1..]).Some? && ReadMemArg(body[pc + 1..]).value.0 == offset
    ensures var i := MemoryOp(op, offset).value;
            var ea := Address(body, pc, s.stack);
            && i.Store?
            && if ea.None? then ExecAccess(s, active, i) == Stop(StackUnderflow)
               else if ea.value + Touched(op) > active || ea.value + Touched(op) > |s.mem| then
                 ExecAccess(s, active, i) == Stop(MemOutOfBounds)
               else
                 var mem' := Written(s, ea.value, ToLe(s.stack[|s.stack| - 1], Touched(op))).mem;
                 && Stored(s.mem, ea.value, Touched(op), s.stack[|s.stack| - 1], mem')
                 && ExecAccess(s, active, i)
                    == Next(Advance(s.(mem := mem', stack := s.stack[..|s.stack| - 2])), active)
  {
    hide ReadMemArg, Advance, ToLe, Stored, Written, MemoryOp, Touched, Address, ExecAccess;
    var ea, n := Address(body, pc, s.stack), |s.stack|;
    LoadShape(op, offset);
    AddressIs(body, pc, s.stack, offset);
    StoreExec(s, active, Touched(op), offset);
    if ea.Some? && ea.value + Touched(op) <= |s.mem| { WrittenStored(s, ea.value, Touched(op), s.stack[n - 1]); }
  }

  /** A load or store of the run loop is what its bytes say. It goes through exactly when its operands are there and its
      address in bounds, and fails with the error of the first of these that is not so. */
  lemma AccessMeans(p: Program, s: State, active: nat, offset: u32, body: seq<byte>, pc: nat)
    requires s.frames != [] && |s.stack| <= STACK_DEPTH && pc < |body|
    requires ReadMemArg(body[pc + 1..]).Some? && ReadMemArg(body[pc + 1..]).value.0 == offset
    requires MemoryOp(body[pc], offset).Some? && Fetch(p, s) == MemoryOp(body[pc], offset)
    ensures var o, ea := Exec(p, s, active), Address(body, pc, s.stack);
            && (o.Next? <==>
                  ea.Some? && ea.value + Touched(body[pc]) <= active && ea.value + Touched(body[pc]) <= |s.mem|)
            && (o.Next? ==> Accesses(body, pc, s.stack, s.mem, active, o.s.stack, o.s.mem)
                            && o == Next(Advance(s.(stack := o.s.stack, mem := o.s.mem)), active))
            && (!o.Next? ==> o == Stop(if ea.None? then StackUnderflow else MemOutOfBounds))
  {
    hide Exec, ExecAccess, Fetch, ReadMemArg, Stored, Found, ToLe, Written, Touched, Address;
    LoadShape(body[pc], offset);
    MemoryExec(p, s, active, MemoryOp(body[pc], offset).value);
    if body[pc] < 0x36 {
      LoadMeans(s, active, body[pc], offset, body, pc);
    } else {
      StoreMeans(s, active, body[pc], offset, body, pc);
    }
  }
}
