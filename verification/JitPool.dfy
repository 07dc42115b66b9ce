/** What `compile_jit` installs, as it stands in the code pool: with other code behind it. */
module JitPool {
  import opened Words
  import opened Bytes
  import opened X86
  import opened CodeBuffer
  import opened Opcode
  import opened Leb128
  import opened JitCompile
  import opened JitCorrect
  import opened JitAgree
  import opened JitSize

  // ---- functions that fit ---------------------------------------------------------------------------------------

  /** The bytes kept of a function. */
  ghost function Kept(body: seq<byte>, results: nat): seq<byte>
    requires AllEncodable(Jit(body, results).code)
  {
    Clip(EncodeAll(Jit(body, results).code), MAX_FN_BYTES)
  }

  /** A call of the installed bytes, with `rest` behind them, returns and conforms to the frame `w`. */
  ghost predicate InstalledConforms(entry: State, w: Frame, body: seq<byte>, results: nat, room: nat, rest: seq<byte>)
    requires AllEncodable(Jit(body, results).code)
  {
    var r := Run(Kept(body, results) + rest, entry);
    r.Some? && Conforms(entry, r.value, w, results, room)
  }

  /** A function that fits conforms to the wide reading, whatever stands behind it. */
  lemma FittingConforms(entry: State, locals: seq<Word>, body: seq<byte>, results: nat, room: nat, rest: seq<byte>)
    requires Layout(entry, room, |locals|) && LocalsAgree(entry, entry.mem, locals)
    requires Jit(body, results).ok && EmittedSize(body, results) <= MAX_FN_BYTES
    requires Interpret(Wide, body, 0, Frame([], locals), results, room).Some?
    ensures AllEncodable(Jit(body, results).code)
    ensures InstalledConforms(entry, Interpret(Wide, body, 0, Frame([], locals), results, room).value, body, results,
                              room, rest)
  {
    hide Layout, LocalsAgree, Run, Interpret, Jit, EncodeAll, AllEncodable, EmittedSize, Conforms;
    NothingDroppedIff(body, results);
    CompiledRunsWide(entry, locals, body, results, room, rest);
  }

  /** With nothing behind it a function that was cut does not return. */
  lemma CutRunsOff(body: seq<byte>, results: nat, entry: State)
    requires Jit(body, results).ok && EmittedSize(body, results) > MAX_FN_BYTES
    ensures AllEncodable(Jit(body, results).code) && Run(Kept(body, results) + [], entry).None?
  {
    hide Run, Jit, EncodeAll, AllEncodable, EmittedSize, NoRet;
    ExactSize(body, results);
    JitRets(body, results);
    CutCode(Jit(body, results).code, MAX_FN_BYTES, entry);
    assert Kept(body, results) + [] == EncodeAll(Jit(body, results).code)[..MAX_FN_BYTES];
  }

  /** What `compile_jit` installs, exactly. For every accepted body whose interpretation returns, a call of the
      installed code conforms to the wide reading whatever stands behind it in the pool if and only if the emitted
      size is at most 4096; and then, where every shift executed fits, to the interpreter. */
  lemma InstalledConformsIff(entry: State, locals: seq<Word>, body: seq<byte>, results: nat, room: nat)
    requires Layout(entry, room, |locals|) && LocalsAgree(entry, entry.mem, locals)
    requires Jit(body, results).ok
    requires Interpret(Narrow, body, 0, Frame([], locals), results, room).Some?
    ensures AllEncodable(Jit(body, results).code)
    ensures Interpret(Wide, body, 0, Frame([], locals), results, room).Some?
    ensures var w := Interpret(Wide, body, 0, Frame([], locals), results, room).value;
            && ((forall rest: seq<byte> :: InstalledConforms(entry, w, body, results, room, rest))
                <==> EmittedSize(body, results) <= MAX_FN_BYTES)
            && (ShiftsFit(body, 0, Frame([], locals), Frame([], locals), room) ==>
                  LowSame(w, Interpret(Narrow, body, 0, Frame([], locals), results, room).value))
  {
    hide Layout, LocalsAgree, Run, Interpret, Jit, EncodeAll, AllEncodable, EmittedSize, ShiftsFit, Conforms, LowSame,
         Kept;
    JitPreservesMeaning(entry, locals, body, results, room, []);
    var w := Interpret(Wide, body, 0, Frame([], locals), results, room).value;
    if EmittedSize(body, results) <= MAX_FN_BYTES {
      forall rest: seq<byte> ensures InstalledConforms(entry, w, body, results, room, rest) {
        FittingConforms(entry, locals, body, results, room, rest);
      }
    } else {
      CutRunsOff(body, results, entry);
      assert !InstalledConforms(entry, w, body, results, room, []);
    }
  }

  /** The same in the pool that `CompileAll` leaves: an installed function that fits is called as compiled. */
  lemma PoolCallConforms(pool: seq<byte>, slots: seq<Slot>, used: nat, bodies: seq<seq<byte>>, results: seq<nat>,
                         i: nat, entry: State, locals: seq<Word>, room: nat)
    requires |slots| == |bodies| == |results| && SlotsOf(slots, used, bodies, results) && Holds(pool, slots)
    requires i < |slots| && slots[i].Installed? && EmittedSize(bodies[i], results[i]) <= MAX_FN_BYTES
    requires Layout(entry, room, |locals|) && LocalsAgree(entry, entry.mem, locals)
    requires Interpret(Wide, bodies[i], 0, Frame([], locals), results[i], room).Some?
    ensures slots[i].start <= |pool| && Run(pool[slots[i].start..], entry).Some?
    ensures Conforms(entry, Run(pool[slots[i].start..], entry).value,
                     Interpret(Wide, bodies[i], 0, Frame([], locals), results[i], room).value, results[i], room)
  {
    hide *;
    InstalledIs(pool, slots, used, bodies, results, i);
    var rest := OnePiece(pool, slots[i].start, slots[i].code);
    FittingConforms(entry, locals, bodies[i], results[i], room, rest);
    InstalledMeans(entry, Interpret(Wide, bodies[i], 0, Frame([], locals), results[i], room).value, bodies[i],
                   results[i], room, rest);
  }

  lemma InstalledMeans(entry: State, w: Frame, body: seq<byte>, results: nat, room: nat, rest: seq<byte>)
    requires AllEncodable(Jit(body, results).code) && InstalledConforms(entry, w, body, results, room, rest)
    ensures Run(Kept(body, results) + rest, entry).Some?
    ensures Conforms(entry, Run(Kept(body, results) + rest, entry).value, w, results, room)
  {
    hide Jit, Kept, Conforms, Run;
  }

  lemma OnePiece(b: seq<byte>, i: nat, x: seq<byte>) returns (rest: seq<byte>)
    requires At(b, i, x)
    ensures i <= |b| && b[i..] == x + rest
  {
    rest := b[i + |x|..];
    assert b[i..] == b[i..i + |x|] + rest;
  }

  /** And behind a function that was cut stands the next one installed. */
  lemma PoolBehindCut(pool: seq<byte>, slots: seq<Slot>, used: nat, bodies: seq<seq<byte>>, results: seq<nat>, i: nat,
                      j: nat) returns (rest: seq<byte>)
    requires |slots| == |bodies| == |results| && SlotsOf(slots, used, bodies, results) && Holds(pool, slots)
    requires i < j < |slots| && slots[i].Installed? && slots[j].Installed?
    requires forall k :: i < k < j ==> !slots[k].Installed?
    requires Jit(bodies[i], results[i]).ok && EmittedSize(bodies[i], results[i]) > MAX_FN_BYTES
    ensures AllEncodable(Jit(bodies[i], results[i]).code) && AllEncodable(Jit(bodies[j], results[j]).code)
    ensures slots[i].start <= |pool|
    ensures pool[slots[i].start..] == Kept(bodies[i], results[i]) + (Kept(bodies[j], results[j]) + rest)
  {
    hide *;
    InstalledIs(pool, slots, used, bodies, results, i);
    InstalledIs(pool, slots, used, bodies, results, j);
    CutFills(bodies[i], results[i]);
    NextBehind(slots, used, bodies, results, i, j);
    rest := TwoPieces(pool, slots[i].start, slots[i].code, slots[j].code);
  }

  lemma InstalledIs(pool: seq<byte>, slots: seq<Slot>, used: nat, bodies: seq<seq<byte>>, results: seq<nat>, i: nat)
    requires |slots| == |bodies| == |results| && SlotsOf(slots, used, bodies, results) && Holds(pool, slots)
    requires i < |slots| && slots[i].Installed?
    ensures Jit(bodies[i], results[i]).ok && AllEncodable(Jit(bodies[i], results[i]).code)
    ensures slots[i].code == Kept(bodies[i], results[i]) && At(pool, slots[i].start, slots[i].code)
  {
    hide Jit, EncodeAll, AllEncodable, At, Clip;
    assert slots[i] == SlotFor(slots[..i], used, bodies[i], results[i]);
  }

  lemma CutFills(body: seq<byte>, results: nat)
    requires Jit(body, results).ok && EmittedSize(body, results) > MAX_FN_BYTES
    ensures AllEncodable(Jit(body, results).code) && |Kept(body, results)| == MAX_FN_BYTES
  {
    hide Jit, EncodeAll, AllEncodable, EmittedSize;
    ExactSize(body, results);
  }

  lemma TwoPieces(b: seq<byte>, i: nat, x: seq<byte>, y: seq<byte>) returns (rest: seq<byte>)
    requires At(b, i, x) && At(b, i + |x|, y)
    ensures i <= |b| && b[i..] == x + (y + rest)
  {
    var j := i + |x|;
    rest := b[j + |y|..];
    assert b[j..] == b[j..j + |y|] + rest;
    assert b[i..] == b[i..j] + b[j..];
  }

  // ---- the state a cut leaves behind ----------------------------------------------------------------------------

  /** Running bytes that start with a block without `ret` is executing the block, then running what follows. */
  lemma {:induction false} RunBlock(code: seq<Instr>, bytes: seq<byte>, s: State)
    requires AllEncodable(code) && NoRet(code) && ExecBlock(code, s).Some?
    ensures Run(EncodeAll(code) + bytes, s) == Run(bytes, ExecBlock(code, s).value)
    decreases |code|
  {
    hide Decode, Encode, Exec, Encodable;
    if code == [] {
      assert EncodeAll(code) + bytes == bytes;
    } else {
      var first, tail := Encode(code[0]), EncodeAll(code[1..]) + bytes;
      assert EncodeAll(code) + bytes == first + tail && (first + tail)[|first|..] == tail;
      DecodeEncode(code[0], tail);
      RunBlock(code[1..], bytes, Exec(code[0], s).value);
    }
  }

  /** A run that returns executed everything before the `ret`. */
  lemma {:induction false} BeforeRet(a: seq<Instr>, b: seq<Instr>, s: State)
    requires NoRet(a) && RunList(a + b, s).Some?
    ensures ExecBlock(a, s).Some? && RunList(a + b, s) == RunList(b, ExecBlock(a, s).value)
    decreases |a|
  {
    hide Exec, ExecRet;
    if a == [] {
      assert a + b == b;
    } else {
      assert (a + b)[0] == a[0] && (a + b)[1..] == a[1..] + b;
      BeforeRet(a[1..], b, Exec(a[0], s).value);
    }
  }

  /** The instruction does not write register `r`. */
  predicate Spares(i: Instr, r: Reg) {
    match i
    case MovRR(dst, _) => dst != r
    case MovRI64(dst, _) => dst != r
    case MovRI32(dst, _) => dst != r
    case Push(_) => r != RSP
    case Pop(dst) => dst != r && r != RSP
    case Alu(_, dst, _) => dst != r
    case ShiftCl(_, dst) => dst != r
    case Load(dst, _, _) => dst != r
    case Store(_, _, _) => true
    case AddI8(dst, _) => dst != r
    case SubI8(dst, _) => dst != r
    case Ret => false
  }

  predicate AllSpare(code: seq<Instr>, r: Reg) {
    forall k :: 0 <= k < |code| ==> Spares(code[k], r)
  }

  lemma SparedOnce(i: Instr, s: State, r: Reg)
    requires Spares(i, r) && Exec(i, s).Some?
    ensures Exec(i, s).value.regs[r] == s.regs[r]
  {
    hide AluResult, ShiftResult;
  }

  lemma {:induction false} Spared(code: seq<Instr>, s: State, r: Reg)
    requires AllSpare(code, r) && ExecBlock(code, s).Some?
    ensures ExecBlock(code, s).value.regs[r] == s.regs[r]
    decreases |code|
  {
    hide Exec, Spares;
    if code != [] {
      SparedOnce(code[0], s, r);
      Spared(code[1..], Exec(code[0], s).value, r);
    }
  }

  lemma TranslatedSpares(body: seq<byte>, ip: nat)
    requires ip < |body| && Translate(body, ip).Some?
    ensures AllSpare(Translate(body, ip).value.0, RDX)
  {
    hide ReadI32, ReadU32, ReadI64, LocalOffset;
  }

  lemma ReturnSpares(results: nat)
    ensures var code := ReturnCode(results);
            && |code| >= 8 && code[|code| - 8..] == Epilogue() && AllSpare(code[..|code| - 1], RDX)
  {
  }

  /** A compiled function is a block that leaves RDX alone, then the epilogue. */
  lemma {:induction false} CompiledShape(body: seq<byte>, ip: nat, results: nat) returns (head: seq<Instr>)
    requires CompileFrom(body, ip, results).ok
    ensures CompileFrom(body, ip, results).code == head + Epilogue() && AllSpare(head, RDX)
    decreases |body| - ip
  {
    hide Translate, ReturnCode, Spares;
    if AtReturn(body, ip) {
      ReturnSpares(results);
      var code := ReturnCode(results);
      head := code[..|code| - 8];
      assert head == code[..|code| - 1][..|code| - 8];
    } else {
      var (code, next) := Translate(body, ip).value;
      TranslatedSpares(body, ip);
      var tail := CompiledShape(body, next, results);
      head := code + tail;
      assert code + (tail + Epilogue()) == head + Epilogue();
    }
  }

  lemma EntrySpares()
    ensures AllSpare(Prologue() + Aliases(), RDX)
  {
  }

  lemma JitShape(body: seq<byte>, results: nat) returns (head: seq<Instr>)
    requires Jit(body, results).ok
    ensures Jit(body, results).code == head + Epilogue() && AllSpare(head, RDX)
  {
    hide CompileFrom, Spares;
    EntrySpares();
    var tail := CompiledShape(body, 0, results);
    head := Prologue() + Aliases() + tail;
    assert Prologue() + Aliases() + (tail + Epilogue()) == head + Epilogue();
  }

  lemma SparesNoRet(code: seq<Instr>)
    requires AllSpare(code, RDX)
    ensures NoRet(code)
  {
    forall k | 0 <= k < |code| ensures code[k] != Ret { assert Spares(code[k], RDX); }
  }

  lemma EpilogueSpares(k: nat)
    requires k < 8
    ensures |Epilogue()| == 8 && AllSpare(Epilogue()[..k], RDX)
    ensures AllEncodable(Epilogue()[..k]) && AllEncodable(Epilogue()[k..])
    ensures Epilogue() == Epilogue()[..k] + Epilogue()[k..]
  {
  }

  /** A function up to `k` instructions into its epilogue: the state it is in there, from which the rest of the epilogue
      would return to the caller. */
  lemma UpToEpilogue(entry: State, locals: seq<Word>, body: seq<byte>, results: nat, room: nat, k: nat)
    returns (pre: seq<Instr>, t: State)
    requires Layout(entry, room, |locals|) && LocalsAgree(entry, entry.mem, locals)
    requires Jit(body, results).ok && k < 8
    requires Interpret(Wide, body, 0, Frame([], locals), results, room).Some?
    ensures Jit(body, results).code == pre + Epilogue()[k..] && AllEncodable(Jit(body, results).code) && NoRet(pre)
    ensures AllEncodable(pre) && ExecBlock(pre, entry) == Some(t) && t.regs[RDX] == entry.regs[RDX]
    ensures var r := RunList(Epilogue()[k..], t);
            && r.Some?
            && Conforms(entry, r.value, Interpret(Wide, body, 0, Frame([], locals), results, room).value, results, room)
  {
    hide Layout, LocalsAgree, RunList, ExecBlock, Interpret, Jit, Conforms, Epilogue, Spares, Encodable;
    JitEncodable(body, results);
    CompiledListRuns(entry, locals, body, results, room);
    var head := JitShape(body, results);
    EpilogueSpares(k);
    pre := head + Epilogue()[..k];
    assert head + (Epilogue()[..k] + Epilogue()[k..]) == pre + Epilogue()[k..];
    SparesNoRet(pre);
    BeforeRet(pre, Epilogue()[k..], entry);
    t := ExecBlock(pre, entry).value;
    Spared(pre, entry, RDX);
    var code := Jit(body, results).code;
    forall i | 0 <= i < |pre| ensures Encodable(pre[i]) { assert pre[i] == code[i]; }
  }

  /** What is known of memory when a function is about to return: its frame is as its caller laid it out, for any
      function entered with the stack pointer `down` bytes lower and the same locals. */
  lemma StillLaidOut(entry: State, t: State, mem: map<int, Word>, locals: seq<Word>, room: nat, down: nat)
    requires Layout(entry, room, |locals|) && LocalsAgree(entry, mem, locals) && OutsideKept(entry, mem, room, |locals|)
    requires t.mem == mem && t.regs[RDX] == entry.regs[RDX] && 8 * down == entry.regs[RSP] as int - t.regs[RSP] as int
    requires down <= room
    ensures Layout(t, room - down, |locals|) && LocalsAgree(t, t.mem, locals)
  {
    assert t.mem.Keys == entry.mem.Keys;
    hide OutsideKept;
    LowerLayout(entry, t, room, |locals|, down);
    SameLocals(entry, t, mem, locals);
  }

  lemma LowerLayout(entry: State, t: State, room: nat, n: nat, down: nat)
    requires Layout(entry, room, n) && t.mem.Keys == entry.mem.Keys && t.regs[RDX] == entry.regs[RDX]
    requires 8 * down == entry.regs[RSP] as int - t.regs[RSP] as int && down <= room
    ensures Layout(t, room - down, n)
  {
    var low := entry.regs[RSP] as int - 56 - 8 * room;
    assert low == t.regs[RSP] as int - 56 - 8 * (room - down);
    forall a | a % 8 == 0 && low <= a <= t.regs[RSP] ensures a in t.mem.Keys { assert a in entry.mem; }
    var lb: int := t.regs[RDX];
    forall a | a % 8 == 0 && lb <= a < lb + 8 * n ensures a in t.mem.Keys { assert a in entry.mem; }
  }

  lemma SameLocals(entry: State, t: State, mem: map<int, Word>, locals: seq<Word>)
    requires LocalsAgree(entry, mem, locals) && t.regs[RDX] == entry.regs[RDX]
    ensures LocalsAgree(t, mem, locals)
  {
    forall j: int ensures LocalCell(entry, j) == LocalCell(t, j) {}
  }

  // ---- one byte too many: only the `ret` is missing -------------------------------------------------------------

  lemma RetIsLast(pre: seq<Instr>, code: seq<Instr>)
    requires AllEncodable(code) && AllEncodable(pre) && code == pre + Epilogue()[7..]
    ensures EncodeAll(code) == EncodeAll(pre) + [0xC3]
  {
    assert Epilogue()[7..] == [Ret];
    EncodeSnoc(pre, Ret);
    assert Encode(Ret) == [0xC3];
  }

  lemma AboutToReturn(entry: State, t: State, f: Frame, results: nat, room: nat)
    requires RunList(Epilogue()[7..], t).Some? && Conforms(entry, RunList(Epilogue()[7..], t).value, f, results, room)
    ensures t.regs[RSP] == entry.regs[RSP] && entry.regs[RSP] in t.mem && t.regs[RSP] in entry.mem
    ensures t.mem[t.regs[RSP]] == entry.mem[entry.regs[RSP]]
    ensures t.regs[RBX] == entry.regs[RBX] && t.regs[RBP] == entry.regs[RBP] && t.regs[R12] == entry.regs[R12]
    ensures t.regs[R13] == entry.regs[R13] && t.regs[R14] == entry.regs[R14] && t.regs[R15] == entry.regs[R15]
    ensures LocalsAgree(entry, t.mem, f.locals) && OutsideKept(entry, t.mem, room, |f.locals|)
  {
    assert Epilogue()[7..] == [Ret];
    hide LocalsAgree, OutsideKept, Exec;
    assert RunList([Ret], t) == ExecRet(t);
  }

  /** A second call from there, with the same stack and locals pointers, conforms for the first caller. */
  lemma Chained(entry: State, t: State, r: Returned, f: Frame, x: Frame, results: nat, room: nat)
    requires Conforms(t, r, x, results, room) && |x.locals| == |f.locals|
    requires t.regs[RSP] == entry.regs[RSP] && t.regs[RSP] in entry.mem && t.regs[RSP] in t.mem
    requires t.mem[t.regs[RSP]] == entry.mem[entry.regs[RSP]] && t.regs[RDX] == entry.regs[RDX]
    requires t.regs[RBX] == entry.regs[RBX] && t.regs[RBP] == entry.regs[RBP] && t.regs[R12] == entry.regs[R12]
    requires t.regs[R13] == entry.regs[R13] && t.regs[R14] == entry.regs[R14] && t.regs[R15] == entry.regs[R15]
    requires OutsideKept(entry, t.mem, room, |f.locals|)
    ensures Conforms(entry, r, x, results, room)
  {
    SameLocals(t, entry, r.state.mem, x.locals);
  }

  lemma {:induction false} SameLocalCount(m: Mode, body: seq<byte>, pc: nat, f: Frame, results: nat, room: nat)
    requires Interpret(m, body, pc, f, results, room).Some?
    ensures |Interpret(m, body, pc, f, results, room).value.locals| == |f.locals|
    decreases |body| - pc
  {
    hide StepOp;
    if !AtReturn(body, pc) {
      StepLocalCount(m, body, pc, f, room);
      var (f', next) := StepOp(m, body, pc, f, room).value;
      SameLocalCount(m, body, next, f', results, room);
    }
  }

  lemma StepLocalCount(m: Mode, body: seq<byte>, pc: nat, f: Frame, room: nat)
    requires pc < |body| && StepOp(m, body, pc, f, room).Some?
    ensures |StepOp(m, body, pc, f, room).value.0.locals| == |f.locals|
  {
    hide ReadI32, ReadU32, ReadI64, BinaryWord;
  }

  /** A function one byte too long, with another function behind it: it falls through into that function, which returns
      to the caller with its own result, computed from the locals the first one leaves. */
  lemma FallsThrough(entry: State, locals: seq<Word>, body: seq<byte>, results: nat, room: nat,
                     body2: seq<byte>, results2: nat, rest: seq<byte>)
    requires Layout(entry, room, |locals|) && LocalsAgree(entry, entry.mem, locals)
    requires Jit(body, results).ok && EmittedSize(body, results) == MAX_FN_BYTES + 1
    requires Interpret(Wide, body, 0, Frame([], locals), results, room).Some?
    requires Jit(body2, results2).ok
    requires var w := Interpret(Wide, body, 0, Frame([], locals), results, room).value;
             Interpret(Wide, body2, 0, Frame([], w.locals), results2, room).Some?
    ensures AllEncodable(Jit(body, results).code) && AllEncodable(Jit(body2, results2).code)
    ensures var w := Interpret(Wide, body, 0, Frame([], locals), results, room).value;
            var x := Interpret(Wide, body2, 0, Frame([], w.locals), results2, room).value;
            var r := Run(Kept(body, results) + (EncodeAll(Jit(body2, results2).code) + rest), entry);
            r.Some? && Conforms(entry, r.value, x, results2, room)
  {
    hide *;
    var w := Interpret(Wide, body, 0, Frame([], locals), results, room).value;
    var x := Interpret(Wide, body2, 0, Frame([], w.locals), results2, room).value;
    var pre, t := UpToEpilogue(entry, locals, body, results, room, 7);
    RetIsLast(pre, Jit(body, results).code);
    KeptButLast(body, results, EncodeAll(pre), [0xC3]);
    SameLocalCount(Wide, body, 0, Frame([], locals), results, room);
    AboutToReturn(entry, t, w, results, room);
    StillLaidOut(entry, t, t.mem, w.locals, room, 0);
    CompiledRunsWide(t, w.locals, body2, results2, room, rest);
    var bytes := EncodeAll(Jit(body2, results2).code) + rest;
    RunBlock(pre, bytes, entry);
    SameLocalCount(Wide, body2, 0, Frame([], w.locals), results2, room);
    Chained(entry, t, Run(bytes, t).value, w, x, results2, room);
  }

  /** The bytes kept, when all but `lost` are. */
  lemma KeptButLast(body: seq<byte>, results: nat, kept: seq<byte>, lost: seq<byte>)
    requires Jit(body, results).ok && AllEncodable(Jit(body, results).code)
    requires EncodeAll(Jit(body, results).code) == kept + lost && EmittedSize(body, results) == MAX_FN_BYTES + |lost|
    ensures Kept(body, results) == kept
  {
    hide Jit, EncodeAll, AllEncodable, EmittedSize;
    ExactSize(body, results);
    assert (kept + lost)[..|kept|] == kept;
  }

  // ---- up to eleven bytes too many: the cut falls among the pops of the epilogue --------------------------------

  /** The registers the epilogue restores, in order. */
  const POPS: seq<Reg> := [R15, R14, R13, R12, RBX, RBP]

  function PopAll(rs: seq<Reg>): seq<Instr> {
    if rs == [] then [Ret] else [Pop(rs[0])] + PopAll(rs[1..])
  }

  lemma {:induction false} EpiloguePops(i: nat)
    requires i <= 6
    ensures Epilogue()[i + 1..] == PopAll(POPS[i..])
    decreases 6 - i
  {
    hide *;
    if i < 6 { EpiloguePops(i + 1); }
    PopsFrom(i);
  }

  lemma PopsFrom(i: nat)
    requires i <= 6 && (i < 6 ==> Epilogue()[i + 2..] == PopAll(POPS[i + 1..]))
    ensures Epilogue()[i + 1..] == PopAll(POPS[i..])
  {
    if i < 6 {
      assert POPS[i..][1..] == POPS[i + 1..] && POPS[i..][0] == POPS[i];
      assert Epilogue()[i + 1..] == [Epilogue()[i + 1]] + Epilogue()[i + 2..];
    } else {
      assert POPS[6..] == [] && Epilogue()[7..] == [Ret];
    }
  }

  function PopSize(rs: seq<Reg>): (n: nat)
    ensures n >= 1
  {
    if rs == [] then 1 else (if rs[0] >= 8 then 2 else 1) + PopSize(rs[1..])
  }

  lemma EncodeCons(i: Instr, code: seq<Instr>)
    requires Encodable(i) && AllEncodable(code)
    ensures AllEncodable([i] + code) && EncodeAll([i] + code) == Encode(i) + EncodeAll(code)
  {
    hide Encode, Encodable;
    assert ([i] + code)[1..] == code;
  }

  lemma PopBytes(r: Reg)
    ensures Encodable(Pop(r)) && Encode(Pop(r)) == (if r >= 8 then [0x41] else []) + [0x58 + r % 8]
  {
  }

  lemma RetBytes()
    ensures AllEncodable([Ret]) && EncodeAll([Ret]) == [0xC3]
  {
    EncodeNone();
    assert [Ret][1..] == [];
  }

  lemma {:induction false} PopAllBytes(rs: seq<Reg>)
    ensures AllEncodable(PopAll(rs)) && |EncodeAll(PopAll(rs))| == PopSize(rs)
    ensures rs != [] && rs[0] >= 8 ==> EncodeAll(PopAll(rs))[0] == 0x41
    decreases |rs|
  {
    hide Encode, Encodable, EncodeAll, AllEncodable;
    if rs == [] {
      RetBytes();
    } else {
      PopAllBytes(rs[1..]);
      PopBytes(rs[0]);
      EncodeCons(Pop(rs[0]), PopAll(rs[1..]));
    }
  }

  lemma OneThen(i: Instr, code: seq<Instr>, s: State)
    requires i != Ret && RunList([i] + code, s).Some?
    ensures Exec(i, s).Some? && RunList([i] + code, s) == RunList(code, Exec(i, s).value)
  {
    hide Exec;
    assert ([i] + code)[1..] == code;
  }

  lemma RetAlone(s: State)
    ensures RunList([Ret], s) == ExecRet(s)
  {
  }

  lemma OnePop(s: State, r: Reg)
    requires r != RSP && Exec(Pop(r), s).Some?
    ensures var x, s' := s.regs[RSP], Exec(Pop(r), s).value;
            && CellAt(s.mem, x) && s'.mem == s.mem && s'.regs[r] == s.mem[x] && s'.regs[RSP] == x as int + 8
            && forall q: Reg :: q != r && q != RSP ==> s'.regs[q] == s.regs[q]
  {
  }

  /** Popping registers and returning, read backwards: where the stack pointer was, and what lay there. */
  lemma {:induction false} PoppedBack(rs: seq<Reg>, t: State)
    requires RunList(PopAll(rs), t).Some? && RSP !in rs && forall i, j :: 0 <= i < j < |rs| ==> rs[i] != rs[j]
    ensures var x, r := t.regs[RSP], RunList(PopAll(rs), t).value;
            && CellAt(t.mem, x) && r.state.mem == t.mem && r.state.regs[RSP] == x as int + 8 * |rs| + 8
            && (rs == [] ==> r.address == t.mem[x]) && (rs != [] ==> r.state.regs[rs[0]] == t.mem[x])
            && forall q: Reg :: q !in rs && q != RSP ==> r.state.regs[q] == t.regs[q]
    decreases |rs|
  {
    hide Exec, RunList;
    if rs == [] {
      RetAlone(t);
    } else {
      OneThen(Pop(rs[0]), PopAll(rs[1..]), t);
      OnePop(t, rs[0]);
      PoppedBack(rs[1..], Exec(Pop(rs[0]), t).value);
      assert rs[0] !in rs[1..];
    }
  }

  /** The pop that `n` missing bytes cut off or cut through, and whether they cut through it. */
  function CutPop(n: nat): (i: nat)
    requires 1 <= n <= 11
    ensures i <= 6
  {
    if n <= 3 then 7 - n else (11 - n) / 2
  }

  predicate Through(n: nat) {
    n >= 4 && n % 2 == 0
  }

  lemma CutSizes(n: nat)
    requires 1 <= n <= 11
    ensures |POPS| == 6 && PopSize(POPS[CutPop(n)..]) == n + (if Through(n) then 1 else 0)
    ensures Through(n) ==> CutPop(n) < 4
  {
    TailSizes();
  }

  lemma TailSizes()
    ensures PopSize(POPS[6..]) == 1 && PopSize(POPS[5..]) == 2 && PopSize(POPS[4..]) == 3 && PopSize(POPS[3..]) == 5
    ensures PopSize(POPS[2..]) == 7 && PopSize(POPS[1..]) == 9 && PopSize(POPS[0..]) == 11
  {
    assert POPS[6..] == [];
    OneMorePop(5);
    OneMorePop(4);
    OneMorePop(3);
    OneMorePop(2);
    OneMorePop(1);
    OneMorePop(0);
  }

  lemma OneMorePop(i: nat)
    requires i < 6
    ensures PopSize(POPS[i..]) == (if POPS[i] >= 8 then 2 else 1) + PopSize(POPS[i + 1..])
  {
    assert POPS[i..][1..] == POPS[i + 1..] && POPS[i..][0] == POPS[i];
  }

  /** What the caller had where that pop would restore it from: a register, or the return address. */
  ghost predicate CallersWord(entry: State, i: nat, w: Word)
    requires i <= 6
  {
    if i < 6 then w == entry.regs[POPS[i]]
    else entry.regs[RSP] in entry.mem && w == entry.mem[entry.regs[RSP]]
  }

  lemma PopsBack(entry: State, t: State, f: Frame, results: nat, room: nat, i: nat)
    requires i <= 6 && RunList(Epilogue()[i + 1..], t).Some?
    requires Conforms(entry, RunList(Epilogue()[i + 1..], t).value, f, results, room)
    ensures t.regs[RSP] == entry.regs[RSP] as int - 8 * (6 - i) && CellAt(t.mem, t.regs[RSP])
    ensures CallersWord(entry, i, t.mem[t.regs[RSP]])
    ensures LocalsAgree(entry, t.mem, f.locals) && OutsideKept(entry, t.mem, room, |f.locals|)
  {
    hide LocalsAgree, OutsideKept, RunList, Exec, Epilogue;
    EpiloguePops(i);
    PoppedBack(POPS[i..], t);
    if i < 6 { assert POPS[i..][0] == POPS[i]; }
  }

  /** `push r13` in place of `push rbp`: the next instruction overwrites RBP, so it makes no difference but for the word
      pushed. */
  lemma OtherPush(t: State, bytes: seq<byte>)
    requires CellAt(t.mem, t.regs[RSP] as int - 8) && t.regs[RSP] >= 8
    ensures Run(Encode(Push(R13)) + (Encode(MovRR(RBP, RSP)) + bytes), t)
            == Run(Encode(Push(RBP)) + (Encode(MovRR(RBP, RSP)) + bytes), t.(regs := t.regs[RBP := t.regs[R13]]))
  {
    var u := t.(regs := t.regs[RBP := t.regs[R13]]);
    var a, b := Exec(Push(R13), t).value, Exec(Push(RBP), u).value;
    assert a.regs[RBP := a.regs[RSP]] == b.regs[RBP := b.regs[RSP]];
    TwoSteps(Push(R13), MovRR(RBP, RSP), bytes, t);
    TwoSteps(Push(RBP), MovRR(RBP, RSP), bytes, u);
  }

  lemma TwoSteps(i: Instr, j: Instr, bytes: seq<byte>, s: State)
    requires Encodable(i) && Encodable(j) && i != Ret && j != Ret
    requires Exec(i, s).Some? && Exec(j, Exec(i, s).value).Some?
    ensures Run(Encode(i) + (Encode(j) + bytes), s) == Run(bytes, Exec(j, Exec(i, s).value).value)
  {
    hide Decode, Encode, Exec, Encodable;
    DecodeEncode(i, Encode(j) + bytes);
    DecodeEncode(j, bytes);
    assert (Encode(i) + (Encode(j) + bytes))[|Encode(i)|..] == Encode(j) + bytes;
    assert (Encode(j) + bytes)[|Encode(j)|..] == bytes;
  }

  /** Every compiled function starts with `push rbp; mov rbp, rsp`. */
  lemma StartsWithPush(body: seq<byte>, results: nat) returns (more: seq<byte>)
    requires Jit(body, results).ok && AllEncodable(Jit(body, results).code)
    ensures EncodeAll(Jit(body, results).code) == Encode(Push(RBP)) + (Encode(MovRR(RBP, RSP)) + more)
  {
    var code := Jit(body, results).code;
    assert code[0] == Push(RBP) && code[1] == MovRR(RBP, RSP);
    hide Jit, Encode;
    assert code[1..][1..] == code[2..] && code[1..][0] == code[1];
    more := EncodeAll(code[2..]);
    assert AllEncodable(code[1..]) && AllEncodable(code[2..]);
  }

  /** A function one to eleven bytes too long, with another function behind it. Where the cut falls between two pops of
      the epilogue, the next function is entered with the stack pointer still at a saved register; where it falls into a
      pop, the byte left and the first byte of the next function read `push r13`. Either way that function returns to
      what the caller had in that register, with the stack pointer too low; only with one byte missing is it the return
      address. */
  lemma ReturnsElsewhere(entry: State, locals: seq<Word>, body: seq<byte>, results: nat, room: nat,
                         body2: seq<byte>, results2: nat, rest: seq<byte>, n: nat)
    requires Layout(entry, room, |locals|) && LocalsAgree(entry, entry.mem, locals)
    requires 1 <= n <= 11 && Jit(body, results).ok && EmittedSize(body, results) == MAX_FN_BYTES + n
    requires room >= 6 - CutPop(n)
    requires Interpret(Wide, body, 0, Frame([], locals), results, room).Some?
    requires Jit(body2, results2).ok
    requires var w := Interpret(Wide, body, 0, Frame([], locals), results, room).value;
             Interpret(Wide, body2, 0, Frame([], w.locals), results2, room - (6 - CutPop(n))).Some?
    ensures AllEncodable(Jit(body, results).code) && AllEncodable(Jit(body2, results2).code)
    ensures var r := Run(Kept(body, results) + (EncodeAll(Jit(body2, results2).code) + rest), entry);
            && r.Some? && CallersWord(entry, CutPop(n), r.value.address)
            && r.value.state.regs[RSP] == entry.regs[RSP] as int + 8 - 8 * (6 - CutPop(n))
  {
    hide *;
    var w := Interpret(Wide, body, 0, Frame([], locals), results, room).value;
    var i := CutPop(n);
    var pre, t := UpToEpilogue(entry, locals, body, results, room, i + 1);
    SameLocalCount(Wide, body, 0, Frame([], locals), results, room);
    PopsBack(entry, t, w, results, room, i);
    JitEncodable(body2, results2);
    var bytes := EncodeAll(Jit(body2, results2).code) + rest;
    var u := NextEntry(entry, t, w.locals, room, 6 - i, Through(n));
    CompiledRunsWide(u, w.locals, body2, results2, room - (6 - i), rest);
    CutTail(body, results, pre, n);
    if Through(n) {
      RunThrough(pre, t, entry, u, body2, results2, rest);
    } else {
      RunBlock(pre, bytes, entry);
    }
    BackAt(u, Run(bytes, u).value, Interpret(Wide, body2, 0, Frame([], w.locals), results2, room - (6 - i)).value,
           results2, room - (6 - i));
  }

  /** What is kept of a function cut there. */
  lemma CutTail(body: seq<byte>, results: nat, pre: seq<Instr>, n: nat)
    requires 1 <= n <= 11 && Jit(body, results).ok && EmittedSize(body, results) == MAX_FN_BYTES + n
    requires AllEncodable(Jit(body, results).code) && AllEncodable(pre)
    requires Jit(body, results).code == pre + Epilogue()[CutPop(n) + 1..]
    ensures Kept(body, results) == if Through(n) then EncodeAll(pre) + [0x41] else EncodeAll(pre)
  {
    hide *;
    var i := CutPop(n);
    CutSizes(n);
    EpiloguePops(i);
    PopAllBytes(POPS[i..]);
    EncodeAllConcat(pre, PopAll(POPS[i..]));
    var tail := EncodeAll(PopAll(POPS[i..]));
    if Through(n) {
      HighRegister(i);
      assert EncodeAll(pre) + tail == (EncodeAll(pre) + [0x41]) + tail[1..];
      KeptButLast(body, results, EncodeAll(pre) + [0x41], tail[1..]);
    } else {
      KeptButLast(body, results, EncodeAll(pre), tail);
    }
  }

  lemma HighRegister(i: nat)
    requires i < 4
    ensures POPS[i..] != [] && POPS[i..][0] >= 8
  {
  }

  lemma RunThrough(pre: seq<Instr>, t: State, entry: State, u: State, body2: seq<byte>, results2: nat, rest: seq<byte>)
    requires AllEncodable(pre) && NoRet(pre) && ExecBlock(pre, entry) == Some(t)
    requires Jit(body2, results2).ok && AllEncodable(Jit(body2, results2).code)
    requires u == t.(regs := t.regs[RBP := t.regs[R13]])
    requires t.regs[RSP] >= 8 && CellAt(t.mem, t.regs[RSP] as int - 8)
    ensures var bytes := EncodeAll(Jit(body2, results2).code) + rest;
            Run((EncodeAll(pre) + [0x41]) + bytes, entry) == Run(bytes, u)
  {
    hide *;
    var more := StartsWithPush(body2, results2);
    PushesEncodable();
    CutBytes(EncodeAll(pre), more, rest);
    RunBlock(pre, Encode(Push(R13)) + (Encode(MovRR(RBP, RSP)) + (more + rest)), entry);
    OtherPush(t, more + rest);
  }

  /** The state in which the next function would have been entered by a call. */
  lemma NextEntry(entry: State, t: State, locals: seq<Word>, room: nat, down: nat, through: bool) returns (u: State)
    requires Layout(entry, room, |locals|) && LocalsAgree(entry, t.mem, locals) && down <= 6 && down <= room
    requires OutsideKept(entry, t.mem, room, |locals|) && t.regs[RDX] == entry.regs[RDX]
    requires t.regs[RSP] == entry.regs[RSP] as int - 8 * down
    ensures u == if through then t.(regs := t.regs[RBP := t.regs[R13]]) else t
    ensures u.regs[RSP] == t.regs[RSP] && u.mem == t.mem
    ensures Layout(u, room - down, |locals|) && LocalsAgree(u, u.mem, locals)
    ensures t.regs[RSP] >= 8 && CellAt(t.mem, t.regs[RSP] as int - 8)
  {
    u := if through then t.(regs := t.regs[RBP := t.regs[R13]]) else t;
    StillLaidOut(entry, u, t.mem, locals, room, down);
  }

  lemma PushesEncodable()
    ensures Encodable(Push(R13)) && Encodable(Push(RBP)) && Encodable(MovRR(RBP, RSP))
  {
  }

  lemma CutBytes(pre: seq<byte>, more: seq<byte>, rest: seq<byte>)
    ensures var m := Encode(MovRR(RBP, RSP));
            && (pre + [0x41]) + ((Encode(Push(RBP)) + (m + more)) + rest)
               == pre + (Encode(Push(R13)) + (m + (more + rest)))
            && (Encode(Push(RBP)) + (m + more)) + rest == Encode(Push(RBP)) + (m + (more + rest))
  {
    hide *;
    PushesEncodable();
    PushBytes();
    var m := Encode(MovRR(RBP, RSP));
    Assoc(Encode(Push(RBP)), m + more, rest);
    Assoc(m, more, rest);
    var tail := m + (more + rest);
    Assoc(pre, [0x41], Encode(Push(RBP)) + tail);
    Assoc([0x41], Encode(Push(RBP)), tail);
  }

  lemma PushBytes()
    ensures Encode(Push(R13)) == [0x41] + Encode(Push(RBP))
  {
  }

  lemma Assoc(a: seq<byte>, b: seq<byte>, c: seq<byte>)
    ensures (a + b) + c == a + (b + c)
  {
  }

  lemma BackAt(u: State, r: Returned, x: Frame, results: nat, room: nat)
    requires Conforms(u, r, x, results, room)
    ensures u.regs[RSP] in u.mem && r.address == u.mem[u.regs[RSP]] && r.state.regs[RSP] == u.regs[RSP] as int + 8
  {
  }

  // ---- both in the pool -----------------------------------------------------------------------------------------

  /** Functions `i` and `j` stand one behind the other in the pool; the second one fits. */
  ghost predicate Adjacent(pool: seq<byte>, slots: seq<Slot>, used: nat, bodies: seq<seq<byte>>, results: seq<nat>,
                           i: nat, j: nat)
  {
    && |slots| == |bodies| == |results| && SlotsOf(slots, used, bodies, results) && Holds(pool, slots)
    && i < j < |slots| && slots[i].Installed? && slots[j].Installed? && (forall k :: i < k < j ==> !slots[k].Installed?)
    && EmittedSize(bodies[j], results[j]) <= MAX_FN_BYTES
  }

  lemma PoolAt(pool: seq<byte>, slots: seq<Slot>, used: nat, bodies: seq<seq<byte>>, results: seq<nat>, i: nat, j: nat)
    returns (rest: seq<byte>)
    requires Adjacent(pool, slots, used, bodies, results, i, j) && EmittedSize(bodies[i], results[i]) > MAX_FN_BYTES
    ensures i < j < |slots| && |slots| == |bodies| == |results|
    ensures Jit(bodies[i], results[i]).ok && Jit(bodies[j], results[j]).ok
    ensures AllEncodable(Jit(bodies[i], results[i]).code) && AllEncodable(Jit(bodies[j], results[j]).code)
    ensures slots[i].start <= |pool|
    ensures pool[slots[i].start..]
            == Kept(bodies[i], results[i]) + (EncodeAll(Jit(bodies[j], results[j]).code) + rest)
  {
    hide SlotsOf, Holds, EmittedSize, Jit, EncodeAll, AllEncodable, Clip;
    InstalledIs(pool, slots, used, bodies, results, i);
    InstalledIs(pool, slots, used, bodies, results, j);
    rest := PoolBehindCut(pool, slots, used, bodies, results, i, j);
    NothingDroppedIff(bodies[j], results[j]);
  }

  /** In the pool: an installed function one byte too long returns what the next one installed makes of its locals. */
  lemma PoolFallsThrough(pool: seq<byte>, slots: seq<Slot>, used: nat, bodies: seq<seq<byte>>, results: seq<nat>,
                         i: nat, j: nat, entry: State, locals: seq<Word>, room: nat)
    requires Adjacent(pool, slots, used, bodies, results, i, j)
    requires EmittedSize(bodies[i], results[i]) == MAX_FN_BYTES + 1
    requires Layout(entry, room, |locals|) && LocalsAgree(entry, entry.mem, locals)
    requires Interpret(Wide, bodies[i], 0, Frame([], locals), results[i], room).Some?
    requires var w := Interpret(Wide, bodies[i], 0, Frame([], locals), results[i], room).value;
             Interpret(Wide, bodies[j], 0, Frame([], w.locals), results[j], room).Some?
    ensures slots[i].start <= |pool|
    ensures var w := Interpret(Wide, bodies[i], 0, Frame([], locals), results[i], room).value;
            var x := Interpret(Wide, bodies[j], 0, Frame([], w.locals), results[j], room).value;
            var r := Run(pool[slots[i].start..], entry);
            r.Some? && Conforms(entry, r.value, x, results[j], room)
  {
    hide *;
    var rest := PoolAt(pool, slots, used, bodies, results, i, j);
    FallsThrough(entry, locals, bodies[i], results[i], room, bodies[j], results[j], rest);
  }

  /** In the pool: an installed function one to eleven bytes too long returns to what the caller had in the register
      that its cut epilogue would have restored next. */
  lemma PoolReturnsElsewhere(pool: seq<byte>, slots: seq<Slot>, used: nat, bodies: seq<seq<byte>>, results: seq<nat>,
                             i: nat, j: nat, entry: State, locals: seq<Word>, room: nat, n: nat)
    requires Adjacent(pool, slots, used, bodies, results, i, j)
    requires 1 <= n <= 11 && EmittedSize(bodies[i], results[i]) == MAX_FN_BYTES + n && room >= 6 - CutPop(n)
    requires Layout(entry, room, |locals|) && LocalsAgree(entry, entry.mem, locals)
    requires Interpret(Wide, bodies[i], 0, Frame([], locals), results[i], room).Some?
    requires var w := Interpret(Wide, bodies[i], 0, Frame([], locals), results[i], room).value;
             Interpret(Wide, bodies[j], 0, Frame([], w.locals), results[j], room - (6 - CutPop(n))).Some?
    ensures slots[i].start <= |pool|
    ensures var r := Run(pool[slots[i].start..], entry);
            && r.Some? && CallersWord(entry, CutPop(n), r.value.address)
            && r.value.state.regs[RSP] == entry.regs[RSP] as int + 8 - 8 * (6 - CutPop(n))
  {
    hide *;
    var rest := PoolAt(pool, slots, used, bodies, results, i, j);
    ReturnsElsewhere(entry, locals, bodies[i], results[i], room, bodies[j], results[j], rest, n);
  }

  // ---- the two bodies -------------------------------------------------------------------------------------------

  /** `n` times `i32.const 0; drop`, then `end`. */
  function Idle(n: nat): seq<byte> {
    if n == 0 then [END] else [I32_CONST, 0, DROP] + Idle(n - 1)
  }

  /** `n` times the sum of two zeros, dropped; then as above. */
  function Sums(n: nat, m: nat): seq<byte> {
    if n == 0 then Idle(m) else [I32_CONST, 0, I32_CONST, 0, I32_ADD, DROP] + Sums(n - 1, m)
  }

  /** The instruction at `pc` takes frame `f` to `g` and is compiled to `size` bytes. */
  predicate Does(body: seq<byte>, pc: nat, f: Frame, room: nat, size: nat, next: nat, g: Frame) {
    && !AtReturn(body, pc)
    && StepOp(Narrow, body, pc, f, room) == Some((g, next))
    && OpSize(body, pc) == Some((size, next))
    && Translate(body, pc).Some? && Translate(body, pc).value.1 == next
  }

  lemma ZeroDoes(body: seq<byte>, pc: nat, f: Frame, room: nat)
    requires pc + 1 < |body| && body[pc] == I32_CONST && body[pc + 1] == 0 && |f.stack| < room
    ensures Does(body, pc, f, room, 11, pc + 2, f.(stack := f.stack + [0]))
  {
    assert body[pc + 1..] == [0] + body[pc + 2..];
    ZeroConst();
    I32RoundTrip(0, body[pc + 2..]);
    hide ReadI32, WriteI32, ReadU32, ReadI64;
  }

  lemma ZeroConst()
    ensures WriteI32(0) == [0]
  {
  }

  lemma DropDoes(body: seq<byte>, pc: nat, f: Frame, v: Word, room: nat)
    requires pc < |body| && body[pc] == DROP
    ensures Does(body, pc, f.(stack := f.stack + [v]), room, 4, pc + 1, f)
  {
    hide ReadI32, ReadU32, ReadI64, BinaryWord;
    assert (f.stack + [v])[..|f.stack|] == f.stack;
  }

  lemma AddDoes(body: seq<byte>, pc: nat, f: Frame, room: nat)
    requires pc < |body| && body[pc] == I32_ADD
    ensures Does(body, pc, f.(stack := f.stack + [0] + [0]), room, 6, pc + 1, f.(stack := f.stack + [0]))
  {
    hide StepOp, OpSize, Translate, BinaryWord, AluOf, ShiftOf;
    AddSize(body, pc);
    SumOfZeros();
    TwoOnTop(f.stack);
    BinaryStepIs(Narrow, body, pc, f.(stack := f.stack + [0] + [0]), room);
  }

  lemma TwoOnTop(stack: seq<Word>)
    ensures var s, d := stack + [0] + [0], |stack|;
            |s| == d + 2 && s[..d] == stack && s[d] == 0 && s[d + 1] == 0
  {
  }

  lemma AddSize(body: seq<byte>, pc: nat)
    requires pc < |body| && body[pc] == I32_ADD
    ensures OpSize(body, pc) == Some((6, pc + 1)) && Translate(body, pc).Some? && Translate(body, pc).value.1 == pc + 1
    ensures AluOf(body[pc]).Some?
  {
    hide ReadI32, ReadU32, ReadI64;
  }

  lemma SumOfZeros()
    ensures BinaryWord(Narrow, I32_ADD, 0, 0) == 0
  {
  }

  /** From `pc` on the body runs to its end without results, and is accepted and compiled to `size` bytes. */
  predicate Finishes(body: seq<byte>, pc: nat, f: Frame, room: nat, size: nat, g: Frame) {
    && Interpret(Narrow, body, pc, f, 0, room) == Some(g)
    && CompileFrom(body, pc, 0).ok && BodySize(body, pc, 0) == size
  }

  lemma ThenFinishes(body: seq<byte>, pc: nat, f: Frame, room: nat, size: nat, next: nat, g: Frame, more: nat, h: Frame)
    requires Does(body, pc, f, room, size, next, g) && Finishes(body, next, g, room, more, h)
    ensures Finishes(body, pc, f, room, size + more, h)
  {
    hide StepOp, OpSize, Translate;
  }

  lemma EndFinishes(body: seq<byte>, pc: nat, f: Frame, room: nat)
    requires pc + 1 == |body| && body[pc] == END
    ensures Finishes(body, pc, f, room, 23, f)
  {
  }

  lemma {:induction false} IdleFinishes(body: seq<byte>, pc: nat, n: nat, f: Frame, room: nat)
    requires pc <= |body| && body[pc..] == Idle(n) && room > |f.stack|
    ensures Finishes(body, pc, f, room, 15 * n + 23, f)
    decreases n
  {
    hide Does, Finishes;
    var rest := body[pc..];
    if n == 0 {
      assert rest[0] == body[pc];
      EndFinishes(body, pc, f, room);
    } else {
      assert body[pc] == rest[0] && body[pc + 1] == rest[1] && body[pc + 2] == rest[2];
      assert body[pc + 3..] == rest[3..] == Idle(n - 1);
      hide Idle;
      IdleFinishes(body, pc + 3, n - 1, f, room);
      var g := f.(stack := f.stack + [0]);
      ZeroDoes(body, pc, f, room);
      DropDoes(body, pc + 2, f, 0, room);
      ThenFinishes(body, pc + 2, g, room, 4, pc + 3, f, 15 * (n - 1) + 23, f);
      ThenFinishes(body, pc, f, room, 11, pc + 2, g, 15 * (n - 1) + 27, f);
    }
  }

  lemma {:induction false} SumsFinish(body: seq<byte>, pc: nat, n: nat, m: nat, f: Frame, room: nat)
    requires pc <= |body| && body[pc..] == Sums(n, m) && room >= |f.stack| + 2
    ensures Finishes(body, pc, f, room, 32 * n + 15 * m + 23, f)
    decreases n
  {
    hide Does, Finishes, Idle;
    if n == 0 {
      IdleFinishes(body, pc, m, f, room);
    } else {
      SumBytes(body, pc, n, m);
      hide Sums;
      SumsFinish(body, pc + 6, n - 1, m, f, room);
      var g, size := f.(stack := f.stack + [0]), 32 * (n - 1) + 15 * m + 23;
      var h := g.(stack := g.stack + [0]);
      ZeroDoes(body, pc, f, room);
      ZeroDoes(body, pc + 2, g, room);
      AddDoes(body, pc + 4, f, room);
      DropDoes(body, pc + 5, f, 0, room);
      ThenFinishes(body, pc + 5, g, room, 4, pc + 6, f, size, f);
      ThenFinishes(body, pc + 4, h, room, 6, pc + 5, g, size + 4, f);
      ThenFinishes(body, pc + 2, g, room, 11, pc + 4, h, size + 10, f);
      ThenFinishes(body, pc, f, room, 11, pc + 2, g, size + 21, f);
    }
  }

  lemma SumBytes(body: seq<byte>, pc: nat, n: nat, m: nat)
    requires pc <= |body| && n > 0 && body[pc..] == Sums(n, m)
    ensures pc + 6 <= |body| && body[pc] == I32_CONST && body[pc + 1] == 0 && body[pc + 2] == I32_CONST
    ensures body[pc + 3] == 0 && body[pc + 4] == I32_ADD && body[pc + 5] == DROP && body[pc + 6..] == Sums(n - 1, m)
  {
    var rest := body[pc..];
    assert rest == [I32_CONST, 0, I32_CONST, 0, I32_ADD, DROP] + Sums(n - 1, m);
    hide Sums;
    assert forall k :: 0 <= k < 6 ==> body[pc + k] == rest[k];
    assert body[pc + 6..] == rest[6..];
  }

  /** The function that does nothing, compiled and run under the wide reading. */
  lemma EmptyRuns(locals: seq<Word>, room: nat)
    ensures Jit([END], 0).ok && Interpret(Wide, [END], 0, Frame([], locals), 0, room) == Some(Frame([], locals))
  {
  }

  lemma AcceptedWhen(body: seq<byte>, locals: seq<Word>, room: nat, size: nat)
    requires Finishes(body, 0, Frame([], locals), room, size, Frame([], locals))
    ensures Jit(body, 0).ok && EmittedSize(body, 0) == ENTRY_SIZE + size
    ensures Interpret(Narrow, body, 0, Frame([], locals), 0, room).Some?
    ensures Interpret(Wide, body, 0, Frame([], locals), 0, room).Some?
  {
    hide Interpret, CompileFrom, BodySize;
    SameSafety(body, 0, Frame([], locals), Frame([], locals), 0, room);
  }

  /** An oversize function that returns as it should: the interpreter returns from it, the compiler accepts it, one
      byte is dropped, and with the function that does nothing behind it a call conforms to its own wide reading. */
  lemma OversizeConforms(entry: State, locals: seq<Word>, room: nat, rest: seq<byte>)
    requires room >= 2 && Layout(entry, room, |locals|) && LocalsAgree(entry, entry.mem, locals)
    ensures var body := Sums(5, 259);
            && Interpret(Narrow, body, 0, Frame([], locals), 0, room).Some? && Jit(body, 0).ok
            && Interpret(Wide, body, 0, Frame([], locals), 0, room).Some?
            && EmittedSize(body, 0) == 4097 && AllEncodable(Jit(body, 0).code) && AllEncodable(Jit([END], 0).code)
            && InstalledConforms(entry, Interpret(Wide, body, 0, Frame([], locals), 0, room).value, body, 0, room,
                                 EncodeAll(Jit([END], 0).code) + rest)
  {
    var body := Sums(5, 259);
    hide Sums, Interpret, CompileFrom, BodySize, Layout, LocalsAgree, Run, EncodeAll, Finishes, Jit, EmittedSize, Kept,
         AllEncodable;
    assert body[0..] == body;
    SumsFinish(body, 0, 5, 259, Frame([], locals), room);
    AcceptedWhen(body, locals, room, 32 * 5 + 15 * 259 + 23);
    var w := Interpret(Wide, body, 0, Frame([], locals), 0, room).value;
    EmptyRuns(w.locals, room);
    FallsThrough(entry, locals, body, 0, room, [END], 0, rest);
  }

  /** And one that does not: with the same function behind it, a call of 270 dropped constants returns to what the
      caller had in R13, with the wrong stack pointer. */
  lemma OversizeReturnsElsewhere(entry: State, locals: seq<Word>, room: nat, rest: seq<byte>)
    requires room >= 4 && Layout(entry, room, |locals|) && LocalsAgree(entry, entry.mem, locals)
    ensures var body := Idle(270);
            && Interpret(Narrow, body, 0, Frame([], locals), 0, room).Some? && Jit(body, 0).ok
            && EmittedSize(body, 0) == 4102 && AllEncodable(Jit(body, 0).code) && AllEncodable(Jit([END], 0).code)
            && var r := Run(Kept(body, 0) + (EncodeAll(Jit([END], 0).code) + rest), entry);
               && r.Some? && r.value.address == entry.regs[R13]
               && r.value.state.regs[RSP] == entry.regs[RSP] as int - 24
               && forall w: Frame :: !Conforms(entry, r.value, w, 0, room)
  {
    hide *;
    var body := Idle(270);
    IdleRuns(locals, room);
    var w := Interpret(Wide, body, 0, Frame([], locals), 0, room).value;
    EmptyRuns(w.locals, room - 4);
    SixMissing(entry);
    ReturnsElsewhere(entry, locals, body, 0, room, [END], 0, rest, 6);
    NeverConforms(entry, Run(Kept(body, 0) + (EncodeAll(Jit([END], 0).code) + rest), entry).value, 0, room);
  }

  lemma IdleRuns(locals: seq<Word>, room: nat)
    requires room >= 4
    ensures var body := Idle(270);
            && Interpret(Narrow, body, 0, Frame([], locals), 0, room).Some?
            && Interpret(Wide, body, 0, Frame([], locals), 0, room).Some?
            && Jit(body, 0).ok && EmittedSize(body, 0) == 4102 && MAX_FN_BYTES == 4096
  {
    hide Idle, Interpret, CompileFrom, BodySize, Finishes, Jit, EmittedSize;
    var body := Idle(270);
    assert body[0..] == body;
    IdleFinishes(body, 0, 270, Frame([], locals), room);
    AcceptedWhen(body, locals, room, 15 * 270 + 23);
  }

  lemma SixMissing(entry: State)
    ensures CutPop(6) == 2 && forall w: Word :: CallersWord(entry, 2, w) <==> w == entry.regs[R13]
  {
  }

  /** A call that comes back with another stack pointer conforms to nothing. */
  lemma NeverConforms(entry: State, r: Returned, results: nat, room: nat)
    requires r.state.regs[RSP] != entry.regs[RSP] as int + 8
    ensures forall w: Frame :: !Conforms(entry, r, w, results, room)
  {
    hide LocalsAgree, OutsideKept;
  }
}
