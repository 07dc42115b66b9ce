/** What the instructions other than control, loads and stores do in the run loop: operands on top of the value stack,
    results in their place, locals, globals, memory, and which function a call calls. */
module MachineMeaning {
  import opened Words
  import opened Machine

  /** The stack is `rest` under `operands`. */
  predicate Under(s: State, rest: seq<Word>, operands: seq<Word>) {
    s.stack == rest + operands
  }

  /** `now` replaces the operands, and nothing but the stack and the position has changed. */
  predicate Gives(s: State, rest: seq<Word>, now: seq<Word>, s': State)
    requires s.frames != []
  {
    s' == s.(stack := rest + now, frames := s.frames[|s.frames| - 1 := Top(s).(pc := Top(s).pc + 1)])
  }

  lemma Step(s: State, s1: State, active: nat, rest: seq<Word>, operands: seq<Word>, now: seq<Word>)
    requires s1.frames != [] && s1.stack == rest + operands && |rest| + |now| <= 256
    ensures Replace(s1, active, |operands|, now).Next? && Gives(s1, rest, now, Replace(s1, active, |operands|, now).s)
  {
    assert s1.stack[..|s1.stack| - |operands|] == rest;
  }

  lemma NotControl(p: Program, s: State, active: nat, i: Instr)
    requires s.frames != [] && Fetch(p, s) == Some(i) && !IsControl(i) && !i.Return? && !i.Call? && !i.CallIndirect?
    ensures Exec(p, s, active) == if i.MemoryGrow? then ExecGrow(p, s, active)
                                  else if IsMemory(i) then ExecAccess(s, active, i) else ExecPlain(p, s, active, i)
  {
    hide ExecControl, ExecPlain, ExecAccess, ExecGrow, ExecFast, ExecCall, Fetch;
  }

  // ---- values ----------------------------------------------------------------------------------------------------

  /** Constants and `drop`, `select`, and the numeric operations. */
  lemma Values(p: Program, s: State, active: nat, rest: seq<Word>, a: Word, b: Word, c: Word)
    requires s.frames != [] && |rest| < 256
    ensures Fetch(p, s) == Some(Nop) && Under(s, rest, []) ==>
              Exec(p, s, active).Next? && Gives(s, rest, [], Exec(p, s, active).s)
    ensures Fetch(p, s) == Some(Const(a)) && Under(s, rest, []) ==>
              Exec(p, s, active).Next? && Gives(s, rest, [a], Exec(p, s, active).s)
    ensures Fetch(p, s) == Some(Drop) && Under(s, rest, [a]) ==>
              Exec(p, s, active).Next? && Gives(s, rest, [], Exec(p, s, active).s)
    ensures Fetch(p, s) == Some(Select) && Under(s, rest, [a, b, c]) ==>
              Exec(p, s, active).Next? && Gives(s, rest, [if c == 0 then b else a], Exec(p, s, active).s)
  {
    hide Exec, Fetch, Replace, Gives;
    if Fetch(p, s) == Some(Nop) && Under(s, rest, []) {
      NotControl(p, s, active, Nop);
      Step(s, s, active, rest, [], []);
    }
    if Fetch(p, s) == Some(Const(a)) && Under(s, rest, []) {
      NotControl(p, s, active, Const(a));
      Step(s, s, active, rest, [], [a]);
    }
    if Fetch(p, s) == Some(Drop) && Under(s, rest, [a]) {
      NotControl(p, s, active, Drop);
      Step(s, s, active, rest, [a], []);
    }
    if Fetch(p, s) == Some(Select) && Under(s, rest, [a, b, c]) {
      NotControl(p, s, active, Select);
      Step(s, s, active, rest, [a, b, c], [if c == 0 then b else a]);
    }
  }

  /** A numeric operation gets its operands in the order they were pushed; one that traps stops the run. */
  lemma Numerics(p: Program, s: State, active: nat, op: byte, rest: seq<Word>, a: Word, b: Word)
    requires s.frames != [] && |rest| < 256
    ensures Fetch(p, s) == Some(Unary(op)) && Under(s, rest, [a]) ==>
              Exec(p, s, active).Next? && Gives(s, rest, [p.unary(op, a)], Exec(p, s, active).s)
    ensures Fetch(p, s) == Some(Alu(op)) && Under(s, rest, [a, b]) ==>
              if p.alu(op, a, b).None? then Exec(p, s, active) == Stop(DivisionByZero)
              else Exec(p, s, active).Next? && Gives(s, rest, [p.alu(op, a, b).value], Exec(p, s, active).s)
  {
    hide Exec, Fetch, Replace, Gives;
    if Fetch(p, s) == Some(Unary(op)) && Under(s, rest, [a]) {
      NotControl(p, s, active, Unary(op));
      Step(s, s, active, rest, [a], [p.unary(op, a)]);
    }
    if Fetch(p, s) == Some(Alu(op)) && Under(s, rest, [a, b]) {
      NotControl(p, s, active, Alu(op));
      if p.alu(op, a, b).Some? { Step(s, s, active, rest, [a, b], [p.alu(op, a, b).value]); }
    }
  }

  /** Globals: an index out of range, then an immutable global, stops the run; else `global.set` changes that one
      alone. */
  lemma Globals(p: Program, s: State, active: nat, g: nat, rest: seq<Word>, a: Word)
    requires s.frames != [] && |rest| < 256
    ensures Fetch(p, s) == Some(GlobalGet(g)) && Under(s, rest, []) ==>
              if g >= |s.globals| then Exec(p, s, active) == Stop(GlobalIndexOutOfRange)
              else Exec(p, s, active).Next? && Gives(s, rest, [s.globals[g]], Exec(p, s, active).s)
    ensures Fetch(p, s) == Some(GlobalSet(g)) && Under(s, rest, [a]) ==>
              if g >= |s.globals| then Exec(p, s, active) == Stop(GlobalIndexOutOfRange)
              else if !p.mutable(g) then Exec(p, s, active) == Stop(GlobalImmutable)
              else Exec(p, s, active).Next? && Gives(s.(globals := s.globals[g := a]), rest, [], Exec(p, s, active).s)
  {
    hide Exec, Fetch, Replace, Gives;
    if Fetch(p, s) == Some(GlobalGet(g)) && Under(s, rest, []) {
      NotControl(p, s, active, GlobalGet(g));
      if g < |s.globals| { Step(s, s, active, rest, [], [s.globals[g]]); }
    }
    if Fetch(p, s) == Some(GlobalSet(g)) && Under(s, rest, [a]) {
      NotControl(p, s, active, GlobalSet(g));
      if g < |s.globals| { Step(s, s.(globals := s.globals[g := a]), active, rest, [a], []); }
    }
  }

  // ---- memory ----------------------------------------------------------------------------------------------------

  /** `now` is `mem` with `bytes` written at `at`. */
  ghost predicate Overwritten(mem: seq<byte>, at: nat, bytes: seq<byte>, now: seq<byte>) {
    && |now| == |mem| && at + |bytes| <= |mem|
    && (forall k :: 0 <= k < |bytes| ==> now[at + k] == bytes[k])
    && forall k :: 0 <= k < |mem| && !(at <= k < at + |bytes|) ==> now[k] == mem[k]
  }

  /** Neither `active` nor the array is passed. */
  predicate Inside(s: State, active: nat, at: nat, n: nat) {
    at + n <= active && at + n <= |s.mem|
  }

  lemma WrittenIs(s: State, at: nat, bytes: seq<byte>)
    requires at + |bytes| <= |s.mem|
    ensures Overwritten(s.mem, at, bytes, Written(s, at, bytes).mem)
  {
  }

  lemma CopyExec(s: State, active: nat, rest: seq<Word>, dst: Word, b: Word, n: Word)
    requires s.frames != [] && Under(s, rest, [dst, b, n])
    ensures ExecAccess(s, active, MemoryCopy)
            == if Inside(s, active, b, n) && Inside(s, active, dst, n) then
                 Replace(Written(s, dst, s.mem[b..b as int + n]), active, 3, [])
               else Stop(MemOutOfBounds)
  {
    assert s.stack[|s.stack| - 1] == n && s.stack[|s.stack| - 2] == b && s.stack[|s.stack| - 3] == dst;
    hide Replace, Written;
  }

  lemma FillExec(s: State, active: nat, rest: seq<Word>, dst: Word, b: Word, n: Word)
    requires s.frames != [] && Under(s, rest, [dst, b, n])
    ensures ExecAccess(s, active, MemoryFill)
            == if Inside(s, active, dst, n) then Replace(Written(s, dst, Filled(n, b % 0x100)), active, 3, [])
               else Stop(MemOutOfBounds)
  {
    assert s.stack[|s.stack| - 1] == n && s.stack[|s.stack| - 2] == b && s.stack[|s.stack| - 3] == dst;
    hide Replace, Written, Filled;
  }

  lemma BulkStep(s: State, active: nat, rest: seq<Word>, dst: Word, b: Word, n: Word, bytes: seq<byte>)
    requires s.frames != [] && |rest| < 256 && Under(s, rest, [dst, b, n]) && dst as int + |bytes| <= |s.mem|
    ensures var o := Replace(Written(s, dst, bytes), active, 3, []);
            o.Next? && Overwritten(s.mem, dst, bytes, o.s.mem) && Gives(s.(mem := o.s.mem), rest, [], o.s)
  {
    WrittenIs(s, dst, bytes);
    hide Replace, Overwritten;
    Step(s, Written(s, dst, bytes), active, rest, [dst, b, n], []);
  }

  /** `memory.copy` moves the bytes as they were, overlapping or not; it stops the run when either end is out of
      bounds. */
  lemma Copies(p: Program, s: State, active: nat, rest: seq<Word>, dst: Word, src: Word, n: Word)
    requires s.frames != [] && |rest| < 256 && Under(s, rest, [dst, src, n]) && Fetch(p, s) == Some(MemoryCopy)
    ensures var o := Exec(p, s, active);
            if !(Inside(s, active, src, n) && Inside(s, active, dst, n)) then o == Stop(MemOutOfBounds)
            else o.Next? && Overwritten(s.mem, dst, s.mem[src..src as int + n], o.s.mem)
                 && Gives(s.(mem := o.s.mem), rest, [], o.s)
  {
    hide Exec, Fetch, Replace, Gives, Written, Overwritten, ExecAccess, Under;
    NotControl(p, s, active, MemoryCopy);
    CopyExec(s, active, rest, dst, src, n);
    if Inside(s, active, src, n) && Inside(s, active, dst, n) {
      BulkStep(s, active, rest, dst, src, n, s.mem[src..src as int + n]);
    }
  }

  /** `memory.fill` writes the low byte of its value as often as it is told. */
  lemma Fills(p: Program, s: State, active: nat, rest: seq<Word>, dst: Word, v: Word, n: Word)
    requires s.frames != [] && |rest| < 256 && Under(s, rest, [dst, v, n]) && Fetch(p, s) == Some(MemoryFill)
    ensures var o := Exec(p, s, active);
            if !Inside(s, active, dst, n) then o == Stop(MemOutOfBounds)
            else o.Next? && Overwritten(s.mem, dst, seq(n, _ => v % 0x100), o.s.mem)
                 && Gives(s.(mem := o.s.mem), rest, [], o.s)
  {
    hide Exec, Fetch, Replace, Gives, Written, Overwritten, ExecAccess, Under;
    NotControl(p, s, active, MemoryFill);
    FillExec(s, active, rest, dst, v, n);
    if Inside(s, active, dst, n) {
      BulkStep(s, active, rest, dst, v, n, Filled(n, v % 0x100));
      assert Filled(n, v % 0x100) == seq(n, _ => v % 0x100);
    }
  }

  /** `memory.size` gives the pages there are; `memory.grow` gives the pages there were and adds as many as asked,
      zeroed and without touching the others, or gives -1 and changes nothing where that would pass the maximum. */
  lemma Sizes(p: Program, s: State, active: nat, rest: seq<Word>, d: Word)
    requires s.frames != [] && |rest| < 256 && s.pages < 0x1_0000_0000
    ensures Fetch(p, s) == Some(MemorySize) && Under(s, rest, []) ==>
              Exec(p, s, active).Next? && Gives(s, rest, [s.pages], Exec(p, s, active).s)
    ensures Fetch(p, s) == Some(MemoryGrow) && Under(s, rest, [d]) ==>
              var o, more := Exec(p, s, active), d % 0x1_0000_0000;
              if s.pages + more > p.maxPages then
                o.Next? && o.active == active && Gives(s, rest, [0xFFFF_FFFF_FFFF_FFFF], o.s)
              else if (s.pages + more) * 65536 > |s.mem| then o == Stop(MemOutOfBounds)
              else
                && o.Next? && o.active == (s.pages + more) * 65536
                && Overwritten(s.mem, s.pages * 65536, seq(more * 65536, _ => 0), o.s.mem)
                && Gives(s.(mem := o.s.mem, pages := s.pages + more), rest, [s.pages], o.s)
  {
    hide Exec, Fetch, Replace, Gives, Overwritten, Grown;
    if Fetch(p, s) == Some(MemorySize) && Under(s, rest, []) {
      NotControl(p, s, active, MemorySize);
      Step(s, s, active, rest, [], [s.pages]);
    }
    if Fetch(p, s) == Some(MemoryGrow) && Under(s, rest, [d]) {
      NotControl(p, s, active, MemoryGrow);
      var more: nat := d % 0x1_0000_0000;
      if s.pages + more > p.maxPages {
        Step(s, s, active, rest, [d], [0xFFFF_FFFF_FFFF_FFFF]);
      } else if (s.pages + more) * 65536 <= |s.mem| {
        GrownIs(s, more);
        Step(s, Grown(s, more), (s.pages + more) * 65536, rest, [d], [s.pages]);
      }
    }
  }

  lemma GrownIs(s: State, more: nat)
    requires (s.pages + more) * 65536 <= |s.mem|
    ensures var g := Grown(s, more);
            && Overwritten(s.mem, s.pages * 65536, seq(more * 65536, _ => 0), g.mem)
            && g == s.(mem := g.mem, pages := s.pages + more)
  {
    assert (s.pages + more) * 65536 == s.pages * 65536 + more * 65536;
  }

  // ---- too few or too many values --------------------------------------------------------------------------------

  /** Operands of the instructions above. */
  function Operands(i: Instr): nat {
    match i
    case Drop | Unary(_) | LocalSet(_) | LocalTee(_) | GlobalSet(_) | MemoryGrow => 1
    case Alu(_) => 2
    case Select | MemoryCopy | MemoryFill => 3
    case _ => 0
  }

  /** An instruction that lacks operands stops the run with an underflow, and one that finds the stack full and
      leaves one value more with an overflow; the checks of a local or a global come first. */
  lemma Limits(p: Program, s: State, active: nat, i: Instr)
    requires s.frames != [] && Fetch(p, s) == Some(i)
    requires !IsControl(i) && !i.Return? && !i.Call? && !i.CallIndirect? && !i.Load? && !i.Store?
    ensures i.Trap? ==> Exec(p, s, active) == Stop(Unreachable)
    ensures (i.LocalGet? || i.LocalSet? || i.LocalTee?) && i.local >= |Top(s).locals| ==>
              Exec(p, s, active) == Stop(LocalIndexOutOfRange)
    ensures var known := if i.LocalGet? || i.LocalSet? || i.LocalTee? then i.local < |Top(s).locals|
                         else if i.GlobalSet? then i.global < |s.globals| && p.mutable(i.global)
                         else i.GlobalGet? ==> i.global < |s.globals|;
            known ==>
              && (|s.stack| < Operands(i) ==> Exec(p, s, active) == Stop(StackUnderflow))
              && (|s.stack| >= 256 && (i.Const? || i.LocalGet? || i.GlobalGet? || i.MemorySize?) ==>
                    Exec(p, s, active) == Stop(StackOverflow))
  {
    hide Exec, Fetch, Grown, Written, Extended, FromLe;
    NotControl(p, s, active, i);
  }

  // ---- calls -----------------------------------------------------------------------------------------------------

  /** Calling function `callee` from `s`, which has its arguments on top: a host function is given the stack and
      memory; a function of the module takes exactly its parameters, finds them in order in front of zeros, and
      starts at its first instruction with no construct open and nothing on its part of the stack. */
  ghost predicate CallsFunction(p: Program, s: State, callee: nat, o: Outcome)
    requires s.frames != []
  {
    var back := s.frames[|s.frames| - 1 := Top(s).(pc := Top(s).pc + 1)];
    if callee < p.imports then
      var h := p.host(callee, s.stack, s.mem);
      var after := s.(frames := back, stack := h.stack, mem := h.mem);
      match h.status
      case Completed => o.Next? && o.s == after
      case Yielded => o == Yield(after)
      case Failed(code) => o == Stop(HostError(code))
    else if callee >= p.imports + |p.funcs| then o == Stop(FuncIndexOutOfRange)
    else
      var f := p.funcs[callee - p.imports];
      if |s.frames| >= 128 then o == Stop(CallStackOverflow)
      else if f.params + f.locals > 64 then o == Stop(TooManyLocals)
      else if |s.stack| < f.params then o == Stop(StackUnderflow)
      else
        && o.Next? && |o.s.frames| == |s.frames| + 1 && o.s.frames[..|s.frames|] == back
        && var g := o.s.frames[|s.frames|];
           && g.func == callee - p.imports && g.pc == 0 && g.ctrlBase == |s.ctrl| && g.vspBase == |o.s.stack|
           && g.resultCount == f.results && |g.locals| == f.params + f.locals
           && o.s.stack + g.locals[..f.params] == s.stack
           && (forall k :: f.params <= k < |g.locals| ==> g.locals[k] == 0)
           && o.s == s.(stack := o.s.stack, frames := o.s.frames)
  }

  lemma CallOutcome(p: Program, s: State, active: nat, callee: nat)
    requires s.frames != []
    ensures CallsFunction(p, s, callee, ExecCall(p, s, active, callee))
  {
    if p.imports <= callee < p.imports + |p.funcs| {
      var f := p.funcs[callee - p.imports];
      if f.params <= |s.stack| {
        assert s.stack[..|s.stack| - f.params] + s.stack[|s.stack| - f.params..] == s.stack;
      }
    }
  }

  lemma CallExec(p: Program, s: State, active: nat, i: Instr)
    requires s.frames != [] && Fetch(p, s) == Some(i) && (i.Call? || i.CallIndirect?) && !Fast(p, i)
    ensures Exec(p, s, active) == match Called(p, i, s)
                                  case None => Stop(IndirectFailure(p, s))
                                  case Some((s1, callee)) => ExecCall(p, s1, active, callee)
  {
    hide ExecControl, ExecPlain, ExecAccess, ExecGrow, ExecFast, ExecCall, Fetch;
  }

  /** A call that does not take the fast path calls the function it names. */
  lemma DirectCall(p: Program, s: State, active: nat, callee: nat)
    requires s.frames != [] && Fetch(p, s) == Some(Call(callee))
    requires !(p.imports <= callee < p.imports + |p.funcs| && p.compiled(callee - p.imports))
    ensures CallsFunction(p, s, callee, Exec(p, s, active))
  {
    hide Exec, ExecCall, CallsFunction, Fetch;
    CallExec(p, s, active, Call(callee));
    CallOutcome(p, s, active, callee);
  }

  /** An indirect call takes its index modulo 2^32 and calls exactly the function in that place of the table, if
      there is one and it has the type the instruction names, and stops the run otherwise. */
  lemma IndirectCall(p: Program, s: State, active: nat, t: nat, rest: seq<Word>, x: Word)
    requires s.frames != [] && Fetch(p, s) == Some(CallIndirect(t)) && Under(s, rest, [x])
    ensures var o, k := Exec(p, s, active), x % 0x1_0000_0000;
            if k >= |p.table| || p.table[k].None? then o == Stop(IndirectCallNull)
            else if p.types(p.table[k].value) != t then o == Stop(IndirectCallTypeMismatch)
            else CallsFunction(p, s.(stack := rest), p.table[k].value, o)
  {
    hide Exec, ExecCall, CallsFunction, Fetch;
    CallExec(p, s, active, CallIndirect(t));
    assert TopValue(s) == x && Popped(s) == s.(stack := rest);
    var k := x % 0x1_0000_0000;
    if k < |p.table| && p.table[k].Some? { CallOutcome(p, s.(stack := rest), active, p.table[k].value); }
  }

  // ---- globals over a run ----------------------------------------------------------------------------------------

  lemma ReplaceGlobals(s: State, active: nat, pops: nat, pushes: seq<Word>)
    requires s.frames != [] && Replace(s, active, pops, pushes).Next?
    ensures Replace(s, active, pops, pushes).s.globals == s.globals
  {
  }

  /** Immutable globals are the same after a turn. */
  predicate GlobalsKept(p: Program, s: State, s': State) {
    |s'.globals| == |s.globals| && forall g :: 0 <= g < |s.globals| && !p.mutable(g) ==> s'.globals[g] == s.globals[g]
  }

  lemma TurnGlobals(p: Program, s: State, active: nat)
    requires s.frames != [] && After(Exec(p, s, active)).Some?
    ensures GlobalsKept(p, s, After(Exec(p, s, active)).value)
  {
    hide ExecControl, ExecPlain, ExecAccess, ExecGrow, ExecFast, ExecCall, Returning, Fetch, GlobalsKept, Called;
    var s', i := After(Exec(p, s, active)).value, Fetch(p, s);
    if Returns(p, s) {
      SameGlobals(p, s, s');
    } else if IsControl(i.value) {
      ControlGlobals(s, active, i.value);
      SameGlobals(p, s, s');
    } else if i.value.MemoryGrow? || IsMemory(i.value) {
      MemoryGlobals(p, s, active, i.value);
      SameGlobals(p, s, s');
    } else if i.value.Call? || i.value.CallIndirect? {
      CallGlobals(p, s, active, i.value);
      SameGlobals(p, s, s');
    } else {
      PlainGlobals(p, s, active, i.value);
    }
  }

  lemma SameGlobals(p: Program, s: State, s': State)
    requires s'.globals == s.globals
    ensures GlobalsKept(p, s, s')
  {
  }

  lemma MemoryGlobals(p: Program, s: State, active: nat, i: Instr)
    requires s.frames != [] && IsMemory(i)
    ensures i.MemoryGrow? && ExecGrow(p, s, active).Next? ==> ExecGrow(p, s, active).s.globals == s.globals
    ensures !i.MemoryGrow? && ExecAccess(s, active, i).Next? ==> ExecAccess(s, active, i).s.globals == s.globals
  {
    hide InBounds, Accessed;
  }

  lemma CallGlobals(p: Program, s: State, active: nat, i: Instr)
    requires s.frames != [] && (i.Call? || i.CallIndirect?)
    ensures Fast(p, i) && ExecFast(p, s, active, i.callee - p.imports).Next? ==>
              ExecFast(p, s, active, i.callee - p.imports).s.globals == s.globals
    ensures Called(p, i, s).Some? ==>
              var (s1, callee) := Called(p, i, s).value;
              s1.frames == s.frames && (After(ExecCall(p, s1, active, callee)).Some? ==>
                After(ExecCall(p, s1, active, callee)).value.globals == s.globals)
  {
    hide LocalsArray;
  }

  lemma PlainGlobals(p: Program, s: State, active: nat, i: Instr)
    requires s.frames != [] && !IsControl(i) && !IsMemory(i) && !i.Call? && !i.CallIndirect? && !i.Return?
    requires ExecPlain(p, s, active, i).Next?
    ensures GlobalsKept(p, s, ExecPlain(p, s, active, i).s)
  {
  }

  lemma ControlGlobals(s: State, active: nat, i: Instr)
    requires s.frames != [] && IsControl(i) && ExecControl(s, active, i).Next?
    ensures ExecControl(s, active, i).s.globals == s.globals
  {
  }

  /** Over every run an immutable global keeps its value. */
  lemma {:induction false} ImmutableGlobals(p: Program, ss: seq<State>, k: nat)
    requires Run(p, ss) && k < |ss|
    ensures GlobalsKept(p, ss[0], ss[k])
  {
    hide Exec, Disciplined;
    if k > 0 {
      ImmutableGlobals(p, ss, k - 1);
      assert Turn(p, ss[k - 1], ss[k - 1 + 1]);
      TurnGlobals(p, ss[k - 1], ActiveBytes(ss[k - 1]));
    }
  }
}
