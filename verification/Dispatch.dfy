/** The control part of the dispatch loop as the source runs it: a control stack in a fixed array shared by
    all live frames, of which this frame owns the part above `base`. Each method is tied to the functional
    byte machine of `Control`, about which the simulation is proved. */
module Dispatch {
  import opened Words
  import opened Leb128
  import opened Opcode
  import opened Scanner
  import opened Control
  import M = Machine

  class ControlUnit {
    const ctrl: array<CtrlFrame>
    /** `ctrl_base` of the current frame. */
    const base: nat
    var depth: nat
    var pc: nat
    var log: Log
    var status: Status

    ghost predicate Valid()
      reads this
    {
      ctrl.Length == M.MAX_CTRL_DEPTH && base <= depth <= ctrl.Length
    }

    ghost function Abs(): ByteState
      requires Valid()
      reads this, ctrl
    {
      ByteState(pc, ctrl[base..depth], log, status)
    }

    ghost function Cap(): nat
      requires Valid()
      reads this
    {
      M.MAX_CTRL_DEPTH - base
    }

    constructor (ctrl: array<CtrlFrame>, base: nat)
      requires ctrl.Length == M.MAX_CTRL_DEPTH && base <= M.MAX_CTRL_DEPTH
      ensures Valid() && this.ctrl == ctrl && this.base == base
      ensures Abs() == ByteState(0, [], START, Running)
    {
      this.ctrl := ctrl;
      this.base := base;
      depth, pc, log, status := base, 0, START, Running;
    }

    /** `ctrl_push`, continuing at `target`. The frames of the callers, below `base`, are untouched. */
    method CtrlPush(f: CtrlFrame, target: nat)
      requires Valid() && status == Running
      modifies this, ctrl
      ensures Valid() && Abs() == Push(old(Abs()), f, target, Cap())
      ensures ctrl[..base] == old(ctrl[..base]) && (status == Running <==> old(depth) < 128)
    {
      if depth >= M.MAX_CTRL_DEPTH {
        status := Trapped(CtrlStackOverflow);
        return;
      }
      ctrl[depth] := f;
      depth := depth + 1;
      pc := target;
      assert ctrl[base..depth] == old(ctrl[base..depth]) + [f];
    }

    /** `do_br`. */
    method Br(n: nat)
      requires Valid()
      modifies this
      ensures Valid() && Abs() == DoBr(old(Abs()), n)
    {
      var available := depth - base;
      if n >= available {
        status := Done;
        return;
      }
      var target := depth - 1 - n;
      var cf := ctrl[target];
      assert cf == ctrl[base..depth][available - 1 - n];
      if cf.kind == KLoop {
        assert ctrl[base..target + 1] == ctrl[base..depth][..available - n];
        depth := target + 1;
        pc := cf.pcStart;
      } else {
        assert ctrl[base..target] == ctrl[base..depth][..available - 1 - n];
        depth := target;
        pc := cf.endPc + 1;
      }
    }

    /** Walking the labels of a branch table to entry `k`. */
    method ReadTableLabel(body: seq<byte>, start: nat, k: nat) returns (r: Option<nat>)
      ensures r == TableLabel(body, start, k)
    {
      var pos: nat, left: nat := start, k;
      while true
        invariant TableLabel(body, start, k) == TableLabel(body, pos, left)
        decreases left
      {
        if pos > |body| { return None; }
        var l := DecodeU32(body[pos..]);
        if l.None? { return None; }
        if left == 0 { return Some(l.value.0); }
        pos, left := pos + l.value.1, left - 1;
      }
    }

    /** `block`, `loop` and `if`. */
    method Open(body: seq<byte>, op: byte, v: Word)
      requires Valid() && status == Running && pc < |body| && body[pc] == op && Opens(op)
      modifies this, ctrl
      ensures Valid() && ctrl[..base] == old(ctrl[..base])
      ensures forall oracle: Oracle :: oracle(old(log.pops)) == v ==>
                Abs() == ByteStep(body, Cap(), oracle, old(Abs()))
    {
      hide ScanBlockEnd, DispatchEnd, TableLabel, DoBr, ReadU32;
      var pcBody := pc + 2;
      var found := ScanBlockEndLoop(body, pcBody);
      if found.None? {
        status := Trapped(MalformedCode);
        return;
      }
      var (endPc, elsePc) := found.value;
      if op != IF {
        CtrlPush(CtrlFrame(if op == BLOCK then KBlock else KLoop, pcBody, endPc), pcBody);
      } else {
        log := Popped(log);
        if v != 0 {
          CtrlPush(CtrlFrame(KIf, pcBody, endPc), pcBody);
        } else if elsePc.Some? {
          CtrlPush(CtrlFrame(KIf, pcBody, endPc), elsePc.value + 1);
        } else {
          pc := endPc + 1;
        }
      }
    }

    /** `br`, `br_if` and `br_table`. */
    method Jump(body: seq<byte>, op: byte, v: Word)
      requires Valid() && status == Running && pc < |body| && body[pc] == op
      requires op == BR || op == BR_IF || op == BR_TABLE
      modifies this
      ensures Valid()
      ensures forall oracle: Oracle :: oracle(old(log.pops)) == v ==>
                Abs() == ByteStep(body, Cap(), oracle, old(Abs()))
    {
      hide ScanBlockEnd, DispatchEnd, TableLabel, DoBr, ReadU32, Low32;
      var first := DecodeU32(body[pc + 1..]);
      if first.None? {
        status := Trapped(MalformedCode);
        return;
      }
      var (n, size) := first.value;
      if op == BR {
        Br(n);
      } else if op == BR_IF {
        log := Popped(log);
        if v != 0 { Br(n); } else { pc := pc + 1 + size; }
      } else {
        var i := Low32(v);
        var l := ReadTableLabel(body, pc + 1 + size, if i < n then i else n);
        if l.None? {
          status := Trapped(MalformedCode);
          return;
        }
        log := Popped(log);
        Br(l.value);
      }
    }

    /** Position after the immediates of a plain instruction. */
    method PlainEnd(body: seq<byte>, op: byte, i: nat) returns (r: Option<nat>)
      requires i <= |body|
      ensures r == DispatchEnd(body, op, i)
    {
      if op == 0xFC {
        var sub := DecodeU32(body[i..]);
        if sub.None? { return None; }
        var j := i + sub.value.1;
        if sub.value.0 == MEMORY_INIT || sub.value.0 == DATA_DROP {
          var idx := DecodeU32(body[j..]);
          if idx.None? { return None; }
          return Some(j + idx.value.1 + if sub.value.0 == MEMORY_INIT then 1 else 0);
        }
        if sub.value.0 <= 7 { return Some(j); }
        if sub.value.0 == MEMORY_COPY { return Some(j + 2); }
        return if sub.value.0 == MEMORY_FILL then Some(j + 1) else None;
      }
      r := SkipImmediatesMethod(body, op, i);
    }

    /** One turn of the dispatch loop; `oracle(n)` is the n-th condition popped. */
    method Step(body: seq<byte>, oracle: Oracle)
      requires Valid()
      modifies this, ctrl
      ensures Valid() && ctrl[..base] == old(ctrl[..base])
      ensures Abs() == ByteStep(body, Cap(), oracle, old(Abs()))
    {
      hide ScanBlockEnd, DispatchEnd, TableLabel, DoBr, ReadU32, Low32;
      if status != Running { return; }
      if pc >= |body| {
        status := Done;
        return;
      }
      var op := body[pc];
      if op == UNREACHABLE {
        status := Trapped(UnreachableExecuted);
      } else if Opens(op) {
        Open(body, op, oracle(log.pops));
      } else if op == ELSE {
        if depth == base {
          status := Trapped(MalformedCode);
          return;
        }
        assert ctrl[base..depth - 1] == ctrl[base..depth][..depth - base - 1];
        pc := ctrl[depth - 1].endPc + 1;
        depth := depth - 1;
      } else if op == END {
        if depth > base {
          assert ctrl[base..depth - 1] == ctrl[base..depth][..depth - base - 1];
          depth := depth - 1;
          pc := pc + 1;
        } else {
          status := Done;
        }
      } else if op == BR || op == BR_IF || op == BR_TABLE {
        Jump(body, op, oracle(log.pops));
      } else if op == RETURN {
        status := Done;
      } else {
        var next := PlainEnd(body, op, pc + 1);
        if next.None? {
          status := Trapped(UnknownOpcode);
        } else if next.value > |body| {
          status := Trapped(MalformedCode);
        } else {
          log := log.(trace := log.trace + [body[pc..next.value]]);
          pc := next.value;
        }
      }
    }

    /** `steps` turns of the loop from the start of a function whose body encodes `code`: the unit agrees
        with structured execution, and the callers' part of the control stack is as it was. */
    method Run(ghost code: Code, body: seq<byte>, oracle: Oracle, steps: nat)
      requires Valid() && Abs() == ByteState(0, [], START, Running)
      requires WellFormedCode(code) && body == EncodeCode(code) + [END]
      modifies this, ctrl
      ensures Valid() && ctrl[..base] == old(ctrl[..base])
      ensures Agree(body, Abs(), TreeRun(Cap(), oracle, TreeState(code, [], START, Running), steps))
    {
      hide ByteStep, Agree, EncodeCode, WellFormedCode, TreeStep;
      ghost var start := Abs();
      ghost var cap := Cap();
      var k := 0;
      while k < steps
        invariant k <= steps && Valid() && ctrl[..base] == old(ctrl[..base]) && cap == Cap()
        invariant Abs() == ByteRun(body, cap, oracle, start, k)
      {
        Step(body, oracle);
        k := k + 1;
      }
      ControlSimulation(code, cap, oracle, steps);
    }
  }
}
