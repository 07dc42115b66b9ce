/** The pending-sleep cell between the host functions and the scheduler. `sleep_ms` fills it, and the next yielding task
    step takes it; the shell's synchronous `run` treats yields as no-ops and takes nothing. */
module PendingSleep {
  import opened Words
  import opened Scheduler

  /** How a guest gives control back. */
  datatype HostCall = Yield | Sleep(ms: nat) | Return | Trap

  datatype Clocked = Clocked(sched: Sched, pending: nat)

  /** A scheduler turn, a whole synchronous `run` (the yields on its way), or a task spawned or killed. */
  datatype Happening =
    | Turned(now: nat, later: nat, call: HostCall)
    | RanShell(calls: seq<HostCall>)
    | Spawned(loads: bool)
    | Killed(id: nat)

  /** The cell when the engine comes back. */
  function Filled(pending: nat, call: HostCall): nat {
    if call.Sleep? then call.ms else pending
  }

  function FilledAll(pending: nat, calls: seq<HostCall>): nat {
    if calls == [] then pending else Filled(FilledAll(pending, calls[..|calls| - 1]), calls[|calls| - 1])
  }

  /** What `task_step` makes of it. */
  function Answer(pending: nat, call: HostCall): Outcome {
    match call
    case Return => Completed
    case Trap => Failed
    case _ => Yielded(Filled(pending, call))
  }

  predicate Yields(call: HostCall) {
    call.Yield? || call.Sleep?
  }

  /** The scheduler's view of a happening; a `run` that comes back has freed the instance it took. */
  function EventOf(c: Clocked, h: Happening): Event {
    match h
    case Turned(now, later, call) => Turn(now, later, Answer(c.pending, call))
    case Spawned(loads) => Spawn(loads)
    case Killed(id) => Kill(id)
    case RanShell(_) => Kill(MAX_TASKS)
  }

  function Happen(c: Clocked, h: Happening): Clocked
    requires Shape(c.sched)
  {
    var pending :=
      if h.Turned? && Pick(c.sched, h.now).Some? && Yields(h.call) then 0
      else if h.RanShell? && FreeInstance(c.sched.pool).Some? then FilledAll(c.pending, h.calls)
      else c.pending;
    Clocked(Step(c.sched, EventOf(c, h)), pending)
  }

  ghost predicate Run(cs: seq<Clocked>, hs: seq<Happening>) {
    && |cs| == |hs| + 1 && cs[0] == Clocked(BOOT, 0)
    && forall i :: 0 <= i < |hs| ==> Shape(cs[i].sched) && cs[i + 1] == Happen(cs[i], hs[i])
  }

  /** Every such run is a run of the scheduler, so all that holds of those holds of these. */
  lemma Projects(cs: seq<Clocked>, hs: seq<Happening>, ss: seq<Sched>, evs: seq<Event>)
    requires Run(cs, hs) && |ss| == |cs| && |evs| == |hs|
    requires forall i :: 0 <= i < |cs| ==> ss[i] == cs[i].sched
    requires forall i :: 0 <= i < |hs| ==> evs[i] == EventOf(cs[i], hs[i])
    ensures Trace(ss, evs)
  {
    hide Step, EventOf;
    BootInv();
    forall i | 0 <= i < |evs| ensures Shape(ss[i]) && ss[i + 1] == Step(ss[i], evs[i]) {
      assert cs[i + 1] == Happen(cs[i], hs[i]);
    }
  }

  // ---- when a yield is only a yield ---------------------------------------------------------------------------

  /** A task that yields becomes runnable again at once exactly when nothing was pending; otherwise it sleeps for
      what was. A task that sleeps, sleeps for its own time whatever was pending. */
  lemma YieldSuspends(c: Clocked, now: nat, later: nat, call: HostCall)
    requires Inv(c.sched) && Pick(c.sched, now).Some? && Yields(call)
    ensures var c' := Happen(c, Turned(now, later, call));
            var t := c'.sched.tasks[Pick(c.sched, now).value];
            var ms := Filled(c.pending, call);
            && t.Some? && t.value.state == (if ms == 0 then Suspended else Sleeping(later + (ms + 9) / 10))
            && (call.Yield? ==> (t.value.state == Suspended <==> c.pending == 0))
            && (call.Sleep? ==> ms == call.ms)
  {
    InvShape(c.sched);
    hide Inv, TaskStep, Pick;
    PickRunnable(c.sched, now);
    var id := Pick(c.sched, now).value;
    MoveCursor(c.sched, id);
    StepIs(c.sched.(cursor := id), id, now, later, Answer(c.pending, call));
  }

  /** A task that returns or traps is gone, its handle free, and the step says which; a pending sleep stays. */
  lemma TaskEnds(c: Clocked, now: nat, later: nat, call: HostCall)
    requires Inv(c.sched) && Pick(c.sched, now).Some? && (call.Return? || call.Trap?)
    ensures var id := Pick(c.sched, now).value;
            && Shape(c.sched) && c.sched.tasks[id].Some? && c.sched.tasks[id].value.instance < |c.sched.pool|
            && TaskStep(c.sched, id, now, later, Answer(c.pending, call)).1
               == Some(if call.Return? then Completed else Failed)
            && var c' := Happen(c, Turned(now, later, call));
               && c'.sched.tasks == c.sched.tasks[id := None] && c'.pending == c.pending
               && c'.sched.pool == c.sched.pool[c.sched.tasks[id].value.instance := false]
  {
    InvShape(c.sched);
    PickRunnable(c.sched, now);
  }

  /** A synchronous run that ends with a sleep pending. */
  predicate Leaves(c: Clocked, h: Happening) {
    h.RanShell? && FreeInstance(c.sched.pool).Some? && FilledAll(0, h.calls) > 0
  }

  /** A task that yields, or a synchronous run whose last sleep was for no time. */
  predicate Clears(c: Clocked, h: Happening)
    requires Shape(c.sched)
  {
    || (h.Turned? && Pick(c.sched, h.now).Some? && Yields(h.call))
    || (h.RanShell? && FreeInstance(c.sched.pool).Some? && FilledAll(1, h.calls) == 0)
  }

  /** The last sleep decides, or without one the cell stays. */
  lemma {:induction false} FilledCases(pending: nat, calls: seq<HostCall>)
    ensures FilledAll(0, calls) > 0 ==> FilledAll(pending, calls) == FilledAll(0, calls)
    ensures FilledAll(1, calls) == 0 ==> FilledAll(pending, calls) == 0
    ensures FilledAll(0, calls) == 0 && FilledAll(1, calls) > 0 ==> FilledAll(pending, calls) == pending
    decreases |calls|
  {
    if calls != [] { FilledCases(pending, calls[..|calls| - 1]); }
  }

  lemma PendingNext(c: Clocked, h: Happening)
    requires Shape(c.sched)
    ensures Leaves(c, h) ==> Happen(c, h).pending > 0
    ensures Clears(c, h) ==> Happen(c, h).pending == 0
    ensures !Leaves(c, h) && !Clears(c, h) ==> Happen(c, h).pending == c.pending
  {
    hide Step, Pick, FilledAll;
    if h.RanShell? { FilledCases(c.pending, h.calls); }
  }

  /** Left by happening `j` and not cleared before `k`. */
  ghost predicate LeftOver(cs: seq<Clocked>, hs: seq<Happening>, j: nat, k: nat)
    requires Run(cs, hs) && k <= |hs|
  {
    j < k && Leaves(cs[j], hs[j]) && forall i :: j < i < k ==> !Clears(cs[i], hs[i])
  }

  ghost predicate SomeLeftOver(cs: seq<Clocked>, hs: seq<Happening>, k: nat)
    requires Run(cs, hs) && k <= |hs|
  {
    exists j: nat :: LeftOver(cs, hs, j, k)
  }

  /** Over every run from boot: a sleep is pending exactly when a synchronous run left one that nothing has cleared
      since. A kernel whose shell runs never sleep has none, and there every plain yield only yields. */
  lemma {:induction false} PendingIff(cs: seq<Clocked>, hs: seq<Happening>, k: nat)
    requires Run(cs, hs) && k <= |hs|
    ensures cs[k].pending > 0 <==> SomeLeftOver(cs, hs, k)
  {
    hide Leaves, Clears, Happen, SomeLeftOver;
    if k > 0 {
      PendingIff(cs, hs, k - 1);
      assert Shape(cs[k - 1].sched) && cs[k - 1 + 1] == Happen(cs[k - 1], hs[k - 1]);
      PendingNext(cs[k - 1], hs[k - 1]);
      LeftOverNext(cs, hs, k);
    } else {
      NoneAtBoot(cs, hs);
    }
  }

  lemma NoneAtBoot(cs: seq<Clocked>, hs: seq<Happening>)
    requires Run(cs, hs)
    ensures !SomeLeftOver(cs, hs, 0)
  {
    hide Happen;
  }

  lemma LeftOverNext(cs: seq<Clocked>, hs: seq<Happening>, k: nat)
    requires Run(cs, hs) && 0 < k <= |hs|
    ensures Leaves(cs[k - 1], hs[k - 1]) ==> SomeLeftOver(cs, hs, k)
    ensures !Leaves(cs[k - 1], hs[k - 1]) ==>
              (SomeLeftOver(cs, hs, k) <==> !Clears(cs[k - 1], hs[k - 1]) && SomeLeftOver(cs, hs, k - 1))
  {
    hide Leaves, Clears, Happen;
    if Leaves(cs[k - 1], hs[k - 1]) {
      assert LeftOver(cs, hs, k - 1, k);
    } else {
      if j: nat :| LeftOver(cs, hs, j, k) {
        assert j != k - 1 && LeftOver(cs, hs, j, k - 1);
      }
      if !Clears(cs[k - 1], hs[k - 1]) && SomeLeftOver(cs, hs, k - 1) {
        var last := k - 1;
        var j: nat :| LeftOver(cs, hs, j, last);
        assert LeftOver(cs, hs, j, k);
      }
    }
  }

  /** A shell command that slept for a second: the next task that merely yields sleeps for it. */
  lemma StaleSleep(c: Clocked, now: nat, later: nat)
    requires Inv(c.sched) && FreeInstance(c.sched.pool).Some? && Pick(c.sched, now).Some?
    ensures var c1 := Happen(c, RanShell([Sleep(1000), Yield]));
            var c2 := Happen(c1, Turned(now, later, Yield));
            var id := Pick(c.sched, now).value;
            c2.sched.tasks[id].Some? && c2.sched.tasks[id].value.state == Sleeping(later + 100)
  {
    var calls := [Sleep(1000), Yield];
    assert calls[..1] == [Sleep(1000)] && calls[..1][..0] == [];
    assert FilledAll(c.pending, calls[..1]) == 1000;
    var c1 := Happen(c, RanShell(calls));
    assert c1 == Clocked(c.sched, 1000);
    YieldSuspends(c1, now, later, Yield);
  }
}
