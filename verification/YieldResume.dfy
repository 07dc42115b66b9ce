/** Cooperative suspension: a run cut into slices by yielding host calls against the same run uncut. */
module YieldResume {
  import opened Words
  import opened Machine

  /** Where a run stands after a bounded number of turns. */
  datatype Progress = Running(s: State, active: nat) | Ended(s: State) | Broken(error: Error)

  /** The uninterrupted run: the memory size is cached once at the start, and a yielding host call just applies its
      effect. */
  function Straight(p: Program, s: State, active: nat, n: nat): Progress
    decreases n
  {
    if s.frames == [] then Ended(s)
    else if n == 0 then Running(s, active)
    else
      match Exec(p, s, active)
      case Next(s', a) => Straight(p, s', a, n - 1)
      case Yield(s') => Straight(p, s', active, n - 1)
      case Stop(e) => Broken(e)
  }

  /** One entry into `run`: until the entry function returns, a trap, a yield, or `n` turns. `left` is what remains of
      the turns after a yield. */
  datatype Slice =
    | Finished(s: State)
    | Paused(s: State, active: nat)
    | Suspended(s: State, left: nat)
    | Trapped(error: Error)

  function RunSlice(p: Program, s: State, active: nat, n: nat): (r: Slice)
    ensures r.Suspended? ==> r.left < n
    decreases n
  {
    if s.frames == [] then Finished(s)
    else if n == 0 then Paused(s, active)
    else
      match Exec(p, s, active)
      case Next(s', a) => RunSlice(p, s', a, n - 1)
      case Yield(s') => Suspended(s', n - 1)
      case Stop(e) => Trapped(e)
  }

  /** `start_task` followed by `resume_task` as long as it yields: every entry computes the cached size anew. */
  function Drain(p: Program, s: State, n: nat): Progress
    decreases n
  {
    match RunSlice(p, s, ActiveBytes(s), n)
    case Finished(s') => Ended(s')
    case Paused(s', a) => Running(s', a)
    case Suspended(s', left) => Drain(p, s', left)
    case Trapped(e) => Broken(e)
  }

  /** The cached size is the current size after every turn; only `memory.grow` changes either. */
  lemma CacheCoherent(p: Program, s: State)
    requires s.frames != []
    ensures var o := Exec(p, s, ActiveBytes(s));
            && (o.Next? ==> o.active == ActiveBytes(o.s))
            && (o.Yield? ==> ActiveBytes(o.s) == ActiveBytes(s))
  {
    hide Fetch, Returning, ExecControl, ExecPlain, ExecAccess, ExecGrow, ExecCall, Called;
    if !Returns(p, s) && Fetch(p, s).Some? && Called(p, Fetch(p, s).value, s).Some? {
      var (s1, callee) := Called(p, Fetch(p, s).value, s).value;
      CalledSame(p, Fetch(p, s).value, s);
      CallKeepsPages(p, s1, ActiveBytes(s), callee);
    }
  }

  lemma CalledSame(p: Program, i: Instr, s: State)
    ensures Called(p, i, s).Some? ==>
              Called(p, i, s).value.0.pages == s.pages && Called(p, i, s).value.0.frames == s.frames
  {
  }

  lemma CallKeepsPages(p: Program, s: State, active: nat, callee: nat)
    requires s.frames != []
    ensures var o := ExecCall(p, s, active, callee);
            (After(o).Some? ==> o.s.pages == s.pages) && (o.Next? ==> o.active == active)
  {
  }

  /** A slice is a prefix of the uninterrupted run. */
  lemma {:induction false} SliceIsPrefix(p: Program, s: State, n: nat)
    ensures var r := RunSlice(p, s, ActiveBytes(s), n);
            var t := Straight(p, s, ActiveBytes(s), n);
            match r
            case Finished(s') => t == Ended(s')
            case Paused(s', a) => t == Running(s', a)
            case Suspended(s', left) => t == Straight(p, s', ActiveBytes(s'), left)
            case Trapped(e) => t == Broken(e)
    decreases n
  {
    hide Exec;
    if s.frames != [] && n > 0 {
      CacheCoherent(p, s);
      var o := Exec(p, s, ActiveBytes(s));
      if o.Next? { SliceIsPrefix(p, o.s, n - 1); }
    }
  }

  /** Yield transparency: for every program, state and number of turns, resuming through any number of yields stands
      exactly where the uninterrupted run stands, with the same stacks, globals, memory and cached size. */
  lemma {:induction false} YieldTransparent(p: Program, s: State, n: nat)
    ensures Drain(p, s, n) == Straight(p, s, ActiveBytes(s), n)
    decreases n
  {
    SliceIsPrefix(p, s, n);
    hide RunSlice, Straight;
    var r := RunSlice(p, s, ActiveBytes(s), n);
    if r.Suspended? { YieldTransparent(p, r.s, r.left); }
  }

  // ---- against a program that never yields ---------------------------------------------------------------------

  function Quieted(r: HostResult): HostResult {
    if r.status.Yielded? then r.(status := Completed) else r
  }

  /** The same program with host calls that apply their effect and never yield. */
  function Quiet(p: Program): Program {
    p.(host := (callee: nat, stack: seq<Word>, mem: seq<byte>) => Quieted(p.host(callee, stack, mem)))
  }

  lemma QuietFetch(p: Program, s: State)
    requires s.frames != []
    ensures Fetch(Quiet(p), s) == Fetch(p, s) && Returning(Quiet(p), s) == Returning(p, s)
    ensures forall i :: Called(Quiet(p), i, s) == Called(p, i, s)
    ensures forall i :: Fast(Quiet(p), i) == Fast(p, i)
    ensures Quiet(p).imports == p.imports && Quiet(p).funcs == p.funcs
  {
  }

  lemma QuietFast(p: Program, s: State, active: nat, func: nat)
    requires s.frames != [] && func < |p.funcs|
    ensures ExecFast(Quiet(p), s, active, func) == ExecFast(p, s, active, func)
  {
    hide Replace;
  }

  lemma QuietCall(p: Program, s: State, active: nat, callee: nat)
    requires s.frames != []
    ensures var o := ExecCall(p, s, active, callee);
            ExecCall(Quiet(p), s, active, callee) == if o.Yield? then Next(o.s, active) else o
  {
    hide PushFrame;
    var s1 := Advance(s);
    assert Quiet(p).host(callee, s1.stack, s1.mem) == Quieted(p.host(callee, s1.stack, s1.mem));
  }

  lemma QuietOthers(p: Program, s: State, active: nat)
    requires s.frames != []
    ensures ExecGrow(Quiet(p), s, active) == ExecGrow(p, s, active)
    ensures IndirectFailure(Quiet(p), s) == IndirectFailure(p, s)
  {
    hide Replace, Grown;
  }

  lemma QuietPlain(p: Program, s: State, active: nat, i: Instr)
    requires s.frames != [] && !IsControl(i) && !IsMemory(i) && !i.Call? && !i.CallIndirect? && !i.Return?
    ensures ExecPlain(Quiet(p), s, active, i) == ExecPlain(p, s, active, i)
  {
    hide Replace, ExecLocal;
  }

  lemma QuietTurn(p: Program, s: State, active: nat)
    requires s.frames != []
    ensures var o := Exec(p, s, active);
            Exec(Quiet(p), s, active) == if o.Yield? then Next(o.s, active) else o
  {
    hide Fetch, Returning, ExecControl, ExecPlain, ExecAccess, ExecGrow, ExecCall, ExecFast, Called, Quiet,
         IndirectFailure;
    QuietFetch(p, s);
    QuietOthers(p, s, active);
    if Fetch(p, s).Some? {
      var i := Fetch(p, s).value;
      if Fast(p, i) {
        QuietFast(p, s, active, i.callee - p.imports);
      } else if i.Call? || i.CallIndirect? {
        if Called(p, i, s).Some? {
          CalledSame(p, i, s);
          QuietCall(p, Called(p, i, s).value.0, active, Called(p, i, s).value.1);
        }
      } else if !IsControl(i) && !IsMemory(i) && !i.Return? {
        QuietPlain(p, s, active, i);
      }
    }
  }

  /** A single uninterrupted entry of the quiet program is the uninterrupted run. */
  lemma {:induction false} QuietRun(p: Program, s: State, active: nat, n: nat)
    ensures Straight(p, s, active, n)
            == match RunSlice(Quiet(p), s, active, n)
               case Finished(s') => Ended(s')
               case Paused(s', a) => Running(s', a)
               case Suspended(s', _) => Ended(s')
               case Trapped(e) => Broken(e)
    ensures !RunSlice(Quiet(p), s, active, n).Suspended?
    decreases n
  {
    hide Exec, Quiet;
    if s.frames != [] && n > 0 {
      QuietTurn(p, s, active);
      match Exec(p, s, active)
      case Next(s', a) => QuietRun(p, s', a, n - 1);
      case Yield(s') => QuietRun(p, s', active, n - 1);
      case Stop(_) =>
    }
  }

  /** Draining the yields of `p` and running the never-yielding program once reach the same end, final state
      included, or both do not reach it within `n` turns. */
  lemma DrainedIsQuiet(p: Program, s: State, n: nat, final: State)
    ensures Drain(p, s, n) == Ended(final) <==> RunSlice(Quiet(p), s, ActiveBytes(s), n) == Finished(final)
  {
    YieldTransparent(p, s, n);
    QuietRun(p, s, ActiveBytes(s), n);
  }

  // ---- the loops ---------------------------------------------------------------------------------------------

  /** `run`, for at most `n` turns. */
  method RunLoop(p: Program, start: State, n: nat) returns (r: Slice)
    ensures r == RunSlice(p, start, ActiveBytes(start), n)
  {
    hide Exec;
    var s, left := start, n;
    var active: nat := start.pages * PAGE_SIZE;
    while s.frames != []
      invariant RunSlice(p, start, ActiveBytes(start), n) == RunSlice(p, s, active, left)
      decreases left
    {
      if left == 0 { return Paused(s, active); }
      var o := Exec(p, s, active);
      match o
      case Stop(e) => return Trapped(e);
      case Yield(s') => return Suspended(s', left - 1);
      case Next(s', a) => s, active, left := s', a, left - 1;
    }
    return Finished(s);
  }

  /** The drain loop of `engine::run`, for at most `n` turns in all. */
  method DrainLoop(p: Program, start: State, n: nat) returns (r: Progress)
    ensures r == Drain(p, start, n)
    ensures r == Straight(p, start, ActiveBytes(start), n)
  {
    hide RunSlice, Straight;
    YieldTransparent(p, start, n);
    var result := RunLoop(p, start, n);
    ghost var s, left := start, n;
    while result.Suspended?
      invariant result == RunSlice(p, s, ActiveBytes(s), left)
      invariant Drain(p, start, n) == Drain(p, s, left)
      decreases left
    {
      s, left := result.s, result.left;
      result := RunLoop(p, result.s, result.left);
    }
    match result
    case Finished(s') => return Ended(s');
    case Paused(s', a) => return Running(s', a);
    case Trapped(e) => return Broken(e);
  }
}
