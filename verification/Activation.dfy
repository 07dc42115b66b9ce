/** A function's whole activation in the run loop is a structured execution of its code, whatever the functions it calls
    do in between. */
module Activation {
  import opened Words
  import opened Machine
  import opened MachineControl
  import C = Control
  import S = Scanner

  // ---- turns of the functions it calls ---------------------------------------------------------------------------

  lemma SameStands(s: State, s': State, d: nat, func: nat, base: nat, at: seq<nat>, b: C.ByteState)
    requires Stands(s, d, func, base, at, b) && d <= |s'.frames|
    requires s'.frames[d - 1].func == s.frames[d - 1].func && s'.frames[d - 1].pc == s.frames[d - 1].pc
    requires s'.frames[d - 1].ctrlBase == base && CtrlTop(s', d) == CtrlTop(s, d) <= |s'.ctrl|
    requires s'.ctrl[..CtrlTop(s, d)] == s.ctrl[..CtrlTop(s, d)]
    ensures Stands(s', d, func, base, at, b)
  {
    var top := CtrlTop(s, d);
    assert s'.ctrl[base..top] == s'.ctrl[..top][base..] == s.ctrl[..top][base..] == s.ctrl[base..top];
    hide CtrlMatches;
  }

  lemma WithinStands(s: State, s': State, d: nat, func: nat, base: nat, at: seq<nat>, b: C.ByteState)
    requires 0 < d < |s.frames| && Sorted(s) && Stands(s, d, func, base, at, b) && Within(s, s')
    ensures Stands(s', d, func, base, at, b)
  {
    hide CtrlMatches;
    var m, top := |s.frames| - 1, CtrlTop(s, d);
    assert s.frames[d].ctrlBase <= Top(s).ctrlBase;
    assert s'.frames[d - 1] == s'.frames[..m][d - 1] == s.frames[..m][d - 1] == s.frames[d - 1];
    if d < m { assert s'.frames[d] == s'.frames[..m][d] == s.frames[..m][d] == s.frames[d]; }
    assert s'.ctrl[..top] == s'.ctrl[..Top(s).ctrlBase][..top] == s.ctrl[..Top(s).ctrlBase][..top] == s.ctrl[..top];
    hide Within, Sorted;
    SameStands(s, s', d, func, base, at, b);
  }

  lemma InnerOrdinary(p: Program, s: State, s': State, d: nat, func: nat, base: nat, at: seq<nat>, b: C.ByteState)
    requires Turn(p, s, s') && 0 < d < |s.frames| && Sorted(s) && Stands(s, d, func, base, at, b)
    requires !Returns(p, s) && !Calls(p, s)
    ensures Stands(s', d, func, base, at, b)
  {
    assert Top(s).ctrlBase <= |s.ctrl|;
    hide Exec, Disciplined, Returns, Calls, Stands, Within, Sorted;
    OrdinaryTurn(p, s, ActiveBytes(s));
    WithinStands(s, s', d, func, base, at, b);
  }

  lemma InnerCall(p: Program, s: State, s': State, d: nat, func: nat, base: nat, at: seq<nat>, b: C.ByteState)
    requires Turn(p, s, s') && 0 < d < |s.frames| && Sorted(s) && Stands(s, d, func, base, at, b) && Calls(p, s)
    ensures Stands(s', d, func, base, at, b)
  {
    CallTurn(p, s, ActiveBytes(s));
    hide Exec, Disciplined, Calls, CtrlMatches, Fetch, Called;
    var m := |s.frames|;
    assert s'.frames[d - 1] == s'.frames[..m][d - 1] == Advance(s).frames[d - 1] == s.frames[d - 1];
    assert s'.frames[d] == s'.frames[..m][d] == Advance(s).frames[d];
    SameStands(s, s', d, func, base, at, b);
  }

  lemma InnerReturn(p: Program, s: State, s': State, d: nat, func: nat, base: nat, at: seq<nat>, b: C.ByteState)
    requires Turn(p, s, s') && 0 < d < |s.frames| && Sorted(s) && Stands(s, d, func, base, at, b) && Returns(p, s)
    ensures Stands(s', d, func, base, at, b)
  {
    ReturnTurn(p, s, ActiveBytes(s));
    hide Exec, Returning, CtrlMatches, Fetch;
    assert s.frames[d].ctrlBase <= Top(s).ctrlBase;
    assert s'.frames == s.frames[..|s.frames| - 1] && s'.ctrl == s.ctrl[..Top(s).ctrlBase];
    SameStands(s, s', d, func, base, at, b);
  }

  /** While a function waits for one it has called, it stands where it was. */
  lemma InnerTurn(p: Program, s: State, s': State, d: nat, func: nat, base: nat, at: seq<nat>, b: C.ByteState)
    requires Turn(p, s, s') && 0 < d < |s.frames| && Sorted(s) && Stands(s, d, func, base, at, b)
    ensures Stands(s', d, func, base, at, b)
  {
    hide Turn, Sorted, Stands, Returns, Calls;
    if Returns(p, s) { InnerReturn(p, s, s', d, func, base, at, b); }
    else if Calls(p, s) { InnerCall(p, s, s', d, func, base, at, b); }
    else { InnerOrdinary(p, s, s', d, func, base, at, b); }
  }

  // ---- a run, as one activation sees it ---------------------------------------------------------------------------

  /** The conditions that call frame `d` pops in the first `k` turns. */
  function Conditions(ss: seq<State>, k: nat, d: nat, body: seq<byte>, at: seq<nat>): seq<Word>
    requires k <= |ss|
  {
    if k == 0 then [] else Conditions(ss, k - 1, d, body, at) + Condition(ss[k - 1], d, body, at)
  }

  function Condition(s: State, d: nat, body: seq<byte>, at: seq<nat>): seq<Word> {
    if s.frames != [] && |s.frames| == d && Top(s).pc + 1 < |at| && PopsCondition(body, at[Top(s).pc]) && s.stack != []
    then [s.stack[|s.stack| - 1]]
    else []
  }

  /** The turns that call frame `d` itself makes among the first `k`. */
  function Turns(ss: seq<State>, k: nat, d: nat): nat
    requires k <= |ss|
  {
    if k == 0 then 0 else Turns(ss, k - 1, d) + if |ss[k - 1].frames| == d then 1 else 0
  }

  /** The plain instructions it executes in them, by their bytes. */
  function Executed(ss: seq<State>, k: nat, d: nat, body: seq<byte>, at: seq<nat>): seq<seq<byte>>
    requires k <= |ss|
  {
    if k == 0 then []
    else Executed(ss, k - 1, d, body, at) + ExecutedIn(ss[k - 1], d, body, at)
  }

  function ExecutedIn(s: State, d: nat, body: seq<byte>, at: seq<nat>): seq<seq<byte>> {
    if s.frames != [] && |s.frames| == d && Top(s).pc + 1 < |at| then PlainBytes(body, at[Top(s).pc], at[Top(s).pc + 1])
    else []
  }

  function Told(conditions: seq<Word>): C.Oracle {
    (n: nat) => if n < |conditions| then conditions[n] else 0
  }

  lemma {:induction false} ConditionsGrow(ss: seq<State>, j: nat, k: nat, d: nat, body: seq<byte>, at: seq<nat>)
    requires j <= k <= |ss|
    ensures Conditions(ss, j, d, body, at) <= Conditions(ss, k, d, body, at)
    decreases k - j
  {
    hide Condition;
    if j < k { ConditionsGrow(ss, j, k - 1, d, body, at); }
  }

  /** A function just called: at its first instruction, with no construct open. */
  ghost predicate Entered(p: Program, s: State, d: nat, func: nat) {
    && d == |s.frames| > 0 && Top(s).func == func < |p.funcs| && Top(s).pc == 0 && Top(s).ctrlBase == |s.ctrl|
    && Sorted(s)
  }

  const START: C.ByteState := C.ByteState(0, [], C.START, C.Running)

  /** The byte machine after `k` turns of the run. */
  function Bytes(ss: seq<State>, k: nat, d: nat, body: seq<byte>, base: nat, o: C.Oracle): C.ByteState
    requires k <= |ss|
  {
    C.ByteRun(body, Cap(base), o, START, Turns(ss, k, d))
  }

  /** After `k` turns call frame `d` stands where the byte machine does, with what it has popped and executed logged. */
  ghost predicate Tracks(ss: seq<State>, k: nat, d: nat, func: nat, body: seq<byte>, at: seq<nat>, base: nat,
                         o: C.Oracle)
    requires k < |ss|
  {
    var b := Bytes(ss, k, d, body, base, o);
    && Stands(ss[k], d, func, base, at, b)
    && b.log == C.Log(|Conditions(ss, k, d, body, at)|, Executed(ss, k, d, body, at))
  }

  lemma Start(ss: seq<State>, p: Program, d: nat, func: nat, body: seq<byte>, at: seq<nat>, o: C.Oracle)
    requires ss != [] && Entered(p, ss[0], d, func) && Decodes(body, p.funcs[func].body, at)
    ensures Tracks(ss, 0, d, func, body, at, Top(ss[0]).ctrlBase, o)
  {
    hide InstrAt;
  }

  /** The condition a turn pops is the oracle's next. */
  lemma ToldNext(ss: seq<State>, k: nat, d: nat, body: seq<byte>, at: seq<nat>, all: seq<Word>)
    requires k < |ss| && Conditions(ss, k + 1, d, body, at) <= all
    requires Condition(ss[k], d, body, at) != []
    ensures Told(all)(|Conditions(ss, k, d, body, at)|) == ss[k].stack[|ss[k].stack| - 1]
  {
    var before, now := Conditions(ss, k, d, body, at), Condition(ss[k], d, body, at);
    assert Conditions(ss, k + 1, d, body, at) == before + now;
    assert all[|before|] == (before + now)[|before|];
  }

  lemma TellsNext(ss: seq<State>, k: nat, d: nat, func: nat, body: seq<byte>, at: seq<nat>, base: nat,
                  all: seq<Word>)
    requires k < |ss| && |ss[k].frames| == d && Conditions(ss, k + 1, d, body, at) <= all
    requires Tracks(ss, k, d, func, body, at, base, Told(all)) && at != [] && at[|at| - 1] == |body|
    ensures Tells(Told(all), body, Bytes(ss, k, d, body, base, Told(all)), ss[k])
  {
    hide Conditions, Executed, Bytes, CtrlMatches, Told;
    if Condition(ss[k], d, body, at) != [] { ToldNext(ss, k, d, body, at, all); }
  }

  /** A condition is popped from a stack that holds it. */
  lemma ConditionNotEmpty(p: Program, s: State, s': State, func: nat, body: seq<byte>, at: seq<nat>, b: C.ByteState)
    requires s.frames != [] && Turn(p, s, s') && Stands(s, |s.frames|, func, Top(s).ctrlBase, at, b)
    requires func < |p.funcs| && Decodes(body, p.funcs[func].body, at) && PopsCondition(body, b.pc)
    ensures s.stack != []
  {
    hide Stands, Decodes, Fetch, S.ScanBlockEnd, C.TableLabel, Exec;
    Fetched(p, s, func, body, at, b);
  }

  /** What the log says after a turn of its own. */
  lemma OwnLog(ss: seq<State>, k: nat, d: nat, func: nat, body: seq<byte>, at: seq<nat>, base: nat, o: C.Oracle)
    requires k < |ss| && |ss[k].frames| == d && Tracks(ss, k, d, func, body, at, base, o)
    requires PopsCondition(body, Bytes(ss, k, d, body, base, o).pc) ==> ss[k].stack != []
    ensures Logged(body, at, ss[k], Bytes(ss, k, d, body, base, o).log)
            == C.Log(|Conditions(ss, k + 1, d, body, at)|, Executed(ss, k + 1, d, body, at))
  {
    hide Bytes, CtrlMatches, PopsCondition, PlainBytes;
    assert Executed(ss, k, d, body, at) + [] == Executed(ss, k, d, body, at);
  }

  lemma OwnBytes(ss: seq<State>, k: nat, d: nat, body: seq<byte>, base: nat, o: C.Oracle)
    requires k < |ss| && |ss[k].frames| == d
    ensures Bytes(ss, k + 1, d, body, base, o) == C.ByteStep(body, Cap(base), o, Bytes(ss, k, d, body, base, o))
  {
    hide C.ByteStep;
  }

  /** A turn of its own. */
  lemma OwnTurn(p: Program, ss: seq<State>, k: nat, d: nat, func: nat, body: seq<byte>, at: seq<nat>, base: nat,
                all: seq<Word>)
    requires k + 1 < |ss| && Turn(p, ss[k], ss[k + 1]) && |ss[k].frames| == d > 0
    requires func < |p.funcs| && Decodes(body, p.funcs[func].body, at)
    requires Conditions(ss, k + 1, d, body, at) <= all && Tracks(ss, k, d, func, body, at, base, Told(all))
    ensures var b, b' := Bytes(ss, k, d, body, base, Told(all)), Bytes(ss, k + 1, d, body, base, Told(all));
            && Top(ss[k]).ctrlBase == base && Follows(ss[k], ss[k + 1], func, at, b, b')
            && b'.log == C.Log(|Conditions(ss, k + 1, d, body, at)|, Executed(ss, k + 1, d, body, at))
  {
    var b, s := Bytes(ss, k, d, body, base, Told(all)), ss[k];
    assert at != [] && at[|at| - 1] == |body|;
    hide Turn, Decodes, Stands, Conditions, Executed, Bytes, Told, C.ByteStep, Follows, PopsCondition, Tells, Logged;
    TellsNext(ss, k, d, func, body, at, base, all);
    assert Top(s).ctrlBase == base by { StandsBase(s, d, func, base, at, b); }
    OwnBytes(ss, k, d, body, base, Told(all));
    TurnSim(p, s, ss[k + 1], func, body, at, Told(all), b);
    if PopsCondition(body, b.pc) { ConditionNotEmpty(p, s, ss[k + 1], func, body, at, b); }
    OwnLog(ss, k, d, func, body, at, base, Told(all));
  }

  lemma StandsBase(s: State, d: nat, func: nat, base: nat, at: seq<nat>, b: C.ByteState)
    requires Stands(s, d, func, base, at, b)
    ensures 0 < d <= |s.frames| && s.frames[d - 1].ctrlBase == base
  {
    hide CtrlMatches;
  }

  /** While the frame is there, it tracks. */
  lemma NextTracks(p: Program, ss: seq<State>, k: nat, d: nat, func: nat, body: seq<byte>, at: seq<nat>, base: nat,
                   all: seq<Word>)
    requires k + 1 < |ss| && Turn(p, ss[k], ss[k + 1]) && 0 < d <= |ss[k].frames| && d <= |ss[k + 1].frames|
    requires func < |p.funcs| && Decodes(body, p.funcs[func].body, at) && Sorted(ss[k])
    requires Conditions(ss, k + 1, d, body, at) <= all && Tracks(ss, k, d, func, body, at, base, Told(all))
    ensures Tracks(ss, k + 1, d, func, body, at, base, Told(all))
  {
    hide Turn, Decodes, Stands, Conditions, Executed, Bytes, Told, Sorted;
    if |ss[k].frames| == d {
      OwnTurn(p, ss, k, d, func, body, at, base, all);
    } else {
      InnerTurn(p, ss[k], ss[k + 1], d, func, base, at, Bytes(ss, k, d, body, base, Told(all)));
      NothingOwn(ss, k, d, body, at, base, Told(all));
    }
  }

  lemma NothingOwn(ss: seq<State>, k: nat, d: nat, body: seq<byte>, at: seq<nat>, base: nat, o: C.Oracle)
    requires k < |ss| && |ss[k].frames| != d
    ensures Bytes(ss, k + 1, d, body, base, o) == Bytes(ss, k, d, body, base, o)
    ensures Conditions(ss, k + 1, d, body, at) == Conditions(ss, k, d, body, at)
    ensures Executed(ss, k + 1, d, body, at) == Executed(ss, k, d, body, at)
  {
  }

  lemma {:induction false} TracksAll(p: Program, ss: seq<State>, k: nat, d: nat, func: nat, body: seq<byte>,
                                     at: seq<nat>, all: seq<Word>)
    requires Run(p, ss) && k < |ss| && Entered(p, ss[0], d, func) && Decodes(body, p.funcs[func].body, at)
    requires forall i :: 0 <= i <= k ==> |ss[i].frames| >= d
    requires Conditions(ss, k, d, body, at) <= all
    ensures Tracks(ss, k, d, func, body, at, Top(ss[0]).ctrlBase, Told(all))
  {
    hide Turn, Decodes, Conditions, Tracks, Sorted;
    if k == 0 {
      Start(ss, p, d, func, body, at, Told(all));
    } else {
      ConditionsGrow(ss, k - 1, k, d, body, at);
      TracksAll(p, ss, k - 1, d, func, body, at, all);
      assert Turn(p, ss[k - 1], ss[k - 1 + 1]);
      RunSorted(p, ss, k - 1);
      NextTracks(p, ss, k - 1, d, func, body, at, Top(ss[0]).ctrlBase, all);
    }
  }

  // ---- structured execution --------------------------------------------------------------------------------------

  function BodyOf(code: S.Code): seq<byte> {
    S.EncodeCode(code) + [0x0B]
  }

  /** Structured execution of the code after as many steps as the frame has made turns, on the conditions of the run. */
  function Tree(ss: seq<State>, k: nat, d: nat, code: S.Code, base: nat, o: C.Oracle): C.TreeState
    requires k <= |ss|
  {
    C.TreeRun(Cap(base), o, C.TreeState(code, [], C.START, C.Running), Turns(ss, k, d))
  }

  lemma TreeAgrees(ss: seq<State>, k: nat, d: nat, code: S.Code, base: nat, o: C.Oracle)
    requires k <= |ss| && S.WellFormedCode(code)
    ensures C.Agree(BodyOf(code), Bytes(ss, k, d, BodyOf(code), base, o), Tree(ss, k, d, code, base, o))
  {
    hide C.ByteRun, C.TreeRun, C.Agree, S.EncodeCode, S.WellFormedCode, Turns;
    C.ControlSimulation(code, Cap(base), o, Turns(ss, k, d));
  }

  /** The activation of a function stands, after `k` turns of the run, where structured execution of its code does: same
      instruction, same enclosing constructs, same conditions popped, same plain instructions executed. */
  ghost predicate Structured(ss: seq<State>, k: nat, d: nat, func: nat, code: S.Code, at: seq<nat>, o: C.Oracle)
    requires k < |ss| && ss[0].frames != []
  {
    var base, body := Top(ss[0]).ctrlBase, BodyOf(code);
    var b, t := Bytes(ss, k, d, body, base, o), Tree(ss, k, d, code, base, o);
    && t.status == C.Running && C.Agree(body, b, t) && Stands(ss[k], d, func, base, at, b)
    && t.log == C.Log(|Conditions(ss, k, d, body, at)|, Executed(ss, k, d, body, at))
  }

  /** In every disciplined run, from a call of a function and for as long as its frame is there. */
  lemma ActivationStructured(p: Program, ss: seq<State>, k: nat, d: nat, func: nat, code: S.Code, at: seq<nat>,
                             all: seq<Word>)
    requires Run(p, ss) && k < |ss| && Entered(p, ss[0], d, func)
    requires S.WellFormedCode(code) && Decodes(BodyOf(code), p.funcs[func].body, at)
    requires (forall i :: 0 <= i <= k ==> |ss[i].frames| >= d) && Conditions(ss, k, d, BodyOf(code), at) <= all
    ensures Structured(ss, k, d, func, code, at, Told(all))
  {
    hide Turn, Decodes, Conditions, Sorted, Stands, C.Agree, Bytes, Tree, BodyOf, S.WellFormedCode, Executed, Told, Run;
    TracksAll(p, ss, k, d, func, BodyOf(code), at, all);
    TreeAgrees(ss, k, d, code, Top(ss[0]).ctrlBase, Told(all));
    AgreeMeans(BodyOf(code), Bytes(ss, k, d, BodyOf(code), Top(ss[0]).ctrlBase, Told(all)),
               Tree(ss, k, d, code, Top(ss[0]).ctrlBase, Told(all)));
    StandsRunning(ss[k], d, func, Top(ss[0]).ctrlBase, at,
                  Bytes(ss, k, d, BodyOf(code), Top(ss[0]).ctrlBase, Told(all)));
  }

  lemma AgreeMeans(body: seq<byte>, b: C.ByteState, t: C.TreeState)
    requires C.Agree(body, b, t)
    ensures b.log == t.log && b.status == t.status
  {
    hide C.Rel;
  }

  lemma StandsRunning(s: State, d: nat, func: nat, base: nat, at: seq<nat>, b: C.ByteState)
    requires Stands(s, d, func, base, at, b)
    ensures b.status == C.Running && d <= |s.frames|
  {
    hide CtrlMatches;
  }

  lemma FollowsGone(s: State, s': State, func: nat, at: seq<nat>, b: C.ByteState, b': C.ByteState)
    requires s.frames != [] && Follows(s, s', func, at, b, b') && |s'.frames| < |s.frames|
    ensures b'.status == C.Done && Returned(s, LeftBy(s, b'.log.pops > b.log.pops), s')
  {
    hide Returned, CtrlMatches, LeftBy;
  }

  /** And when a turn takes the frame away, structured execution is done in that step: the function returns exactly
      where its structure says, with what it left on the stack. */
  lemma ActivationReturns(p: Program, ss: seq<State>, d: nat, func: nat, code: S.Code, at: seq<nat>)
    requires Run(p, ss) && |ss| >= 2 && Entered(p, ss[0], d, func)
    requires S.WellFormedCode(code) && Decodes(BodyOf(code), p.funcs[func].body, at)
    requires (forall i :: 0 <= i < |ss| - 1 ==> |ss[i].frames| >= d) && |ss[|ss| - 1].frames| < d
    ensures var n, body := |ss| - 1, BodyOf(code);
            var t := Tree(ss, n, d, code, Top(ss[0]).ctrlBase, Told(Conditions(ss, n, d, body, at)));
            && t.status == C.Done && t.log == C.Log(|Conditions(ss, n, d, body, at)|, Executed(ss, n, d, body, at))
            && |ss[n - 1].frames| == d
            && Returned(ss[n - 1], LeftBy(ss[n - 1], |Condition(ss[n - 1], d, body, at)| > 0), ss[n])
  {
    var n, body, base := |ss| - 1, BodyOf(code), Top(ss[0]).ctrlBase;
    var all := Conditions(ss, n, d, body, at);
    assert Turn(p, ss[n - 1], ss[n - 1 + 1]);
    assert Conditions(ss, n, d, body, at) == Conditions(ss, n - 1, d, body, at) + Condition(ss[n - 1], d, body, at);
    hide Turn, Decodes, Conditions, Condition, Sorted, Stands, C.Agree, Bytes, Tree, BodyOf, S.WellFormedCode, Executed,
         Told, Returned, LeftBy;
    ConditionsGrow(ss, n - 1, n, d, body, at);
    TracksAll(p, ss, n - 1, d, func, body, at, all);
    RunSorted(p, ss, n - 1);
    var b, b' := Bytes(ss, n - 1, d, body, base, Told(all)), Bytes(ss, n, d, body, base, Told(all));
    if |ss[n - 1].frames| > d {
      InnerTurn(p, ss[n - 1], ss[n], d, func, base, at, b);
      StandsRunning(ss[n], d, func, base, at, b);
    }
    OwnTurn(p, ss, n - 1, d, func, body, at, base, all);
    TreeAgrees(ss, n, d, code, base, Told(all));
    AgreeMeans(body, b', Tree(ss, n, d, code, base, Told(all)));
    FollowsGone(ss[n - 1], ss[n], func, at, b, b');
  }
}
