/** Task queue, the instance pool under it and the round-robin scheduler above it. */
module Scheduler {
  import opened Words

  const MAX_INSTANCES: nat := 4
  const MAX_TASKS: nat := MAX_INSTANCES

  datatype TaskState = Ready | Running | Suspended | Sleeping(wake: nat) | Done

  datatype Task = Task(state: TaskState, instance: nat)

  datatype Sched = Sched(tasks: seq<Option<Task>>, pool: seq<bool>, cursor: nat)

  /** How the engine comes back from running a task; a yield reports the pending sleep in milliseconds. */
  datatype Outcome = Completed | Yielded(sleepMs: nat) | Failed

  /** Events: the clock readings and what the engine and the loader answer are part of them. */
  datatype Event =
    | Spawn(loads: bool)
    | Kill(id: nat)
    | Turn(now: nat, later: nat, outcome: Outcome)

  predicate Shape(s: Sched) {
    |s.tasks| == MAX_TASKS && |s.pool| == MAX_INSTANCES && s.cursor < MAX_TASKS
  }

  /** Position of the first free slot. */
  function FreeTask(tasks: seq<Option<Task>>): (r: Option<nat>)
    ensures r.Some? ==> r.value < |tasks| && tasks[r.value].None?
    ensures r.None? ==> forall i :: 0 <= i < |tasks| ==> tasks[i].Some?
  {
    if tasks == [] then None
    else
      match FreeTask(tasks[..|tasks| - 1])
      case Some(i) => Some(i)
      case None => if tasks[|tasks| - 1].None? then Some(|tasks| - 1) else None
  }

  function FreeInstance(pool: seq<bool>): (r: Option<nat>)
    ensures r.Some? ==> r.value < |pool| && !pool[r.value]
    ensures r.None? ==> forall i :: 0 <= i < |pool| ==> pool[i]
  {
    if pool == [] then None
    else
      match FreeInstance(pool[..|pool| - 1])
      case Some(i) => Some(i)
      case None => if !pool[|pool| - 1] then Some(|pool| - 1) else None
  }

  /** `engine::destroy`. */
  function Destroy(s: Sched, h: nat): Sched {
    if h < |s.pool| then s.(pool := s.pool[h := false]) else s
  }

  /** `task_spawn`, with `loads` what `engine::spawn` finds about the module itself. */
  function TaskSpawn(s: Sched, loads: bool): (Sched, Option<nat>)
    requires Shape(s)
  {
    match FreeTask(s.tasks)
    case None => (s, None)
    case Some(slot) =>
      match FreeInstance(s.pool)
      case None => (s, None)
      case Some(h) =>
        if !loads then (s, None)
        else (s.(pool := s.pool[h := true], tasks := s.tasks[slot := Some(Task(Ready, h))]), Some(slot))
  }

  /** `task_kill`. */
  function TaskKill(s: Sched, id: nat): Sched
    requires Shape(s)
  {
    if id >= MAX_TASKS || s.tasks[id].None? then s
    else Destroy(s.(tasks := s.tasks[id := None]), s.tasks[id].value.instance)
  }

  /** `is_task_runnable`. */
  predicate Runnable(s: Sched, id: nat, now: nat)
    requires Shape(s)
  {
    && id < MAX_TASKS && s.tasks[id].Some?
    && match s.tasks[id].value.state
       case Ready => true
       case Suspended => true
       case Sleeping(wake) => now >= wake
       case _ => false
  }

  function SetState(s: Sched, id: nat, st: TaskState): Sched
    requires Shape(s) && id < MAX_TASKS && s.tasks[id].Some?
  {
    s.(tasks := s.tasks[id := Some(s.tasks[id].value.(state := st))])
  }

  /** The end of `task_step`, with the tick read after the engine came back. */
  function Settle(s: Sched, id: nat, later: nat, o: Outcome): Sched
    requires Shape(s) && id < MAX_TASKS && s.tasks[id].Some?
  {
    match o
    case Yielded(ms) => SetState(s, id, if ms > 0 then Sleeping(later + (ms + 9) / 10) else Suspended)
    case _ => Destroy(s.(tasks := s.tasks[id := None]), s.tasks[id].value.instance)
  }

  /** `task_step`: `None` when nothing ran. */
  function TaskStep(s: Sched, id: nat, now: nat, later: nat, o: Outcome): (Sched, Option<Outcome>)
    requires Shape(s)
  {
    if id >= MAX_TASKS || s.tasks[id].None? then (s, None)
    else
      var st := s.tasks[id].value.state;
      if st.Sleeping? && now < st.wake then (s, None)
      else
        var s1 := if st.Sleeping? then SetState(s, id, Suspended) else s;
        if st.Running? || st.Done? then (s1, None)
        else (Settle(SetState(s1, id, Running), id, later, o), Some(o))
  }

  /** The `i`-th slot the scheduler looks at. */
  function Candidate(cursor: nat, i: nat): nat {
    (cursor + 1 + i) % MAX_TASKS
  }

  /** The first runnable slot after the cursor, among the first `k` looked at. */
  function PickAmong(s: Sched, now: nat, k: nat): (r: Option<nat>)
    requires Shape(s)
    ensures r.Some? ==> Runnable(s, r.value, now)
    ensures r.None? ==> forall i :: 0 <= i < k ==> !Runnable(s, Candidate(s.cursor, i), now)
  {
    if k == 0 then None
    else
      match PickAmong(s, now, k - 1)
      case Some(id) => Some(id)
      case None => if Runnable(s, Candidate(s.cursor, k - 1), now) then Some(Candidate(s.cursor, k - 1)) else None
  }

  function Pick(s: Sched, now: nat): Option<nat>
    requires Shape(s)
  {
    PickAmong(s, now, MAX_TASKS)
  }

  /** `run_next_task`. */
  function RunNextTask(s: Sched, now: nat, later: nat, o: Outcome): Sched
    requires Shape(s)
  {
    match Pick(s, now)
    case None => s
    case Some(id) => TaskStep(s.(cursor := id), id, now, later, o).0
  }

  function Step(s: Sched, e: Event): Sched
    requires Shape(s)
  {
    match e
    case Spawn(loads) => TaskSpawn(s, loads).0
    case Kill(id) => TaskKill(s, id)
    case Turn(now, later, o) => RunNextTask(s, now, later, o)
  }

  // ---- the invariant -----------------------------------------------------------------------------------------

  predicate Between(st: TaskState) {
    st.Ready? || st.Suspended? || st.Sleeping?
  }

  /** Occupied slots hold distinct active handles, every active handle has its task, and no task is left running. */
  ghost predicate Inv(s: Sched) {
    && Shape(s)
    && (forall i :: 0 <= i < MAX_TASKS && s.tasks[i].Some? ==>
          var t := s.tasks[i].value;
          t.instance < MAX_INSTANCES && s.pool[t.instance] && Between(t.state))
    && (forall i, j :: 0 <= i < j < MAX_TASKS && s.tasks[i].Some? && s.tasks[j].Some? ==>
          s.tasks[i].value.instance != s.tasks[j].value.instance)
    && (forall h :: 0 <= h < MAX_INSTANCES && s.pool[h] ==> exists i :: 0 <= i < MAX_TASKS && Owns(s, i, h))
  }

  predicate Owns(s: Sched, i: nat, h: nat)
    requires |s.tasks| == MAX_TASKS
  {
    i < MAX_TASKS && s.tasks[i].Some? && s.tasks[i].value.instance == h
  }

  const BOOT: Sched := Sched([None, None, None, None], [false, false, false, false], 0)

  lemma BootInv()
    ensures Inv(BOOT)
  {
  }

  /** A handle goes inactive exactly when its owner leaves the queue, and becomes active exactly when its
      task enters. */
  ghost predicate Handed(s: Sched, s': Sched)
    requires Shape(s) && Shape(s')
  {
    forall h :: 0 <= h < MAX_INSTANCES ==>
      && (s.pool[h] && !s'.pool[h] <==> exists i :: 0 <= i < MAX_TASKS && Owns(s, i, h) && s'.tasks[i].None?)
      && (!s.pool[h] && s'.pool[h] <==> exists i :: 0 <= i < MAX_TASKS && Owns(s', i, h) && s.tasks[i].None?)
  }

  /** Removing a task and its handle. */
  lemma RemoveKeeps(s: Sched, id: nat)
    requires Inv(s) && id < MAX_TASKS && s.tasks[id].Some?
    ensures var s' := Destroy(s.(tasks := s.tasks[id := None]), s.tasks[id].value.instance);
            Inv(s') && Handed(s, s')
  {
    var h := s.tasks[id].value.instance;
    var s' := Destroy(s.(tasks := s.tasks[id := None]), h);
    forall k | 0 <= k < MAX_INSTANCES && s'.pool[k] ensures exists i :: 0 <= i < MAX_TASKS && Owns(s', i, k) {
      var i :| 0 <= i < MAX_TASKS && Owns(s, i, k);
      assert i != id;
      assert Owns(s', i, k);
    }
    assert Owns(s, id, h);
  }

  lemma StateKeeps(s: Sched, id: nat, st: TaskState)
    requires Inv(s) && id < MAX_TASKS && s.tasks[id].Some? && Between(st)
    ensures Inv(SetState(s, id, st)) && Handed(s, SetState(s, id, st))
  {
    var s' := SetState(s, id, st);
    forall i: nat, h: nat | i < MAX_TASKS ensures Owns(s', i, h) == Owns(s, i, h) {}
    assert s'.pool == s.pool;
    forall h | 0 <= h < MAX_INSTANCES && s'.pool[h] ensures exists i :: 0 <= i < MAX_TASKS && Owns(s', i, h) {
      var i :| 0 <= i < MAX_TASKS && Owns(s, i, h);
      assert Owns(s', i, h);
    }
  }

  lemma SpawnKeeps(s: Sched, loads: bool)
    requires Inv(s)
    ensures Inv(TaskSpawn(s, loads).0) && Handed(s, TaskSpawn(s, loads).0)
  {
    var s' := TaskSpawn(s, loads).0;
    if s' != s {
      var slot, h := FreeTask(s.tasks).value, FreeInstance(s.pool).value;
      assert Owns(s', slot, h);
      forall k | 0 <= k < MAX_INSTANCES && s'.pool[k] ensures exists i :: 0 <= i < MAX_TASKS && Owns(s', i, k) {
        if k != h {
          var i :| 0 <= i < MAX_TASKS && Owns(s, i, k);
          assert Owns(s', i, k);
        }
      }
    }
  }

  /** What a step does to its own task: it yields into a resting state, or it leaves. */
  lemma StepIs(s: Sched, id: nat, now: nat, later: nat, o: Outcome)
    requires Inv(s)
    ensures TaskStep(s, id, now, later, o).1.Some? <==> Runnable(s, id, now)
    ensures !Runnable(s, id, now) ==> TaskStep(s, id, now, later, o).0 == s
    ensures Runnable(s, id, now) && o.Yielded? ==>
              TaskStep(s, id, now, later, o).0
              == SetState(s, id, if o.sleepMs > 0 then Sleeping(later + (o.sleepMs + 9) / 10) else Suspended)
    ensures Runnable(s, id, now) && !o.Yielded? ==>
              TaskStep(s, id, now, later, o).0
              == Destroy(s.(tasks := s.tasks[id := None]), s.tasks[id].value.instance)
  {
    if Runnable(s, id, now) {
      var s1 := SetState(SetState(s, id, Suspended), id, Running);
      assert s1.tasks == s.tasks[id := Some(s.tasks[id].value.(state := Running))];
      assert s1.tasks[id := None] == s.tasks[id := None];
      assert SetState(s, id, Running).tasks[id := None] == s.tasks[id := None];
    }
  }

  lemma TaskStepKeeps(s: Sched, id: nat, now: nat, later: nat, o: Outcome)
    requires Inv(s)
    ensures var s' := TaskStep(s, id, now, later, o).0; Inv(s') && Handed(s, s')
  {
    StepIs(s, id, now, later, o);
    hide TaskStep;
    if Runnable(s, id, now) {
      if o.Yielded? {
        StateKeeps(s, id, if o.sleepMs > 0 then Sleeping(later + (o.sleepMs + 9) / 10) else Suspended);
      } else {
        RemoveKeeps(s, id);
      }
    } else {
      HandedSelf(s);
    }
  }

  lemma HandedSelf(s: Sched)
    requires Inv(s)
    ensures Handed(s, s)
  {
    forall h: nat, i: nat | Owns(s, i, h) ensures s.tasks[i].Some? {}
  }

  /** Every event keeps the queue and the pool in step, and leaves no task running. */
  lemma EventKeeps(s: Sched, e: Event)
    requires Inv(s)
    ensures Inv(Step(s, e)) && Handed(s, Step(s, e))
  {
    hide TaskStep, Pick, TaskSpawn;
    match e
    case Spawn(loads) => SpawnKeeps(s, loads);
    case Kill(id) =>
      if id < MAX_TASKS && s.tasks[id].Some? { RemoveKeeps(s, id); } else { HandedSelf(s); }
    case Turn(now, later, o) =>
      var pick := Pick(s, now);
      if pick.Some? {
        var s1 := s.(cursor := pick.value);
        assert pick.value < MAX_TASKS by { PickRunnable(s, now); }
        MoveCursor(s, pick.value);
        TaskStepKeeps(s1, pick.value, now, later, o);
      } else {
        HandedSelf(s);
      }
  }

  lemma PickRunnable(s: Sched, now: nat)
    requires Shape(s)
    ensures Pick(s, now).Some? ==> Runnable(s, Pick(s, now).value, now)
    ensures Pick(s, now).None? ==> forall id :: 0 <= id < MAX_TASKS ==> !Runnable(s, id, now)
  {
    if Pick(s, now).None? {
      forall id | 0 <= id < MAX_TASKS ensures !Runnable(s, id, now) {
        assert Candidate(s.cursor, Distance(s.cursor, id)) == id;
      }
    }
  }

  lemma MoveCursor(s: Sched, c: nat)
    requires Inv(s) && c < MAX_TASKS
    ensures var s' := s.(cursor := c);
            && Inv(s')
            && forall t: Sched | Shape(t) :: Handed(s', t) <==> Handed(s, t)
  {
    var s' := s.(cursor := c);
    forall i: nat, h: nat | i < MAX_TASKS ensures Owns(s', i, h) == Owns(s, i, h) {}
    forall h | 0 <= h < MAX_INSTANCES && s'.pool[h] ensures exists i :: 0 <= i < MAX_TASKS && Owns(s', i, h) {
      var i :| 0 <= i < MAX_TASKS && Owns(s, i, h);
      assert Owns(s', i, h);
    }
  }

  /** There is an instance for every free task slot: `task_spawn` never finds the pool full with room in the queue. */
  lemma SlotMeansInstance(s: Sched)
    requires Inv(s)
    ensures FreeTask(s.tasks).None? <==> FreeInstance(s.pool).None?
  {
    if FreeInstance(s.pool).None? {
      AllOwned(s);
    } else if FreeTask(s.tasks).None? {
      FourDistinct(s.tasks[0].value.instance, s.tasks[1].value.instance, s.tasks[2].value.instance,
                   s.tasks[3].value.instance, FreeInstance(s.pool).value);
    }
  }

  lemma AllOwned(s: Sched)
    requires Inv(s) && s.pool[0] && s.pool[1] && s.pool[2] && s.pool[3]
    ensures FreeTask(s.tasks).None?
  {
    var a: nat :| a < MAX_TASKS && Owns(s, a, 0);
    var b: nat :| b < MAX_TASKS && Owns(s, b, 1);
    var c: nat :| c < MAX_TASKS && Owns(s, c, 2);
    var d: nat :| d < MAX_TASKS && Owns(s, d, 3);
    hide Inv;
    if FreeTask(s.tasks).Some? { FourDistinct(a, b, c, d, FreeTask(s.tasks).value); }
  }

  lemma FourDistinct(a: nat, b: nat, c: nat, d: nat, h: nat)
    requires a < 4 && b < 4 && c < 4 && d < 4 && h < 4
    requires a != b && a != c && a != d && b != c && b != d && c != d
    ensures h == a || h == b || h == c || h == d
  {
  }

  // ---- runs --------------------------------------------------------------------------------------------------

  ghost predicate Trace(ss: seq<Sched>, evs: seq<Event>) {
    && |ss| == |evs| + 1 && Inv(ss[0])
    && forall i :: 0 <= i < |evs| ==> Shape(ss[i]) && ss[i + 1] == Step(ss[i], evs[i])
  }

  /** At every moment of every run from boot: distinct active handles, each with its task, and none left running. */
  lemma {:induction false} AlwaysInv(ss: seq<Sched>, evs: seq<Event>, k: nat)
    requires Trace(ss, evs) && k < |ss|
    ensures Inv(ss[k])
    ensures k > 0 ==> Shape(ss[k - 1]) && Handed(ss[k - 1], ss[k])
  {
    hide Inv, Handed, Step;
    if k > 0 {
      AlwaysInv(ss, evs, k - 1);
      assert ss[k - 1 + 1] == Step(ss[k - 1], evs[k - 1]);
      assert Shape(ss[k]) && Shape(ss[k - 1]) by {
        InvShape(ss[k - 1]);
        EventKeeps(ss[k - 1], evs[k - 1]);
        InvShape(ss[k]);
      }
      EventKeeps(ss[k - 1], evs[k - 1]);
    }
  }

  lemma InvShape(s: Sched)
    requires Inv(s)
    ensures Shape(s)
  {
  }

  /** Slots looked at before `id`. */
  function Distance(cursor: nat, id: nat): (d: nat)
    requires cursor < MAX_TASKS && id < MAX_TASKS
    ensures d < MAX_TASKS
  {
    (id + MAX_TASKS - cursor - 1) % MAX_TASKS
  }

  /** Picking another task brings the cursor closer. */
  lemma Closer(s: Sched, id: nat, now: nat)
    requires Shape(s) && Runnable(s, id, now)
    ensures Pick(s, now).Some?
    ensures Pick(s, now) != Some(id) ==>
              Distance(Pick(s, now).value, id) < Distance(s.cursor, id)
  {
    PickRunnable(s, now);
    var d := Distance(s.cursor, id);
    assert Candidate(s.cursor, d) == id;
    PickEarliest(s, now, MAX_TASKS, d);
  }

  lemma {:induction false} PickEarliest(s: Sched, now: nat, k: nat, d: nat)
    requires Shape(s) && d < k <= MAX_TASKS && Runnable(s, Candidate(s.cursor, d), now)
    ensures PickAmong(s, now, k).Some?
    ensures exists i: nat :: i <= d && PickAmong(s, now, k) == Some(Candidate(s.cursor, i))
  {
    if k - 1 > d { PickEarliest(s, now, k - 1, d); }
    else if PickAmong(s, now, d).Some? { PickedIndex(s, now, d); }
  }

  lemma {:induction false} PickedIndex(s: Sched, now: nat, k: nat)
    requires Shape(s) && PickAmong(s, now, k).Some?
    ensures exists i: nat :: i < k && PickAmong(s, now, k) == Some(Candidate(s.cursor, i))
  {
    if PickAmong(s, now, k - 1).Some? { PickedIndex(s, now, k - 1); }
  }

  function TurnsIn(evs: seq<Event>, a: nat, b: nat): nat
    requires a <= b <= |evs|
    decreases b - a
  {
    if a == b then 0 else (if evs[a].Turn? then 1 else 0) + TurnsIn(evs, a + 1, b)
  }

  ghost predicate StaysRunnable(ss: seq<Sched>, evs: seq<Event>, a: nat, b: nat, id: nat)
    requires |ss| == |evs| + 1 && a <= b <= |evs|
  {
    forall k :: a <= k < b && evs[k].Turn? ==> Shape(ss[k]) && Runnable(ss[k], id, evs[k].now)
  }

  lemma EventCursor(s: Sched, e: Event)
    requires Shape(s)
    ensures !e.Turn? ==> Step(s, e).cursor == s.cursor
    ensures e.Turn? && Pick(s, e.now).Some? ==> Step(s, e).cursor == Pick(s, e.now).value
  {
    hide Pick;
  }

  lemma {:induction false} StepsSoon(ss: seq<Sched>, evs: seq<Event>, a: nat, b: nat, id: nat)
    requires Trace(ss, evs) && a <= b <= |evs| && id < MAX_TASKS && StaysRunnable(ss, evs, a, b, id)
    requires Shape(ss[a]) && TurnsIn(evs, a, b) > Distance(ss[a].cursor, id)
    ensures exists k :: a <= k < b && evs[k].Turn? && Shape(ss[k]) && Pick(ss[k], evs[k].now) == Some(id)
    decreases b - a
  {
    hide Step, Pick, Inv, Distance, Runnable;
    AlwaysInv(ss, evs, a + 1);
    InvShape(ss[a + 1]);
    assert ss[a + 1] == Step(ss[a], evs[a]);
    EventCursor(ss[a], evs[a]);
    if evs[a].Turn? {
      Closer(ss[a], id, evs[a].now);
      if Pick(ss[a], evs[a].now) != Some(id) { StepsSoon(ss, evs, a + 1, b, id); }
    } else {
      StepsSoon(ss, evs, a + 1, b, id);
    }
  }

  /** Fairness: whatever is spawned and killed meanwhile, a task that is runnable at each of MAX_TASKS scheduler turns
      is stepped in one of them. */
  lemma Fair(ss: seq<Sched>, evs: seq<Event>, a: nat, b: nat, id: nat)
    requires Trace(ss, evs) && a <= b <= |evs| && id < MAX_TASKS && StaysRunnable(ss, evs, a, b, id)
    requires TurnsIn(evs, a, b) >= MAX_TASKS
    ensures exists k :: a <= k < b && evs[k].Turn? && Shape(ss[k]) && Pick(ss[k], evs[k].now) == Some(id)
  {
    AlwaysInv(ss, evs, a);
    StepsSoon(ss, evs, a, b, id);
  }

  // ---- sleeping ----------------------------------------------------------------------------------------------

  ghost predicate Asleep(s: Sched, id: nat, wake: nat)
    requires Shape(s)
  {
    id < MAX_TASKS && s.tasks[id].Some? && s.tasks[id].value.state == Sleeping(wake)
  }

  /** A sleeping task is left alone by every event but its own kill and a turn at or after its wake tick. */
  lemma SleepHolds(s: Sched, e: Event, id: nat, wake: nat)
    requires Inv(s) && Asleep(s, id, wake)
    requires e != Kill(id) && (e.Turn? ==> e.now < wake)
    ensures Shape(Step(s, e)) && Asleep(Step(s, e), id, wake)
  {
    EventKeeps(s, e);
    hide TaskStep, Pick, Inv, Handed;
    match e
    case Spawn(_) =>
    case Kill(k) =>
    case Turn(now, later, o) =>
      PickRunnable(s, now);
      var pick := Pick(s, now);
      if pick.Some? {
        MoveCursor(s, pick.value);
        OthersKept(s.(cursor := pick.value), pick.value, now, later, o, id);
      }
  }

  lemma OthersKept(s: Sched, id: nat, now: nat, later: nat, o: Outcome, k: nat)
    requires Inv(s) && id < MAX_TASKS && k < MAX_TASKS && k != id
    ensures var s' := TaskStep(s, id, now, later, o).0; |s'.tasks| == MAX_TASKS && s'.tasks[k] == s.tasks[k]
  {
    StepIs(s, id, now, later, o);
    hide TaskStep;
  }

  /** No early wake: over every run a task that sleeps until `wake` is asleep at every moment before a turn at or after
      that tick or its kill. */
  lemma {:induction false} NoEarlyWake(ss: seq<Sched>, evs: seq<Event>, a: nat, b: nat, id: nat, wake: nat)
    requires Trace(ss, evs) && a <= b < |ss| && Shape(ss[a]) && Asleep(ss[a], id, wake)
    requires forall k :: a <= k < b ==> evs[k] != Kill(id) && (evs[k].Turn? ==> evs[k].now < wake)
    ensures Shape(ss[b]) && Asleep(ss[b], id, wake)
    decreases b - a
  {
    hide Inv, Step, Asleep;
    if a < b {
      NoEarlyWake(ss, evs, a, b - 1, id, wake);
      AlwaysInv(ss, evs, b - 1);
      assert ss[b - 1 + 1] == Step(ss[b - 1], evs[b - 1]);
      SleepHolds(ss[b - 1], evs[b - 1], id, wake);
    }
  }

  /** `sleep_ms` sleeps long enough: at 10 ms a tick, a task that asked for `ms` milliseconds at tick `later` is next
      runnable only when that time has passed. */
  lemma SleepsLongEnough(s: Sched, id: nat, now: nat, later: nat, ms: nat, at: nat)
    requires Inv(s) && Runnable(s, id, now) && ms > 0
    ensures var s' := TaskStep(s, id, now, later, Yielded(ms)).0;
            && Shape(s')
            && (Runnable(s', id, at) <==> at >= later + (ms + 9) / 10)
            && (Runnable(s', id, at) ==> 10 * (at - later) >= ms)
  {
    StepIs(s, id, now, later, Yielded(ms));
  }

  // ---- the kernel's static tables ------------------------------------------------------------------------------

  class Kernel {
    const queue: array<Option<Task>>
    const pool: array<bool>
    var cursor: nat

    ghost predicate Valid()
      reads this
    {
      queue.Length == MAX_TASKS && pool.Length == MAX_INSTANCES && cursor < MAX_TASKS
    }

    ghost function View(): (s: Sched)
      requires Valid()
      ensures Shape(s)
      reads this, queue, pool
    {
      Sched(queue[..], pool[..], cursor)
    }

    constructor ()
      ensures Valid() && View() == BOOT && fresh(queue) && fresh(pool)
    {
      queue := new Option<Task>[MAX_TASKS](_ => None);
      pool := new bool[MAX_INSTANCES](_ => false);
      cursor := 0;
    }

    /** `destroy`. */
    method DestroyInstance(h: nat)
      requires Valid()
      modifies pool
      ensures View() == Destroy(old(View()), h)
    {
      if h < MAX_INSTANCES { pool[h] := false; }
    }

    method FirstFreeTask() returns (r: Option<nat>)
      requires Valid()
      ensures r == FreeTask(queue[..])
    {
      for i := 0 to MAX_TASKS
        invariant FreeTask(queue[..i]).None?
      {
        assert queue[..i + 1][..i] == queue[..i];
        if queue[i].None? {
          FreeTaskPrefix(queue[..], i + 1);
          return Some(i);
        }
      }
      assert queue[..MAX_TASKS] == queue[..];
      return None;
    }

    method FirstFreeInstance() returns (r: Option<nat>)
      requires Valid()
      ensures r == FreeInstance(pool[..])
    {
      for i := 0 to MAX_INSTANCES
        invariant FreeInstance(pool[..i]).None?
      {
        assert pool[..i + 1][..i] == pool[..i];
        if !pool[i] {
          FreeInstancePrefix(pool[..], i + 1);
          return Some(i);
        }
      }
      assert pool[..MAX_INSTANCES] == pool[..];
      return None;
    }

    method SpawnTask(loads: bool) returns (id: Option<nat>)
      requires Valid()
      modifies queue, pool
      ensures Valid() && (View(), id) == TaskSpawn(old(View()), loads)
    {
      var slot := FirstFreeTask();
      if slot.None? { return None; }
      var h := FirstFreeInstance();
      if h.None? || !loads { return None; }
      pool[h.value] := true;
      queue[slot.value] := Some(Task(Ready, h.value));
      return slot;
    }

    method KillTask(id: nat)
      requires Valid()
      modifies queue, pool
      ensures Valid() && View() == TaskKill(old(View()), id)
    {
      if id >= MAX_TASKS { return; }
      if queue[id].Some? {
        var t := queue[id].value;
        queue[id] := None;
        DestroyInstance(t.instance);
      }
    }

    /** `task_step`; what the engine answers is `o`, the clock is read as `now` and, once the engine is back, `later`.
        */
    method StepTask(id: nat, now: nat, later: nat, o: Outcome) returns (r: Option<Outcome>)
      requires Valid()
      modifies queue, pool
      ensures Valid() && (View(), r) == TaskStep(old(View()), id, now, later, o)
    {
      if id >= MAX_TASKS || queue[id].None? { return None; }
      if queue[id].value.state.Sleeping? {
        if now >= queue[id].value.state.wake {
          queue[id] := Some(queue[id].value.(state := Suspended));
        } else {
          return None;
        }
      }
      var st := queue[id].value.state;
      if st != Ready && st != Suspended { return None; }
      queue[id] := Some(queue[id].value.(state := Running));
      if o.Yielded? {
        var rest := if o.sleepMs > 0 then Sleeping(later + (o.sleepMs + 9) / 10) else Suspended;
        queue[id] := Some(queue[id].value.(state := rest));
      } else {
        DestroyInstance(queue[id].value.instance);
        queue[id] := None;
      }
      return Some(o);
    }

    /** `run_next_task`. */
    method RunNext(now: nat, later: nat, o: Outcome) returns (ran: bool)
      requires Valid()
      modifies this, queue, pool
      ensures Valid() && View() == RunNextTask(old(View()), now, later, o)
      ensures ran <==> Pick(old(View()), now).Some?
    {
      hide TaskStep;
      var start := (cursor + 1) % MAX_TASKS;
      for i := 0 to MAX_TASKS
        invariant Valid() && View() == old(View()) && PickAmong(View(), now, i).None?
      {
        var id := (start + i) % MAX_TASKS;
        assert id == Candidate(cursor, i);
        var runnable := IsRunnable(id, now);
        if runnable {
          PickPrefix(View(), now, i + 1, MAX_TASKS);
          cursor := id;
          var r := StepTask(id, now, later, o);
          return true;
        }
      }
      return false;
    }

    method IsRunnable(id: nat, now: nat) returns (r: bool)
      requires Valid()
      ensures r == Runnable(View(), id, now)
    {
      if id >= MAX_TASKS || queue[id].None? { return false; }
      match queue[id].value.state
      case Ready => return true;
      case Suspended => return true;
      case Sleeping(wake) => return now >= wake;
      case _ => return false;
    }
  }

  lemma {:induction false} FreeTaskPrefix(tasks: seq<Option<Task>>, k: nat)
    requires k <= |tasks| && FreeTask(tasks[..k]).Some?
    ensures FreeTask(tasks) == FreeTask(tasks[..k])
    decreases |tasks|
  {
    if k == |tasks| {
      assert tasks[..k] == tasks;
    } else {
      assert tasks[..|tasks| - 1][..k] == tasks[..k];
      FreeTaskPrefix(tasks[..|tasks| - 1], k);
    }
  }

  lemma {:induction false} FreeInstancePrefix(pool: seq<bool>, k: nat)
    requires k <= |pool| && FreeInstance(pool[..k]).Some?
    ensures FreeInstance(pool) == FreeInstance(pool[..k])
    decreases |pool|
  {
    if k == |pool| {
      assert pool[..k] == pool;
    } else {
      assert pool[..|pool| - 1][..k] == pool[..k];
      FreeInstancePrefix(pool[..|pool| - 1], k);
    }
  }

  lemma {:induction false} PickPrefix(s: Sched, now: nat, k: nat, j: nat)
    requires Shape(s) && k <= j && PickAmong(s, now, k).Some?
    ensures PickAmong(s, now, j) == PickAmong(s, now, k)
  {
    if k < j { PickPrefix(s, now, k, j - 1); }
  }
}
