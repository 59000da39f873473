/**
 The cooperative scheduler of src/scheduler.rs.

 A run is made of steps: a dispatch (`prepare_next`, under the lock), then the task body (no lock
 held), then the commit (`finish_task`, under the lock), with kills, spawns and timer ticks at any
 time.  `SchedulerModel` states the steps on values and proves what holds over all
 runs; `Schedulers` is the table changed in place, refining the steps.
 */
module SchedulerModel {
  import opened Machine

  const MAX_TASKS := 8

  datatype TaskState = Ready | Running | Finished

  /** The four task functions of the repository. */
  datatype TaskFn = Idle | Worker | Logger | Shell

  datatype Task = Task(name: string, func: TaskFn, state: TaskState, runs: nat)

  function NewTask(name: string, func: TaskFn): Task { Task(name, func, Ready, 0) }

  type Table = t: seq<Option<Task>> | |t| == MAX_TASKS witness seq(MAX_TASKS, _ => None)

  /** A task body runs between its dispatch and its commit, with what `prepare_next` handed it:
      the slot, the function and the tick count of that moment. */
  datatype Phase = Between | InBody(slot: nat, func: TaskFn, tick: nat)

  datatype Sys = Sys(tasks: Table, current: nat, tick: nat, phase: Phase) {
    /** The body of slot i is running. */
    predicate Busy(i: nat) { phase.InBody? && phase.slot == i }
  }

  /** How a body left its context. */
  datatype Outcome = Outcome(yielded: bool, finished: bool)

  datatype Event =
    | Dispatch
    | Commit(outcome: Outcome)
    | Kill(id: nat)
    | Spawn(name: string)
    | Tick

  predicate IsReady(t: Table, i: nat) {
    i < MAX_TASKS && t[i].Some? && t[i].value.state == Ready
  }

  /** `next_runnable_from`: the first Ready slot at or after `start`, going round. */
  function NextFrom(t: Table, start: nat, offset: nat): (r: Option<nat>)
    requires offset <= MAX_TASKS
    ensures r.Some? ==> IsReady(t, r.value)
    decreases MAX_TASKS - offset
  {
    if offset == MAX_TASKS then None
    else
      var idx := (start + offset) % MAX_TASKS;
      if IsReady(t, idx) then Some(idx) else NextFrom(t, start, offset + 1)
  }

  function NextRunnable(s: Sys): Option<nat> { NextFrom(s.tasks, s.current, 0) }

  /** The slot `spawn_task` takes: the first that is empty or Finished. */
  function FreeSlot(t: Table, from: nat): (r: Option<nat>)
    requires from <= MAX_TASKS
    ensures r.Some? ==> from <= r.value < MAX_TASKS && (t[r.value].None? || t[r.value].value.state == Finished)
    ensures forall k | from <= k < (if r.Some? then r.value else MAX_TASKS) ::
              t[k].Some? && t[k].value.state != Finished
    decreases MAX_TASKS - from
  {
    if from == MAX_TASKS then None
    else if t[from].None? || t[from].value.state == Finished then Some(from)
    else FreeSlot(t, from + 1)
  }

  // ---- The steps ----

  function WithState(t: Table, i: nat, st: TaskState): Table
    requires i < MAX_TASKS && t[i].Some?
  {
    t[i := Some(t[i].value.(state := st))]
  }

  function DispatchStep(s: Sys): Sys {
    match NextRunnable(s)
    case None => s
    case Some(i) =>
      var task := s.tasks[i].value;
      s.(tasks := s.tasks[i := Some(task.(state := Running, runs := task.runs + 1))],
         phase := InBody(i, task.func, s.tick))
  }

  function CommitStep(s: Sys, o: Outcome): Sys
    requires s.phase.InBody? && s.phase.slot < MAX_TASKS && s.tasks[s.phase.slot].Some?
  {
    var i := s.phase.slot;
    s.(tasks := WithState(s.tasks, i, if o.finished then Finished else Ready),
       current := if o.yielded then (i + 1) % MAX_TASKS else i,
       phase := Between)
  }

  function KillStep(s: Sys, id: nat): Sys {
    if id < MAX_TASKS && s.tasks[id].Some? then s.(tasks := WithState(s.tasks, id, Finished)) else s
  }

  function SpawnStep(s: Sys, name: string): Sys {
    match FreeSlot(s.tasks, 0)
    case None => s
    case Some(i) => s.(tasks := s.tasks[i := Some(NewTask(name, Worker))])
  }

  /** Dispatches and commits take turns; kills, spawns and ticks may come at any time. */
  predicate Enabled(s: Sys, e: Event) {
    match e
    case Dispatch => s.phase == Between
    case Commit(_) => s.phase.InBody?
    case _ => true
  }

  function Step(s: Sys, e: Event): Sys
    requires Inv(s) && Enabled(s, e)
  {
    match e
    case Dispatch => DispatchStep(s)
    case Commit(o) => CommitStep(s, o)
    case Kill(id) => KillStep(s, id)
    case Spawn(name) => SpawnStep(s, name)
    case Tick => s.(tick := s.tick + 1)
  }

  /** What every reachable state satisfies: the only slot that can be Running is the one whose
      body runs, and that slot is occupied, so no `expect` fails. */
  predicate Inv(s: Sys) {
    && s.current < MAX_TASKS
    && (s.phase.InBody? ==> s.phase.slot < MAX_TASKS && s.tasks[s.phase.slot].Some?)
    && forall i | 0 <= i < MAX_TASKS && s.tasks[i].Some? && s.tasks[i].value.state == Running :: s.Busy(i)
  }

  lemma StepKeepsInv(s: Sys, e: Event)
    requires Inv(s) && Enabled(s, e)
    ensures Inv(Step(s, e))
    ensures forall i | 0 <= i < MAX_TASKS && s.tasks[i].Some? :: Step(s, e).tasks[i].Some?
  {
  }

  // ---- Runs ----

  /** Every event of the run is enabled where it happens. */
  predicate IsRun(s: Sys, es: seq<Event>)
    decreases |es|
  {
    es == [] || (Inv(s) && Enabled(s, es[0]) && IsRun(Step(s, es[0]), es[1..]))
  }

  function After(s: Sys, es: seq<Event>): Sys
    requires IsRun(s, es)
    decreases |es|
  {
    if es == [] then s else After(Step(s, es[0]), es[1..])
  }

  /** The slots dispatched, in order. */
  function Dispatched(s: Sys, es: seq<Event>): seq<nat>
    requires IsRun(s, es)
    decreases |es|
  {
    if es == [] then []
    else
      (if es[0].Dispatch? && NextRunnable(s).Some? then [NextRunnable(s).value] else [])
      + Dispatched(Step(s, es[0]), es[1..])
  }

  lemma {:induction false} RunKeepsInv(s: Sys, es: seq<Event>)
    requires Inv(s) && IsRun(s, es)
    ensures Inv(After(s, es))
    ensures forall i | 0 <= i < MAX_TASKS && s.tasks[i].Some? :: After(s, es).tasks[i].Some?
    decreases |es|
  {
    if es != [] {
      StepKeepsInv(s, es[0]);
      RunKeepsInv(Step(s, es[0]), es[1..]);
    }
  }

  function TickCount(es: seq<Event>): nat
    decreases |es|
  {
    if es == [] then 0 else (if es[0].Tick? then 1 else 0) + TickCount(es[1..])
  }

  /** The clock counts the ticks of a run, and nothing else moves it. */
  lemma {:induction false} ClockCountsTicks(s: Sys, es: seq<Event>)
    requires Inv(s) && IsRun(s, es)
    ensures After(s, es).tick == s.tick + TickCount(es)
    decreases |es|
  {
    if es != [] {
      StepKeepsInv(s, es[0]);
      ClockCountsTicks(Step(s, es[0]), es[1..]);
    }
  }

  // ---- Bounded waiting ----

  /** Steps from slot c forward to slot j. */
  function Distance(c: nat, j: nat): (d: nat)
    requires c < MAX_TASKS && j < MAX_TASKS
    ensures d < MAX_TASKS && (c + d) % MAX_TASKS == j
  {
    if c <= j then j - c else j + MAX_TASKS - c
  }

  lemma DistanceAhead(c: nat, offset: nat)
    requires c < MAX_TASKS && offset < MAX_TASKS
    ensures Distance(c, (c + offset) % MAX_TASKS) == offset
  {
    assert (c + offset) % MAX_TASKS == if c + offset < MAX_TASKS then c + offset else c + offset - MAX_TASKS;
  }

  /** The search stops at the Ready slot nearest ahead. */
  lemma {:induction false} NextIsNearest(t: Table, c: nat, offset: nat, j: nat)
    requires c < MAX_TASKS && IsReady(t, j) && offset <= Distance(c, j)
    ensures NextFrom(t, c, offset).Some?
    ensures offset <= Distance(c, NextFrom(t, c, offset).value) <= Distance(c, j)
    decreases MAX_TASKS - offset
  {
    DistanceAhead(c, offset);
    if !IsReady(t, (c + offset) % MAX_TASKS) {
      NextIsNearest(t, c, offset + 1, j);
    }
  }

  /** How many dispatches of other slots can still come before slot j's. */
  function Wait(s: Sys, j: nat): int
    requires Inv(s) && j < MAX_TASKS
  {
    match s.phase
    case InBody(i, _, _) => Distance(i, j) - 1
    case Between =>
      Distance(s.current, j) - (if s.current != j && !IsReady(s.tasks, s.current) then 1 else 0)
  }

  /** What can hold a turn back: a body that neither yielded nor finished, or a spawn between
      bodies into the very slot where the next search starts. */
  predicate Delays(s: Sys, e: Event) {
    match e
    case Commit(o) => !o.yielded && !o.finished
    case Spawn(_) => s.phase == Between && FreeSlot(s.tasks, 0) == Some(s.current)
    case _ => false
  }

  function DelayCount(s: Sys, es: seq<Event>): nat
    requires IsRun(s, es)
    decreases |es|
  {
    if es == [] then 0 else (if Delays(s, es[0]) then 1 else 0) + DelayCount(Step(s, es[0]), es[1..])
  }

  lemma WaitDispatch(s: Sys, j: nat)
    requires Inv(s) && s.phase == Between && IsReady(s.tasks, j) && NextRunnable(s) != Some(j)
    ensures NextRunnable(s).Some?
    ensures Distance(NextRunnable(s).value, j) <= Wait(s, j)
  {
    NextIsNearest(s.tasks, s.current, 0, j);
  }

  lemma WaitCommit(s: Sys, o: Outcome, j: nat)
    requires Inv(s) && s.phase.InBody? && IsReady(s.tasks, j) && !s.Busy(j)
    ensures Inv(CommitStep(s, o)) && IsReady(CommitStep(s, o).tasks, j)
    ensures Wait(CommitStep(s, o), j) <= Wait(s, j) + (if Delays(s, Commit(o)) then 1 else 0)
  {
    StepKeepsInv(s, Commit(o));
  }

  /** A dispatch of another slot lowers the wait, and only a delay raises it. */
  lemma WaitStep(s: Sys, e: Event, j: nat)
    requires Inv(s) && Enabled(s, e) && IsReady(s.tasks, j) && !s.Busy(j)
    requires e != Kill(j) && !(e.Dispatch? && NextRunnable(s) == Some(j))
    ensures Inv(Step(s, e)) && IsReady(Step(s, e).tasks, j) && !Step(s, e).Busy(j)
    ensures Wait(Step(s, e), j) <= Wait(s, j) - (if e.Dispatch? then 1 else 0) + (if Delays(s, e) then 1 else 0)
    ensures e.Dispatch? ==> NextRunnable(s).Some?
  {
    StepKeepsInv(s, e);
    match e
    case Dispatch => WaitDispatch(s, j);
    case Commit(o) => WaitCommit(s, o, j);
    case _ =>
  }

  /** Bounded waiting over every interleaving: a Ready slot that is not killed is dispatched after
      at most 7 dispatches of other slots, plus one for every delay, whatever is killed, spawned
      or finished meanwhile. */
  lemma {:induction false} BoundedWaiting(s: Sys, es: seq<Event>, j: nat)
    requires Inv(s) && IsRun(s, es) && IsReady(s.tasks, j) && !s.Busy(j)
    requires Kill(j) !in es && j !in Dispatched(s, es)
    ensures |Dispatched(s, es)| <= Wait(s, j) + DelayCount(s, es) <= 7 + DelayCount(s, es)
    decreases |es|
  {
    if es != [] {
      WaitStep(s, es[0], j);
      BoundedWaiting(Step(s, es[0]), es[1..], j);
    }
  }

  lemma RunOfOneMore(s: Sys, e: Event, es: seq<Event>)
    requires Inv(s) && Enabled(s, e) && IsRun(Step(s, e), es)
    ensures IsRun(s, [e] + es) && After(s, [e] + es) == After(Step(s, e), es)
    ensures Dispatched(s, [e] + es)
         == (if e.Dispatch? && NextRunnable(s).Some? then [NextRunnable(s).value] else []) + Dispatched(Step(s, e), es)
    ensures DelayCount(s, [e] + es) == (if Delays(s, e) then 1 else 0) + DelayCount(Step(s, e), es)
  {
    assert ([e] + es)[1..] == es;
  }

  lemma {:induction false} RunsJoin(s: Sys, a: seq<Event>, b: seq<Event>)
    requires Inv(s) && IsRun(s, a) && IsRun(After(s, a), b)
    ensures IsRun(s, a + b)
    decreases |a|
  {
    if a == [] {
      assert a + b == b;
    } else {
      StepKeepsInv(s, a[0]);
      assert (a + b)[0] == a[0] && (a + b)[1..] == a[1..] + b;
      RunsJoin(Step(s, a[0]), a[1..], b);
    }
  }

  lemma {:induction false} AfterJoin(s: Sys, a: seq<Event>, b: seq<Event>)
    requires Inv(s) && IsRun(s, a) && IsRun(After(s, a), b) && IsRun(s, a + b)
    ensures After(s, a + b) == After(After(s, a), b)
    decreases |a|
  {
    if a == [] {
      assert a + b == b;
    } else {
      StepKeepsInv(s, a[0]);
      assert (a + b)[0] == a[0] && (a + b)[1..] == a[1..] + b;
      AfterJoin(Step(s, a[0]), a[1..], b);
    }
  }

  lemma {:induction false} DispatchesJoin(s: Sys, a: seq<Event>, b: seq<Event>)
    requires Inv(s) && IsRun(s, a) && IsRun(After(s, a), b) && IsRun(s, a + b)
    ensures Dispatched(s, a + b) == Dispatched(s, a) + Dispatched(After(s, a), b)
    decreases |a|
  {
    if a == [] {
      assert a + b == b;
    } else {
      StepKeepsInv(s, a[0]);
      assert (a + b)[0] == a[0] && (a + b)[1..] == a[1..] + b;
      DispatchesJoin(Step(s, a[0]), a[1..], b);
    }
  }

  lemma {:induction false} DelaysJoin(s: Sys, a: seq<Event>, b: seq<Event>)
    requires Inv(s) && IsRun(s, a) && IsRun(After(s, a), b) && IsRun(s, a + b)
    ensures DelayCount(s, a + b) == DelayCount(s, a) + DelayCount(After(s, a), b)
    decreases |a|
  {
    if a == [] {
      assert a + b == b;
    } else {
      StepKeepsInv(s, a[0]);
      assert (a + b)[0] == a[0] && (a + b)[1..] == a[1..] + b;
      DelaysJoin(Step(s, a[0]), a[1..], b);
    }
  }

  lemma CountsJoin(s: Sys, a: seq<Event>, b: seq<Event>)
    requires Inv(s) && IsRun(s, a) && IsRun(After(s, a), b)
    ensures IsRun(s, a + b)
    ensures Dispatched(s, a + b) == Dispatched(s, a) + Dispatched(After(s, a), b)
    ensures DelayCount(s, a + b) == DelayCount(s, a) + DelayCount(After(s, a), b)
  {
    RunsJoin(s, a, b);
    DispatchesJoin(s, a, b);
    DelaysJoin(s, a, b);
  }

  /** A run over and over. */
  function Repeat(es: seq<Event>, n: nat): seq<Event> {
    if n == 0 then [] else es + Repeat(es, n - 1)
  }

  /** From s the events dispatch slot i once, with one delay, and lead back to where they can be
      repeated. */
  ghost predicate RoundFrom(s: Sys, es: seq<Event>, i: nat, again: Sys -> bool) {
    && Inv(s) && IsRun(s, es) && again(After(s, es))
    && Dispatched(s, es) == [i] && DelayCount(s, es) == 1
  }

  ghost predicate Round(es: seq<Event>, i: nat, again: Sys -> bool) {
    forall s {:trigger RoundFrom(s, es, i, again)} | again(s) :: RoundFrom(s, es, i, again)
  }

  lemma {:induction false} RoundsRepeat(s: Sys, es: seq<Event>, i: nat, again: Sys -> bool, n: nat)
    requires Round(es, i, again) && again(s)
    ensures IsRun(s, Repeat(es, n)) && DelayCount(s, Repeat(es, n)) == n
    ensures Dispatched(s, Repeat(es, n)) == seq(n, _ => i)
    decreases n
  {
    if n > 0 {
      var rest := Repeat(es, n - 1);
      assert RoundFrom(s, es, i, again);
      RoundsRepeat(After(s, es), es, i, again, n - 1);
      CountsJoin(s, es, rest);
      assert Repeat(es, n) == es + rest;
      assert [i] + seq(n - 1, _ => i) == seq(n, _ => i);
    }
  }

  /** A dispatch and a body that does not give the processor up. */
  const HOG := [Dispatch, Commit(Outcome(false, false))]

  lemma HogOnce(s: Sys, i: nat)
    requires Inv(s) && s.phase == Between && NextRunnable(s) == Some(i)
    ensures IsRun(s, HOG) && Dispatched(s, HOG) == [i] && DelayCount(s, HOG) == 1
    ensures Inv(After(s, HOG)) && After(s, HOG).phase == Between && NextRunnable(After(s, HOG)) == Some(i)
  {
    var commit := Commit(Outcome(false, false));
    var s1 := Step(s, Dispatch);
    StepKeepsInv(s, Dispatch);
    var s2 := Step(s1, commit);
    StepKeepsInv(s1, commit);
    NextIsNearest(s2.tasks, i, 0, i);
    RunOfOneMore(s1, commit, []);
    RunOfOneMore(s, Dispatch, [commit] + []);
    assert HOG == [Dispatch] + ([commit] + []);
  }

  /** The delays cannot be left out of the bound: one slot whose body never gives up is dispatched
      any number of times in a row, whatever else is Ready. */
  lemma HogStarvesOthers(s: Sys, i: nat, n: nat)
    requires Inv(s) && s.phase == Between && NextRunnable(s) == Some(i)
    ensures IsRun(s, Repeat(HOG, n)) && DelayCount(s, Repeat(HOG, n)) == n
    ensures Dispatched(s, Repeat(HOG, n)) == seq(n, _ => i)
  {
    var again := (t: Sys) => Inv(t) && t.phase == Between && NextRunnable(t) == Some(i);
    forall t | again(t) ensures RoundFrom(t, HOG, i, again) { HogOnce(t, i); }
    RoundsRepeat(s, HOG, i, again, n);
  }

  /** A dispatch, a body that finishes without yielding, and a spawn before the next search. */
  function Refill(name: string): seq<Event> { [Dispatch, Commit(Outcome(false, true)), Spawn(name)] }

  /** Slot i is where the search starts, Ready, and the first slot a spawn takes once Finished. */
  predicate Refillable(s: Sys, i: nat) {
    && Inv(s) && s.phase == Between && s.current == i && IsReady(s.tasks, i)
    && forall k | 0 <= k < i :: s.tasks[k].Some? && s.tasks[k].value.state != Finished
  }

  lemma RefillOnce(s: Sys, i: nat, name: string)
    requires Refillable(s, i)
    ensures IsRun(s, Refill(name)) && Dispatched(s, Refill(name)) == [i] && DelayCount(s, Refill(name)) == 1
    ensures Refillable(After(s, Refill(name)), i)
  {
    var (commit, spawn) := (Commit(Outcome(false, true)), Spawn(name));
    NextIsNearest(s.tasks, i, 0, i);
    var s1 := Step(s, Dispatch);
    StepKeepsInv(s, Dispatch);
    var s2 := Step(s1, commit);
    StepKeepsInv(s1, commit);
    assert FreeSlot(s2.tasks, 0) == Some(i);
    StepKeepsInv(s2, spawn);
    RunOfOneMore(s2, spawn, []);
    RunOfOneMore(s1, commit, [spawn] + []);
    RunOfOneMore(s, Dispatch, [commit] + ([spawn] + []));
    assert Refill(name) == [Dispatch] + ([commit] + ([spawn] + []));
  }

  /** Nor can the other kind of delay: a spawn between bodies that refills the slot where the
      search starts lets that slot be dispatched any number of times in a row. */
  lemma RefillStarvesOthers(s: Sys, i: nat, name: string, n: nat)
    requires Refillable(s, i)
    ensures IsRun(s, Repeat(Refill(name), n)) && DelayCount(s, Repeat(Refill(name), n)) == n
    ensures Dispatched(s, Repeat(Refill(name), n)) == seq(n, _ => i)
  {
    var again := (t: Sys) => Refillable(t, i);
    forall t | again(t) ensures RoundFrom(t, Refill(name), i, again) { RefillOnce(t, i, name); }
    RoundsRepeat(s, Refill(name), i, again, n);
  }

  // ---- Round-robin balance ----

  /** A stretch in which every body yields and nothing is killed, spawned or finished. */
  predicate Cooperative(e: Event) {
    e.Tick? || e.Dispatch? || (e.Commit? && e.outcome == Outcome(true, false))
  }

  /** Waiting for its turn, or having it. */
  predicate Alive(s: Sys, i: nat) {
    i < MAX_TASKS && s.tasks[i].Some? && (s.tasks[i].value.state == Ready || s.Busy(i))
  }

  /** Where the next search starts, once a running body has yielded. */
  function Position(s: Sys): nat
    requires Inv(s)
  {
    match s.phase
    case Between => s.current
    case InBody(i, _, _) => (i + 1) % MAX_TASKS
  }

  function Count(ds: seq<nat>, i: nat): nat {
    if ds == [] then 0 else (if ds[0] == i then 1 else 0) + Count(ds[1..], i)
  }

  /** 1 when slot i's turn comes before slot j's. */
  function Before(s: Sys, i: nat, j: nat): nat
    requires Inv(s) && i < MAX_TASKS && j < MAX_TASKS
  {
    if Distance(Position(s), i) < Distance(Position(s), j) then 1 else 0
  }

  lemma CooperativeStep(s: Sys, e: Event)
    requires Inv(s) && Enabled(s, e) && Cooperative(e)
    ensures Inv(Step(s, e))
    ensures forall i: nat :: Alive(Step(s, e), i) <==> Alive(s, i)
    ensures e.Dispatch? && NextRunnable(s).Some? ==> Alive(s, NextRunnable(s).value)
  {
    StepKeepsInv(s, e);
  }

  /** Moving the search past the nearest slot x changes the order of two slots only when x is one
      of them. */
  lemma PastNearest(c: nat, x: nat, i: nat, j: nat)
    requires c < MAX_TASKS && x < MAX_TASKS && i < MAX_TASKS && j < MAX_TASKS && i != j
    requires Distance(c, x) <= Distance(c, i) && Distance(c, x) <= Distance(c, j)
    ensures var c' := (x + 1) % MAX_TASKS;
            && (x == i ==> Distance(c, i) < Distance(c, j) && Distance(c', i) >= Distance(c', j))
            && (x == j ==> Distance(c, i) >= Distance(c, j) && Distance(c', i) < Distance(c', j))
            && (x != i && x != j ==> (Distance(c, i) < Distance(c, j) <==> Distance(c', i) < Distance(c', j)))
  {
    assert (x + 1) % MAX_TASKS == if x + 1 < MAX_TASKS then x + 1 else 0;
  }

  lemma PositionStep(s: Sys, e: Event)
    requires Inv(s) && Enabled(s, e) && Cooperative(e)
    ensures Inv(Step(s, e))
    ensures Position(Step(s, e))
         == if e.Dispatch? && NextRunnable(s).Some? then (NextRunnable(s).value + 1) % MAX_TASKS else Position(s)
  {
    StepKeepsInv(s, e);
  }

  lemma BalanceStep(s: Sys, e: Event, i: nat, j: nat)
    requires Inv(s) && Enabled(s, e) && Cooperative(e) && Alive(s, i) && Alive(s, j) && i != j
    ensures Inv(Step(s, e))
    ensures var d := if e.Dispatch? then NextRunnable(s) else None;
            Before(s, i, j) - Before(Step(s, e), i, j)
              == (if d == Some(i) then 1 else 0) - (if d == Some(j) then 1 else 0)
  {
    PositionStep(s, e);
    if e.Dispatch? {
      NextIsNearest(s.tasks, s.current, 0, i);
      NextIsNearest(s.tasks, s.current, 0, j);
      PastNearest(s.current, NextRunnable(s).value, i, j);
    }
  }

  lemma CountDispatched(s: Sys, es: seq<Event>, i: nat)
    requires IsRun(s, es) && es != []
    ensures Count(Dispatched(s, es), i)
         == (if es[0].Dispatch? && NextRunnable(s) == Some(i) then 1 else 0)
            + Count(Dispatched(Step(s, es[0]), es[1..]), i)
  {
    var rest := Dispatched(Step(s, es[0]), es[1..]);
    if es[0].Dispatch? && NextRunnable(s).Some? {
      assert Dispatched(s, es) == [NextRunnable(s).value] + rest;
      assert Dispatched(s, es)[1..] == rest;
    } else {
      assert Dispatched(s, es) == rest;
    }
  }

  /** While a Ready slot waits without delays nobody gets a second turn: only the slots between
      the search and it are dispatched, each at most once. */
  lemma {:induction false} NoSecondTurn(s: Sys, es: seq<Event>, j: nat, k: nat)
    requires Inv(s) && IsRun(s, es) && IsReady(s.tasks, j) && !s.Busy(j) && k < MAX_TASKS
    requires Kill(j) !in es && j !in Dispatched(s, es) && DelayCount(s, es) == 0
    ensures Count(Dispatched(s, es), k) <= if Distance(k, j) <= Wait(s, j) then 1 else 0
    decreases |es|
  {
    if es != [] {
      WaitStep(s, es[0], j);
      NoSecondTurn(Step(s, es[0]), es[1..], j, k);
      CountDispatched(s, es, k);
    }
  }

  /** Over a cooperative stretch the dispatches of two slots differ by whose turn comes first at
      the start, less whose comes first at the end: by at most one. */
  lemma {:induction false} Balance(s: Sys, es: seq<Event>, i: nat, j: nat)
    requires Inv(s) && IsRun(s, es) && Alive(s, i) && Alive(s, j) && i != j
    requires forall e | e in es :: Cooperative(e)
    ensures Inv(After(s, es))
    ensures Count(Dispatched(s, es), i) - Count(Dispatched(s, es), j)
         == Before(s, i, j) - Before(After(s, es), i, j)
    decreases |es|
  {
    if es != [] {
      CooperativeStep(s, es[0]);
      BalanceStep(s, es[0], i, j);
      Balance(Step(s, es[0]), es[1..], i, j);
      CountDispatched(s, es, i);
      CountDispatched(s, es, j);
    }
  }

  /** A slot's `runs` grows by its dispatches. */
  lemma {:induction false} RunsCountDispatches(s: Sys, es: seq<Event>, i: nat)
    requires Inv(s) && IsRun(s, es) && i < MAX_TASKS && s.tasks[i].Some?
    requires forall e | e in es :: !e.Spawn?
    ensures After(s, es).tasks[i].Some?
    ensures After(s, es).tasks[i].value.runs == s.tasks[i].value.runs + Count(Dispatched(s, es), i)
    decreases |es|
  {
    if es != [] {
      StepKeepsInv(s, es[0]);
      RunsCountDispatches(Step(s, es[0]), es[1..], i);
      CountDispatched(s, es, i);
    }
  }

  /** Round robin: `runs` of any two live tasks grow alike, within one. */
  lemma RoundRobin(s: Sys, es: seq<Event>, i: nat, j: nat)
    requires Inv(s) && IsRun(s, es) && Alive(s, i) && Alive(s, j)
    requires forall e | e in es :: Cooperative(e)
    ensures After(s, es).tasks[i].Some? && After(s, es).tasks[j].Some?
    ensures var (gi, gj) := (After(s, es).tasks[i].value.runs - s.tasks[i].value.runs,
                             After(s, es).tasks[j].value.runs - s.tasks[j].value.runs);
            -1 <= gi - gj <= 1
  {
    RunsCountDispatches(s, es, i);
    RunsCountDispatches(s, es, j);
    if i != j {
      Balance(s, es, i, j);
    }
  }

  // ---- A full round ----

  function AliveBelow(s: Sys, n: nat): nat {
    if n == 0 then 0 else AliveBelow(s, n - 1) + (if Alive(s, n - 1) then 1 else 0)
  }

  function CountBelow(ds: seq<nat>, n: nat): nat {
    if n == 0 then 0 else CountBelow(ds, n - 1) + Count(ds, n - 1)
  }

  lemma {:induction false} CountBelowSplit(d: nat, ds: seq<nat>, n: nat)
    ensures CountBelow([d] + ds, n) == CountBelow(ds, n) + (if d < n then 1 else 0)
    decreases n
  {
    if n > 0 {
      CountBelowSplit(d, ds, n - 1);
      assert ([d] + ds)[1..] == ds;
    } else {
    }
  }

  lemma {:induction false} NobodyBelow(n: nat)
    ensures CountBelow([], n) == 0
  {
    if n > 0 {
      NobodyBelow(n - 1);
    }
  }

  lemma {:induction false} OnlyAliveDispatched(s: Sys, es: seq<Event>)
    requires Inv(s) && IsRun(s, es) && forall e | e in es :: Cooperative(e)
    ensures CountBelow(Dispatched(s, es), MAX_TASKS) == |Dispatched(s, es)|
    ensures forall i: nat | !Alive(s, i) :: Count(Dispatched(s, es), i) == 0
    decreases |es|
  {
    if es == [] {
      NobodyBelow(MAX_TASKS);
    } else {
      var rest := Dispatched(Step(s, es[0]), es[1..]);
      CooperativeStep(s, es[0]);
      OnlyAliveDispatched(Step(s, es[0]), es[1..]);
      if es[0].Dispatch? && NextRunnable(s).Some? {
        CountBelowSplit(NextRunnable(s).value, rest, MAX_TASKS);
        assert Dispatched(s, es)[1..] == rest;
      } else {
        assert Dispatched(s, es) == rest;
      }
    }
  }

  lemma {:induction false} TooFew(s: Sys, ds: seq<nat>, j: nat, n: nat)
    requires forall i: nat | !Alive(s, i) :: Count(ds, i) == 0
    requires forall i: nat :: Count(ds, i) <= 1
    requires Alive(s, j) && Count(ds, j) == 0
    ensures CountBelow(ds, n) + (if j < n then 1 else 0) <= AliveBelow(s, n)
    decreases n
  {
    if n > 0 {
      TooFew(s, ds, j, n - 1);
    }
  }

  lemma {:induction false} TooMany(s: Sys, ds: seq<nat>, j: nat, n: nat)
    requires forall i: nat | Alive(s, i) :: Count(ds, i) >= 1
    requires Alive(s, j) && Count(ds, j) >= 2
    ensures CountBelow(ds, n) >= AliveBelow(s, n) + (if j < n then 1 else 0)
    decreases n
  {
    if n > 0 {
      TooMany(s, ds, j, n - 1);
    }
  }

  /** A stretch of as many dispatches as there are live tasks gives each of them exactly one. */
  lemma FullRound(s: Sys, es: seq<Event>, j: nat)
    requires Inv(s) && IsRun(s, es) && Alive(s, j)
    requires forall e | e in es :: Cooperative(e)
    requires |Dispatched(s, es)| == AliveBelow(s, MAX_TASKS)
    ensures Count(Dispatched(s, es), j) == 1
  {
    var ds := Dispatched(s, es);
    OnlyAliveDispatched(s, es);
    forall i: nat | Alive(s, i) && i != j
      ensures -1 <= Count(ds, i) - Count(ds, j) <= 1
    {
      Balance(s, es, i, j);
    }
    if Count(ds, j) == 0 {
      TooFew(s, ds, j, MAX_TASKS);
    } else if Count(ds, j) >= 2 {
      TooMany(s, ds, j, MAX_TASKS);
    }
  }

  // ---- Every window of a stretch ----

  /** A run cut where its n-th dispatch has been made. */
  lemma {:induction false} CutAtDispatch(s: Sys, es: seq<Event>, n: nat) returns (past: seq<Event>, rest: seq<Event>)
    requires Inv(s) && IsRun(s, es) && n <= |Dispatched(s, es)|
    ensures es == past + rest && IsRun(s, past) && IsRun(After(s, past), rest) && Inv(After(s, past))
    ensures |Dispatched(s, past)| == n
    decreases |es|
  {
    past, rest := [], es;
    if n > 0 {
      var (e, t) := (es[0], Step(s, es[0]));
      var m := if e.Dispatch? && NextRunnable(s).Some? then n - 1 else n;
      StepKeepsInv(s, e);
      past, rest := CutAtDispatch(t, es[1..], m);
      RunOfOneMore(s, e, past);
      past := [e] + past;
    }
  }

  /** The dispatches before and after the cut. */
  lemma CutDispatches(s: Sys, past: seq<Event>, rest: seq<Event>)
    requires Inv(s) && IsRun(s, past) && IsRun(After(s, past), rest) && IsRun(s, past + rest)
    ensures |Dispatched(s, past)| <= |Dispatched(s, past + rest)|
    ensures Dispatched(s, past) == Dispatched(s, past + rest)[..|Dispatched(s, past)|]
    ensures Dispatched(After(s, past), rest) == Dispatched(s, past + rest)[|Dispatched(s, past)|..]
  {
    DispatchesJoin(s, past, rest);
  }

  lemma {:induction false} CooperativeRun(s: Sys, es: seq<Event>)
    requires Inv(s) && IsRun(s, es) && forall e | e in es :: Cooperative(e)
    ensures Inv(After(s, es)) && forall i: nat :: Alive(After(s, es), i) <==> Alive(s, i)
    decreases |es|
  {
    if es != [] {
      CooperativeStep(s, es[0]);
      CooperativeRun(Step(s, es[0]), es[1..]);
    }
  }

  lemma {:induction false} SameAliveBelow(s: Sys, t: Sys, n: nat)
    requires forall i: nat :: Alive(s, i) <==> Alive(t, i)
    ensures AliveBelow(s, n) == AliveBelow(t, n)
  {
    if n > 0 {
      SameAliveBelow(s, t, n - 1);
    }
  }

  /** Every window of as many dispatches as there are live tasks has each of them exactly once, and
      nothing else. */
  lemma EveryWindow(s: Sys, es: seq<Event>, n: nat, j: nat)
    requires Inv(s) && IsRun(s, es) && forall e | e in es :: Cooperative(e)
    requires n + AliveBelow(s, MAX_TASKS) <= |Dispatched(s, es)|
    ensures Count(Dispatched(s, es)[n..n + AliveBelow(s, MAX_TASKS)], j) == if Alive(s, j) then 1 else 0
  {
    var (ds, k) := (Dispatched(s, es), AliveBelow(s, MAX_TASKS));
    var past, rest := CutAtDispatch(s, es, n);
    CutDispatches(s, past, rest);
    var t := After(s, past);
    CooperativeRun(s, past);
    SameAliveBelow(s, t, MAX_TASKS);
    var window, more := CutAtDispatch(t, rest, k);
    CutDispatches(t, window, more);
    assert ds[n..n + k] == ds[n..][..k];
    if Alive(s, j) {
      FullRound(t, window, j);
    } else {
      OnlyAliveDispatched(t, window);
    }
  }

  lemma {:induction false} CountOnce(ds: seq<nat>, i: nat)
    requires i < |ds| && Count(ds, ds[i]) == 1
    ensures ds[i] !in ds[..i] && ds[i] !in ds[i + 1..]
    decreases |ds|
  {
    if i == 0 {
      CountZero(ds[1..], ds[0]);
    } else {
      CountPositive(ds[1..], ds[i]);
      CountOnce(ds[1..], i - 1);
      assert ds[..i] == [ds[0]] + ds[1..][..i - 1] && ds[1..][i..] == ds[i + 1..];
    }
  }

  lemma {:induction false} CountZero(ds: seq<nat>, j: nat)
    ensures Count(ds, j) == 0 <==> j !in ds
    decreases |ds|
  {
    if ds != [] {
      CountZero(ds[1..], j);
      assert ds == [ds[0]] + ds[1..];
    }
  }

  lemma CountPositive(ds: seq<nat>, j: nat)
    ensures j in ds <==> Count(ds, j) >= 1
  {
    CountZero(ds, j);
  }

  /** What enters a window on one side has left it on the other, if both windows have it once. */
  lemma WindowMoves(ds: seq<nat>, n: nat, k: nat)
    requires n + k < |ds|
    requires Count(ds[n..n + k], ds[n + k]) == Count(ds[n + 1..n + 1 + k], ds[n + k]) <= 1
    ensures ds[n + k] == ds[n]
  {
    if k > 0 {
      var (w, v, x) := (ds[n..n + k], ds[n + 1..n + 1 + k], ds[n + k]);
      assert v[k - 1] == x && x in v;
      CountPositive(v, x);
      CountPositive(w, x);
      CountOnce(v, k - 1);
      assert |w| == k && w[0] == ds[n] && forall m | 0 < m < k :: w[m] == v[..k - 1][m - 1];
    }
  }

  /** The dispatch sequence is cyclic: with k live tasks, every k-th dispatch is of the same one. */
  lemma Cyclic(s: Sys, es: seq<Event>, n: nat)
    requires Inv(s) && IsRun(s, es) && forall e | e in es :: Cooperative(e)
    requires n + AliveBelow(s, MAX_TASKS) < |Dispatched(s, es)|
    ensures Dispatched(s, es)[n + AliveBelow(s, MAX_TASKS)] == Dispatched(s, es)[n]
  {
    var (ds, k) := (Dispatched(s, es), AliveBelow(s, MAX_TASKS));
    EveryWindow(s, es, n, ds[n + k]);
    EveryWindow(s, es, n + 1, ds[n + k]);
    assert ds[n + 1..n + 1 + k] == ds[n + 1..(n + 1) + k];
    WindowMoves(ds, n, k);
  }

  // ---- Accounting ----

  function RunsOf(t: Option<Task>): nat {
    if t.Some? then t.value.runs else 0
  }

  function SumRuns(ts: seq<Option<Task>>): nat {
    if ts == [] then 0 else RunsOf(ts[0]) + SumRuns(ts[1..])
  }

  /** The `runs` that disappear when spawns reuse slots. */
  function Retired(s: Sys, es: seq<Event>): nat
    requires IsRun(s, es)
    decreases |es|
  {
    if es == [] then 0
    else
      (if es[0].Spawn? && FreeSlot(s.tasks, 0).Some? then RunsOf(s.tasks[FreeSlot(s.tasks, 0).value]) else 0)
      + Retired(Step(s, es[0]), es[1..])
  }

  lemma {:induction false} SumRunsUpdate(ts: seq<Option<Task>>, i: nat, t: Option<Task>)
    requires i < |ts|
    ensures SumRuns(ts[i := t]) + RunsOf(ts[i]) == SumRuns(ts) + RunsOf(t)
    decreases |ts|
  {
    if i == 0 {
      assert ts[0 := t][1..] == ts[1..];
    } else {
      assert ts[i := t][1..] == ts[1..][i - 1 := t];
      SumRunsUpdate(ts[1..], i - 1, t);
    }
  }

  lemma AccountStep(s: Sys, e: Event)
    requires Inv(s) && Enabled(s, e)
    ensures SumRuns(Step(s, e).tasks)
            + (if e.Spawn? && FreeSlot(s.tasks, 0).Some? then RunsOf(s.tasks[FreeSlot(s.tasks, 0).value]) else 0)
         == SumRuns(s.tasks) + (if e.Dispatch? && NextRunnable(s).Some? then 1 else 0)
  {
    var t := Step(s, e).tasks;
    match e
    case Dispatch =>
      if NextRunnable(s).Some? {
        SumRunsUpdate(s.tasks, NextRunnable(s).value, t[NextRunnable(s).value]);
      }
    case Commit(_) => SumRunsUpdate(s.tasks, s.phase.slot, t[s.phase.slot]);
    case Kill(id) =>
      if id < MAX_TASKS && s.tasks[id].Some? {
        SumRunsUpdate(s.tasks, id, t[id]);
      }
    case Spawn(_) =>
      if FreeSlot(s.tasks, 0).Some? {
        SumRunsUpdate(s.tasks, FreeSlot(s.tasks, 0).value, t[FreeSlot(s.tasks, 0).value]);
      }
    case Tick =>
  }

  /** Every dispatch of a run is counted in some slot's `runs`, or was and left with it. */
  lemma {:induction false} DispatchesAccounted(s: Sys, es: seq<Event>)
    requires Inv(s) && IsRun(s, es)
    ensures SumRuns(After(s, es).tasks) + Retired(s, es) == SumRuns(s.tasks) + |Dispatched(s, es)|
    decreases |es|
  {
    if es != [] {
      StepKeepsInv(s, es[0]);
      AccountStep(s, es[0]);
      DispatchesAccounted(Step(s, es[0]), es[1..]);
    }
  }

  // ---- Killing ----

  /** Some spawn of the run takes slot j. */
  predicate Respawned(s: Sys, es: seq<Event>, j: nat)
    requires IsRun(s, es)
    decreases |es|
  {
    es != [] &&
    ((es[0].Spawn? && FreeSlot(s.tasks, 0) == Some(j)) || Respawned(Step(s, es[0]), es[1..], j))
  }

  /** A slot that is Finished while it has no body running is never dispatched, and stays exactly
      as it is, until a spawn takes it. */
  lemma {:induction false} FinishedStaysPut(s: Sys, es: seq<Event>, j: nat)
    requires Inv(s) && IsRun(s, es) && j < MAX_TASKS && !s.Busy(j)
    requires s.tasks[j].Some? && s.tasks[j].value.state == Finished && !Respawned(s, es, j)
    ensures After(s, es).tasks[j] == s.tasks[j] && j !in Dispatched(s, es)
    decreases |es|
  {
    if es != [] {
      StepKeepsInv(s, es[0]);
      FinishedStaysPut(Step(s, es[0]), es[1..], j);
    }
  }

  /** Nothing but a spawn into its slot changes a task's name or function. */
  lemma {:induction false} TaskStays(s: Sys, es: seq<Event>, j: nat)
    requires Inv(s) && IsRun(s, es) && j < MAX_TASKS && s.tasks[j].Some? && !Respawned(s, es, j)
    ensures var t := After(s, es).tasks[j];
            t.Some? && t.value.name == s.tasks[j].value.name && t.value.func == s.tasks[j].value.func
    decreases |es|
  {
    if es != [] {
      StepKeepsInv(s, es[0]);
      TaskStays(Step(s, es[0]), es[1..], j);
    }
  }

  /** What can happen while a body runs. */
  predicate DuringBody(es: seq<Event>) {
    forall e | e in es :: e.Tick? || e.Kill? || e.Spawn?
  }

  lemma {:induction false} BodyGoesOn(s: Sys, es: seq<Event>)
    requires Inv(s) && s.phase.InBody? && DuringBody(es)
    ensures IsRun(s, es) && Inv(After(s, es)) && After(s, es).phase == s.phase
    decreases |es|
  {
    if es != [] {
      assert es[0] in es;
      StepKeepsInv(s, es[0]);
      BodyGoesOn(Step(s, es[0]), es[1..]);
    }
  }

  /** Equal but for the state of the slot whose body runs. */
  predicate SameButState(s: Sys, t: Sys) {
    && s.phase.InBody? && s.phase.slot < MAX_TASKS
    && s.tasks[s.phase.slot].Some? && t.tasks[s.phase.slot].Some?
    && t == s.(tasks := WithState(s.tasks, s.phase.slot, t.tasks[s.phase.slot].value.state))
  }

  /** If the slot is Finished in t, and a step does not spawn into it there, the step does the same
      in s. */
  lemma SameButStateStep(s: Sys, t: Sys, e: Event)
    requires Inv(s) && Inv(t) && SameButState(s, t) && (e.Tick? || e.Kill? || e.Spawn?)
    requires t.tasks[s.phase.slot].value.state == Finished
    requires !(e.Spawn? && FreeSlot(t.tasks, 0) == Some(s.phase.slot))
    ensures SameButState(Step(s, e), Step(t, e))
    ensures Step(t, e).tasks[s.phase.slot].value.state == Finished
  {
    var i := s.phase.slot;
    if e.Spawn? {
      SameFreeSlot(s.tasks, t.tasks, i, 0);
    }
  }

  lemma {:induction false} SameFreeSlot(a: Table, b: Table, i: nat, from: nat)
    requires i < MAX_TASKS && from <= MAX_TASKS && a[i].Some? && b[i].Some? && b == a[i := b[i]]
    requires b[i].value.state == Finished && FreeSlot(b, from) != Some(i)
    ensures FreeSlot(a, from) == FreeSlot(b, from)
    decreases MAX_TASKS - from
  {
    if from < MAX_TASKS && from != i && !(a[from].None? || a[from].value.state == Finished) {
      SameFreeSlot(a, b, i, from + 1);
    }
  }

  lemma {:induction false} KillCarriesNoFurther(s: Sys, t: Sys, es: seq<Event>)
    requires Inv(s) && Inv(t) && SameButState(s, t) && DuringBody(es) && IsRun(s, es) && IsRun(t, es)
    requires t.tasks[s.phase.slot].value.state == Finished && !Respawned(t, es, s.phase.slot)
    ensures Inv(After(s, es)) && Inv(After(t, es)) && SameButState(After(s, es), After(t, es))
    decreases |es|
  {
    if es != [] {
      assert es[0] in es;
      SameButStateStep(s, t, es[0]);
      StepKeepsInv(s, es[0]);
      StepKeepsInv(t, es[0]);
      KillCarriesNoFurther(Step(s, es[0]), Step(t, es[0]), es[1..]);
    }
  }

  /** A kill aimed at the slot whose body runs is lost, whatever else is killed, spawned or ticked
      before the commit, unless a spawn takes the slot meanwhile: the commit leaves exactly what it
      would have left without the kill. */
  lemma KillOfRunningIsLost(s: Sys, es: seq<Event>, o: Outcome)
    requires Inv(s) && s.phase.InBody? && DuringBody(es)
    ensures var killed := KillStep(s, s.phase.slot);
            && IsRun(s, es) && Inv(After(s, es)) && After(s, es).phase == s.phase
            && IsRun(killed, es) && Inv(After(killed, es)) && After(killed, es).phase == s.phase
            && (!Respawned(killed, es, s.phase.slot) ==>
                  CommitStep(After(killed, es), o) == CommitStep(After(s, es), o))
  {
    var killed := KillStep(s, s.phase.slot);
    StepKeepsInv(s, Kill(s.phase.slot));
    BodyGoesOn(s, es);
    BodyGoesOn(killed, es);
    if !Respawned(killed, es, s.phase.slot) {
      KillCarriesNoFurther(s, killed, es);
      var (a, b) := (After(s, es), After(killed, es));
      assert b.tasks[s.phase.slot := CommitStep(a, o).tasks[s.phase.slot]] == CommitStep(a, o).tasks;
    }
  }

  /** Slot i holds a task that a spawn put there and no dispatch has touched. */
  predicate Fresh(s: Sys, i: nat) {
    i < MAX_TASKS && s.tasks[i].Some? && s.tasks[i].value.func == Worker && s.tasks[i].value.runs == 0
  }

  lemma {:induction false} FreshStays(s: Sys, es: seq<Event>)
    requires Inv(s) && s.phase.InBody? && DuringBody(es) && IsRun(s, es)
    requires Fresh(s, s.phase.slot) || Respawned(s, es, s.phase.slot)
    ensures Inv(After(s, es)) && After(s, es).phase == s.phase && Fresh(After(s, es), s.phase.slot)
    decreases |es|
  {
    if es != [] {
      assert es[0] in es;
      StepKeepsInv(s, es[0]);
      FreshStays(Step(s, es[0]), es[1..]);
    }
  }

  /** That other case: a spawn into the slot whose body still runs, after a kill made it free.  The
      commit of the old body decides the state of the fresh task, which has not run: it is Finished
      at birth if the old body finished. */
  lemma SpawnIntoRunning(s: Sys, es: seq<Event>, o: Outcome)
    requires Inv(s) && s.phase.InBody? && DuringBody(es) && IsRun(s, es) && Respawned(s, es, s.phase.slot)
    ensures Inv(After(s, es)) && After(s, es).phase == s.phase
    ensures var t := CommitStep(After(s, es), o).tasks[s.phase.slot];
            t.Some? && t.value.func == Worker && t.value.runs == 0
            && t.value.state == if o.finished then Finished else Ready
  {
    FreshStays(s, es);
  }

  /** A kill aimed anywhere else takes hold: the slot is Finished, and stays as it is and
      undispatched until a spawn takes it. */
  lemma KillOfOtherHolds(s: Sys, id: nat, es: seq<Event>)
    requires Inv(s) && id < MAX_TASKS && s.tasks[id].Some? && !s.Busy(id)
    requires IsRun(KillStep(s, id), es) && !Respawned(KillStep(s, id), es, id)
    ensures After(KillStep(s, id), es).tasks[id] == Some(s.tasks[id].value.(state := Finished))
    ensures id !in Dispatched(KillStep(s, id), es)
  {
    StepKeepsInv(s, Kill(id));
    FinishedStaysPut(KillStep(s, id), es, id);
  }

  // ---- The kernel's own task bodies ----

  /** What a task function does with its context. */
  function Body(f: TaskFn, tick: nat): Outcome {
    match f
    case Idle => Outcome(true, false)
    case Worker => Outcome(true, false)
    case Logger => if tick > 128 then Outcome(false, true) else Outcome(true, false)
    case Shell => Outcome(true, false)
  }

  /** Bodies do what their functions say; only the shell kills and spawns, and only while its body
      has not yet `spent` its one command. */
  predicate KernelEvent(s: Sys, e: Event, spent: bool) {
    match e
    case Commit(o) => s.phase.InBody? && o == Body(s.phase.func, s.phase.tick)
    case Kill(_) => s.phase.InBody? && s.phase.func == Shell && !spent
    case Spawn(_) => s.phase.InBody? && s.phase.func == Shell && !spent
    case _ => true
  }

  /** Whether the running body has spent its command after an event. */
  function Spent(e: Event, spent: bool): bool {
    match e
    case Kill(_) => true
    case Spawn(_) => true
    case Tick => spent
    case _ => false
  }

  function SpentAfter(es: seq<Event>, spent: bool): bool
    decreases |es|
  {
    if es == [] then spent else SpentAfter(es[1..], Spent(es[0], spent))
  }

  predicate KernelRun(s: Sys, es: seq<Event>, spent: bool)
    requires IsRun(s, es)
    decreases |es|
  {
    es == [] || (KernelEvent(s, es[0], spent) && KernelRun(Step(s, es[0]), es[1..], Spent(es[0], spent)))
  }

  /** The slot of a running body holds the task that runs, and is Running unless the body's own
      command killed it. */
  predicate KernelInv(s: Sys, spent: bool) {
    && Inv(s)
    && (s.phase.InBody? ==>
          && s.tasks[s.phase.slot].value.func == s.phase.func
          && (s.tasks[s.phase.slot].value.state == Running
              || (spent && s.phase.func == Shell && s.tasks[s.phase.slot].value.state == Finished)))
  }

  lemma {:induction false} KernelKeepsInv(s: Sys, es: seq<Event>, spent: bool)
    requires KernelInv(s, spent) && IsRun(s, es) && KernelRun(s, es, spent)
    ensures KernelInv(After(s, es), SpentAfter(es, spent))
    decreases |es|
  {
    if es != [] {
      StepKeepsInv(s, es[0]);
      KernelKeepsInv(Step(s, es[0]), es[1..], Spent(es[0], spent));
    }
  }

  /** Once a body has spent its command only ticks are left. */
  lemma {:induction false} OnlyTicksLeft(s: Sys, es: seq<Event>)
    requires Inv(s) && s.phase.InBody? && DuringBody(es) && IsRun(s, es) && KernelRun(s, es, true)
    ensures After(s, es).tasks == s.tasks && After(s, es).phase == s.phase && Inv(After(s, es))
    decreases |es|
  {
    if es != [] {
      assert es[0] in es;
      StepKeepsInv(s, es[0]);
      OnlyTicksLeft(Step(s, es[0]), es[1..]);
    }
  }

  /** The kernel can lose one kill only: after the commit a killed slot is other than Finished if
      and only if the shell killed its own. */
  lemma OnlySelfKillIsLost(s: Sys, id: nat, spent: bool, es: seq<Event>)
    requires KernelInv(s, spent) && KernelEvent(s, Kill(id), spent) && id < MAX_TASKS && s.tasks[id].Some?
    requires DuringBody(es) && IsRun(KillStep(s, id), es) && KernelRun(KillStep(s, id), es, true)
    ensures var t := After(KillStep(s, id), es);
            && Inv(t) && t.phase == s.phase
            && var done := CommitStep(t, Body(s.phase.func, s.phase.tick)).tasks[id];
               done.Some? && (done.value.state != Finished <==> s.Busy(id) && s.tasks[id].value.func == Shell)
  {
    StepKeepsInv(s, Kill(id));
    OnlyTicksLeft(KillStep(s, id), es);
  }

  /** The boot table. */
  const BOOT_TASKS: Table :=
    [Some(NewTask("idle", Idle)), Some(NewTask("worker-a", Worker)),
     Some(NewTask("worker-b", Logger)), Some(NewTask("shell", Shell)), None, None, None, None]

  lemma KernelRunOfOneMore(s: Sys, e: Event, es: seq<Event>, spent: bool)
    requires Inv(s) && Enabled(s, e) && KernelEvent(s, e, spent)
    requires IsRun(Step(s, e), es) && KernelRun(Step(s, e), es, Spent(e, spent))
    ensures IsRun(s, [e] + es) && KernelRun(s, [e] + es, spent) && After(s, [e] + es) == After(Step(s, e), es)
    ensures SpentAfter([e] + es, spent) == SpentAfter(es, Spent(e, spent))
  {
    assert ([e] + es)[1..] == es;
  }

  /** Where slot i's turn leads when it yields. */
  function TurnTaken(s: Sys, i: nat): Sys
    requires IsReady(s.tasks, i)
  {
    var task := s.tasks[i].value;
    s.(tasks := s.tasks[i := Some(task.(runs := task.runs + 1))], current := (i + 1) % MAX_TASKS)
  }

  predicate AtTurn(s: Sys, i: nat) {
    Inv(s) && s.phase == Between && s.current == i && IsReady(s.tasks, i)
  }

  /** Slot i's body running, in its turn. */
  function InTurn(s: Sys, i: nat): Sys
    requires IsReady(s.tasks, i)
  {
    var task := s.tasks[i].value;
    s.(tasks := s.tasks[i := Some(task.(state := Running, runs := task.runs + 1))],
       phase := InBody(i, task.func, s.tick))
  }

  lemma TurnSteps(s: Sys, i: nat)
    requires AtTurn(s, i)
    ensures Step(s, Dispatch) == InTurn(s, i) && Inv(InTurn(s, i)) && Inv(KillStep(InTurn(s, i), i))
    ensures CommitStep(InTurn(s, i), Outcome(true, false)) == TurnTaken(s, i)
    ensures CommitStep(KillStep(InTurn(s, i), i), Outcome(true, false)) == TurnTaken(s, i)
  {
    NextIsNearest(s.tasks, i, 0, i);
    StepKeepsInv(s, Dispatch);
    StepKeepsInv(InTurn(s, i), Kill(i));
    assert CommitStep(InTurn(s, i), Outcome(true, false)).tasks == TurnTaken(s, i).tasks;
    assert CommitStep(KillStep(InTurn(s, i), i), Outcome(true, false)).tasks == TurnTaken(s, i).tasks;
  }

  const YIELD := Commit(Outcome(true, false))
  const TURN := [Dispatch] + ([YIELD] + [])

  lemma YieldingTurn(s: Sys, i: nat)
    requires AtTurn(s, i) && Body(s.tasks[i].value.func, s.tick) == Outcome(true, false)
    ensures IsRun(s, TURN) && KernelRun(s, TURN, false) && !SpentAfter(TURN, false)
    ensures After(s, TURN) == TurnTaken(s, i)
  {
    TurnSteps(s, i);
    KernelRunOfOneMore(InTurn(s, i), YIELD, [], false);
    KernelRunOfOneMore(s, Dispatch, [YIELD] + [], false);
  }

  function SelfKill(i: nat): seq<Event> { [Dispatch] + ([Kill(i)] + ([YIELD] + [])) }

  /** The shell's turn in which it kills itself leads exactly where its turn leads without. */
  lemma SelfKillTurn(s: Sys, i: nat)
    requires AtTurn(s, i) && s.tasks[i].value.func == Shell
    ensures IsRun(s, SelfKill(i)) && KernelRun(s, SelfKill(i), false) && !SpentAfter(SelfKill(i), false)
    ensures After(s, SelfKill(i)) == TurnTaken(s, i)
  {
    TurnSteps(s, i);
    KernelRunOfOneMore(KillStep(InTurn(s, i), i), YIELD, [], true);
    KernelRunOfOneMore(InTurn(s, i), Kill(i), [YIELD] + [], false);
    KernelRunOfOneMore(s, Dispatch, [Kill(i)] + ([YIELD] + []), false);
  }

  /** And it does lose it: after a boot and the turns of the three other tasks, `kill 3`, which the
      shell reports as done, leaves the shell Ready. */
  lemma ShellKillsItselfInVain(tick: nat)
    requires tick <= 128
    ensures var s := Sys(BOOT_TASKS, 0, tick, Between);
            var es := TURN + TURN + TURN + SelfKill(3);
            && Inv(s) && IsRun(s, es) && KernelRun(s, es, false)
            && After(s, es).tasks[3] == Some(Task("shell", Shell, Ready, 1))
  {
    var s0 := Sys(BOOT_TASKS, 0, tick, Between);
    var s1 := TurnTaken(s0, 0);
    var s2 := TurnTaken(s1, 1);
    var s3 := TurnTaken(s2, 2);
    YieldingTurn(s0, 0);
    YieldingTurn(s1, 1);
    YieldingTurn(s2, 2);
    SelfKillTurn(s3, 3);
    RunInPieces(s0, TURN, TURN, false);
    RunInPieces(s0, TURN + TURN, TURN, false);
    RunInPieces(s0, TURN + TURN + TURN, SelfKill(3), false);
  }

  lemma {:induction false} KernelNeverDelays(s: Sys, es: seq<Event>, spent: bool)
    requires Inv(s) && IsRun(s, es) && KernelRun(s, es, spent)
    ensures DelayCount(s, es) == 0
    decreases |es|
  {
    if es != [] {
      StepKeepsInv(s, es[0]);
      KernelNeverDelays(Step(s, es[0]), es[1..], Spent(es[0], spent));
    }
  }

  /** A kernel run from between two bodies leads here. */
  ghost predicate Reached(s: Sys, spent: bool) {
    exists s0: Sys, past: seq<Event> ::
      && Inv(s0) && s0.phase == Between && IsRun(s0, past) && KernelRun(s0, past, false)
      && s == After(s0, past) && spent == SpentAfter(past, false)
  }

  lemma ReachedKeepsInv(s: Sys, spent: bool)
    requires Reached(s, spent)
    ensures KernelInv(s, spent)
  {
    var s0: Sys, past: seq<Event> :|
      && Inv(s0) && s0.phase == Between && IsRun(s0, past) && KernelRun(s0, past, false)
      && s == After(s0, past) && spent == SpentAfter(past, false);
    KernelKeepsInv(s0, past, false);
  }

  /** In the kernel as it is, from any state it reaches, no Ready task waits for more than 7
      dispatches of others, and none of those gets two. */
  lemma NoStarvation(s: Sys, spent: bool, es: seq<Event>, j: nat)
    requires Reached(s, spent) && IsRun(s, es) && KernelRun(s, es, spent)
    requires IsReady(s.tasks, j) && Kill(j) !in es && j !in Dispatched(s, es)
    ensures |Dispatched(s, es)| <= 7
    ensures forall k: nat | k < MAX_TASKS :: Count(Dispatched(s, es), k) <= 1
  {
    ReachedKeepsInv(s, spent);
    KernelNeverDelays(s, es, spent);
    BoundedWaiting(s, es, j);
    forall k: nat | k < MAX_TASKS ensures Count(Dispatched(s, es), k) <= 1 {
      NoSecondTurn(s, es, j, k);
    }
  }

  /** Which of the kernel's tasks end, and when: only the logger does, in its first turn after tick
      128.  It then has no other turn. */
  lemma {:induction false} LoggerEnds(s: Sys, es: seq<Event>, spent: bool, j: nat)
    requires Inv(s) && IsRun(s, es) && KernelRun(s, es, spent) && s.tick > 128
    requires j < MAX_TASKS && s.tasks[j].Some? && s.tasks[j].value.func == Logger && !Respawned(s, es, j)
    requires s.Busy(j) ==> s.phase.func == Logger && s.phase.tick > 128
    ensures Count(Dispatched(s, es), j) + (if s.Busy(j) then 1 else 0) <= 1
    ensures (s.Busy(j) || j in Dispatched(s, es)) && !After(s, es).Busy(j) ==>
              After(s, es).tasks[j].Some? && After(s, es).tasks[j].value.state == Finished
    decreases |es|
  {
    if es != [] {
      var t := Step(s, es[0]);
      StepKeepsInv(s, es[0]);
      CountDispatched(s, es, j);
      if es[0].Commit? && s.Busy(j) {
        FinishedStaysPut(t, es[1..], j);
        CountZero(Dispatched(t, es[1..]), j);
      } else {
        LoggerEnds(t, es[1..], Spent(es[0], spent), j);
      }
    }
  }

  /** Every other task, and the logger up to then, lives on unless it is killed: it is waiting for a
      turn, or has it. */
  lemma {:induction false} OthersLiveOn(s: Sys, es: seq<Event>, spent: bool, j: nat)
    requires KernelInv(s, spent) && IsRun(s, es) && KernelRun(s, es, spent) && Alive(s, j) && Kill(j) !in es
    requires s.tasks[j].value.func == Logger ==> s.tick + TickCount(es) <= 128 && (s.Busy(j) ==> s.phase.tick <= 128)
    ensures Alive(After(s, es), j) && After(s, es).tasks[j].value.func == s.tasks[j].value.func
    decreases |es|
  {
    if es != [] {
      StepKeepsInv(s, es[0]);
      KernelKeepsInv(s, [es[0]], spent);
      OthersLiveOn(Step(s, es[0]), es[1..], Spent(es[0], spent), j);
    }
  }

  function Searches(es: seq<Event>): nat
    decreases |es|
  {
    if es == [] then 0 else (if es[0].Dispatch? then 1 else 0) + Searches(es[1..])
  }

  /** So while such a task is not killed (the idle task, say) every search finds a task to run. */
  lemma {:induction false} SearchesFind(s: Sys, es: seq<Event>, spent: bool, j: nat)
    requires KernelInv(s, spent) && IsRun(s, es) && KernelRun(s, es, spent) && Alive(s, j) && Kill(j) !in es
    requires s.tasks[j].value.func != Logger
    ensures |Dispatched(s, es)| == Searches(es)
    decreases |es|
  {
    if es != [] {
      StepKeepsInv(s, es[0]);
      KernelKeepsInv(s, [es[0]], spent);
      OthersLiveOn(s, [es[0]], spent, j);
      if es[0].Dispatch? {
        NextIsNearest(s.tasks, s.current, 0, j);
      }
      SearchesFind(Step(s, es[0]), es[1..], Spent(es[0], spent), j);
    }
  }

  lemma RunInPieces(s: Sys, a: seq<Event>, b: seq<Event>, spent: bool)
    requires Inv(s) && IsRun(s, a) && IsRun(After(s, a), b)
    requires KernelRun(s, a, spent) && KernelRun(After(s, a), b, SpentAfter(a, spent))
    ensures IsRun(s, a + b) && KernelRun(s, a + b, spent)
    ensures After(s, a + b) == After(After(s, a), b)
    ensures SpentAfter(a + b, spent) == SpentAfter(b, SpentAfter(a, spent))
  {
    RunsJoin(s, a, b);
    AfterJoin(s, a, b);
    KernelRunsJoin(s, a, b, spent);
  }

  lemma {:induction false} KernelRunsJoin(s: Sys, a: seq<Event>, b: seq<Event>, spent: bool)
    requires Inv(s) && IsRun(s, a) && IsRun(After(s, a), b) && IsRun(s, a + b)
    requires KernelRun(s, a, spent) && KernelRun(After(s, a), b, SpentAfter(a, spent))
    ensures KernelRun(s, a + b, spent)
    ensures SpentAfter(a + b, spent) == SpentAfter(b, SpentAfter(a, spent))
    decreases |a|
  {
    if a == [] {
      assert a + b == b;
    } else {
      StepKeepsInv(s, a[0]);
      assert (a + b)[0] == a[0] && (a + b)[1..] == a[1..] + b;
      KernelRunsJoin(Step(s, a[0]), a[1..], b, Spent(a[0], spent));
    }
  }
}

module Schedulers {
  import opened Machine
  import opened SchedulerModel

  datatype TaskContext = TaskContext(taskId: nat, tick: nat, yielded: bool, finished: bool)

  /** The shell command a line of input may carry to the scheduler. */
  datatype Command = KillCommand(id: nat) | SpawnCommand(name: string) | OtherCommand

  /** What happens around one iteration of `run`: timer ticks before the dispatch and, while the
      body runs, before and after the command the shell finds if it is the shell's turn. */
  datatype Turn = Turn(ticksBefore: nat, ticksDuring: nat, command: Command, ticksAfter: nat)

  function Ticks(n: nat): seq<Event> { seq(n, _ => Tick) }

  /** The calls a task body makes: at most the shell's one. */
  function Calls(func: TaskFn, command: Command): seq<Event> {
    if func != Shell then []
    else match command {
      case KillCommand(id) => [Kill(id)]
      case SpawnCommand(name) => [Spawn(name)]
      case OtherCommand => []
    }
  }

  /** The events of one iteration that runs a task. */
  function LapEvents(turn: Turn, func: TaskFn, tick: nat): seq<Event> {
    Ticks(turn.ticksBefore) + [Dispatch] + Ticks(turn.ticksDuring) + Calls(func, turn.command)
    + Ticks(turn.ticksAfter) + [Commit(Body(func, tick))]
  }

  /** The events of one iteration: those of a task's turn, or a search that finds none. */
  ghost predicate IsLap(es: seq<Event>, turn: Turn) {
    || es == Ticks(turn.ticksBefore) + [Dispatch]
    || exists func, tick :: es == LapEvents(turn, func, tick)
  }

  ghost function Concat(laps: seq<seq<Event>>): seq<Event>
    decreases |laps|
  {
    if laps == [] then [] else Concat(laps[..|laps| - 1]) + laps[|laps| - 1]
  }

  /** One lap for each of the first turns, and nothing between them. */
  ghost predicate AreLaps(es: seq<Event>, laps: seq<seq<Event>>, turns: seq<Turn>) {
    |laps| <= |turns| && es == Concat(laps) && forall i | 0 <= i < |laps| :: IsLap(laps[i], turns[i])
  }

  lemma OneMoreLap(es: seq<Event>, laps: seq<seq<Event>>, turns: seq<Turn>, lap: seq<Event>)
    requires AreLaps(es, laps, turns) && |laps| < |turns| && IsLap(lap, turns[|laps|])
    ensures AreLaps(es + lap, laps + [lap], turns)
  {
    assert (laps + [lap])[..|laps|] == laps;
  }

  class Scheduler {
    const tasks: array<Option<Task>>
    var current: nat
    /** `BOOT_TICK_COUNT` */
    var ticks: nat
    /** Whether a body is running, and what it was given. */
    ghost var phase: Phase

    ghost function State(): Sys
      requires tasks.Length == MAX_TASKS
      reads this, tasks
    {
      Sys(tasks[..], current, ticks, phase)
    }

    ghost predicate Valid()
      reads this, tasks
    {
      tasks.Length == MAX_TASKS && Inv(State())
    }

    constructor ()
      ensures Valid() && fresh(tasks)
      ensures State() == Sys(seq(MAX_TASKS, _ => None), 0, 0, Between)
    {
      tasks := new Option<Task>[MAX_TASKS](_ => None);
      current, ticks, phase := 0, 0, Between;
      new;
      assert tasks[..] == seq(MAX_TASKS, _ => None);
    }

    /** Panics, in the source, when the table is full. */
    method AddTask(name: string, func: TaskFn) returns (idx: nat)
      requires Valid()
      requires exists i | 0 <= i < MAX_TASKS :: tasks[i].None?
      modifies tasks
      ensures Valid()
      ensures idx < MAX_TASKS && old(tasks[idx]).None? && forall k | 0 <= k < idx :: old(tasks[k]).Some?
      ensures tasks[..] == old(tasks[..])[idx := Some(Task(name, func, Ready, 0))]
    {
      idx := 0;
      while tasks[idx].Some?
        invariant idx < MAX_TASKS && forall k | 0 <= k < idx :: tasks[k].Some?
        decreases MAX_TASKS - idx
      {
        idx := idx + 1;
      }
      tasks[idx] := Some(NewTask(name, func));
    }

    method NextRunnableFrom(start: nat) returns (r: Option<nat>)
      requires Valid()
      ensures r == NextFrom(tasks[..], start, 0)
    {
      for offset := 0 to MAX_TASKS
        invariant NextFrom(tasks[..], start, 0) == NextFrom(tasks[..], start, offset)
      {
        var idx := (start + offset) % MAX_TASKS;
        if tasks[idx].Some? && tasks[idx].value.state == Ready {
          return Some(idx);
        }
      }
      return None;
    }

    method PrepareNext() returns (r: Option<(nat, TaskFn, TaskContext)>)
      requires Valid() && phase == Between
      modifies this`phase, tasks
      ensures Valid() && State() == DispatchStep(old(State()))
      ensures match NextRunnable(old(State()))
              case None => r.None?
              case Some(i) =>
                var task := old(tasks[i]).value;
                && r == Some((i, task.func, TaskContext(i, ticks, false, false)))
                && tasks[..] == old(tasks[..])[i := Some(Task(task.name, task.func, Running, task.runs + 1))]
    {
      var next := NextRunnableFrom(current);
      StepKeepsInv(State(), Dispatch);
      if next.None? {
        return None;
      }
      var idx := next.value;
      var task := tasks[idx].value;
      tasks[idx] := Some(task.(state := Running, runs := task.runs + 1));
      phase := InBody(idx, task.func, ticks);
      r := Some((idx, task.func, TaskContext(idx, ticks, false, false)));
    }

    method FinishTask(idx: nat, ctx: TaskContext)
      requires Valid() && State().Busy(idx)
      modifies this`phase, this`current, tasks
      ensures Valid() && State() == CommitStep(old(State()), Outcome(ctx.yielded, ctx.finished))
      ensures tasks[idx] == Some(old(tasks[idx]).value.(state := if ctx.finished then Finished else Ready))
      ensures current == if ctx.yielded then (idx + 1) % 8 else idx
    {
      StepKeepsInv(State(), Commit(Outcome(ctx.yielded, ctx.finished)));
      var task := tasks[idx].value;
      tasks[idx] := Some(task.(state := if ctx.finished then Finished else Ready));
      current := if ctx.yielded then (idx + 1) % MAX_TASKS else idx;
      phase := Between;
    }

    method KillTask(id: nat) returns (ok: bool)
      requires Valid()
      modifies tasks
      ensures Valid() && State() == KillStep(old(State()), id)
      ensures ok <==> id < MAX_TASKS && old(tasks[..])[id].Some?
      ensures tasks[..] == if ok then old(tasks[..])[id := Some(old(tasks[id]).value.(state := Finished))]
                           else old(tasks[..])
    {
      StepKeepsInv(State(), Kill(id));
      if id < MAX_TASKS && tasks[id].Some? {
        tasks[id] := Some(tasks[id].value.(state := Finished));
        return true;
      }
      return false;
    }

    method SpawnTask(name: string) returns (r: Option<nat>)
      requires Valid()
      modifies tasks
      ensures Valid() && State() == SpawnStep(old(State()), name)
      ensures r == FreeSlot(old(tasks[..]), 0)
      ensures tasks[..] == if r.Some? then old(tasks[..])[r.value := Some(Task(name, Worker, Ready, 0))]
                           else old(tasks[..])
    {
      StepKeepsInv(State(), Spawn(name));
      for idx := 0 to MAX_TASKS
        invariant State() == old(State())
        invariant FreeSlot(tasks[..], 0) == FreeSlot(tasks[..], idx)
      {
        if tasks[idx].None? || tasks[idx].value.state == Finished {
          tasks[idx] := Some(NewTask(name, Worker));
          return Some(idx);
        }
      }
      return None;
    }

    method OnTimerTick()
      requires Valid()
      modifies this`ticks
      ensures Valid() && State() == Step(old(State()), Tick) && ticks == old(ticks) + 1
    {
      ticks := ticks + 1;
    }

    /** The boot tasks, in slots 0 to 3. */
    method Init()
      requires Valid() && phase == Between && tasks[..] == seq(MAX_TASKS, _ => None)
      modifies tasks
      ensures Valid()
      ensures tasks[..] == BOOT_TASKS
      ensures tasks[..] == [Some(Task("idle", Idle, Ready, 0)), Some(Task("worker-a", Worker, Ready, 0)),
                            Some(Task("worker-b", Logger, Ready, 0)), Some(Task("shell", Shell, Ready, 0)),
                            None, None, None, None]
    {
      assert tasks[0].None? && tasks[1].None? && tasks[2].None? && tasks[3].None?;
      var i := AddTask("idle", Idle);
      assert i == 0 && tasks[1].None?;
      i := AddTask("worker-a", Worker);
      assert i == 1 && tasks[2].None?;
      i := AddTask("worker-b", Logger);
      assert i == 2 && tasks[3].None?;
      i := AddTask("shell", Shell);
    }

    method Elapse(n: nat, ghost spent: bool) returns (ghost es: seq<Event>)
      requires Valid()
      modifies this`ticks
      ensures Valid() && IsRun(old(State()), es) && KernelRun(old(State()), es, spent)
      ensures SpentAfter(es, spent) == spent && es == Ticks(n) && ticks == old(ticks) + n
      ensures State() == After(old(State()), es) && phase == old(phase) && tasks[..] == old(tasks[..])
    {
      es := [];
      for i := 0 to n
        invariant Valid() && IsRun(old(State()), es) && KernelRun(old(State()), es, spent)
        invariant State() == After(old(State()), es) && phase == old(phase) && SpentAfter(es, spent) == spent
        invariant es == Ticks(i) && ticks == old(ticks) + i
      {
        OnTimerTick();
        assert [Tick][1..] == [];
        RunInPieces(old(State()), es, [Tick], spent);
        es := es + [Tick];
      }
    }

    /** The four task bodies; only the shell's touches the scheduler. */
    method RunBody(func: TaskFn, ctx: TaskContext, command: Command) returns (ctx': TaskContext, ghost es: seq<Event>)
      requires Valid() && phase == InBody(ctx.taskId, func, ctx.tick) && !ctx.yielded && !ctx.finished
      modifies tasks
      ensures Valid() && IsRun(old(State()), es) && KernelRun(old(State()), es, false)
      ensures State() == After(old(State()), es) && phase == old(phase)
      ensures Outcome(ctx'.yielded, ctx'.finished) == Body(func, ctx.tick)
      ensures (ctx'.finished <==> func == Logger && ctx.tick > 128) && (ctx'.yielded <==> !ctx'.finished)
      ensures es == Calls(func, command) && ticks == old(ticks)
    {
      ctx', es := ctx, [];
      match func
      case Idle => ctx' := ctx.(yielded := true);
      case Worker => ctx' := ctx.(yielded := true);
      case Logger =>
        if ctx.tick > 128 {
          ctx' := ctx.(finished := true);
          return;
        }
        ctx' := ctx.(yielded := true);
      case Shell =>
        match command {
          case KillCommand(id) =>
            es := [Kill(id)];
            assert es[1..] == [];
            var _ := KillTask(id);
          case SpawnCommand(name) =>
            es := [Spawn(name)];
            assert es[1..] == [];
            var _ := SpawnTask(name);
          case OtherCommand =>
        }
        ctx' := ctx.(yielded := true);
    }

    /** One iteration of `run`. */
    method RunOnce(turn: Turn) returns (ghost es: seq<Event>)
      requires Valid() && phase == Between
      modifies this, tasks
      ensures Valid() && phase == Between
      ensures IsRun(old(State()), es) && KernelRun(old(State()), es, false) && State() == After(old(State()), es)
      ensures !SpentAfter(es, false)
      ensures match NextRunnable(old(State()))
              case None => es == Ticks(turn.ticksBefore) + [Dispatch]
              case Some(i) => es == LapEvents(turn, old(tasks[i]).value.func, old(ticks) + turn.ticksBefore)
    {
      ghost var s0 := State();
      es := Elapse(turn.ticksBefore, false);
      ghost var s1 := State();
      var prepared := PrepareNext();
      ghost var dispatch := [Dispatch];
      assert dispatch[1..] == [] && State() == After(s1, dispatch);
      RunInPieces(s0, es, dispatch, false);
      es := es + dispatch;
      if prepared.Some? {
        var (idx, func, ctx) := prepared.value;
        ghost var during := Elapse(turn.ticksDuring, false);
        RunInPieces(s0, es, during, false);
        es := es + during;
        ghost var calls;
        ctx, calls := RunBody(func, ctx, turn.command);
        RunInPieces(s0, es, calls, false);
        es := es + calls;
        ghost var late := Elapse(turn.ticksAfter, SpentAfter(es, false));
        RunInPieces(s0, es, late, false);
        es := es + late;
        ghost var s2 := State();
        ghost var commit := [Commit(Outcome(ctx.yielded, ctx.finished))];
        FinishTask(idx, ctx);
        assert commit[1..] == [] && State() == After(s2, commit);
        RunInPieces(s0, es, commit, false);
        es := es + commit;
      }
    }

    /** Any number of iterations of the loop of `run`: the table only ever goes through kernel
        runs, so everything proved of them holds of it. */
    method Run(turns: seq<Turn>) returns (ghost es: seq<Event>, ghost laps: seq<seq<Event>>)
      requires Valid() && phase == Between
      modifies this, tasks
      ensures Valid() && phase == Between
      ensures IsRun(old(State()), es) && KernelRun(old(State()), es, false) && State() == After(old(State()), es)
      ensures !SpentAfter(es, false)
      ensures |laps| == |turns| && AreLaps(es, laps, turns)
    {
      es, laps := [], [];
      for i := 0 to |turns|
        invariant Valid() && phase == Between
        invariant IsRun(old(State()), es) && KernelRun(old(State()), es, false) && State() == After(old(State()), es)
        invariant !SpentAfter(es, false)
        invariant |laps| == i && AreLaps(es, laps, turns)
      {
        ghost var lap := RunOnce(turns[i]);
        RunInPieces(old(State()), es, lap, false);
        OneMoreLap(es, laps, turns, lap);
        es, laps := es + lap, laps + [lap];
      }
    }
  }
}
