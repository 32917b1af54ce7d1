/**
 The pooled executor over whole runs, told by the steps taken and by what stands in queues, hands and tasks.
 Each law weighs what a state holds against the steps that put something in or took it out.
 */
module PooledHistories {
  import opened Wrappers
  import opened Tasks
  import opened PooledExecutors

  // Steps, told apart by what they do to task `t` in the state they are taken in.
  datatype Deed = Queues | Consumes | Creates | Ends

  predicate Does(deed: Deed, t: TaskId, s: State, step: Step) {
    match deed
    case Queues => step == BeginSpawn(t) || step == BeginWake(t)
    case Consumes => step.Take? && step.worker < |s.workers| && s.workers[step.worker] == Holding(t)
    case Creates => step == BeginSpawn(t)
    case Ends => EndsPoll(s, step, t)
  }

  /** Worker `w` finds that its poll of the task is ready, or its poll throws. */
  predicate EndsPoll(s: State, step: Step, t: TaskId) {
    && (step.PollReady? || step.PollThrow?) && step.worker < |s.workers|
    && s.workers[step.worker].Polling? && s.workers[step.worker].task == t
  }

  /** How often the run does something to a task. */
  function Tally(deed: Deed, t: TaskId, s: State, steps: seq<Step>): nat
    decreases |steps|
  {
    if steps == [] || Apply(s, steps[0]).None? then 0
    else (if Does(deed, t, s, steps[0]) then 1 else 0) + Tally(deed, t, Apply(s, steps[0]).value, steps[1..])
  }

  // Kinds of step that are counted whatever they are about.
  datatype Kind = Spawning | Adding | Readying | Subtracting | Placing

  predicate IsOf(kind: Kind, step: Step) {
    match kind
    case Spawning => step.BeginSpawn?
    case Adding => step.CountSpawn?
    case Readying => step.PollReady?
    case Subtracting => step.CountDone?
    case Placing => step.BeginSpawn? || step.BeginWake?
  }

  function Number(kind: Kind, steps: seq<Step>): nat {
    if steps == [] then 0 else (if IsOf(kind, steps[0]) then 1 else 0) + Number(kind, steps[1..])
  }

  // What a state holds

  function Queued(queues: seq<seq<TaskId>>, t: TaskId): nat {
    if queues == [] then 0 else multiset(queues[0])[t] + Queued(queues[1..], t)
  }

  /** Entries for a task on their way to one of the first `k` queues. */
  function OnTheWay(placed: multiset<Placed>, t: TaskId, k: nat): nat {
    if k == 0 then 0 else placed[Placed(t, k - 1)] + OnTheWay(placed, t, k - 1)
  }

  function Waiting(workers: seq<Worker>, t: TaskId): nat {
    if workers == [] then 0 else (if workers[0] == Holding(t) then 1 else 0) + Waiting(workers[1..], t)
  }

  function Hands(workers: seq<Worker>, t: TaskId): nat {
    if workers == [] then 0 else (if Holds(workers[0], t) then 1 else 0) + Hands(workers[1..], t)
  }

  /** Entries for a task that nobody has consumed yet: on the way, in a queue, or just taken from one. */
  function Entries(s: State, t: TaskId): nat {
    OnTheWay(s.spawns, t, |s.queues|) + OnTheWay(s.wakes, t, |s.queues|) + Queued(s.queues, t) + Waiting(s.workers, t)
  }

  /** The places the future of a task is in: its task, and the hands of workers. */
  function Futures(s: State, t: TaskId): nat {
    (if t in s.tasks && s.tasks[t].future.Some? then 1 else 0) + Hands(s.workers, t)
  }

  lemma {:induction false} QueuedUpdate(queues: seq<seq<TaskId>>, q: nat, queue: seq<TaskId>, t: TaskId)
    requires q < |queues|
    ensures Queued(queues[q := queue], t) + multiset(queues[q])[t] == Queued(queues, t) + multiset(queue)[t]
    decreases |queues|
  {
    var next := queues[q := queue];
    if q == 0 {
      assert next[1..] == queues[1..];
    } else {
      assert next[1..] == queues[1..][q - 1 := queue];
      QueuedUpdate(queues[1..], q - 1, queue, t);
    }
  }

  lemma {:induction false} OnTheWayMore(placed: multiset<Placed>, p: Placed, t: TaskId, k: nat)
    ensures OnTheWay(placed + multiset{p}, t, k) == OnTheWay(placed, t, k) + if p.task == t && p.queue < k then 1 else 0
    decreases k
  {
    if k > 0 {
      OnTheWayMore(placed, p, t, k - 1);
    }
  }

  lemma OnTheWayLess(placed: multiset<Placed>, p: Placed, t: TaskId, k: nat)
    requires p in placed
    ensures OnTheWay(placed, t, k)
         == OnTheWay(placed - multiset{p}, t, k) + if p.task == t && p.queue < k then 1 else 0
  {
    OnTheWayMore(placed - multiset{p}, p, t, k);
    assert placed - multiset{p} + multiset{p} == placed;
  }

  lemma {:induction false} WorkersUpdate(workers: seq<Worker>, w: nat, worker: Worker, t: TaskId)
    requires w < |workers|
    ensures Waiting(workers[w := worker], t) + (if workers[w] == Holding(t) then 1 else 0)
         == Waiting(workers, t) + (if worker == Holding(t) then 1 else 0)
    ensures Hands(workers[w := worker], t) + (if Holds(workers[w], t) then 1 else 0)
         == Hands(workers, t) + (if Holds(worker, t) then 1 else 0)
    decreases |workers|
  {
    var next := workers[w := worker];
    if w == 0 {
      assert next[1..] == workers[1..];
    } else {
      assert next[1..] == workers[1..][w - 1 := worker];
      WorkersUpdate(workers[1..], w - 1, worker, t);
    }
  }

  // Entries: what is queued is consumed exactly once

  function One(b: bool): nat { if b then 1 else 0 }

  lemma SpawningKeepsEntries(s: State, step: Step, t: TaskId)
    requires |s.queues| == |s.workers| && Apply(s, step).Some?
    requires step.BeginSpawn? || step.PushSpawn? || step.CountSpawn?
    ensures var n := Apply(s, step).value;
      Entries(s, t) + One(Does(Queues, t, s, step)) == Entries(n, t) + One(Does(Consumes, t, s, step))
  {
    hide Queued, OnTheWay, Waiting, Does;
    var n := Apply(s, step).value;
    match step {
      case BeginSpawn(u) => OnTheWayMore(s.spawns, Placed(u, NextHead(s)), t, |s.queues|);
      case PushSpawn(p) =>
        OnTheWayLess(s.spawns, p, t, |s.queues|);
        QueuedUpdate(s.queues, p.queue, n.queues[p.queue], t);
      case _ =>
    }
    DeedOf(s, step, t);
  }

  lemma DeedOf(s: State, step: Step, t: TaskId)
    ensures Does(Queues, t, s, step) <==> step == BeginSpawn(t) || step == BeginWake(t)
    ensures Does(Consumes, t, s, step) <==>
            step.Take? && step.worker < |s.workers| && s.workers[step.worker] == Holding(t)
  {
  }

  lemma WakingKeepsEntries(s: State, step: Step, t: TaskId)
    requires |s.queues| == |s.workers| && Apply(s, step).Some?
    requires step.BeginWake? || step.PushWake?
    ensures var n := Apply(s, step).value;
      Entries(s, t) + One(Does(Queues, t, s, step)) == Entries(n, t) + One(Does(Consumes, t, s, step))
  {
    hide Queued, OnTheWay, Waiting, Does;
    var n := Apply(s, step).value;
    match step {
      case BeginWake(u) => OnTheWayMore(s.wakes, Placed(u, NextHead(s)), t, |s.queues|);
      case PushWake(p) =>
        OnTheWayLess(s.wakes, p, t, |s.queues|);
        QueuedUpdate(s.queues, p.queue, n.queues[p.queue], t);
    }
    DeedOf(s, step, t);
  }

  lemma TakingKeepsEntries(s: State, w: nat, q: nat, t: TaskId)
    requires w < |s.workers| && q < |s.queues| && s.queues[q] != [] && !s.workers[w].Holding?
    ensures Entries(TakeFrom(s, w, q), t) == Entries(s, t)
  {
    hide Queued, OnTheWay, Waiting;
    var first := s.queues[q][0];
    QueuedUpdate(s.queues, q, s.queues[q][1..], t);
    WorkersUpdate(s.workers, w, Holding(first), t);
    assert s.queues[q] == [first] + s.queues[q][1..];
  }

  lemma WorkingKeepsEntries(s: State, step: Step, t: TaskId)
    requires |s.queues| == |s.workers| && Apply(s, step).Some? && Works(step)
    ensures var n := Apply(s, step).value;
      Entries(s, t) + One(Does(Queues, t, s, step)) == Entries(n, t) + One(Does(Consumes, t, s, step))
  {
    hide Entries, Does;
    var n, w := Apply(s, step).value, step.worker;
    DeedOf(s, step, t);
    if step.Pop? && s.queues[w] != [] {
      TakingKeepsEntries(s, w, w, t);
    } else if step.Steal? && n.queues != s.queues {
      TakingKeepsEntries(s, w, s.workers[w].next, t);
    } else {
      WorkChanges(s, step);
      OnlyTakeReleases(s, step);
      hide Apply;
      MovedWorker(s, n, w, t);
    }
  }

  /** A step that takes nothing from a queue leaves its worker without an entry, and had one only to consume. */
  lemma OnlyTakeReleases(s: State, step: Step)
    requires Apply(s, step).Some? && Works(step) && Apply(s, step).value.queues == s.queues
    ensures var n, w := Apply(s, step).value, step.worker;
      && w < |s.workers| == |n.workers|
      && n.wakes == s.wakes && !n.workers[w].Holding? && (s.workers[w].Holding? <==> step.Take?)
  {
    hide ConsumeState, DeconsumeState;
    forall q | 0 <= q < |s.queues| && s.queues[q] != [] ensures s.queues[q := s.queues[q][1..]] != s.queues {
      assert |s.queues[q := s.queues[q][1..]][q]| == |s.queues[q]| - 1;
    }
  }

  lemma MovedWorker(s: State, n: State, w: nat, t: TaskId)
    requires w < |s.workers| == |n.workers| && n.workers == s.workers[w := n.workers[w]] && !n.workers[w].Holding?
    requires n.queues == s.queues && n.spawns == s.spawns && n.wakes == s.wakes
    ensures Entries(s, t) == Entries(n, t) + One(s.workers[w] == Holding(t))
  {
    hide Queued, OnTheWay, Waiting;
    WorkersUpdate(s.workers, w, n.workers[w], t);
  }

  lemma SizesOfMoves(s: State, w: nat)
    requires |s.queues| == |s.workers|
    ensures DoPop(s, w).Some? ==> |DoPop(s, w).value.queues| == |DoPop(s, w).value.workers| == |s.workers|
    ensures DoSteal(s, w).Some? ==> |DoSteal(s, w).value.queues| == |DoSteal(s, w).value.workers| == |s.workers|
    ensures DoTake(s, w).Some? ==> |DoTake(s, w).value.queues| == |DoTake(s, w).value.workers| == |s.workers|
  {
    hide ConsumeState;
  }

  lemma SizesStay(s: State, step: Step)
    requires |s.queues| == |s.workers| && Apply(s, step).Some?
    ensures var n := Apply(s, step).value; |n.queues| == |n.workers| == |s.workers|
  {
    hide NextHead, DeconsumeState, DoPop, DoSteal, DoTake;
    if step.Pop? || step.Steal? || step.Take? {
      SizesOfMoves(s, step.worker);
    }
  }

  lemma StepKeepsEntries(s: State, step: Step, t: TaskId)
    requires |s.queues| == |s.workers| && Apply(s, step).Some?
    ensures var n := Apply(s, step).value;
      && |n.queues| == |n.workers| == |s.workers|
      && Entries(s, t) + One(Does(Queues, t, s, step)) == Entries(n, t) + One(Does(Consumes, t, s, step))
  {
    hide Entries, Does, Apply;
    SizesStay(s, step);
    if step.BeginSpawn? || step.PushSpawn? || step.CountSpawn? {
      SpawningKeepsEntries(s, step, t);
    } else if step.BeginWake? || step.PushWake? {
      WakingKeepsEntries(s, step, t);
    } else {
      WorkingKeepsEntries(s, step, t);
    }
  }

  lemma {:induction false} RunKeepsEntries(s: State, steps: seq<Step>, t: TaskId)
    requires |s.queues| == |s.workers| && Run(s, steps).Some?
    ensures Entries(s, t) + Tally(Queues, t, s, steps)
         == Entries(Run(s, steps).value, t) + Tally(Consumes, t, s, steps)
    decreases |steps|
  {
    hide Entries, Does, Apply;
    if steps != [] {
      StepKeepsEntries(s, steps[0], t);
      RunKeepsEntries(Apply(s, steps[0]).value, steps[1..], t);
    }
  }

  lemma {:induction false} NothingQueued(queues: seq<seq<TaskId>>, t: TaskId)
    requires forall k :: 0 <= k < |queues| ==> queues[k] == []
    ensures Queued(queues, t) == 0
  {
    if queues != [] {
      NothingQueued(queues[1..], t);
    }
  }

  lemma {:induction false} NobodyBusy(workers: seq<Worker>, t: TaskId)
    requires forall k :: 0 <= k < |workers| ==> workers[k] == Idle
    ensures Waiting(workers, t) == 0 && Hands(workers, t) == 0
  {
    if workers != [] {
      NobodyBusy(workers[1..], t);
    }
  }

  lemma NothingAtFirst(n: nat, t: TaskId)
    ensures Entries(Init(n), t) == 0 && Futures(Init(n), t) == 0
  {
    NothingQueued(Init(n).queues, t);
    NobodyBusy(Init(n).workers, t);
    NothingOnTheWay(t, n);
  }

  lemma {:induction false} NothingOnTheWay(t: TaskId, k: nat)
    ensures OnTheWay(multiset{}, t, k) == 0
  {
    if k > 0 {
      NothingOnTheWay(t, k - 1);
    }
  }

  /** No entry is lost or made up: each spawn and each wake-up of a task is on its way, in a queue, just taken
      from one, or has led to exactly one attempt to consume the task. */
  lemma EntriesConserved(n: nat, steps: seq<Step>, s: State, t: TaskId)
    requires Run(Init(n), steps) == Some(s)
    ensures Tally(Queues, t, Init(n), steps) == Entries(s, t) + Tally(Consumes, t, Init(n), steps)
  {
    RunKeepsEntries(Init(n), steps, t);
    NothingAtFirst(n, t);
    hide Entries, Tally, Run;
  }

  predicate Pushes(step: Step) { step.PushSpawn? || step.PushWake? }

  predicate Works(step: Step) {
    step.Pop? || step.Steal? || step.Take? || step.PollPending? || step.PollReady? || step.PollThrow?
    || step.Return? || step.CountDone?
  }

  /** The queue gains the placed entry at its back. */
  predicate GainsBack(s: State, step: Step, n: State, q: nat)
    requires q < |s.queues| == |n.queues|
  {
    Pushes(step) && step.placed.queue == q && n.queues[q] == s.queues[q] + [step.placed.task]
  }

  /** The queue loses the entry in front, to the worker that takes it. */
  predicate LosesFront(s: State, step: Step, n: State, q: nat)
    requires q < |s.queues| == |n.queues|
  {
    && (step.Pop? || step.Steal?) && step.worker < |n.workers| && s.queues[q] != []
    && n.queues[q] == s.queues[q][1..] && n.workers[step.worker] == Holding(s.queues[q][0])
  }

  lemma WorkIsFifo(s: State, step: Step, q: nat)
    requires Apply(s, step).Some? && q < |s.queues| && Works(step)
    ensures var n := Apply(s, step).value;
      |n.queues| == |s.queues| && (n.queues[q] == s.queues[q] || LosesFront(s, step, n, q))
  {
    hide ConsumeState, DeconsumeState;
  }

  /** A queue only ever gains an entry at its back or loses the one in front. */
  lemma QueuesAreFifo(s: State, step: Step, q: nat)
    requires Apply(s, step).Some? && q < |s.queues|
    ensures var n := Apply(s, step).value;
      && |n.queues| == |s.queues|
      && (n.queues[q] == s.queues[q] || GainsBack(s, step, n, q) || LosesFront(s, step, n, q))
  {
    if Works(step) {
      hide Apply, LosesFront;
      WorkIsFifo(s, step, q);
    } else {
      hide LosesFront, NextHead;
    }
  }

  // Futures: each is in one place until its poll ends

  lemma WorkerKeepsFutures(s: State, step: Step, t: TaskId)
    requires Apply(s, step).Some?
    requires step.Pop? || step.Steal? || step.PollPending? || step.PollReady? || step.PollThrow? || step.CountDone?
    ensures Futures(s, t) == Futures(Apply(s, step).value, t) + One(EndsPoll(s, step, t))
  {
    hide Hands;
    var n := Apply(s, step).value;
    WorkChanges(s, step);
    WorkersUpdate(s.workers, step.worker, n.workers[step.worker], t);
    HandsChange(s, step, t);
    hide Apply;
  }

  lemma HandsChange(s: State, step: Step, t: TaskId)
    requires Apply(s, step).Some?
    requires step.Pop? || step.Steal? || step.PollPending? || step.PollReady? || step.PollThrow? || step.CountDone?
    ensures var n, w := Apply(s, step).value, step.worker;
      && w < |s.workers| == |n.workers| && n.tasks == s.tasks
      && One(Holds(s.workers[w], t)) == One(Holds(n.workers[w], t)) + One(EndsPoll(s, step, t))
  {
  }

  lemma TakeKeepsFutures(s: State, w: nat, t: TaskId)
    requires Invariant(s) && DoTake(s, w).Some?
    ensures Futures(DoTake(s, w).value, t) == Futures(s, t)
  {
    var n, u := DoTake(s, w).value, s.workers[w].task;
    WorkersUpdate(s.workers, w, n.workers[w], t);
    assert TaskInvariant(s, u);
    hide Hands, Invariant, TaskInvariant, Held;
  }

  lemma ReturnKeepsFutures(s: State, w: nat, t: TaskId)
    requires Invariant(s) && DoReturn(s, w).Some?
    ensures Futures(DoReturn(s, w).value, t) == Futures(s, t)
  {
    var n, u := DoReturn(s, w).value, s.workers[w].task;
    WorkersUpdate(s.workers, w, n.workers[w], t);
    assert Holds(s.workers[w], u) && Held(s, u) && TaskInvariant(s, u);
    hide Hands, Invariant, TaskInvariant, Held;
  }

  lemma SpawningKeepsFutures(s: State, step: Step, t: TaskId)
    requires Apply(s, step).Some? && !Works(step)
    ensures Futures(s, t) + One(step == BeginSpawn(t)) == Futures(Apply(s, step).value, t)
  {
    hide Hands, NextHead;
  }

  lemma StepKeepsFutures(s: State, step: Step, t: TaskId)
    requires Invariant(s) && Apply(s, step).Some?
    ensures var n := Apply(s, step).value;
      Futures(s, t) + One(Does(Creates, t, s, step)) == Futures(n, t) + One(Does(Ends, t, s, step))
  {
    if step.Take? {
      hide Invariant, Futures, DoTake;
      TakeKeepsFutures(s, step.worker, t);
    } else if step.Return? {
      hide Invariant, Futures, DoReturn;
      ReturnKeepsFutures(s, step.worker, t);
    } else if step.Pop? || step.Steal? || step.PollPending? || step.PollReady? || step.PollThrow? || step.CountDone? {
      hide Invariant, Futures, Apply;
      WorkerKeepsFutures(s, step, t);
    } else {
      hide Invariant, Futures, Apply;
      SpawningKeepsFutures(s, step, t);
    }
  }

  lemma {:induction false} RunKeepsFutures(s: State, steps: seq<Step>, t: TaskId)
    requires Invariant(s) && Run(s, steps).Some?
    ensures Futures(s, t) + Tally(Creates, t, s, steps)
         == Futures(Run(s, steps).value, t) + Tally(Ends, t, s, steps)
    decreases |steps|
  {
    hide Futures, Does, Apply, Invariant;
    if steps != [] {
      StepKeepsFutures(s, steps[0], t);
      StepKeeps(s, steps[0]);
      RunKeepsFutures(Apply(s, steps[0]).value, steps[1..], t);
    }
  }

  /** The future of a spawned task is in exactly one place, its task or the hands of one worker, until a poll of
      it is ready or throws; from then on it is nowhere. */
  lemma FuturesConserved(n: nat, steps: seq<Step>, s: State, t: TaskId)
    requires Run(Init(n), steps) == Some(s)
    ensures Tally(Creates, t, Init(n), steps) == Futures(s, t) + Tally(Ends, t, Init(n), steps)
  {
    InitInvariant(n);
    RunKeepsFutures(Init(n), steps, t);
    NothingAtFirst(n, t);
    hide Futures, Tally, Run;
  }

  /** Once a poll of a task was ready or threw, no worker ever polls it again and its future never comes back,
      however often it is woken. */
  lemma EndedForGood(n: nat, s: State, step: Step, next: State, steps: seq<Step>, later: State, t: TaskId, w: nat)
    requires Reachable(n, s) && EndsPoll(s, step, t) && Apply(s, step) == Some(next)
    requires Run(next, steps) == Some(later)
    ensures w < |later.workers| ==> !Holds(later.workers[w], t)
    ensures t in later.tasks && later.tasks[t].future == None
  {
    hide Reachable, Run, Apply, EndsPoll, Invariant, Holds;
    ReachableStep(n, s, step, next);
    ReachableInvariant(n, s);
    EndIsMarked(s, step, next, t);
    NeverPolledAgain(n, next, steps, t, w);
    ReachableInvariant(n, next);
    RunKeeps(next, steps);
    RunKeepsFinished(next, steps);
    FutureGone(later, t);
  }

  lemma EndIsMarked(s: State, step: Step, next: State, t: TaskId)
    requires Invariant(s) && EndsPoll(s, step, t) && Apply(s, step) == Some(next)
    ensures t in next.finished || t in next.failed
  {
    hide Invariant;
  }

  lemma FutureGone(s: State, t: TaskId)
    requires Invariant(s) && (t in s.finished || t in s.failed)
    ensures t in s.tasks && s.tasks[t].future == None
  {
    hide OneHolder, Balanced, QueuesKnown, PlacedKnown;
    assert t in s.tasks;
    assert TaskInvariant(s, t);
  }

  /** A worker that tries to consume a task polls it exactly when the task still has its future. */
  lemma ConsumedWhenPresent(n: nat, s: State, w: nat)
    requires Reachable(n, s) && w < |s.workers| && s.workers[w].Holding?
    ensures var t := s.workers[w].task; var next := Apply(s, Take(w));
      && t in s.tasks && next.Some?
      && next.value.workers[w] == if s.tasks[t].future.Some? then Polling(t, t) else Idle
  {
    ReachableInvariant(n, s);
    Knows(s, w);
    assert TaskInvariant(s, s.workers[w].task);
  }

  // The counter

  predicate Counted(s: State, step: Step, n: State) {
    && n.running == s.running + One(IsOf(Adding, step)) - One(IsOf(Subtracting, step))
    && Uncounted(n.workers) == Uncounted(s.workers) + One(IsOf(Readying, step)) - One(IsOf(Subtracting, step))
    && |n.spawns| + |n.counts| == |s.spawns| + |s.counts| + One(IsOf(Spawning, step)) - One(IsOf(Adding, step))
  }

  lemma WorkCounts(s: State, step: Step)
    requires Apply(s, step).Some? && Works(step)
    ensures Counted(s, step, Apply(s, step).value)
  {
    hide Apply, Uncounted;
    WorkChanges(s, step);
    var n, w := Apply(s, step).value, step.worker;
    UncountedUpdate(s.workers, w, n.workers[w]);
  }

  /** What a worker's step does to the counter and to the workers that still have to subtract. */
  lemma WorkChanges(s: State, step: Step)
    requires Apply(s, step).Some? && Works(step)
    ensures var n, w := Apply(s, step).value, step.worker;
      && w < |s.workers| == |n.workers| && n.workers == s.workers[w := n.workers[w]]
      && n.spawns == s.spawns && n.counts == s.counts
      && n.running == (if step.CountDone? then s.running - 1 else s.running)
      && (n.workers[w].Counting? <==> step.PollReady?) && (s.workers[w].Counting? <==> step.CountDone?)
  {
    hide ConsumeState, DeconsumeState;
  }

  lemma StepCounts(s: State, step: Step)
    requires Apply(s, step).Some?
    ensures Counted(s, step, Apply(s, step).value)
  {
    if Works(step) {
      hide Apply, Counted;
      WorkCounts(s, step);
    } else {
      hide Uncounted, NextHead;
    }
  }

  lemma {:induction false} RunCounts(s: State, steps: seq<Step>)
    requires Run(s, steps).Some?
    ensures var n := Run(s, steps).value;
      && n.running == s.running + Number(Adding, steps) - Number(Subtracting, steps)
      && Uncounted(n.workers) == Uncounted(s.workers) + Number(Readying, steps) - Number(Subtracting, steps)
      && |n.spawns| + |n.counts| == |s.spawns| + |s.counts| + Number(Spawning, steps) - Number(Adding, steps)
    decreases |steps|
  {
    hide Apply, Uncounted, IsOf;
    if steps != [] {
      StepCounts(s, steps[0]);
      RunCounts(Apply(s, steps[0]).value, steps[1..]);
    }
  }

  /** The counter is the number of additions less the subtractions; the subtractions are the polls that were
      ready, but for workers still to subtract, and the additions the spawns, but for those still to be added. */
  lemma CounterCountsSteps(n: nat, steps: seq<Step>, s: State)
    requires Run(Init(n), steps) == Some(s)
    ensures s.running == Number(Adding, steps) - Number(Subtracting, steps)
    ensures Number(Readying, steps) == Number(Subtracting, steps) + Uncounted(s.workers)
    ensures Number(Spawning, steps) == Number(Adding, steps) + |s.spawns| + |s.counts|
  {
    RunCounts(Init(n), steps);
    UncountedIdle(n);
  }

  // The queues take turns

  /** The worker whose turn comes after `k` others. */
  function Turn(k: nat, n: nat): (t: nat)
    requires n > 0
    ensures t < n
  {
    k % n
  }

  lemma {:induction false} NextTurn(k: nat, n: nat)
    requires n > 0
    ensures Turn(0, n) == 0
    ensures Turn(k + 1, n) == if Turn(k, n) + 1 >= n then 0 else Turn(k, n) + 1
  {
    var q, r := k / n, k % n;
    assert k == q * n + r;
    ModIs(0, 0, 0, n);
    if r + 1 >= n {
      assert k + 1 == (q + 1) * n;
      ModIs(k + 1, q + 1, 0, n);
    } else {
      ModIs(k + 1, q, r + 1, n);
    }
  }

  lemma ModIs(a: nat, q: nat, r: nat, n: nat)
    requires n > 0 && a == q * n + r && r < n
    ensures a % n == r
  {
    var d := a / n - q;
    assert a == a / n * n + a % n;
    assert d * n == a / n * n - q * n;
    Multiple(d, n);
  }

  lemma Multiple(d: int, n: int)
    requires n > 0
    ensures d >= 1 ==> d * n >= n
    ensures d <= -1 ==> d * n <= -n
  {
  }

  lemma {:induction false} RunTakesTurns(s: State, k: nat, steps: seq<Step>)
    requires Run(s, steps).Some? && |s.workers| > 0 && s.spawnHead == Turn(k, |s.workers|)
    ensures var n := Run(s, steps).value;
      && |n.workers| == |s.workers|
      && n.spawnHead == Turn(k + Number(Placing, steps), |s.workers|)
    decreases |steps|
  {
    hide Apply, IsOf, Turn;
    if steps != [] {
      StepMovesHead(s, steps[0]);
      NextTurn(k, |s.workers|);
      RunTakesTurns(Apply(s, steps[0]).value, k + One(IsOf(Placing, steps[0])), steps[1..]);
    }
  }

  lemma StepMovesHead(s: State, step: Step)
    requires Apply(s, step).Some?
    ensures var n := Apply(s, step).value;
      |n.workers| == |s.workers| && n.spawnHead == if IsOf(Placing, step) then NextHead(s) else s.spawnHead
  {
    hide NextHead, DeconsumeState, DoPop, DoSteal, DoTake;
    if step.Pop? || step.Steal? || step.Take? {
      MovesKeepHead(s, step.worker);
    }
  }

  lemma MovesKeepHead(s: State, w: nat)
    ensures DoPop(s, w).Some? ==>
              DoPop(s, w).value.spawnHead == s.spawnHead && |DoPop(s, w).value.workers| == |s.workers|
    ensures DoSteal(s, w).Some? ==>
              DoSteal(s, w).value.spawnHead == s.spawnHead && |DoSteal(s, w).value.workers| == |s.workers|
    ensures DoTake(s, w).Some? ==>
              DoTake(s, w).value.spawnHead == s.spawnHead && |DoTake(s, w).value.workers| == |s.workers|
  {
    hide ConsumeState;
  }

  /** The k-th task queued, spawned or woken, goes to queue k modulo the number of workers. */
  lemma QueuesTakeTurns(n: nat, steps: seq<Step>, s: State, t: TaskId)
    requires n > 0 && Run(Init(n), steps) == Some(s)
    ensures var turn := Turn(Number(Placing, steps) + 1, n);
      && (t !in s.tasks ==>
            && Apply(s, BeginSpawn(t)).Some?
            && Apply(s, BeginSpawn(t)).value.spawns == s.spawns + multiset{Placed(t, turn)})
      && (t in s.tasks ==>
            && Apply(s, BeginWake(t)).Some?
            && Apply(s, BeginWake(t)).value.wakes == s.wakes + multiset{Placed(t, turn)})
  {
    NextTurn(Number(Placing, steps), n);
    RunTakesTurns(Init(n), 0, steps);
    hide Run, Number, Turn;
  }

  // Stealing

  function Searching(w: nat, k: nat): seq<Step> {
    if k == 0 then [] else [Steal(w)] + Searching(w, k - 1)
  }

  /** The queues from `from` to before `q` have nothing for worker `w` to steal. */
  predicate NothingToSteal(s: State, w: nat, from: nat, q: nat) {
    q <= |s.queues| && forall j :: from <= j < q ==> j == w || s.queues[j] == []
  }

  /** A worker looking for work takes the front of the first other queue that has any. */
  lemma {:induction false} StealFinds(s: State, w: nat, from: nat, q: nat)
    requires w < |s.workers| && s.workers[w] == Stealing(from) && from <= q < |s.queues| && q != w
    requires NothingToSteal(s, w, from, q) && s.queues[q] != []
    ensures Run(s, Searching(w, q - from + 1)) == Some(TakeFrom(s, w, q))
    decreases q - from
  {
    var steps := Searching(w, q - from + 1);
    assert steps[0] == Steal(w) && steps[1..] == Searching(w, q - from);
    if from < q {
      var next := Become(s, w, Stealing(from + 1));
      assert Apply(s, Steal(w)) == Some(next);
      StealFinds(next, w, from + 1, q);
      assert TakeFrom(next, w, q) == TakeFrom(s, w, q);
    } else {
      assert Apply(s, Steal(w)) == Some(TakeFrom(s, w, q));
    }
  }

  /** So an idle worker with an empty queue gets to the front of the first other queue that has any. */
  lemma IdleFinds(s: State, w: nat, q: nat)
    requires w < |s.workers| == |s.queues| && s.workers[w] == Idle && s.queues[w] == []
    requires q < |s.queues| && NothingToSteal(s, w, 0, q) && s.queues[q] != []
    ensures var steps := [Pop(w)] + Searching(w, q + 1);
      && Run(s, steps).Some?
      && Run(s, steps).value.workers == s.workers[w := Holding(s.queues[q][0])]
      && Run(s, steps).value.queues == s.queues[q := s.queues[q][1..]]
  {
    var next := Become(s, w, Stealing(0));
    assert Apply(s, Pop(w)) == Some(next);
    StealFinds(next, w, 0, q);
    var steps := [Pop(w)] + Searching(w, q + 1);
    assert steps[0] == Pop(w) && steps[1..] == Searching(w, q + 1);
  }
}
