/**
 The pooled executor as a protocol: workers, spawning threads and wake-ups interleave at the
 granularity of the locks.  `Apply` is one step; a run is any sequence of steps.

 `finished` and `failed` record which tasks polled ready or threw; nothing reads them.
 */
module PooledExecutors {
  import opened Wrappers
  import opened Tasks

  type TaskId = nat

  // A task on its way to queue `queue`.
  datatype Placed = Placed(task: TaskId, queue: nat)

  datatype Worker =
    | Idle
    | Stealing(next: nat)
    | Holding(task: TaskId)
    | Polling(task: TaskId, future: Future)
    | PutBack(task: TaskId, future: Future)
    | Counting(task: TaskId)
    | Crashed

  datatype State = State(
    tasks: map<TaskId, TaskState>,
    queues: seq<seq<TaskId>>,
    spawnHead: nat,
    running: int,
    workers: seq<Worker>,
    spawns: multiset<Placed>,
    counts: multiset<TaskId>,
    wakes: multiset<Placed>,
    finished: set<TaskId>,
    failed: set<TaskId>)

  datatype Step =
    | BeginSpawn(task: TaskId)
    | PushSpawn(placed: Placed)
    | CountSpawn(task: TaskId)
    | BeginWake(task: TaskId)
    | PushWake(placed: Placed)
    | Pop(worker: nat)
    | Steal(worker: nat)
    | Take(worker: nat)
    | PollPending(worker: nat)
    | PollReady(worker: nat)
    | PollThrow(worker: nat)
    | Return(worker: nat)
    | CountDone(worker: nat)

  function Init(workers: nat): State {
    State(map[], seq(workers, _ => []), 0, 0, seq(workers, _ => Idle),
          multiset{}, multiset{}, multiset{}, {}, {})
  }

  /** The next queue in turn. */
  function NextHead(s: State): nat {
    if s.spawnHead + 1 >= |s.workers| then 0 else s.spawnHead + 1
  }

  function Push(s: State, p: Placed): State
    requires p.queue < |s.queues|
  {
    s.(queues := s.queues[p.queue := s.queues[p.queue] + [p.task]])
  }

  function Become(s: State, w: nat, worker: Worker): State
    requires w < |s.workers|
  {
    s.(workers := s.workers[w := worker])
  }

  /** Takes the first task of queue `q` into worker `w`. */
  function TakeFrom(s: State, w: nat, q: nat): State
    requires w < |s.workers| && q < |s.queues| && s.queues[q] != []
  {
    Become(s.(queues := s.queues[q := s.queues[q][1..]]), w, Holding(s.queues[q][0]))
  }

  // One function for each step; nothing when the step cannot happen.

  function DoBeginSpawn(s: State, t: TaskId): Option<State> {
    if t in s.tasks || |s.workers| == 0 then None
    else Some(s.(tasks := s.tasks[t := TaskState(Some(t), false, false)],
                 spawnHead := NextHead(s), spawns := s.spawns + multiset{Placed(t, NextHead(s))}))
  }

  function DoPushSpawn(s: State, p: Placed): Option<State> {
    if p !in s.spawns || p.queue >= |s.queues| then None
    else Some(Push(s, p).(spawns := s.spawns - multiset{p}, counts := s.counts + multiset{p.task}))
  }

  function DoCountSpawn(s: State, t: TaskId): Option<State> {
    if t !in s.counts then None else Some(s.(counts := s.counts - multiset{t}, running := s.running + 1))
  }

  function DoBeginWake(s: State, t: TaskId): Option<State> {
    if t !in s.tasks || |s.workers| == 0 then None
    else Some(s.(spawnHead := NextHead(s), wakes := s.wakes + multiset{Placed(t, NextHead(s))}))
  }

  function DoPushWake(s: State, p: Placed): Option<State> {
    if p !in s.wakes || p.queue >= |s.queues| then None
    else Some(Push(s, p).(wakes := s.wakes - multiset{p}))
  }

  function DoPop(s: State, w: nat): Option<State> {
    if w >= |s.workers| || w >= |s.queues| || s.workers[w] != Idle then None
    else if s.queues[w] == [] then Some(Become(s, w, Stealing(0)))
    else Some(TakeFrom(s, w, w))
  }

  function DoSteal(s: State, w: nat): Option<State> {
    if w >= |s.workers| || !s.workers[w].Stealing? then None
    else
      var q := s.workers[w].next;
      if q >= |s.queues| then Some(Become(s, w, Idle))
      else if q == w || s.queues[q] == [] then Some(Become(s, w, Stealing(q + 1)))
      else Some(TakeFrom(s, w, q))
  }

  /** The worker consumes the task it holds.  Going on without a future would poll through a null pointer. */
  function DoTake(s: State, w: nat): Option<State> {
    if w >= |s.workers| || !s.workers[w].Holding? || s.workers[w].task !in s.tasks then None
    else
      var t := s.workers[w].task;
      var c := ConsumeState(s.tasks[t]);
      if !c.ok then Some(Become(s.(tasks := s.tasks[t := c.task]), w, Idle))
      else if c.out.None? then Some(Become(s.(tasks := s.tasks[t := c.task]), w, Crashed))
      else Some(Become(s.(tasks := s.tasks[t := c.task]), w, Polling(t, c.out.value)))
  }

  function DoPollPending(s: State, w: nat): Option<State> {
    if w >= |s.workers| || !s.workers[w].Polling? then None
    else Some(Become(s, w, PutBack(s.workers[w].task, s.workers[w].future)))
  }

  function DoPollReady(s: State, w: nat): Option<State> {
    if w >= |s.workers| || !s.workers[w].Polling? then None
    else Some(Become(s, w, Counting(s.workers[w].task)).(finished := s.finished + {s.workers[w].task}))
  }

  function DoPollThrow(s: State, w: nat): Option<State> {
    if w >= |s.workers| || !s.workers[w].Polling? then None
    else Some(Become(s, w, Idle).(failed := s.failed + {s.workers[w].task}))
  }

  function DoReturn(s: State, w: nat): Option<State> {
    if w >= |s.workers| || !s.workers[w].PutBack? || s.workers[w].task !in s.tasks then None
    else
      var t := s.workers[w].task;
      Some(Become(s.(tasks := s.tasks[t := DeconsumeState(s.tasks[t], s.workers[w].future)]), w, Idle))
  }

  function DoCountDone(s: State, w: nat): Option<State> {
    if w >= |s.workers| || !s.workers[w].Counting? then None
    else Some(Become(s, w, Idle).(running := s.running - 1))
  }

  function Apply(s: State, step: Step): Option<State> {
    match step
    case BeginSpawn(t) => DoBeginSpawn(s, t)
    case PushSpawn(p) => DoPushSpawn(s, p)
    case CountSpawn(t) => DoCountSpawn(s, t)
    case BeginWake(t) => DoBeginWake(s, t)
    case PushWake(p) => DoPushWake(s, p)
    case Pop(w) => DoPop(s, w)
    case Steal(w) => DoSteal(s, w)
    case Take(w) => DoTake(s, w)
    case PollPending(w) => DoPollPending(s, w)
    case PollReady(w) => DoPollReady(s, w)
    case PollThrow(w) => DoPollThrow(s, w)
    case Return(w) => DoReturn(s, w)
    case CountDone(w) => DoCountDone(s, w)
  }

  function Run(s: State, steps: seq<Step>): Option<State>
    decreases |steps|
  {
    if steps == [] then Some(s)
    else
      match Apply(s, steps[0])
      case None => None
      case Some(next) => Run(next, steps[1..])
  }

  predicate Holds(w: Worker, t: TaskId) {
    (w.Polling? || w.PutBack?) && w.task == t
  }

  /** Some worker has the future of task `t` in its hands. */
  ghost predicate Held(s: State, t: TaskId) {
    exists w :: 0 <= w < |s.workers| && Holds(s.workers[w], t)
  }

  ghost predicate TaskInvariant(s: State, t: TaskId)
    requires t in s.tasks
  {
    var task := s.tasks[t];
    && task.stale == task.inUse
    && task.future == (if task.inUse then None else Some(t))
    && (task.inUse <==> Held(s, t) || t in s.finished || t in s.failed)
    && !(t in s.finished && t in s.failed)
    && (t in s.finished || t in s.failed ==> !Held(s, t))
  }

  ghost predicate TasksInvariant(s: State) {
    forall t | t in s.tasks :: TaskInvariant(s, t)
  }

  ghost predicate OneHolder(s: State) {
    forall v, w, t | 0 <= v < |s.workers| && 0 <= w < |s.workers| && Holds(s.workers[v], t) && Holds(s.workers[w], t) ::
      v == w
  }

  ghost predicate QueuesKnown(s: State) {
    && |s.queues| == |s.workers|
    && forall q, t | 0 <= q < |s.queues| && t in s.queues[q] :: t in s.tasks
  }

  ghost predicate PlacedKnown(s: State, placed: multiset<Placed>) {
    forall p | p in placed :: p.task in s.tasks && p.queue < |s.workers|
  }

  ghost predicate WorkersKnown(s: State) {
    && s.finished <= s.tasks.Keys && s.failed <= s.tasks.Keys
    && forall w | 0 <= w < |s.workers| :: WorkerKnows(s, s.workers[w])
  }

  ghost predicate WorkerKnows(s: State, w: Worker) {
    match w
    case Idle => true
    case Stealing(_) => true
    case Holding(t) => t in s.tasks
    case Polling(t, f) => t in s.tasks && f == t
    case PutBack(t, f) => t in s.tasks && f == t
    case Counting(t) => t in s.finished
    case Crashed => false
  }

  /** Completions a worker has seen but not yet subtracted. */
  function Uncounted(workers: seq<Worker>): nat {
    if workers == [] then 0 else (if workers[0].Counting? then 1 else 0) + Uncounted(workers[1..])
  }

  /** The shared counter is off from the number of unfinished tasks by exactly the spawns and completions
      that are still on their way to it. */
  ghost predicate Balanced(s: State) {
    s.running + |s.spawns| + |s.counts| - Uncounted(s.workers) == |s.tasks.Keys| - |s.finished|
  }

  ghost predicate Invariant(s: State) {
    && QueuesKnown(s) && WorkersKnown(s) && PlacedKnown(s, s.spawns) && PlacedKnown(s, s.wakes)
    && OneHolder(s)
    && TasksInvariant(s)
    && Balanced(s)
  }

  lemma {:induction false} UncountedUpdate(workers: seq<Worker>, w: nat, worker: Worker)
    requires w < |workers|
    ensures Uncounted(workers[w := worker]) + (if workers[w].Counting? then 1 else 0)
            == Uncounted(workers) + (if worker.Counting? then 1 else 0)
  {
    var next := workers[w := worker];
    if w == 0 {
      assert next[1..] == workers[1..];
    } else {
      assert next[1..] == workers[1..][w - 1 := worker];
      UncountedUpdate(workers[1..], w - 1, worker);
    }
  }

  lemma {:induction false} UncountedIdle(n: nat)
    ensures Uncounted(seq(n, _ => Idle)) == 0
  {
    if n > 0 {
      assert seq(n, _ => Idle)[1..] == seq(n - 1, _ => Idle);
      UncountedIdle(n - 1);
    }
  }

  lemma InitInvariant(workers: nat)
    ensures Invariant(Init(workers))
  {
    UncountedIdle(workers);
  }

  // Each part of the invariant, under a change of one queue, one worker or one set of placements.

  lemma QueuesKnownPush(s: State, n: State, p: Placed)
    requires QueuesKnown(s) && p.queue < |s.queues| && p.task in s.tasks
    requires n.queues == s.queues[p.queue := s.queues[p.queue] + [p.task]]
    requires |n.workers| == |s.workers| && s.tasks.Keys <= n.tasks.Keys
    ensures QueuesKnown(n)
  {
  }

  lemma QueuesKnownTake(s: State, n: State, q: nat)
    requires QueuesKnown(s) && q < |s.queues| && s.queues[q] != []
    requires n.queues == s.queues[q := s.queues[q][1..]]
    requires |n.workers| == |s.workers| && s.tasks.Keys <= n.tasks.Keys
    ensures QueuesKnown(n) && s.queues[q][0] in s.tasks
  {
  }

  lemma QueuesKnownSame(s: State, n: State)
    requires QueuesKnown(s) && n.queues == s.queues
    requires |n.workers| == |s.workers| && s.tasks.Keys <= n.tasks.Keys
    ensures QueuesKnown(n)
  {
  }

  lemma PlacedKnownMore(s: State, n: State, before: multiset<Placed>, after: multiset<Placed>, p: Placed)
    requires PlacedKnown(s, before) && after <= before + multiset{p}
    requires p in before || (p.task in n.tasks && p.queue < |n.workers|)
    requires |n.workers| == |s.workers| && s.tasks.Keys <= n.tasks.Keys
    ensures PlacedKnown(n, after)
  {
    forall q | q in after ensures q.task in n.tasks && q.queue < |n.workers| {
      assert q in before || q == p;
    }
  }

  lemma WorkersKnownUpdate(s: State, n: State, w: nat, worker: Worker)
    requires WorkersKnown(s) && w < |s.workers| && n.workers == s.workers[w := worker]
    requires s.tasks.Keys <= n.tasks.Keys && s.finished <= n.finished
    requires n.finished <= n.tasks.Keys && n.failed <= n.tasks.Keys && WorkerKnows(n, worker)
    ensures WorkersKnown(n)
  {
    forall v | 0 <= v < |n.workers| ensures WorkerKnows(n, n.workers[v]) {
      assert v != w ==> n.workers[v] == s.workers[v] && WorkerKnows(s, s.workers[v]);
    }
  }

  lemma WorkersKnownSame(s: State, n: State)
    requires WorkersKnown(s) && n.workers == s.workers
    requires s.tasks.Keys <= n.tasks.Keys && s.finished == n.finished && s.failed == n.failed
    ensures WorkersKnown(n)
  {
    forall v | 0 <= v < |n.workers| ensures WorkerKnows(n, n.workers[v]) {
      assert WorkerKnows(s, s.workers[v]);
    }
  }

  lemma Knows(s: State, w: nat)
    requires WorkersKnown(s) && w < |s.workers|
    ensures WorkerKnows(s, s.workers[w]) && s.finished <= s.tasks.Keys && s.failed <= s.tasks.Keys
  {
  }

  lemma HeldUpdate(s: State, n: State, w: nat, worker: Worker, t: TaskId)
    requires OneHolder(s) && w < |s.workers| && n.workers == s.workers[w := worker]
    ensures Held(n, t) <==> Holds(worker, t) || (Held(s, t) && !Holds(s.workers[w], t))
  {
    if Holds(worker, t) { assert Holds(n.workers[w], t); }
    if Held(s, t) && !Holds(s.workers[w], t) {
      var v :| 0 <= v < |s.workers| && Holds(s.workers[v], t);
      assert Holds(n.workers[v], t);
    }
    if Held(n, t) && !Holds(worker, t) {
      var v :| 0 <= v < |n.workers| && Holds(n.workers[v], t);
      assert Holds(s.workers[v], t);
    }
  }

  lemma OneHolderUpdate(s: State, n: State, w: nat, worker: Worker)
    requires OneHolder(s) && w < |s.workers| && n.workers == s.workers[w := worker]
    requires forall t :: Holds(worker, t) ==> !Held(s, t) || Holds(s.workers[w], t)
    ensures OneHolder(n)
  {
    forall u, v, t | 0 <= u < |n.workers| && 0 <= v < |n.workers| && Holds(n.workers[u], t) && Holds(n.workers[v], t)
      ensures u == v
    {
      assert u != w ==> Holds(s.workers[u], t);
      assert v != w ==> Holds(s.workers[v], t);
    }
  }

  /** A worker moves on without taking or giving up a future, and no task changes. */
  lemma QuietMove(s: State, n: State, w: nat, worker: Worker)
    requires OneHolder(s) && TasksInvariant(s) && w < |s.workers| && n.workers == s.workers[w := worker]
    requires forall t :: Holds(worker, t) <==> Holds(s.workers[w], t)
    requires n.tasks == s.tasks && n.finished == s.finished && n.failed == s.failed
    ensures OneHolder(n) && TasksInvariant(n)
  {
    OneHolderUpdate(s, n, w, worker);
    forall t | t in n.tasks ensures TaskInvariant(n, t) {
      assert TaskInvariant(s, t);
      HeldUpdate(s, n, w, worker, t);
    }
  }

  /** A worker takes or gives up the future of `t`, which alone changes. */
  lemma TaskMove(s: State, n: State, w: nat, worker: Worker, t: TaskId)
    requires OneHolder(s) && TasksInvariant(s) && w < |s.workers| && n.workers == s.workers[w := worker]
    requires Holds(worker, t) ==> !Held(s, t) || Holds(s.workers[w], t)
    requires forall u :: u != t ==> !Holds(worker, u) && !Holds(s.workers[w], u)
    requires t in s.tasks && t in n.tasks && n.tasks == s.tasks[t := n.tasks[t]]
    requires n.finished - {t} == s.finished - {t} && n.failed - {t} == s.failed - {t}
    requires OneHolder(n) && (Held(n, t) <==> Holds(worker, t) || (Held(s, t) && !Holds(s.workers[w], t)))
             ==> TaskInvariant(n, t)
    ensures OneHolder(n) && TasksInvariant(n)
  {
    OneHolderUpdate(s, n, w, worker);
    HeldUpdate(s, n, w, worker, t);
    forall u | u in n.tasks && u != t ensures TaskInvariant(n, u) {
      assert TaskInvariant(s, u);
      HeldUpdate(s, n, w, worker, u);
      assert u in n.finished <==> u in n.finished - {t};
      assert u in s.finished <==> u in s.finished - {t};
      assert u in n.failed <==> u in n.failed - {t};
      assert u in s.failed <==> u in s.failed - {t};
    }
  }

  // Every step keeps the invariant.

  lemma BeginSpawnKeeps(s: State, t: TaskId)
    requires Invariant(s) && DoBeginSpawn(s, t).Some?
    ensures Invariant(DoBeginSpawn(s, t).value)
  {
    var n := DoBeginSpawn(s, t).value;
    var p := Placed(t, NextHead(s));
    hide QueuesKnown, WorkersKnown, PlacedKnown, OneHolder, TasksInvariant, TaskInvariant, Held, Uncounted, Balanced;
    NewTask(s, n, t);
    QueuesKnownSame(s, n);
    WorkersKnownSame(s, n);
    PlacedKnownMore(s, n, s.spawns, n.spawns, p);
    PlacedKnownMore(s, n, s.wakes, n.wakes, p);
    NewTaskBalanced(s, t);
  }

  lemma NewTaskBalanced(s: State, t: TaskId)
    requires Balanced(s) && DoBeginSpawn(s, t).Some?
    ensures Balanced(DoBeginSpawn(s, t).value)
  {
    hide Uncounted;
    assert DoBeginSpawn(s, t).value.tasks.Keys == s.tasks.Keys + {t};
  }

  lemma NewTask(s: State, n: State, t: TaskId)
    requires OneHolder(s) && TasksInvariant(s) && WorkersKnown(s) && t !in s.tasks
    requires n.workers == s.workers && n.finished == s.finished && n.failed == s.failed
    requires n.tasks == s.tasks[t := TaskState(Some(t), false, false)]
    ensures OneHolder(n) && TasksInvariant(n)
  {
    assert !Held(s, t) by {
      forall w | 0 <= w < |s.workers| ensures !Holds(s.workers[w], t) { assert WorkerKnows(s, s.workers[w]); }
    }
    forall u | u in n.tasks ensures TaskInvariant(n, u) {
      assert Held(n, u) <==> Held(s, u);
      assert u != t ==> TaskInvariant(s, u);
    }
  }

  lemma PushSpawnKeeps(s: State, p: Placed)
    requires Invariant(s) && DoPushSpawn(s, p).Some?
    ensures Invariant(DoPushSpawn(s, p).value)
  {
    var n := DoPushSpawn(s, p).value;
    SameTasks(s, n);
    assert p.task in s.tasks;
    hide QueuesKnown, WorkersKnown, PlacedKnown, OneHolder, TasksInvariant, TaskInvariant, Held, Uncounted;
    QueuesKnownPush(s, n, p);
    WorkersKnownSame(s, n);
    PlacedKnownMore(s, n, s.spawns, n.spawns, p);
    PlacedKnownMore(s, n, s.wakes, n.wakes, p);
  }

  lemma SameTasks(s: State, n: State)
    requires OneHolder(s) && TasksInvariant(s)
    requires n.workers == s.workers && n.finished == s.finished && n.failed == s.failed && n.tasks == s.tasks
    ensures OneHolder(n) && TasksInvariant(n)
  {
    forall u | u in n.tasks ensures TaskInvariant(n, u) {
      assert Held(n, u) <==> Held(s, u);
      assert TaskInvariant(s, u);
    }
  }

  lemma CountSpawnKeeps(s: State, t: TaskId)
    requires Invariant(s) && DoCountSpawn(s, t).Some?
    ensures Invariant(DoCountSpawn(s, t).value)
  {
    var n := DoCountSpawn(s, t).value;
    SameTasks(s, n);
    hide QueuesKnown, WorkersKnown, OneHolder, TasksInvariant, TaskInvariant, Held, Uncounted;
    QueuesKnownSame(s, n);
    WorkersKnownSame(s, n);
  }

  lemma BeginWakeKeeps(s: State, t: TaskId)
    requires Invariant(s) && DoBeginWake(s, t).Some?
    ensures Invariant(DoBeginWake(s, t).value)
  {
    var n := DoBeginWake(s, t).value;
    SameTasks(s, n);
    hide QueuesKnown, WorkersKnown, PlacedKnown, OneHolder, TasksInvariant, TaskInvariant, Held, Uncounted;
    QueuesKnownSame(s, n);
    WorkersKnownSame(s, n);
    PlacedKnownMore(s, n, s.spawns, n.spawns, Placed(t, NextHead(s)));
    PlacedKnownMore(s, n, s.wakes, n.wakes, Placed(t, NextHead(s)));
  }

  lemma PushWakeKeeps(s: State, p: Placed)
    requires Invariant(s) && DoPushWake(s, p).Some?
    ensures Invariant(DoPushWake(s, p).value)
  {
    var n := DoPushWake(s, p).value;
    SameTasks(s, n);
    assert p.task in s.tasks;
    hide QueuesKnown, WorkersKnown, PlacedKnown, OneHolder, TasksInvariant, TaskInvariant, Held, Uncounted;
    QueuesKnownPush(s, n, p);
    WorkersKnownSame(s, n);
    PlacedKnownMore(s, n, s.spawns, n.spawns, p);
    PlacedKnownMore(s, n, s.wakes, n.wakes, p);
  }

  /** Only worker `w` moves, and neither state has it holding a future or counting. */
  lemma IdleMoveKeeps(s: State, w: nat, worker: Worker)
    requires Invariant(s) && w < |s.workers|
    requires s.workers[w].Idle? || s.workers[w].Stealing?
    requires worker.Idle? || worker.Stealing?
    ensures Invariant(Become(s, w, worker))
  {
    var n := Become(s, w, worker);
    QuietMove(s, n, w, worker);
    hide QueuesKnown, WorkersKnown, PlacedKnown, OneHolder, TasksInvariant, TaskInvariant, Held, Uncounted;
    UncountedUpdate(s.workers, w, worker);
    QueuesKnownSame(s, n);
    WorkersKnownUpdate(s, n, w, worker);
    SamePlaced(s, n);
  }

  lemma SamePlaced(s: State, n: State)
    requires PlacedKnown(s, s.spawns) && PlacedKnown(s, s.wakes)
    requires n.spawns == s.spawns && n.wakes == s.wakes && |n.workers| == |s.workers| && s.tasks.Keys <= n.tasks.Keys
    ensures PlacedKnown(n, n.spawns) && PlacedKnown(n, n.wakes)
  {
  }

  lemma TakeFromKeeps(s: State, w: nat, q: nat)
    requires Invariant(s) && w < |s.workers| && q < |s.queues| && s.queues[q] != []
    requires s.workers[w].Idle? || s.workers[w].Stealing?
    ensures Invariant(TakeFrom(s, w, q))
  {
    var n := TakeFrom(s, w, q);
    QuietMove(s, n, w, n.workers[w]);
    hide QueuesKnown, WorkersKnown, PlacedKnown, OneHolder, TasksInvariant, TaskInvariant, Held, Uncounted;
    UncountedUpdate(s.workers, w, n.workers[w]);
    QueuesKnownTake(s, n, q);
    Knows(s, w);
    WorkersKnownUpdate(s, n, w, n.workers[w]);
    SamePlaced(s, n);
  }

  lemma PopKeeps(s: State, w: nat)
    requires Invariant(s) && DoPop(s, w).Some?
    ensures Invariant(DoPop(s, w).value)
  {
    hide Invariant;
    if s.queues[w] == [] { IdleMoveKeeps(s, w, Stealing(0)); } else { TakeFromKeeps(s, w, w); }
  }

  lemma StealKeeps(s: State, w: nat)
    requires Invariant(s) && DoSteal(s, w).Some?
    ensures Invariant(DoSteal(s, w).value)
  {
    hide Invariant;
    var q := s.workers[w].next;
    if q >= |s.queues| { IdleMoveKeeps(s, w, Idle); }
    else if q == w || s.queues[q] == [] { IdleMoveKeeps(s, w, Stealing(q + 1)); }
    else { TakeFromKeeps(s, w, q); }
  }

  /** What a worker gets when it consumes the task it holds: the future of a task that has neither finished
      nor failed and that nobody else holds, or nothing. */
  lemma TakeOutcome(s: State, t: TaskId)
    requires Invariant(s) && t in s.tasks
    ensures var c := ConsumeState(s.tasks[t]);
      && (c.ok <==> !Held(s, t) && t !in s.finished && t !in s.failed)
      && (c.ok ==> c.out == Some(t) && c.task == TaskState(None, true, true))
      && (!c.ok ==> c.task == s.tasks[t])
  {
    assert TaskInvariant(s, t);
  }

  lemma TakeKeeps(s: State, w: nat)
    requires Invariant(s) && DoTake(s, w).Some?
    ensures Invariant(DoTake(s, w).value)
  {
    var n := DoTake(s, w).value;
    var t := s.workers[w].task;
    TakeOutcome(s, t);
    assert TaskInvariant(s, t);
    assert n.tasks[t] == ConsumeState(s.tasks[t]).task;
    TaskMove(s, n, w, n.workers[w], t);
    hide QueuesKnown, WorkersKnown, PlacedKnown, OneHolder, TasksInvariant, TaskInvariant, Held, Uncounted;
    UncountedUpdate(s.workers, w, n.workers[w]);
    assert n.tasks.Keys == s.tasks.Keys;
    QueuesKnownSame(s, n);
    Knows(s, w);
    WorkersKnownUpdate(s, n, w, n.workers[w]);
    SamePlaced(s, n);
  }

  lemma PollPendingKeeps(s: State, w: nat)
    requires Invariant(s) && DoPollPending(s, w).Some?
    ensures Invariant(DoPollPending(s, w).value)
  {
    var n := DoPollPending(s, w).value;
    QuietMove(s, n, w, n.workers[w]);
    hide QueuesKnown, WorkersKnown, PlacedKnown, OneHolder, TasksInvariant, TaskInvariant, Held, Uncounted;
    UncountedUpdate(s.workers, w, n.workers[w]);
    QueuesKnownSame(s, n);
    Knows(s, w);
    WorkersKnownUpdate(s, n, w, n.workers[w]);
    SamePlaced(s, n);
  }

  lemma PollReadyKeeps(s: State, w: nat)
    requires Invariant(s) && DoPollReady(s, w).Some?
    ensures Invariant(DoPollReady(s, w).value)
  {
    var n := DoPollReady(s, w).value;
    var t := s.workers[w].task;
    Knows(s, w);
    assert Holds(s.workers[w], t) && Held(s, t) && TaskInvariant(s, t);
    TaskMove(s, n, w, n.workers[w], t);
    hide QueuesKnown, WorkersKnown, PlacedKnown, OneHolder, TasksInvariant, TaskInvariant, Held, Uncounted;
    UncountedUpdate(s.workers, w, n.workers[w]);
    QueuesKnownSame(s, n);
    WorkersKnownUpdate(s, n, w, n.workers[w]);
    SamePlaced(s, n);
  }

  lemma PollThrowKeeps(s: State, w: nat)
    requires Invariant(s) && DoPollThrow(s, w).Some?
    ensures Invariant(DoPollThrow(s, w).value)
  {
    var n := DoPollThrow(s, w).value;
    var t := s.workers[w].task;
    Knows(s, w);
    assert Holds(s.workers[w], t) && Held(s, t) && TaskInvariant(s, t);
    TaskMove(s, n, w, n.workers[w], t);
    hide QueuesKnown, WorkersKnown, PlacedKnown, OneHolder, TasksInvariant, TaskInvariant, Held, Uncounted;
    UncountedUpdate(s.workers, w, n.workers[w]);
    QueuesKnownSame(s, n);
    WorkersKnownUpdate(s, n, w, n.workers[w]);
    SamePlaced(s, n);
  }

  lemma ReturnKeeps(s: State, w: nat)
    requires Invariant(s) && DoReturn(s, w).Some?
    ensures Invariant(DoReturn(s, w).value)
  {
    var n := DoReturn(s, w).value;
    var t := s.workers[w].task;
    Knows(s, w);
    assert Holds(s.workers[w], t) && Held(s, t) && TaskInvariant(s, t);
    assert n.tasks[t] == TaskState(Some(t), false, false);
    TaskMove(s, n, w, n.workers[w], t);
    hide QueuesKnown, WorkersKnown, PlacedKnown, OneHolder, TasksInvariant, TaskInvariant, Held, Uncounted;
    UncountedUpdate(s.workers, w, n.workers[w]);
    assert n.tasks.Keys == s.tasks.Keys;
    QueuesKnownSame(s, n);
    WorkersKnownUpdate(s, n, w, n.workers[w]);
    SamePlaced(s, n);
  }

  lemma CountDoneKeeps(s: State, w: nat)
    requires Invariant(s) && DoCountDone(s, w).Some?
    ensures Invariant(DoCountDone(s, w).value)
  {
    var n := DoCountDone(s, w).value;
    QuietMove(s, n, w, n.workers[w]);
    hide QueuesKnown, WorkersKnown, PlacedKnown, OneHolder, TasksInvariant, TaskInvariant, Held, Uncounted;
    UncountedUpdate(s.workers, w, n.workers[w]);
    QueuesKnownSame(s, n);
    WorkersKnownUpdate(s, n, w, n.workers[w]);
    SamePlaced(s, n);
  }

  lemma StepKeeps(s: State, step: Step)
    requires Invariant(s) && Apply(s, step).Some?
    ensures Invariant(Apply(s, step).value)
  {
    hide Invariant, DoBeginSpawn, DoPushSpawn, DoCountSpawn, DoBeginWake, DoPushWake, DoPop, DoSteal, DoTake,
      DoPollPending, DoPollReady, DoPollThrow, DoReturn, DoCountDone;
    match step {
      case BeginSpawn(t) => BeginSpawnKeeps(s, t);
      case PushSpawn(p) => PushSpawnKeeps(s, p);
      case CountSpawn(t) => CountSpawnKeeps(s, t);
      case BeginWake(t) => BeginWakeKeeps(s, t);
      case PushWake(p) => PushWakeKeeps(s, p);
      case Pop(w) => PopKeeps(s, w);
      case Steal(w) => StealKeeps(s, w);
      case Take(w) => TakeKeeps(s, w);
      case PollPending(w) => PollPendingKeeps(s, w);
      case PollReady(w) => PollReadyKeeps(s, w);
      case PollThrow(w) => PollThrowKeeps(s, w);
      case Return(w) => ReturnKeeps(s, w);
      case CountDone(w) => CountDoneKeeps(s, w);
    }
  }

  lemma {:induction false} RunKeeps(s: State, steps: seq<Step>)
    requires Invariant(s) && Run(s, steps).Some?
    ensures Invariant(Run(s, steps).value)
    decreases |steps|
  {
    hide Invariant, Apply;
    if steps != [] {
      StepKeeps(s, steps[0]);
      RunKeeps(Apply(s, steps[0]).value, steps[1..]);
    }
  }

  ghost predicate Reachable(n: nat, s: State) {
    exists steps :: Run(Init(n), steps) == Some(s)
  }

  lemma ReachableInvariant(n: nat, s: State)
    requires Reachable(n, s)
    ensures Invariant(s)
  {
    var steps :| Run(Init(n), steps) == Some(s);
    InitInvariant(n);
    RunKeeps(Init(n), steps);
  }

  /** In every interleaving a future is in the hands of at most one worker, a task is stale exactly while it
      is in use, no worker polls through a null future, and a worker polls only unfinished tasks. */
  lemma FuturesAreExclusive(n: nat, s: State, v: nat, w: nat)
    requires Reachable(n, s) && v < |s.workers| && w < |s.workers|
    ensures s.workers[v] != Crashed
    ensures s.workers[v].Polling? ==>
              s.workers[v].future == s.workers[v].task
              && s.workers[v].task !in s.finished && s.workers[v].task !in s.failed
    ensures (s.workers[v].Polling? || s.workers[v].PutBack?) && Holds(s.workers[w], s.workers[v].task) ==> v == w
    ensures forall t :: t in s.tasks ==> s.tasks[t].stale == s.tasks[t].inUse
  {
    ReachableInvariant(n, s);
    Knows(s, v);
    assert forall t :: t in s.tasks ==> TaskInvariant(s, t);
    if s.workers[v].Polling? || s.workers[v].PutBack? {
      var t := s.workers[v].task;
      assert Holds(s.workers[v], t) && Held(s, t) && TaskInvariant(s, t);
    }
  }

  lemma ApplyKeepsFinished(s: State, step: Step)
    requires Apply(s, step).Some?
    ensures s.finished <= Apply(s, step).value.finished && s.failed <= Apply(s, step).value.failed
  {
  }

  lemma {:induction false} RunKeepsFinished(s: State, steps: seq<Step>)
    requires Run(s, steps).Some?
    ensures s.finished <= Run(s, steps).value.finished && s.failed <= Run(s, steps).value.failed
    decreases |steps|
  {
    hide Apply;
    if steps != [] {
      ApplyKeepsFinished(s, steps[0]);
      RunKeepsFinished(Apply(s, steps[0]).value, steps[1..]);
    }
  }

  /** A task that has polled ready, or whose poll threw, is never polled again, however often it is woken. */
  lemma NeverPolledAgain(n: nat, s: State, steps: seq<Step>, t: TaskId, w: nat)
    requires Reachable(n, s) && Run(s, steps).Some?
    requires t in s.finished || t in s.failed
    ensures var after := Run(s, steps).value; w < |after.workers| ==> !Holds(after.workers[w], t)
  {
    ReachableInvariant(n, s);
    RunKeeps(s, steps);
    RunKeepsFinished(s, steps);
    var after := Run(s, steps).value;
    assert t in after.tasks by { assert WorkersKnown(after); }
    assert TaskInvariant(after, t);
  }

  /** The counter `step` tests: off from the number of unfinished tasks by exactly what is in flight. */
  lemma CounterIsBalanced(n: nat, s: State)
    requires Reachable(n, s)
    ensures s.running == |s.tasks.Keys - s.finished| - |s.spawns| - |s.counts| + Uncounted(s.workers)
    ensures |s.spawns| == 0 && |s.counts| == 0 && Uncounted(s.workers) == 0 ==>
              (s.running > 0 <==> exists t :: t in s.tasks && t !in s.finished)
  {
    ReachableInvariant(n, s);
    assert WorkersKnown(s);
    assert |s.tasks.Keys| == |s.tasks.Keys - s.finished| + |s.finished| by {
      assert s.tasks.Keys == (s.tasks.Keys - s.finished) + s.finished;
    }
    if t :| t in s.tasks && t !in s.finished {
      assert t in s.tasks.Keys - s.finished;
    } else {
      assert s.tasks.Keys - s.finished == {};
    }
  }

  /** A queued wake-up leads to a poll exactly when its task is neither being polled, nor finished, nor failed. */
  lemma WakeUpTaken(n: nat, s: State, w: nat)
    requires Reachable(n, s) && w < |s.workers| && s.workers[w].Holding?
    ensures var t := s.workers[w].task;
      && DoTake(s, w).Some?
      && (DoTake(s, w).value.workers[w] == Polling(t, t) <==> !Held(s, t) && t !in s.finished && t !in s.failed)
      && (DoTake(s, w).value.workers[w] == Idle <==> Held(s, t) || t in s.finished || t in s.failed)
  {
    ReachableInvariant(n, s);
    Knows(s, w);
    TakeOutcome(s, s.workers[w].task);
  }


  lemma {:induction false} RunSnoc(s: State, steps: seq<Step>, last: Step)
    requires Run(s, steps).Some?
    ensures Run(s, steps + [last]) == Apply(Run(s, steps).value, last)
    decreases |steps|
  {
    hide Apply;
    if steps == [] {
      assert steps + [last] == [last] && [last][1..] == [];
    } else {
      assert (steps + [last])[1..] == steps[1..] + [last];
      RunSnoc(Apply(s, steps[0]).value, steps[1..], last);
    }
  }

  lemma ReachableStep(n: nat, s: State, step: Step, next: State)
    requires Reachable(n, s) && Apply(s, step) == Some(next)
    ensures Reachable(n, next)
  {
    var steps :| Run(Init(n), steps) == Some(s);
    RunSnoc(Init(n), steps, step);
    assert Run(Init(n), steps + [step]) == Some(next);
  }

  /** Everything is at rest: no task queued, on its way, or with a worker. */
  ghost predicate AtRest(s: State) {
    && (forall q | 0 <= q < |s.queues| :: s.queues[q] == [])
    && (forall w | 0 <= w < |s.workers| :: s.workers[w] == Idle)
    && s.spawns == multiset{} && s.wakes == multiset{} && s.counts == multiset{}
  }

  /** So a wake-up that arrives during a poll is lost.  In `woken` task 0 is being polled and a wake-up for it
      is on its way; `s` follows, at rest, with the task unfinished and still counted as running. */
  lemma WakeUpLost() returns (woken: State, steps: seq<Step>, s: State)
    ensures Reachable(2, woken)
    ensures woken.wakes[Placed(0, 0)] == 1 && |woken.workers| == 2 && woken.workers[1] == Polling(0, 0)
    ensures Run(woken, steps) == Some(s) && AtRest(s)
    ensures 0 in s.tasks && 0 !in s.finished && 0 !in s.failed && s.running == 1
  {
    woken := LostPrefix();
    hide Reachable, Run;
    var refused, early := WakeRefused(woken);
    var r, p := PollPending(1), Return(1);
    var put := refused.(workers := [Idle, PutBack(0, 0)]);
    s := put.(workers := [Idle, Idle], tasks := map[0 := TaskState(Some(0), false, false)]);
    assert refused.workers[1 := PutBack(0, 0)] == put.workers && put.workers[1 := Idle] == s.workers;
    assert put.tasks[0 := TaskState(Some(0), false, false)] == s.tasks;
    RunLonger(woken, early, refused, r, put);
    RunLonger(woken, early + [r], put, p, s);
    steps := early + [r] + [p];
  }

  lemma RunLonger(s: State, steps: seq<Step>, mid: State, last: Step, next: State)
    requires Run(s, steps) == Some(mid) && Apply(mid, last) == Some(next)
    ensures Run(s, steps + [last]) == Some(next)
  {
    RunSnoc(s, steps, last);
  }

  /** The wake-up reaches a queue, is popped, and its task refuses to be consumed. */
  lemma WakeRefused(woken: State) returns (refused: State, steps: seq<Step>)
    requires woken == State(map[0 := TaskState(None, true, true)], [[], []], 0, 1, [Idle, Polling(0, 0)],
                            multiset{}, multiset{}, multiset{Placed(0, 0)}, {}, {})
    ensures Run(woken, steps) == Some(refused) && refused == woken.(wakes := multiset{})
  {
    var queued := woken.(wakes := multiset{}, queues := [[0], []]);
    var popped := queued.(queues := [[], []], workers := [Holding(0), Polling(0, 0)]);
    refused := popped.(workers := [Idle, Polling(0, 0)]);
    assert woken.queues[0] + [0] == [0] && woken.queues[0 := woken.queues[0] + [0]] == queued.queues;
    assert [0][1..] == [] && queued.queues[0 := []] == popped.queues
      && queued.workers[0 := Holding(0)] == popped.workers;
    assert popped.tasks[0 := popped.tasks[0]] == refused.tasks && popped.workers[0 := Idle] == refused.workers;
    assert Run(woken, []) == Some(woken);
    hide Run;
    RunLonger(woken, [], woken, PushWake(Placed(0, 0)), queued);
    RunLonger(woken, [] + [PushWake(Placed(0, 0))], queued, Pop(0), popped);
    RunLonger(woken, [] + [PushWake(Placed(0, 0))] + [Pop(0)], popped, Take(0), refused);
    steps := [] + [PushWake(Placed(0, 0))] + [Pop(0)] + [Take(0)];
  }

  lemma SpawnBegun() returns (s1: State)
    ensures Reachable(2, s1)
    ensures s1 == State(map[0 := TaskState(Some(0), false, false)], [[], []], 1, 0, [Idle, Idle],
                        multiset{Placed(0, 1)}, multiset{}, multiset{}, {}, {})
  {
    var s0 := Init(2);
    assert s0.queues == [[], []] && s0.workers == [Idle, Idle];
    assert Reachable(2, s0) by { assert Run(Init(2), []) == Some(s0); }
    s1 := s0.(tasks := s0.tasks[0 := TaskState(Some(0), false, false)],
              spawnHead := 1, spawns := s0.spawns + multiset{Placed(0, 1)});
    ReachableStep(2, s0, BeginSpawn(0), s1);
  }

  lemma SpawnPushed() returns (s2: State)
    ensures Reachable(2, s2)
    ensures s2 == State(map[0 := TaskState(Some(0), false, false)], [[], [0]], 1, 0, [Idle, Idle],
                        multiset{}, multiset{0}, multiset{}, {}, {})
  {
    var s1 := SpawnBegun();
    hide Reachable, Run;
    s2 := s1.(spawns := multiset{}, queues := [[], [0]], counts := multiset{0});
    assert s1.queues[1] + [0] == [0];
    assert s1.queues[1 := s1.queues[1] + [0]] == s2.queues;
    assert s1.spawns - multiset{Placed(0, 1)} == s2.spawns && s1.counts + multiset{0} == s2.counts;
    ReachableStep(2, s1, PushSpawn(Placed(0, 1)), s2);
  }

  lemma SpawnedOnce() returns (s3: State)
    ensures Reachable(2, s3)
    ensures s3 == State(map[0 := TaskState(Some(0), false, false)], [[], [0]], 1, 1, [Idle, Idle],
                        multiset{}, multiset{}, multiset{}, {}, {})
  {
    var s2 := SpawnPushed();
    hide Reachable, Run;
    s3 := s2.(counts := multiset{}, running := 1);
    assert s2.counts - multiset{0} == s3.counts;
    ReachableStep(2, s2, CountSpawn(0), s3);
  }

  lemma LostPrefix() returns (woken: State)
    ensures Reachable(2, woken)
    ensures woken == State(map[0 := TaskState(None, true, true)], [[], []], 0, 1, [Idle, Polling(0, 0)],
                           multiset{}, multiset{}, multiset{Placed(0, 0)}, {}, {})
  {
    var s3 := SpawnedOnce();
    hide Reachable, Run;
    var s4 := s3.(queues := [[], []], workers := [Idle, Holding(0)]);
    var s5 := s4.(workers := [Idle, Polling(0, 0)], tasks := map[0 := TaskState(None, true, true)]);
    woken := s5.(spawnHead := 0, wakes := multiset{Placed(0, 0)});
    assert [0][1..] == [] && s3.queues[1 := []] == s4.queues && s3.workers[1 := Holding(0)] == s4.workers;
    ReachableStep(2, s3, Pop(1), s4);
    assert s4.tasks[0 := TaskState(None, true, true)] == s5.tasks && s4.workers[1 := Polling(0, 0)] == s5.workers;
    ReachableStep(2, s4, Take(1), s5);
    assert s5.wakes + multiset{Placed(0, 0)} == woken.wakes;
    ReachableStep(2, s5, BeginWake(0), woken);
  }
}
