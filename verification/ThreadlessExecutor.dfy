/**
 The single-threaded executor.  Polls are supplied by `script`: the result of each one and the tasks it
 spawns and wakes meanwhile.  A poll beyond the script is pending and asks for nothing.
 */
module ThreadlessExecutors {
  import opened Wrappers
  import opened Tasks

  type TaskId = nat

  datatype PollResult = Pending | Ready | Threw

  datatype Request = Spawn | Wake(task: TaskId)

  datatype PollEvent = PollEvent(result: PollResult, requests: seq<Request>)

  /** What happened to a task, in order.  An entry taken off the queue is polled or dropped. */
  datatype Event =
    | Queued(task: TaskId)
    | Polled(task: TaskId)
    | Dropped(task: TaskId)
    | Completed(task: TaskId)
    | Failed(task: TaskId)

  function Requests(script: seq<PollEvent>): nat {
    if script == [] then 0 else |script[0].requests| + Requests(script[1..])
  }

  function FirstEvent(script: seq<PollEvent>): PollEvent {
    if script == [] then PollEvent(Pending, []) else script[0]
  }

  function LaterEvents(script: seq<PollEvent>): seq<PollEvent> {
    if script == [] then [] else script[1..]
  }

  // A new task takes the next number, and only a task that exists can be woken.
  function AskedOnce(request: Request, count: nat): seq<TaskId> {
    if request.Spawn? then [count] else if request.task < count then [request.task] else []
  }

  /** The tasks put on the queue by a poll that starts with `count` tasks. */
  function Asked(requests: seq<Request>, count: nat): (ids: seq<TaskId>)
    ensures |ids| <= |requests|
  {
    if requests == [] then []
    else AskedOnce(requests[0], count) + Asked(requests[1..], if requests[0].Spawn? then count + 1 else count)
  }

  function Spawns(requests: seq<Request>): nat {
    if requests == [] then 0 else (if requests[0].Spawn? then 1 else 0) + Spawns(requests[1..])
  }

  function Queueings(ids: seq<TaskId>): (events: seq<Event>)
    ensures |events| == |ids| && forall k :: 0 <= k < |ids| ==> events[k] == Queued(ids[k])
  {
    seq(|ids|, k requires 0 <= k < |ids| => Queued(ids[k]))
  }

  function Outcome(t: TaskId, result: PollResult): seq<Event> {
    match result
    case Pending => []
    case Ready => [Completed(t)]
    case Threw => [Failed(t)]
  }

  ghost predicate Over(log: seq<Event>, t: TaskId) {
    Completed(t) in log || Failed(t) in log
  }

  /** The queueing of a task at position `i` of the log is followed by a poll that starts after it,
      or the task is over. */
  ghost predicate Served(log: seq<Event>, i: nat)
    requires i < |log| && log[i].Queued?
  {
    (exists j :: i < j < |log| && log[j] == Polled(log[i].task)) || Over(log, log[i].task)
  }

  /** No task is polled after it is over. */
  ghost predicate NeverAfterwards(log: seq<Event>) {
    forall i, j :: 0 <= i < j < |log| && (log[i].Completed? || log[i].Failed?) ==> log[j] != Polled(log[i].task)
  }

  lemma KeepsServed(log: seq<Event>, e: Event, i: nat)
    requires i < |log| && log[i].Queued?
    ensures Served(log, i) ==> Served(log + [e], i)
  {
    var next := log + [e];
    if j :| i < j < |log| && log[j] == Polled(log[i].task) {
      assert next[j] == Polled(next[i].task);
    }
  }

  lemma AskedFirst(first: Request, rest: seq<Request>, count: nat)
    ensures Spawns([first] + rest) == (if first.Spawn? then 1 else 0) + Spawns(rest)
    ensures Asked([first] + rest, count) ==
            AskedOnce(first, count) + Asked(rest, if first.Spawn? then count + 1 else count)
  {
    assert ([first] + rest)[1..] == rest;
  }

  /** What the next request of a poll adds: a fresh task, or the task it wakes. */
  lemma {:induction false} AskedLast(requests: seq<Request>, next: Request, count: nat)
    ensures Spawns(requests + [next]) == Spawns(requests) + if next.Spawn? then 1 else 0
    ensures Asked(requests + [next], count) == Asked(requests, count) + AskedOnce(next, count + Spawns(requests))
  {
    if requests == [] {
      assert requests + [next] == [next] && [next][1..] == [];
    } else {
      hide Asked, Spawns, AskedOnce;
      var first, rest := requests[0], requests[1..];
      var later := if first.Spawn? then count + 1 else count;
      assert requests == [first] + rest;
      Associate([first], rest, [next]);
      AskedFirst(first, rest, count);
      AskedFirst(first, rest + [next], count);
      AskedLast(rest, next, later);
      Associate(AskedOnce(first, count), Asked(rest, later), AskedOnce(next, later + Spawns(rest)));
    }
  }

  /** The same with nothing left to look up: the queue grows by a fresh task, by the task named, or not at all. */
  lemma AskedExactly(requests: seq<Request>, next: Request, count: nat)
    ensures var exist := count + Spawns(requests);
      && Asked([], count) == []
      && Asked(requests + [next], count) == Asked(requests, count) +
         if next.Spawn? then [exist] else if next.task < exist then [next.task] else []
  {
    hide Asked, Spawns;
    AskedLast(requests, next, count);
    AskedNothing(count);
  }

  lemma AskedNothing(count: nat)
    ensures Asked([], count) == []
  {
  }

  lemma AskedNext(requests: seq<Request>, k: nat, count: nat, tasks: seq<TaskId>, log: seq<Event>)
    requires k < |requests|
    ensures var more := AskedOnce(requests[k], count + Spawns(requests[..k]));
      && Spawns(requests[..k + 1]) == Spawns(requests[..k]) + (if requests[k].Spawn? then 1 else 0)
      && tasks + Asked(requests[..k + 1], count) == tasks + Asked(requests[..k], count) + more
      && log + Queueings(Asked(requests[..k + 1], count)) ==
         log + Queueings(Asked(requests[..k], count)) + Queueings(more)
  {
    hide Asked, Spawns, Queueings, AskedOnce;
    var ids := Asked(requests[..k], count);
    var more := AskedOnce(requests[k], count + Spawns(requests[..k]));
    assert requests[..k + 1] == requests[..k] + [requests[k]];
    AskedLast(requests[..k], requests[k], count);
    QueueingsAppend(ids, more);
    Associate(tasks, ids, more);
    Associate(log, Queueings(ids), Queueings(more));
  }

  lemma QueueingsAppend(ids: seq<TaskId>, more: seq<TaskId>)
    ensures Queueings(ids + more) == Queueings(ids) + Queueings(more)
  {
  }

  /** The executor between two entries of its queue. */
  datatype View = View(tasks: seq<TaskId>, count: nat, untilCompletion: int, script: seq<PollEvent>,
                             log: seq<Event>)
  {
    /** Takes the front entry.  A task that is over is dropped; otherwise it is polled, what the poll asks for
        goes to the back of the queue, and a ready poll is counted. */
    ghost function Front(): View
      requires tasks != []
    {
      var t := tasks[0];
      if Over(log, t) then this.(tasks := tasks[1..], log := log + [Dropped(t)])
      else
        var event := FirstEvent(script);
        var ids := Asked(event.requests, count);
        View(tasks[1..] + ids,
             count + Spawns(event.requests),
             untilCompletion + Spawns(event.requests) - (if event.result.Ready? then 1 else 0),
             LaterEvents(script),
             log + [Polled(t)] + Queueings(ids) + Outcome(t, event.result))
    }

    ghost function Drained(): View
      decreases |tasks| + Requests(script)
    {
      if tasks == [] then this else Front().Drained()
    }
  }

  /** The end of a poll serves no less than before, and the task is not polled later on. */
  lemma EndKeeps(log: seq<Event>, t: TaskId, result: PollResult)
    requires NeverAfterwards(log)
    ensures NeverAfterwards(log + Outcome(t, result))
    ensures forall i | 0 <= i < |log| && log[i].Queued? :: Served(log, i) ==> Served(log + Outcome(t, result), i)
  {
    forall i | 0 <= i < |log| && log[i].Queued? ensures Served(log, i) ==> Served(log + Outcome(t, result), i) {
      KeepsServed(log, Completed(t), i);
      KeepsServed(log, Failed(t), i);
      assert log + [] == log;
    }
  }

  class ThreadlessExecutor {
    var tasks: seq<TaskId>
    var states: seq<TaskState>
    var untilCompletion: int
    var script: seq<PollEvent>
    ghost var log: seq<Event>
    ghost var finished: set<TaskId>
    ghost var running: Option<TaskId>

    /** A task holds its future unless it is over or being polled. */
    ghost predicate TaskValid(t: TaskId)
      requires t < |states|
      reads this
    {
      && states[t] == (if Over(log, t) || running == Some(t)
                       then TaskState(None, true, true) else TaskState(Some(t), false, false))
      && (t in finished <==> Completed(t) in log)
    }

    /** The counter is the number of spawned tasks that have not polled ready. */
    ghost predicate Valid()
      reads this
    {
      && (forall k :: 0 <= k < |tasks| ==> tasks[k] < |states|)
      && (forall t | 0 <= t < |states| :: TaskValid(t))
      && (forall e <- log :: e.task < |states|)
      && (forall t <- finished :: t < |states|)
      && untilCompletion == |states| - |finished|
      && NeverAfterwards(log)
      && (running.Some? ==> running.value < |states| && !Over(log, running.value))
    }

    /** Every queueing has been served or still waits in the queue from position `start` on. */
    ghost predicate NothingLost(start: nat)
      requires start <= |tasks|
      reads this
    {
      forall i | 0 <= i < |log| && log[i].Queued? :: Served(log, i) || log[i].task in tasks[start..]
    }

    ghost function Abstract(): View
      reads this
    {
      View(tasks, |states|, untilCompletion, script, log)
    }

    constructor (script: seq<PollEvent>)
      ensures Valid() && NothingLost(0) && running == None && this.script == script
      ensures tasks == [] && states == [] && log == [] && finished == {}
    {
      tasks, states, untilCompletion, this.script := [], [], 0, script;
      log, finished, running := [], {}, None;
    }

    /** Queues a task: a wake-up, or the second half of a spawn. */
    method Respawn(t: TaskId, ghost start: nat)
      requires start <= |tasks| && Valid() && NothingLost(start) && t < |states|
      modifies this`tasks, this`log
      ensures Valid() && start <= |tasks| && NothingLost(start)
      ensures tasks == old(tasks) + [t] && log == old(log) + [Queued(t)]
    {
      hide Served, Over;
      tasks := tasks + [t];
      log := log + [Queued(t)];
      forall i | 0 <= i < |log| && log[i].Queued? ensures Served(log, i) || log[i].task in tasks[start..] {
        assert tasks[start..] == old(tasks[start..]) + [t];
        if i < |old(log)| {
          KeepsServed(old(log), Queued(t), i);
        }
      }
      forall u | 0 <= u < |states| ensures TaskValid(u) {
        assert old(TaskValid(u));
        OverUnchanged(old(log), Queued(t), u);
      }
      if running.Some? {
        OverUnchanged(old(log), Queued(t), running.value);
      }
    }

    method Spawn(ghost start: nat)
      requires start <= |tasks| && Valid() && NothingLost(start)
      modifies this`tasks, this`log, this`states, this`untilCompletion
      ensures Valid() && start <= |tasks| && NothingLost(start)
      ensures tasks == old(tasks) + [|old(states)|] && log == old(log) + [Queued(|old(states)|)]
      ensures states == old(states) + [TaskState(Some(|old(states)|), false, false)]
      ensures untilCompletion == old(untilCompletion) + 1
    {
      var t := |states|;
      states := states + [TaskState(Some(t), false, false)];
      untilCompletion := untilCompletion + 1;
      assert !Over(log, t) && t !in finished;
      forall u | 0 <= u < |states| ensures TaskValid(u) {
        assert u < t ==> states[u] == old(states)[u] && old(TaskValid(u));
      }
      Respawn(t, start);
    }

    /** What a poll asks for while it runs: exactly the tasks asked for are queued, in order. */
    method Serve(requests: seq<Request>, ghost start: nat)
      requires start <= |tasks| && Valid() && NothingLost(start)
      modifies this`tasks, this`log, this`states, this`untilCompletion
      ensures Valid() && start <= |tasks| && NothingLost(start)
      ensures tasks == old(tasks) + Asked(requests, |old(states)|)
      ensures log == old(log) + Queueings(Asked(requests, |old(states)|))
      ensures |states| == |old(states)| + Spawns(requests)
      ensures untilCompletion == old(untilCompletion) + Spawns(requests)
    {
      ghost var count := |states|;
      var k := 0;
      assert Asked([], count) == [] && Queueings([]) == [] && Spawns([]) == 0;
      hide Valid, TaskValid, NeverAfterwards, NothingLost, Asked, AskedOnce, Spawns, Queueings;
      while k < |requests|
        invariant k <= |requests| && start <= |tasks| && Valid() && NothingLost(start)
        invariant tasks == old(tasks) + Asked(requests[..k], count)
        invariant log == old(log) + Queueings(Asked(requests[..k], count))
        invariant |states| == count + Spawns(requests[..k])
        invariant untilCompletion == old(untilCompletion) + Spawns(requests[..k])
      {
        AskedNext(requests, k, count, old(tasks), old(log));
        ServeOne(requests[k], start);
        k := k + 1;
      }
      assert requests[..k] == requests;
    }

    method ServeOne(request: Request, ghost start: nat)
      requires start <= |tasks| && Valid() && NothingLost(start)
      modifies this`tasks, this`log, this`states, this`untilCompletion
      ensures Valid() && start <= |tasks| && NothingLost(start)
      ensures var ids := AskedOnce(request, |old(states)|);
        tasks == old(tasks) + ids && log == old(log) + Queueings(ids)
      ensures var added := if request.Spawn? then 1 else 0;
        |states| == |old(states)| + added && untilCompletion == old(untilCompletion) + added
    {
      hide Valid, NothingLost;
      match request {
        case Spawn => Spawn(start);
        case Wake(t) =>
          if t < |states| {
            Respawn(t, start);
          }
      }
    }

    /** Processes the front of the queue and removes that same entry, whatever was queued meanwhile. */
    method RunFront()
      requires Valid() && running == None && NothingLost(0) && tasks != []
      modifies this
      ensures Valid() && running == None && NothingLost(0)
      ensures Abstract() == old(Abstract().Front())
    {
      hide Served, NeverAfterwards;
      var t := tasks[0];
      assert TaskValid(t);
      var c := ConsumeState(states[t]);
      if !c.ok {
        DropFront(t);
        return;
      }
      PollFront(t, c.task);
    }

    /** Polls the front of the queue, which is not over. */
    method PollFront(t: TaskId, taken: TaskState)
      requires Valid() && running == None && NothingLost(0) && tasks != [] && tasks[0] == t && !Over(log, t)
      requires taken == TaskState(None, true, true)
      modifies this
      ensures Valid() && running == None && NothingLost(0)
      ensures Abstract() == old(Abstract().Front())
    {
      hide Valid, NothingLost, Over, Asked, Spawns, Queueings, Outcome;
      var event := NextEvent();
      ghost var ids := Asked(event.requests, |states|);
      BeginPoll(t, taken);
      Serve(event.requests, 1);
      assert tasks[0] == t && tasks[1..] == old(tasks[1..]) + ids;
      EndPoll(t, event.result);
    }

    /** What the next poll will do. */
    method NextEvent() returns (event: PollEvent)
      requires Valid() && NothingLost(0)
      modifies this`script
      ensures Valid() && NothingLost(0) && event == FirstEvent(old(script)) && script == LaterEvents(old(script))
    {
      hide Over, Served, NeverAfterwards;
      event := if script == [] then PollEvent(Pending, []) else script[0];
      script := if script == [] then [] else script[1..];
      forall u | 0 <= u < |states| ensures TaskValid(u) {
        assert old(TaskValid(u));
      }
    }

    /** The front of the queue is over already. */
    method DropFront(t: TaskId)
      requires Valid() && running == None && NothingLost(0) && tasks != [] && tasks[0] == t && Over(log, t)
      modifies this`tasks, this`log
      ensures Valid() && NothingLost(0) && tasks == old(tasks[1..]) && log == old(log) + [Dropped(t)]
    {
      tasks := tasks[1..];
      log := log + [Dropped(t)];
      hide Served;
      forall i | 0 <= i < |log| && log[i].Queued? ensures Served(log, i) || log[i].task in tasks[0..] {
        assert old(log)[i] == log[i] && old(tasks) == [t] + tasks;
        KeepsServed(old(log), Dropped(t), i);
        if log[i].task == t {
          OverIsServed(log, i);
        }
      }
      forall u | 0 <= u < |states| ensures TaskValid(u) {
        assert old(TaskValid(u));
        OverUnchanged(old(log), Dropped(t), u);
      }
    }

    method BeginPoll(t: TaskId, taken: TaskState)
      requires Valid() && running == None && NothingLost(0) && tasks != [] && tasks[0] == t && !Over(log, t)
      requires taken == TaskState(None, true, true)
      modifies this`states, this`log, this`running
      ensures Valid() && running == Some(t) && NothingLost(1) && log == old(log) + [Polled(t)]
      ensures |states| == |old(states)|
    {
      hide Over;
      states := states[t := taken];
      running := Some(t);
      log := log + [Polled(t)];
      forall i | 0 <= i < |log| && log[i].Queued? ensures Served(log, i) || log[i].task in tasks[1..] {
        assert old(log)[i] == log[i] && tasks == [t] + tasks[1..];
        KeepsServed(old(log), Polled(t), i);
        assert log[|log| - 1] == Polled(t);
      }
      forall u | 0 <= u < |states| ensures TaskValid(u) {
        assert old(TaskValid(u));
        OverUnchanged(old(log), Polled(t), u);
      }
      forall i | 0 <= i < |old(log)| && (log[i].Completed? || log[i].Failed?) ensures log[i].task != t {
        assert old(log)[i] in old(log);
        OverWhen(old(log), i);
      }
      OverUnchanged(old(log), Polled(t), t);
    }

    /** A pending future goes back into its task; a ready or failed one is gone for good, and only the
        ready one is counted. */
    method EndPoll(t: TaskId, result: PollResult)
      requires Valid() && running == Some(t) && tasks != [] && tasks[0] == t && NothingLost(1)
      modifies this`states, this`log, this`running, this`tasks, this`finished, this`untilCompletion
      ensures Valid() && running == None && NothingLost(0) && tasks == old(tasks[1..])
      ensures log == old(log) + Outcome(t, result) && |states| == |old(states)|
      ensures untilCompletion == old(untilCompletion) - if result.Ready? then 1 else 0
    {
      hide Served, NeverAfterwards;
      assert TaskValid(t);
      EndKeeps(old(log), t, result);
      match result {
        case Pending =>
          states := states[t := DeconsumeState(states[t], t)];
        case Ready =>
          untilCompletion := untilCompletion - 1;
          finished := finished + {t};
        case Threw =>
      }
      log := log + Outcome(t, result);
      running := None;
      tasks := tasks[1..];
      forall u | 0 <= u < |states| ensures TaskValid(u) {
        assert old(TaskValid(u));
      }
      forall i | 0 <= i < |log| && log[i].Queued? ensures Served(log, i) || log[i].task in tasks[0..] {
        assert old(log)[i] == log[i] && tasks == old(tasks[1..]);
      }
    }

    /** Drains the queue by replaying the script.  Afterwards every queueing ever made has been followed by a
        poll started after it, unless its task is over, and the answer says whether an unfinished task is left. */
    method Step() returns (more: bool)
      requires Valid() && running == None && NothingLost(0)
      modifies this
      ensures Valid() && running == None && NothingLost(0)
      ensures tasks == [] && Abstract() == old(Abstract().Drained())
      ensures forall i | 0 <= i < |log| && log[i].Queued? :: Served(log, i)
      ensures more <==> untilCompletion > 0
      ensures old(tasks) == [] ==> Abstract() == old(Abstract())
    {
      while tasks != []
        invariant Valid() && running == None && NothingLost(0)
        invariant Abstract().Drained() == old(Abstract().Drained())
        invariant old(tasks) == [] ==> Abstract() == old(Abstract())
        decreases |tasks| + Requests(script)
      {
        hide Served, Valid;
        RunFront();
      }
      more := untilCompletion > 0;
    }
  }

  lemma OverUnchanged(log: seq<Event>, e: Event, t: TaskId)
    requires e.Queued? || e.Polled? || e.Dropped?
    ensures Over(log + [e], t) == Over(log, t)
    ensures Completed(t) in log + [e] <==> Completed(t) in log
  {
  }

  lemma OverIsServed(log: seq<Event>, i: nat)
    requires i < |log| && log[i].Queued? && Over(log, log[i].task)
    ensures Served(log, i)
  {
  }

  lemma OverWhen(log: seq<Event>, i: nat)
    requires i < |log| && (log[i].Completed? || log[i].Failed?)
    ensures Over(log, log[i].task)
  {
    assert log[i] in log;
  }

  function FirstTasks(n: nat): (s: set<TaskId>)
    ensures |s| == n && forall t: nat :: t in s <==> t < n
  {
    if n == 0 then {} else FirstTasks(n - 1) + {n - 1}
  }

  lemma {:induction false} Subset<T>(a: set<T>, b: set<T>)
    requires a <= b
    ensures |a| <= |b| && (|a| == |b| ==> a == b)
  {
    if a != {} {
      var x :| x in a;
      Subset(a - {x}, b - {x});
    }
  }

  /** The counter is never negative and reaches zero exactly when every spawned task has polled ready. */
  lemma CounterIsUnfinished(executor: ThreadlessExecutor)
    requires executor.Valid()
    ensures executor.untilCompletion >= 0
    ensures executor.untilCompletion == 0 <==>
            forall t | 0 <= t < |executor.states| :: Completed(t) in executor.log
  {
    var spawned := FirstTasks(|executor.states|);
    Subset(executor.finished, spawned);
    forall t | 0 <= t < |executor.states| ensures t in executor.finished <==> Completed(t) in executor.log {
      assert executor.TaskValid(t);
    }
    if forall t | 0 <= t < |executor.states| :: Completed(t) in executor.log {
      assert executor.finished == spawned;
    }
  }
}
