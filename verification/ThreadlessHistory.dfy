/**
 Whole runs of the single-threaded executor, told by their log alone.  A run is any sequence of spawns, wake-ups
 and steps.  The laws count and compare events; they do not follow the executor's own steps.
 */
module ThreadlessHistories {
  import opened Wrappers
  import opened ThreadlessExecutors

  datatype Call = Ask(request: Request) | Step

  ghost function Start(script: seq<PollEvent>): View {
    View([], 0, 0, script, [])
  }

  /** A spawn or a wake-up from outside a poll; only a task that exists can be woken. */
  ghost function Asking(v: View, request: Request): View {
    match request
    case Spawn =>
      v.(tasks := v.tasks + [v.count], count := v.count + 1, untilCompletion := v.untilCompletion + 1,
         log := v.log + [Queued(v.count)])
    case Wake(t) => if t < v.count then v.(tasks := v.tasks + [t], log := v.log + [Queued(t)]) else v
  }

  ghost function Run(v: View, calls: seq<Call>): View
    decreases calls
  {
    if calls == [] then v
    else Run(if calls[0].Step? then v.Drained() else Asking(v, calls[0].request), calls[1..])
  }

  datatype Kind = Queueing | Taking | Polling | Completing | Failing

  predicate Is(e: Event, kind: Kind) {
    match kind
    case Queueing => e.Queued?
    case Taking => e.Polled? || e.Dropped?
    case Polling => e.Polled?
    case Completing => e.Completed?
    case Failing => e.Failed?
  }

  /** The tasks of the events of one kind, in order. */
  function Only(log: seq<Event>, kind: Kind): (ids: seq<TaskId>)
    ensures |ids| <= |log|
  {
    if log == [] then [] else (if Is(log[0], kind) then [log[0].task] else []) + Only(log[1..], kind)
  }

  lemma {:induction false} OnlyAppend(a: seq<Event>, b: seq<Event>, kind: Kind)
    ensures Only(a + b, kind) == Only(a, kind) + Only(b, kind)
  {
    if a == [] {
      assert a + b == b;
    } else {
      assert (a + b)[0] == a[0] && (a + b)[1..] == a[1..] + b;
      OnlyAppend(a[1..], b, kind);
    }
  }

  lemma {:induction false} OnlyQueueings(ids: seq<TaskId>, kind: Kind)
    ensures Only(Queueings(ids), kind) == if kind.Queueing? then ids else []
  {
    if ids != [] {
      assert Queueings(ids)[1..] == Queueings(ids[1..]);
      OnlyQueueings(ids[1..], kind);
    }
  }

  /** The number of tasks that exist: they are numbered from 0 in the order of their first queueing. */
  function Known(log: seq<Event>): nat {
    if log == [] then 0
    else
      var last := log[|log| - 1];
      var before := Known(log[..|log| - 1]);
      if last.Queued? && last.task >= before then last.task + 1 else before
  }

  lemma KnownLast(log: seq<Event>, e: Event)
    ensures Known(log + [e]) == if e.Queued? && e.task >= Known(log) then e.task + 1 else Known(log)
  {
    assert (log + [e])[..|log|] == log;
  }

  lemma {:induction false} KnownAsked(log: seq<Event>, requests: seq<Request>)
    ensures Known(log + Queueings(Asked(requests, Known(log)))) == Known(log) + Spawns(requests)
    decreases requests
  {
    hide Known, Queueings;
    var n := Known(log);
    if requests == [] {
      assert log + Queueings([]) == log;
    } else if requests[0].Spawn? {
      KnownOne(log, n, Asked(requests[1..], n + 1));
      KnownAsked(log + [Queued(n)], requests[1..]);
    } else if requests[0].task < n {
      KnownOne(log, requests[0].task, Asked(requests[1..], n));
      KnownAsked(log + [Queued(requests[0].task)], requests[1..]);
    } else {
      assert Asked(requests, n) == Asked(requests[1..], n);
      KnownAsked(log, requests[1..]);
    }
  }

  lemma KnownOne(log: seq<Event>, t: TaskId, ids: seq<TaskId>)
    ensures Known(log + [Queued(t)]) == if t >= Known(log) then t + 1 else Known(log)
    ensures log + Queueings([t] + ids) == log + [Queued(t)] + Queueings(ids)
  {
    KnownLast(log, Queued(t));
    assert Queueings([t] + ids) == [Queued(t)] + Queueings(ids);
  }

  function EventAt(script: seq<PollEvent>, k: nat): PollEvent {
    if k < |script| then script[k] else PollEvent(Pending, [])
  }

  /** The events of a script from the `k`-th on. */
  function From(script: seq<PollEvent>, k: nat): seq<PollEvent> {
    if k <= |script| then script[k..] else []
  }

  /** How many of the first `k` polls have this result. */
  function Results(script: seq<PollEvent>, k: nat, result: PollResult): nat {
    if k == 0 then 0
    else Results(script, k - 1, result) + if EventAt(script, k - 1).result == result then 1 else 0
  }

  function Polls(log: seq<Event>): nat {
    |Only(log, Polling)|
  }

  /** The poll at position `i` is followed by the queueings its event asks for, one by one, and then by the end
      of the task exactly as the event's result says. */
  ghost predicate Replies(log: seq<Event>, i: nat, event: PollEvent)
    requires i < |log| && log[i].Polled?
  {
    var ids := Asked(event.requests, Known(log[..i]));
    var j := i + 1 + |ids|;
    && j <= |log|
    && (forall k :: 0 <= k < |ids| ==> log[i + 1 + k] == Queued(ids[k]))
    && (event.result.Ready? ==> j < |log| && log[j] == Completed(log[i].task))
    && (event.result.Threw? ==> j < |log| && log[j] == Failed(log[i].task))
    && (event.result.Pending? && j < |log| ==> !log[j].Completed? && !log[j].Failed?)
  }

  /** The `k`-th poll of the log is answered by the `k`-th event of the script. */
  ghost predicate FollowsScript(log: seq<Event>, script: seq<PollEvent>) {
    forall i | 0 <= i < |log| && log[i].Polled? :: Replies(log, i, EventAt(script, Polls(log[..i])))
  }

  /** An entry is polled when its task is not over at that moment, and dropped when it is. */
  ghost predicate PollsLive(log: seq<Event>) {
    forall i | 0 <= i < |log| ::
      (log[i].Polled? ==> !Over(log[..i], log[i].task)) && (log[i].Dropped? ==> Over(log[..i], log[i].task))
  }

  ghost predicate Lawful(v: View, script: seq<PollEvent>) {
    var polls := Polls(v.log);
    && v.script == From(script, polls)
    && v.count == Known(v.log)
    && Only(v.log, Queueing) == Only(v.log, Taking) + v.tasks
    && |Only(v.log, Completing)| == Results(script, polls, Ready)
    && |Only(v.log, Failing)| == Results(script, polls, Threw)
    && v.untilCompletion == Known(v.log) - Results(script, polls, Ready)
    && PollsLive(v.log)
    && FollowsScript(v.log, script)
  }

  lemma KeepsReplies(log: seq<Event>, more: seq<Event>, i: nat, event: PollEvent)
    requires i < |log| && log[i].Polled? && Replies(log, i, event)
    requires more != [] && !more[0].Completed? && !more[0].Failed?
    ensures Replies(log + more, i, event)
  {
    hide Asked, Known;
    assert (log + more)[..i] == log[..i];
    assert forall k :: 0 <= k < |log| ==> (log + more)[k] == log[k];
  }

  /** Appending events that begin with no outcome leaves what holds of the earlier ones. */
  lemma KeepsFollows(log: seq<Event>, more: seq<Event>, script: seq<PollEvent>)
    requires FollowsScript(log, script) && more != [] && !more[0].Completed? && !more[0].Failed?
    ensures forall i | 0 <= i < |log| && log[i].Polled? ::
              Replies(log + more, i, EventAt(script, Polls((log + more)[..i])))
  {
    hide Replies, Polls, EventAt;
    forall i | 0 <= i < |log| && log[i].Polled?
      ensures Replies(log + more, i, EventAt(script, Polls((log + more)[..i])))
    {
      assert (log + more)[..i] == log[..i];
      KeepsReplies(log, more, i, EventAt(script, Polls(log[..i])));
    }
  }

  lemma KeepsLive(log: seq<Event>, more: seq<Event>)
    requires PollsLive(log)
    requires forall k | 0 <= k < |more| :: !more[k].Polled? && !more[k].Dropped?
    ensures PollsLive(log + more)
  {
    hide Over;
    var all := log + more;
    forall i | 0 <= i < |all| && (all[i].Polled? || all[i].Dropped?)
      ensures all[i].Polled? ==> !Over(all[..i], all[i].task)
      ensures all[i].Dropped? ==> Over(all[..i], all[i].task)
    {
      assert i < |log|;
      assert all[..i] == log[..i] && all[i] == log[i];
    }
  }

  lemma LiveLast(log: seq<Event>, e: Event)
    requires PollsLive(log)
    requires e.Polled? ==> !Over(log, e.task)
    requires e.Dropped? ==> Over(log, e.task)
    ensures PollsLive(log + [e])
  {
    hide Over;
    var all := log + [e];
    forall i | 0 <= i < |all|
      ensures all[i].Polled? ==> !Over(all[..i], all[i].task)
      ensures all[i].Dropped? ==> Over(all[..i], all[i].task)
    {
      assert all[..i] == log[..i];
      assert log[..|log|] == log;
    }
  }

  // What one entry adds to the log.
  function Block(t: TaskId, ids: seq<TaskId>, result: PollResult): seq<Event> {
    [Polled(t)] + Queueings(ids) + Outcome(t, result)
  }

  lemma OnlyBlock(log: seq<Event>, t: TaskId, ids: seq<TaskId>, result: PollResult, kind: Kind)
    ensures Only(log + Block(t, ids, result), kind) == Only(log, kind) +
      match kind
      case Queueing => ids
      case Taking => [t]
      case Polling => [t]
      case Completing => if result.Ready? then [t] else []
      case Failing => if result.Threw? then [t] else []
  {
    var outcome := Only(Outcome(t, result), kind);
    var queueings := Only(Queueings(ids), kind);
    assert outcome == if (kind.Completing? && result.Ready?) || (kind.Failing? && result.Threw?) then [t] else [];
    assert Only([Polled(t)], kind) == if kind.Taking? || kind.Polling? then [t] else [];
    hide Only, Queueings, Outcome;
    OnlyQueueings(ids, kind);
    OnlyAppend(log, Block(t, ids, result), kind);
    OnlyAppend([Polled(t)] + Queueings(ids), Outcome(t, result), kind);
    OnlyAppend([Polled(t)], Queueings(ids), kind);
    assert Only([Polled(t)], kind) + queueings + outcome ==
      if kind.Queueing? then ids else Only([Polled(t)], kind) + outcome;
  }

  lemma KnownBlock(log: seq<Event>, t: TaskId, requests: seq<Request>, result: PollResult)
    ensures Known(log + Block(t, Asked(requests, Known(log)), result)) == Known(log) + Spawns(requests)
  {
    hide Asked, Known, Queueings, Spawns;
    var queueings := Queueings(Asked(requests, Known(log)));
    KnownLast(log, Polled(t));
    KnownAsked(log + [Polled(t)], requests);
    var before := log + [Polled(t)] + queueings;
    Associate(log, [Polled(t)], queueings);
    Associate(log, [Polled(t)] + queueings, Outcome(t, result));
    if !result.Pending? {
      KnownLast(before, Outcome(t, result)[0]);
    } else {
      assert before + [] == before;
    }
  }

  lemma BlockAt(log: seq<Event>, t: TaskId, ids: seq<TaskId>, result: PollResult)
    ensures var all := log + Block(t, ids, result);
      && |all| >= |log| + 1 + |ids|
      && all[..|log|] == log && all[|log|] == Polled(t)
      && (forall k :: 0 <= k < |ids| ==> all[|log| + 1 + k] == Queued(ids[k]))
      && (result.Ready? ==> |log| + 1 + |ids| < |all| && all[|log| + 1 + |ids|] == Completed(t))
      && (result.Threw? ==> |log| + 1 + |ids| < |all| && all[|log| + 1 + |ids|] == Failed(t))
      && (result.Pending? ==> |log| + 1 + |ids| == |all|)
  {
    hide Queueings;
    var all := log + Block(t, ids, result);
    Cut(log, Block(t, ids, result));
    assert forall k :: 0 <= k < |Block(t, ids, result)| ==> all[|log| + k] == Block(t, ids, result)[k];
    forall k | 0 <= k < |ids| ensures all[|log| + 1 + k] == Queued(ids[k]) {
      assert all[|log| + (1 + k)] == Block(t, ids, result)[1 + k] == Queueings(ids)[k];
    }
    assert result.Pending? || all[|log| + (1 + |ids|)] == Block(t, ids, result)[1 + |ids|];
  }

  lemma RepliesBlock(log: seq<Event>, t: TaskId, event: PollEvent)
    ensures var more := Block(t, Asked(event.requests, Known(log)), event.result);
      (log + more)[|log|] == Polled(t) && Replies(log + more, |log|, event)
  {
    hide Asked, Known, Block, Replies, Queueings, Outcome;
    var ids := Asked(event.requests, Known(log));
    BlockAt(log, t, ids, event.result);
    RepliesWhen(log + Block(t, ids, event.result), |log|, log, t, ids, event);
  }

  lemma RepliesWhen(all: seq<Event>, i: nat, log: seq<Event>, t: TaskId, ids: seq<TaskId>, event: PollEvent)
    requires i < |all| && all[..i] == log && all[i] == Polled(t) && ids == Asked(event.requests, Known(log))
    requires i + 1 + |ids| <= |all| && forall k :: 0 <= k < |ids| ==> all[i + 1 + k] == Queued(ids[k])
    requires event.result.Ready? ==> i + 1 + |ids| < |all| && all[i + 1 + |ids|] == Completed(t)
    requires event.result.Threw? ==> i + 1 + |ids| < |all| && all[i + 1 + |ids|] == Failed(t)
    requires event.result.Pending? ==> i + 1 + |ids| == |all|
    ensures Replies(all, i, event)
  {
    hide Asked, Known;
  }

  lemma FollowsBlock(log: seq<Event>, t: TaskId, event: PollEvent, script: seq<PollEvent>)
    requires FollowsScript(log, script) && event == EventAt(script, Polls(log))
    ensures FollowsScript(log + Block(t, Asked(event.requests, Known(log)), event.result), script)
  {
    hide Replies, Asked, Known, EventAt, Polls, Queueings;
    var more := Block(t, Asked(event.requests, Known(log)), event.result);
    RepliesBlock(log, t, event);
    KeepsFollows(log, more, script);
    assert (log + more)[..|log|] == log;
    forall i | |log| < i < |log + more| ensures !(log + more)[i].Polled? {
      BlockTail(t, Asked(event.requests, Known(log)), event.result, i - |log|);
    }
  }

  lemma BlockTail(t: TaskId, ids: seq<TaskId>, result: PollResult, i: nat)
    requires 0 < i < |Block(t, ids, result)|
    ensures !Block(t, ids, result)[i].Polled? && !Block(t, ids, result)[i].Dropped?
  {
    if i <= |ids| {
      assert Block(t, ids, result)[i] == Queueings(ids)[i - 1];
    }
  }

  lemma LiveBlock(log: seq<Event>, t: TaskId, ids: seq<TaskId>, result: PollResult)
    requires PollsLive(log) && !Over(log, t)
    ensures PollsLive(log + Block(t, ids, result))
  {
    hide Over, PollsLive;
    var more := Block(t, ids, result);
    LiveLast(log, Polled(t));
    forall k | 0 <= k < |more[1..]| ensures !more[1..][k].Polled? && !more[1..][k].Dropped? {
      BlockTail(t, ids, result, k + 1);
    }
    KeepsLive(log + [Polled(t)], more[1..]);
    assert more == [Polled(t)] + more[1..];
    Associate(log, [Polled(t)], more[1..]);
  }

  /** One event that is neither a poll nor an outcome. */
  lemma LawfulLast(v: View, next: View, e: Event, script: seq<PollEvent>)
    requires Lawful(v, script) && (e.Queued? || e.Dropped?) && next.log == v.log + [e]
    requires next.script == v.script && next.count == Known(next.log)
    requires next.untilCompletion - next.count == v.untilCompletion - v.count
    requires e.Queued? ==> next.tasks == v.tasks + [e.task]
    requires e.Dropped? ==> v.tasks == [e.task] + next.tasks && Over(v.log, e.task)
    ensures Lawful(next, script)
  {
    hide Over, Known, PollsLive, FollowsScript, Results;
    OnlyAppend(v.log, [e], Queueing);
    OnlyAppend(v.log, [e], Taking);
    OnlyAppend(v.log, [e], Polling);
    OnlyAppend(v.log, [e], Completing);
    OnlyAppend(v.log, [e], Failing);
    LiveLast(v.log, e);
    Associate(Only(v.log, Taking), v.tasks, [e.task]);
    Associate(Only(v.log, Taking), [e.task], next.tasks);
    FollowsLast(v.log, e, script);
  }

  lemma FollowsLast(log: seq<Event>, e: Event, script: seq<PollEvent>)
    requires FollowsScript(log, script) && (e.Queued? || e.Dropped?)
    ensures FollowsScript(log + [e], script)
  {
    hide Replies, EventAt, Polls;
    KeepsFollows(log, [e], script);
  }

  lemma LawfulFront(v: View, script: seq<PollEvent>)
    requires Lawful(v, script) && v.tasks != []
    ensures Lawful(v.Front(), script)
  {
    hide Over, Known, PollsLive, FollowsScript, Queueings, Asked, Spawns, Polls, Results;
    var t := v.tasks[0];
    assert v.tasks == [t] + v.tasks[1..];
    if Over(v.log, t) {
      KnownLast(v.log, Dropped(t));
      LawfulLast(v, v.Front(), Dropped(t), script);
    } else {
      LawfulPoll(v, script);
    }
  }

  lemma LawfulPoll(v: View, script: seq<PollEvent>)
    requires Lawful(v, script) && v.tasks != [] && !Over(v.log, v.tasks[0])
    ensures Lawful(v.Front(), script)
  {
    hide Over, Known, PollsLive, FollowsScript, Queueings, Asked, Spawns, Only;
    var t := v.tasks[0];
    var rest := v.tasks[1..];
    var event := FirstEvent(v.script);
    var ids := Asked(event.requests, v.count);
    var taken := Only(v.log, Taking);
    OnlyBlock(v.log, t, ids, event.result, Queueing);
    OnlyBlock(v.log, t, ids, event.result, Taking);
    OnlyBlock(v.log, t, ids, event.result, Polling);
    OnlyBlock(v.log, t, ids, event.result, Completing);
    OnlyBlock(v.log, t, ids, event.result, Failing);
    KnownBlock(v.log, t, event.requests, event.result);
    LiveBlock(v.log, t, ids, event.result);
    FollowsBlock(v.log, t, event, script);
    assert v.tasks == [t] + rest;
    Associate(taken, [t], rest);
    Associate(taken + [t], rest, ids);
    Associate(v.log, [Polled(t)], Queueings(ids));
    Associate(v.log, [Polled(t)] + Queueings(ids), Outcome(t, event.result));
  }

  lemma {:induction false} LawfulDrained(v: View, script: seq<PollEvent>)
    requires Lawful(v, script)
    ensures Lawful(v.Drained(), script) && v.Drained().tasks == []
    decreases |v.tasks| + Requests(v.script)
  {
    hide Lawful;
    if v.tasks != [] {
      LawfulFront(v, script);
      LawfulDrained(v.Front(), script);
    }
  }

  lemma LawfulAsking(v: View, request: Request, script: seq<PollEvent>)
    requires Lawful(v, script)
    ensures Lawful(Asking(v, request), script)
  {
    hide Over, PollsLive, FollowsScript, Polls, Results, Known;
    match request {
      case Spawn =>
        KnownLast(v.log, Queued(v.count));
        LawfulLast(v, Asking(v, request), Queued(v.count), script);
      case Wake(t) =>
        if t < v.count {
          KnownLast(v.log, Queued(t));
          LawfulLast(v, Asking(v, request), Queued(t), script);
        }
    }
  }

  lemma {:induction false} LawfulRun(v: View, calls: seq<Call>, script: seq<PollEvent>)
    requires Lawful(v, script)
    ensures Lawful(Run(v, calls), script)
    ensures calls != [] && calls[|calls| - 1].Step? ==> Run(v, calls).tasks == []
    decreases calls
  {
    hide Lawful;
    if calls != [] {
      var next := if calls[0].Step? then v.Drained() else Asking(v, calls[0].request);
      if calls[0].Step? {
        LawfulDrained(v, script);
      } else {
        LawfulAsking(v, calls[0].request, script);
      }
      LawfulRun(next, calls[1..], script);
    }
  }

  lemma StartLawful(script: seq<PollEvent>)
    ensures Lawful(Start(script), script)
  {
  }

  /** Every run of the executor.  Entries leave the queue in the order they came and none is lost; only a task
      that is not over is polled; the polls are answered by the script in order; and the counter is the number
      of spawned tasks less the number of ready polls.  After a step the queue is empty. */
  lemma EveryRun(script: seq<PollEvent>, calls: seq<Call>)
    ensures var v := Run(Start(script), calls);
      && Only(v.log, Queueing) == Only(v.log, Taking) + v.tasks
      && PollsLive(v.log)
      && FollowsScript(v.log, script)
      && |Only(v.log, Completing)| == Results(script, Polls(v.log), Ready)
      && |Only(v.log, Failing)| == Results(script, Polls(v.log), Threw)
      && v.untilCompletion == Known(v.log) - Results(script, Polls(v.log), Ready)
      && (calls != [] && calls[|calls| - 1].Step? ==> v.tasks == [])
  {
    StartLawful(script);
    hide Only, PollsLive, FollowsScript, Results, Polls, Known, Run;
    LawfulRun(Start(script), calls, script);
  }
}
