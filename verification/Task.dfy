/**
 A task and the protocol by which one worker at a time takes its future out and puts it back.
 The methods run under the task's lock, so each is one atomic step.
 */
module Tasks {
  import opened Wrappers

  // The future a task carries, as an identity.
  type Future = nat

  datatype TaskState = TaskState(future: Option<Future>, stale: bool, inUse: bool)

  /** The result of a consume: whether the caller may go on, what it holds, and the task afterwards. */
  datatype Consumed = Consumed(ok: bool, out: Option<Future>, task: TaskState)

  function ConsumeState(t: TaskState): Consumed {
    if t.inUse then Consumed(false, None, t)
    else if t.stale then Consumed(true, None, t)
    else if t.future.None? then Consumed(false, None, t)
    else Consumed(true, t.future, TaskState(None, true, true))
  }

  function DeconsumeState(t: TaskState, future: Future): TaskState {
    TaskState(Some(future), false, false)
  }

  class Task {
    var future: Option<Future>
    var stale: bool
    var inUse: bool

    ghost function Abstract(): TaskState
      reads this
    {
      TaskState(future, stale, inUse)
    }

    constructor (future: Future)
      ensures Abstract() == TaskState(Some(future), false, false)
    {
      this.future, stale, inUse := Some(future), false, false;
    }

    method Consume() returns (ok: bool, out: Option<Future>)
      modifies this
      ensures ConsumeState(old(Abstract())) == Consumed(ok, out, Abstract())
    {
      if inUse {
        return false, None;
      }
      out := None;
      if !stale {
        out, future := future, None;
        if out == None {
          return false, None;
        }
        stale := true;
        inUse := true;
      }
      return true, out;
    }

    method Deconsume(out: Future)
      modifies this
      ensures Abstract() == DeconsumeState(old(Abstract()), out)
    {
      stale := false;
      future := Some(out);
      inUse := false;
    }
  }

  /** A consumed task refuses everyone until it is put back, and putting it back undoes the consume. */
  lemma ConsumeExcludes(t: TaskState)
    requires t.stale == t.inUse && (t.future.Some? <==> !t.inUse)
    ensures var c := ConsumeState(t);
      && (c.ok <==> !t.inUse)
      && (c.ok ==> c.out == t.future && !ConsumeState(c.task).ok && DeconsumeState(c.task, c.out.value) == t)
      && (!c.ok ==> c.task == t)
  {
  }
}
