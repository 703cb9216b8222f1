/**
 The task manager (`TaskManager` in task_manager.go) as a state machine. Each
 public call is one atomic transition over a `Manager` record; the end of a
 task's supervisor goroutine (its deferred cleanup) is a separate transition,
 `SupervisorFinish`, that the environment may take for any running generation.

 A *generation* is one accepted `StartTask`: its derived context, its cancel
 function and its supervisor goroutine. Generations are numbered in the order
 they are accepted.
 */
module TaskManager {
  import opened GoTypes
  import opened Context

  type TaskId = string
  type GenId = nat

  /** A task function: Go's nil, or a body whose behaviour is not modelled. */
  datatype TaskFn = NilFunc | Func(body: nat)

  /** The errors `StartTask` can return: the three package errors, or the
      error of an already finished parent context. */
  datatype TaskError =
    | InvalidTaskID
    | NilTaskFunc
    | TaskAlreadyExist
    | ContextError(reason: CtxErr)

  function ErrorText(e: TaskError): string
  {
    match e
    case InvalidTaskID => "invalid task id"
    case NilTaskFunc => "task function cannot be nil"
    case TaskAlreadyExist => "task with this ID is already running"
    case ContextError(reason) => CtxErrText(reason)
  }

  /** Every error `StartTask` can return has its own message, so a caller can
      tell them apart by text as well as by identity. */
  lemma ErrorTextsDistinct(e1: TaskError, e2: TaskError)
    ensures ErrorText(e1) == ErrorText(e2) <==> e1 == e2
  {
  }

  /** A generation whose supervisor has not yet finished. `parent` is the
      context it was started with; `fired` records whether its own cancel
      function has been called. */
  datatype Generation = Generation(id: TaskId, parent: SignalId, fired: bool)

  /** `tasks` is the `sync.Map` from task id to (the cancel function of) a
      generation, `live` the generations whose supervisors are still running,
      `wg` the `sync.WaitGroup` counter and `next` the number of the next
      generation to be accepted. */
  datatype Manager = Manager(
    tasks: map<TaskId, GenId>,
    live: map<GenId, Generation>,
    wg: nat,
    next: GenId)

  datatype Started = Started(tm: Manager, err: Option<TaskError>)

  datatype Stopped = Stopped(tm: Manager, ok: bool)

  /** `NewTaskManager`: nothing registered, nothing running. */
  const NewTaskManager: Manager := Manager(map[], map[], 0, 0)

  /** What holds in every reachable state: the wait-group counter is the number
      of running supervisors, generation numbers are never reused, every
      registered id names a running generation of that id, and that generation
      is the newest running one of its id. */
  predicate Valid(m: Manager)
  {
    && m.wg == |m.live|
    && (forall g :: g in m.live ==> g < m.next)
    && (forall id :: id in m.tasks ==> m.tasks[id] in m.live && m.live[m.tasks[id]].id == id)
    && (forall g :: g in m.live && m.live[g].id in m.tasks ==> g <= m.tasks[m.live[g].id])
  }

  lemma NewTaskManagerValid()
    ensures Valid(NewTaskManager)
  {
  }

  /** `HasTask`: whether an entry for `id` is registered. In a valid state a
      registered id names a running generation of that id, the newest one. */
  predicate HasTask(m: Manager, id: TaskId): (r: bool)
    ensures Valid(m) && r ==> id in m.tasks && m.tasks[id] in m.live && m.live[m.tasks[id]].id == id
    ensures Valid(m) && r ==> id in m.tasks && forall g :: g in m.live && m.live[g].id == id ==> g <= m.tasks[id]
  {
    id in m.tasks
  }

  /** Whether generation `g`'s context is done: its own cancel function fired,
      or its parent context has terminated (`context.WithCancel` propagates
      the parent's cancellation and deadline to the child). */
  predicate Cancelled(m: Manager, env: Signals, g: GenId)
    requires g in m.live
  {
    m.live[g].fired || Err(env, m.live[g].parent).Some?
  }

  /** Calls the cancel function of generation `g`. Calling it again, or after
      its supervisor has finished, has no further effect. */
  function Fire(live: map<GenId, Generation>, g: GenId): (r: map<GenId, Generation>)
    ensures r.Keys == live.Keys
    ensures g in live ==> r[g] == live[g].(fired := true)
    ensures forall h :: h in live && h != g ==> r[h] == live[h]
  {
    if g in live then live[g := live[g].(fired := true)] else live
  }

  /** Lines 39-41 of `StartTask`: the generation registered under `id`, if
      any, has its cancel function called. Nothing else changes. */
  function Displace(m: Manager, id: TaskId): (r: Manager)
    requires Valid(m)
    ensures Valid(r)
    ensures r.tasks == m.tasks && r.wg == m.wg && r.next == m.next
    ensures r.live.Keys == m.live.Keys
    ensures HasTask(m, id) ==> r.live[m.tasks[id]] == m.live[m.tasks[id]].(fired := true)
    ensures forall g :: g in m.live && !(HasTask(m, id) && g == m.tasks[id]) ==> r.live[g] == m.live[g]
  {
    if id in m.tasks then
      var r := m.(live := Fire(m.live, m.tasks[id]));
      assert |r.live| == |r.live.Keys| == |m.live.Keys| == |m.live|;
      r
    else m
  }

  /** Lines 43-45 of `StartTask`: a fresh generation derived from `ctx` is
      stored under `id` and counted by the wait group. */
  function Register(m: Manager, ctx: SignalId, id: TaskId): (r: Manager)
    requires Valid(m)
    ensures Valid(r)
    ensures HasTask(r, id) && r.tasks[id] == m.next
    ensures r.tasks - {id} == m.tasks - {id}
    ensures m.next !in m.live && r.live.Keys == m.live.Keys + {m.next}
    ensures r.live[m.next] == Generation(id, ctx, false)
    ensures forall g :: g in m.live ==> r.live[g] == m.live[g]
    ensures r.wg == m.wg + 1 && r.next == m.next + 1
  {
    var g := m.next;
    var r := Manager(m.tasks[id := g], m.live[g := Generation(id, ctx, false)], m.wg + 1, m.next + 1);
    assert r.live.Keys == m.live.Keys + {g};
    assert |r.live| == |m.live| + 1;
    r
  }

  /** The accepting half of `StartTask`: the generation registered under
      `id`, if any, is cancelled; a fresh generation derived from `ctx` is
      registered under `id` and counted by the wait group. Entries for other
      ids and all other generations are untouched. */
  function Admit(m: Manager, ctx: SignalId, id: TaskId): (r: Manager)
    requires Valid(m)
    ensures Valid(r)
    ensures HasTask(r, id) && r.tasks[id] == m.next
    ensures r.tasks - {id} == m.tasks - {id}
    ensures m.next !in m.live && r.live.Keys == m.live.Keys + {m.next}
    ensures r.live[m.next] == Generation(id, ctx, false)
    ensures r.wg == m.wg + 1 && r.next == m.next + 1
    ensures HasTask(m, id) ==> r.live[m.tasks[id]] == m.live[m.tasks[id]].(fired := true)
    ensures forall g :: g in m.live && !(HasTask(m, id) && g == m.tasks[id]) ==> r.live[g] == m.live[g]
  {
    Register(Displace(m, id), ctx, id)
  }

  /** `StartTask`. Validation comes first and, on failure, leaves the manager
      as it was: an empty id, then a nil function, then a parent context that
      is already done (whose own error is returned). Otherwise a generation
      already registered under `id` is cancelled, a fresh generation is
      registered in its place, and the wait-group counter grows by one.
      `ErrTaskAlreadyExist` is never returned. */
  function StartTask(m: Manager, env: Signals, ctx: SignalId, id: TaskId, fn: TaskFn): (r: Started)
    requires Valid(m)
    ensures Valid(r.tm)
    ensures id == "" ==> r.err == Some(InvalidTaskID)
    ensures id != "" && fn.NilFunc? ==> r.err == Some(NilTaskFunc)
    ensures id != "" && fn.Func? && Err(env, ctx).Some? ==> r.err == Some(ContextError(Err(env, ctx).value))
    ensures r.err.None? <==> id != "" && fn.Func? && Err(env, ctx).None?
    ensures r.err != Some(TaskAlreadyExist)
    ensures r.err.Some? ==> r.tm == m
    ensures r.err.None? ==> r.tm == Admit(m, ctx, id)
  {
    if id == "" then Started(m, Some(InvalidTaskID))
    else if fn.NilFunc? then Started(m, Some(NilTaskFunc))
    else if ctx in env.terminated then Started(m, Some(ContextError(env.terminated[ctx])))
    else Started(Admit(m, ctx, id), None)
  }

  /** `StopTask`: reports whether `id` was registered; if it was, cancels that
      generation and unregisters it. The counter and every other entry and
      generation are left alone. */
  function StopTask(m: Manager, id: TaskId): (r: Stopped)
    requires Valid(m)
    ensures Valid(r.tm)
    ensures r.ok <==> HasTask(m, id)
    ensures !HasTask(r.tm, id)
    ensures r.tm.tasks == m.tasks - {id}
    ensures r.tm.wg == m.wg && r.tm.next == m.next && r.tm.live.Keys == m.live.Keys
    ensures r.ok ==> r.tm.live[m.tasks[id]] == m.live[m.tasks[id]].(fired := true)
    ensures forall g :: g in m.live && !(r.ok && g == m.tasks[id]) ==> r.tm.live[g] == m.live[g]
    ensures !r.ok ==> r.tm == m
  {
    if id in m.tasks then
      var m' := m.(tasks := m.tasks - {id}, live := Fire(m.live, m.tasks[id]));
      assert |m'.live| == |m'.live.Keys| == |m.live.Keys| == |m.live|;
      Stopped(m', true)
    else
      Stopped(m, false)
  }

  /** The deferred cleanup of generation `g`'s supervisor: it deletes the entry
      for `g`'s id, whichever generation that entry belongs to, and marks the
      wait group done. It can happen only while `g` is running. */
  function SupervisorFinish(m: Manager, g: GenId): (r: Manager)
    requires Valid(m) && g in m.live
    ensures Valid(r)
    ensures r.wg == m.wg - 1 && r.next == m.next
    ensures r.live == m.live - {g}
    ensures !HasTask(r, m.live[g].id)
    ensures r.tasks == m.tasks - {m.live[g].id}
  {
    var r := Manager(m.tasks - {m.live[g].id}, m.live - {g}, m.wg - 1, m.next);
    assert m.live.Keys == r.live.Keys + {g};
    r
  }

  /** The broadcast part of `GracefulShutdown`: the cancel function of every
      registered generation fires. No entry is removed, the counter does not
      move, and unregistered generations are not reached. */
  function GracefulShutdown(m: Manager): (r: Manager)
    requires Valid(m)
    ensures Valid(r)
    ensures r.tasks == m.tasks && r.wg == m.wg && r.next == m.next
    ensures r.live.Keys == m.live.Keys
    ensures forall id :: id in m.tasks ==> r.live[m.tasks[id]].fired
    ensures forall g :: g in m.live ==>
      r.live[g].id == m.live[g].id && r.live[g].parent == m.live[g].parent && (m.live[g].fired ==> r.live[g].fired)
    ensures forall g :: g in m.live && g !in m.tasks.Values ==> r.live[g] == m.live[g]
  {
    var live := map g | g in m.live :: if g in m.tasks.Values then m.live[g].(fired := true) else m.live[g];
    assert live.Keys == m.live.Keys;
    assert |live| == |live.Keys| == |m.live.Keys| == |m.live|;
    m.(live := live)
  }
}
