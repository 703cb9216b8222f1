/**
 Properties of the task manager that relate several calls: stop after start,
 stop twice, a parent context's termination reaching its tasks, the effect of
 the unconditional supervisor cleanup, and runs of arbitrary event sequences
 starting from `NewTaskManager`.
 */
module TaskManagerTraces {
  import opened GoTypes
  import opened Context
  import opened TaskManager

  /** A task that was just started is found by `StopTask`, which cancels it;
      the counter keeps counting it until its supervisor finishes. */
  lemma StartThenStop(m: Manager, env: Signals, ctx: SignalId, id: TaskId, fn: TaskFn)
    requires Valid(m)
    requires StartTask(m, env, ctx, id, fn).err.None?
    ensures var s := StopTask(StartTask(m, env, ctx, id, fn).tm, id);
      && s.ok
      && !HasTask(s.tm, id)
      && m.next in s.tm.live
      && Cancelled(s.tm, env, m.next)
      && s.tm.wg == m.wg + 1
  {
  }

  /** A second consecutive `StopTask` on the same id reports false and changes
      nothing. */
  lemma StopTaskTwice(m: Manager, id: TaskId)
    requires Valid(m)
    ensures var s1 := StopTask(m, id);
      var s2 := StopTask(s1.tm, id);
      && s1.ok == HasTask(m, id)
      && !s2.ok
      && s2.tm == s1.tm
  {
  }

  /** Stopping one task leaves every other generation exactly as cancelled or
      not as it was, whatever the state of the parent contexts. */
  lemma StopTaskIsolated(m: Manager, env: Signals, id: TaskId, g: GenId)
    requires Valid(m)
    requires g in m.live && !(HasTask(m, id) && m.tasks[id] == g)
    ensures g in StopTask(m, id).tm.live
    ensures Cancelled(StopTask(m, id).tm, env, g) == Cancelled(m, env, g)
  {
  }

  /** When a parent context terminates, every generation started with it is
      cancelled without the manager being told, and no generation with a
      different parent changes. */
  lemma ParentTerminationReachesChildren(m: Manager, env: Signals, p: SignalId, reason: CtxErr)
    ensures forall g :: g in m.live && m.live[g].parent == p ==> Cancelled(m, Terminate(env, p, reason), g)
    ensures forall g :: g in m.live && m.live[g].parent != p ==>
      Cancelled(m, Terminate(env, p, reason), g) == Cancelled(m, env, g)
  {
  }

  /** `GracefulShutdown` does not close the manager: a valid `StartTask`
      afterwards is accepted as usual. */
  lemma StartAfterShutdownAccepted(m: Manager, env: Signals, ctx: SignalId, id: TaskId, fn: TaskFn)
    requires Valid(m)
    requires id != "" && fn.Func? && Err(env, ctx).None?
    ensures StartTask(GracefulShutdown(m), env, ctx, id, fn).err.None?
    ensures HasTask(StartTask(GracefulShutdown(m), env, ctx, id, fn).tm, id)
  {
  }

  /** The supervisor cleanup deletes by id, not by generation. When a
      generation finishes while its id is registered to a newer generation,
      that newer entry is deleted: the newer task keeps running exactly as it
      was, yet `HasTask` reports false, `StopTask` cannot reach it and the
      shutdown broadcast does not cancel it. */
  lemma StaleFinishEvictsNewer(m: Manager, g: GenId)
    requires Valid(m) && g in m.live
    requires HasTask(m, m.live[g].id) && m.tasks[m.live[g].id] != g
    ensures var id := m.live[g].id;
      var newer := m.tasks[id];
      var m' := SupervisorFinish(m, g);
      && newer in m'.live
      && m'.live[newer] == m.live[newer]
      && !HasTask(m', id)
      && !StopTask(m', id).ok
      && GracefulShutdown(m').live[newer] == m.live[newer]
  {
    var id := m.live[g].id;
    var newer := m.tasks[id];
    var m' := SupervisorFinish(m, g);
    assert newer !in m'.tasks.Values by {
      forall other | other in m'.tasks
        ensures m'.tasks[other] != newer
      {
        assert m'.tasks[other] == m.tasks[other];
        assert m.live[m.tasks[other]].id == other;
      }
    }
  }

  /** What an accepted `StartTask` does, one fact per field. */
  lemma AcceptedStart(m: Manager, env: Signals, ctx: SignalId, id: TaskId, fn: TaskFn)
    requires Valid(m)
    requires id != "" && fn.Func? && Err(env, ctx).None?
    ensures var r := StartTask(m, env, ctx, id, fn).tm;
      && id in r.tasks && r.tasks[id] == m.next
      && r.next == m.next + 1 && r.wg == m.wg + 1
      && m.next in r.live && r.live[m.next] == Generation(id, ctx, false)
      && (HasTask(m, id) ==> m.tasks[id] in r.live && r.live[m.tasks[id]] == m.live[m.tasks[id]].(fired := true))
      && (forall g :: g in m.live && !(HasTask(m, id) && g == m.tasks[id]) ==> g in r.live && r.live[g] == m.live[g])
  {
  }

  /** Restarting a task sets up exactly that situation: the displaced
      generation is still running, cancelled, and its id now names the new
      generation, which is not cancelled. */
  lemma RestartLeavesStaleGeneration(m: Manager, env: Signals, ctx: SignalId, id: TaskId, fn: TaskFn)
    requires Valid(m)
    requires id != "" && fn.Func? && Err(env, ctx).None?
    ensures var m2 := StartTask(StartTask(m, env, ctx, id, fn).tm, env, ctx, id, fn).tm;
      && id in m2.tasks && m2.tasks[id] == m.next + 1
      && m.next in m2.live && m2.live[m.next] == Generation(id, ctx, true)
      && m.next + 1 in m2.live && m2.live[m.next + 1] == Generation(id, ctx, false)
      && !Cancelled(m2, env, m.next + 1)
      && m2.wg == m.wg + 2
  {
    AcceptedStart(m, env, ctx, id, fn);
    AcceptedStart(StartTask(m, env, ctx, id, fn).tm, env, ctx, id, fn);
  }

  /** Two tasks with different ids started with one parent context are both
      running uncancelled, and both are cancelled when that parent terminates,
      although neither was addressed individually. */
  lemma SharedParentCancelsBoth(m: Manager, env: Signals, p: SignalId, a: TaskId, b: TaskId, fn: TaskFn, reason: CtxErr)
    requires Valid(m)
    requires a != "" && b != "" && a != b && fn.Func? && Err(env, p).None?
    ensures var m2 := StartTask(StartTask(m, env, p, a, fn).tm, env, p, b, fn).tm;
      && m.next in m2.live && m.next + 1 in m2.live
      && m2.live[m.next].parent == p && m2.live[m.next + 1].parent == p
      && !Cancelled(m2, env, m.next)
      && !Cancelled(m2, env, m.next + 1)
      && Cancelled(m2, Terminate(env, p, reason), m.next)
      && Cancelled(m2, Terminate(env, p, reason), m.next + 1)
  {
    AcceptedStart(m, env, p, a, fn);
    AcceptedStart(StartTask(m, env, p, a, fn).tm, env, p, b, fn);
  }

  /** Everything that can happen to a manager: a public call, the end of a
      supervisor, or a parent context terminating. */
  datatype Event =
    | Start(ctx: SignalId, id: TaskId, fn: TaskFn)
    | Stop(stopId: TaskId)
    | Shutdown
    | Finish(g: GenId)
    | ParentDone(p: SignalId, reason: CtxErr)

  datatype World = World(tm: Manager, env: Signals)

  /** Whether the event is a `StartTask` call that will be accepted. */
  predicate Accepts(w: World, e: Event)
  {
    e.Start? && e.id != "" && e.fn.Func? && Err(w.env, e.ctx).None?
  }

  /** One event. A `Finish` of a generation that is not running is not
      possible, and leaves the world as it is. */
  function Apply(w: World, e: Event): (r: World)
    requires Valid(w.tm)
    ensures Valid(r.tm)
    ensures r.tm.next >= w.tm.next
    ensures r.tm.live.Keys <= w.tm.live.Keys + {w.tm.next}
    ensures r.tm.wg == w.tm.wg + (if Accepts(w, e) then 1 else 0) - (if e.Finish? && e.g in w.tm.live then 1 else 0)
    ensures e.ParentDone? ==> r.tm == w.tm
    ensures !e.ParentDone? ==> r.env == w.env
  {
    match e
    case Start(ctx, id, fn) => World(StartTask(w.tm, w.env, ctx, id, fn).tm, w.env)
    case Stop(id) => World(StopTask(w.tm, id).tm, w.env)
    case Shutdown => World(GracefulShutdown(w.tm), w.env)
    case Finish(g) => if g in w.tm.live then World(SupervisorFinish(w.tm, g), w.env) else w
    case ParentDone(p, reason) => World(w.tm, Terminate(w.env, p, reason))
  }

  /** A run of events from a valid state stays valid, so in particular the
      wait-group counter always equals the number of running supervisors and
      every registered generation is running. A generation that has finished
      never runs again, so its supervisor decrements the counter once only. */
  function Run(w: World, events: seq<Event>): (r: World)
    requires Valid(w.tm)
    ensures Valid(r.tm)
    ensures r.tm.next >= w.tm.next
    ensures forall g :: g < w.tm.next && g !in w.tm.live ==> g !in r.tm.live
    decreases |events|
  {
    if |events| == 0 then w else Run(Apply(w, events[0]), events[1..])
  }

  /** Cancellation cannot be undone: whatever happens next, a generation whose
      context is done stays done for as long as its supervisor runs. */
  lemma CancellationSticks(w: World, e: Event, g: GenId)
    requires Valid(w.tm) && g in w.tm.live && Cancelled(w.tm, w.env, g)
    ensures var r := Apply(w, e); g in r.tm.live ==> Cancelled(r.tm, r.env, g)
  {
    match e
    case Start(ctx, id, fn) =>
    case Stop(id) =>
    case Shutdown =>
    case Finish(h) =>
    case ParentDone(p, reason) =>
  }

  const Initial: World := World(NewTaskManager, AllLive)

  /** Every state reachable from `NewTaskManager` satisfies `Valid`: the
      counter equals the number of running supervisors, and an entry is only
      ever found for a running generation. */
  lemma ReachableIsValid(events: seq<Event>)
    ensures Valid(Run(Initial, events).tm)
    ensures Run(Initial, events).tm.wg == |Run(Initial, events).tm.live|
  {
  }
}
