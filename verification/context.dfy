/**
 The parent cancellation signals (Go `context.Context` values) that callers hand
 to `StartTask`. Each signal is named by an id; the environment records which
 signals have terminated and why. A signal absent from the record is live, as
 `context.Background()` always is. Termination is sticky: the first reason a
 signal terminates with is the one its `Err()` reports from then on.
 */
module Context {
  import opened GoTypes

  type SignalId = nat

  /** The two errors a Go context reports once it is done. */
  datatype CtxErr = Canceled | DeadlineExceeded

  function CtxErrText(e: CtxErr): string
  {
    match e
    case Canceled => "context canceled"
    case DeadlineExceeded => "context deadline exceeded"
  }

  datatype Signals = Signals(terminated: map<SignalId, CtxErr>)

  const AllLive: Signals := Signals(map[])

  /** `ctx.Err()`: None while the signal is live. */
  function Err(env: Signals, p: SignalId): Option<CtxErr>
  {
    if p in env.terminated then Some(env.terminated[p]) else None
  }

  /** The signal `p` terminates for `reason`: a cancel function called, or a
      deadline passed. Firing an already terminated signal changes nothing. */
  function Terminate(env: Signals, p: SignalId, reason: CtxErr): (r: Signals)
    ensures Err(r, p) == if Err(env, p).Some? then Err(env, p) else Some(reason)
    ensures forall q :: q != p ==> Err(r, q) == Err(env, q)
    ensures forall q :: Err(env, q).Some? ==> Err(r, q) == Err(env, q)
  {
    if p in env.terminated then env else Signals(env.terminated[p := reason])
  }
}
