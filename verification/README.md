# go_util task manager and shard routing, modelled in Dafny

This project models two independent pieces of the `go_util` Go library and
proves properties of the models.

**Task manager** (`pkg/task_manager`). A `TaskManager` keeps a registry from
task id to the cancel function of the task's current *generation*, plus a
`sync.WaitGroup` counting running supervisor goroutines. The model treats each
public call as one atomic transition over an immutable `Manager` record:

- `tasks`: the registry, id to generation number;
- `live`: the generations whose supervisors are still running; each has its id, its parent context and a `fired` flag for its own cancel function;
- `wg`: the wait-group counter;
- `next`: the next generation number.

The transitions are `StartTask`, `StopTask` and the broadcast part of
`GracefulShutdown`; `HasTask` is a query. The deferred cleanup at the end of a supervisor goroutine is
a separate step, `SupervisorFinish`, which the environment may take for any
running generation. The parent contexts passed to `StartTask` live in a
separate `Signals` record (module `Context`). A generation's context is done
when its own cancel function fired or its parent context terminated.
`TaskManagerTraces` adds arbitrary event sequences from `NewTaskManager` and
lemmas that relate several calls.

**Shard routing** (`pkg/shardqueue`). `Shard` picks a worker queue as
`hashKeyToShard(convertKeyToBytes(key), numShard)`. The model covers:

- the key-to-bytes conversion over a `Key` datatype, one constructor per case of the Go type switch;
- Go's `encoding/binary` big-endian 8-byte encoding;
- 32-bit FNV-1a on `bv32`, whose multiplication wraps modulo 2^32 as Go's `uint32` does;
- Go's truncating `%`.

Modules: `GoTypes` (fixed-width integers, conversions, `%`), `BigEndian`,
`Fnv`, `ShardQueue`, `Context`, `TaskManager`, `TaskManagerTraces`.

### Behaviour of the code worth knowing

- **Supervisor cleanup deletes by id, not by generation.** A finishing supervisor deletes the registry entry for its id (`task_manager.go:49`), whichever generation that entry now belongs to. `SupervisorFinish` does the same, and `StaleFinishEvictsNewer` proves the consequence. When a displaced generation finishes after its id was restarted, the newer generation's entry disappears. That newer task keeps running, unchanged. `HasTask` reports false for it, `StopTask` cannot reach it, and the `GracefulShutdown` broadcast does not cancel it.
- **`StopTask` is not one atomic step.** `StopTask` does `Load`, then cancel, then `Delete` (`task_manager.go:67-69`). The model runs each call as one atomic step. It does not claim that exactly one of several concurrent stops returns true.

## Model

| member | source | states |
|---|---|---|
| TaskManager.NewTaskManagerValid | pkg/task_manager/task_manager.go:16-18 | A new manager has nothing registered, nothing running and a zero counter, and it satisfies the reachable-state invariant. |
| TaskManager.HasTask | pkg/task_manager/task_manager.go:20-23 | In a reachable state, a registered id names a running generation of that id, and it is the newest running generation of that id. |
| TaskManager.ErrorTextsDistinct | pkg/task_manager/error.go:6-8 | `ErrorText` gives the messages of error.go ("invalid task id", "task function cannot be nil", "task with this ID is already running") and of Go's two context errors ("context canceled", "context deadline exceeded"). The lemma adds that these five messages are pairwise distinct. |
| TaskManager.Fire | pkg/task_manager/task_manager.go:40 | Calling a generation's cancel function marks only that generation cancelled. It is idempotent, and it does nothing once the supervisor has finished. |
| TaskManager.Displace | pkg/task_manager/task_manager.go:39-41 | The generation registered under the id, if there is one, is cancelled. Registry, counter and every other generation are unchanged. |
| TaskManager.Register | pkg/task_manager/task_manager.go:43-45 | A fresh generation number, never used before, is stored under the id, uncancelled and linked to the given parent. The counter grows by exactly one, other ids keep their entries, and the invariant is preserved. |
| TaskManager.Admit | pkg/task_manager/task_manager.go:39-45 | An accepted start cancels the displaced generation and maps the id to one fresh live generation. The counter grows by one. Other ids' entries and all other generations are untouched. |
| TaskManager.StartTask | pkg/task_manager/task_manager.go:25-45 | Validation runs in this order: empty id gives ErrInvalidTaskID, then nil function gives ErrNilTaskFunc, then an already-done parent gives the parent's own error. Any failure leaves the manager unchanged. Start succeeds exactly when all three checks pass. ErrTaskAlreadyExist is never returned. |
| TaskManager.StopTask | pkg/task_manager/task_manager.go:66-73 | The result is true exactly when the id was registered. On true, that generation's cancel function fires, nothing else about it changes, and the id is unregistered. On false, nothing changes. The counter, other ids' entries and all other generations never change. |
| TaskManager.SupervisorFinish | pkg/task_manager/task_manager.go:47-51 | The counter drops by exactly one and the generation stops running. The id is removed from the registry whatever generation it maps to. The invariant is preserved. |
| TaskManager.GracefulShutdown | pkg/task_manager/task_manager.go:75-80 | Every registered generation is cancelled. No entry is removed and the counter does not change. Generations that are not registered are untouched. |
| Context.Terminate | cmd/task_manager/main.go:46-50 | A parent context terminates with the given reason. If it had already terminated, its first reason stays. No other context changes. |
| TaskManagerTraces.StartThenStop | pkg/task_manager/task_manager_test.go:211-240 | After an accepted start, StopTask finds the task and returns true. The new generation is then cancelled and unregistered, and it is still counted until its supervisor finishes. |
| TaskManagerTraces.StopTaskTwice | pkg/task_manager/task_manager_test.go:251-269 | A second consecutive StopTask on the same id returns false and changes nothing. |
| TaskManagerTraces.StopTaskIsolated | pkg/task_manager/task_manager_test.go:271-318 | Stopping one task does not change whether any other generation is cancelled, whatever the state of the parent contexts. |
| TaskManagerTraces.ParentTerminationReachesChildren | pkg/task_manager/task_manager.go:43 | When a parent context terminates, every generation started with it counts as cancelled. Generations with other parents are unaffected. |
| TaskManagerTraces.SharedParentCancelsBoth | cmd/task_manager/main.go:44-51 | Two tasks with different ids started with one parent are both running and uncancelled at first. Both are cancelled once that parent terminates, with neither stopped individually. |
| TaskManagerTraces.StartAfterShutdownAccepted | pkg/task_manager/task_manager.go:75-98 | Shutdown does not close the manager: a valid StartTask after it is accepted and registered. |
| TaskManagerTraces.RestartLeavesStaleGeneration | pkg/task_manager/task_manager_test.go:35-65 | Starting the same id twice leaves the first generation running but cancelled. The id maps to the second generation, which is uncancelled. The counter grows by two. |
| TaskManagerTraces.StaleFinishEvictsNewer | pkg/task_manager/task_manager.go:48-51 | If a generation finishes while its id maps to a newer generation, the newer entry is deleted. The newer task keeps running unchanged, and neither StopTask nor the shutdown broadcast can reach it. |
| TaskManagerTraces.CancellationSticks | pkg/task_manager/task_manager.go:43 | A generation's derived context is done once its own cancel function fired or its parent terminated. Cancellation cannot be undone: after any call, supervisor finish or parent termination, a done generation stays done while its supervisor runs. |
| TaskManagerTraces.Apply | pkg/task_manager/task_manager.go:25-80 | Any single call, supervisor finish or parent termination keeps the invariant. Generation numbers never go backwards. The counter moves by +1 only for an accepted start and by -1 only for the finish of a running generation. |
| TaskManagerTraces.Run | pkg/task_manager/task_manager.go:45-51 | Any sequence of events keeps the invariant. A generation that has finished never runs again, so its supervisor decrements the counter at most once. |
| TaskManagerTraces.ReachableIsValid | pkg/task_manager/task_manager.go:11-14 | In every state reachable from a new manager, the counter equals the number of running supervisors. Every registered id maps to its newest running generation of that id. |
| GoTypes.Uint64FromInt64 | pkg/shardqueue/shardqueue.go:95 | uint64(n) is n modulo 2^64, which is the two's complement bit pattern. |
| GoTypes.Int64FromUint64 | pkg/shardqueue/shardqueue.go:95 | Reading a 64-bit pattern as a signed value agrees with it modulo 2^64. |
| GoTypes.Int64Uint64Inverse | pkg/shardqueue/shardqueue.go:93-97 | The signed and unsigned 64-bit conversions are inverse bijections. |
| GoTypes.GoRem | pkg/shardqueue/shardqueue.go:58 | Go's % truncates toward zero. The remainder has the dividend's sign, is smaller in magnitude than the divisor, and differs from the dividend by a multiple of the divisor. |
| BigEndian.ToBytesDigit | pkg/shardqueue/shardqueue.go:95 | Byte i of a k-byte encoding is base-256 digit k-1-i of the number, so the most significant byte comes first. |
| BigEndian.FromToBytes | pkg/shardqueue/shardqueue.go:95 | Decoding a k-byte big-endian encoding gives back the number modulo 256^k. |
| BigEndian.ToFromBytes | pkg/shardqueue/shardqueue.go:95 | Re-encoding a decoded byte sequence at its own width gives back the sequence. |
| BigEndian.PutUint64Digits | pkg/shardqueue/shardqueue.go:95 | PutUint64 writes byte i as bits 8(7-i) to 8(7-i)+7 of the value. |
| BigEndian.Uint64OfPutUint64 | pkg/shardqueue/shardqueue.go:99-103 | Reading back the 8 bytes written by PutUint64 recovers the value. |
| BigEndian.PutUint64OfUint64 | pkg/shardqueue/shardqueue.go:99-103 | Every 8-byte sequence is the PutUint64 encoding of the value it reads as. |
| BigEndian.PutUint64Injective | pkg/shardqueue/shardqueue.go:99-103 | Distinct 64-bit values have distinct encodings. |
| Fnv.AbsorbConcat | pkg/shardqueue/shardqueue.go:56-57 | Feeding a into the FNV-1a state and then b gives the same state as feeding a followed by b in one call. |
| Fnv.SumSnoc | pkg/shardqueue/shardqueue.go:56-58 | Appending one byte to the input applies one more xor-then-multiply round to the previous hash. |
| Fnv.KnownAnswers | pkg/shardqueue/shardqueue.go:56-58 | The hash of "", "a", "ab" and "abc" equals the published FNV-1a 32-bit reference values, with offset basis 0x811c9dc5 for the empty input. |
| Fnv.Hash32a | pkg/shardqueue/shardqueue.go:56-58 | The byte-by-byte Write loop followed by Sum32 computes exactly the FNV-1a reference function. |
| ShardQueue.IntToBytes | pkg/shardqueue/shardqueue.go:93-97 | The result is 8 bytes whose big-endian reading is n modulo 2^64. Reading them as signed gives n back. |
| ShardQueue.UintToBytes | pkg/shardqueue/shardqueue.go:99-103 | The result is 8 bytes whose big-endian reading is n. |
| ShardQueue.ConvertKeyToBytes | pkg/shardqueue/shardqueue.go:61-91 | Integer and float keys give 8 bytes. Byte-slice and string keys give their own bytes unchanged. Every unsupported type gives "defaultRoutingKey". |
| ShardQueue.IntegerKeyEncoding | pkg/shardqueue/shardqueue.go:69-81 | An integer key of any width or signedness gives 8 bytes whose big-endian reading is its value modulo 2^64. |
| ShardQueue.FloatKeyEncoding | pkg/shardqueue/shardqueue.go:83-86 | A float key gives the 8 big-endian bytes of its IEEE-754 bit pattern. |
| ShardQueue.IntegerKeyBytesAgree | pkg/shardqueue/shardqueue.go:69-81 | Two integer keys give identical bytes exactly when their values agree modulo 2^64. |
| ShardQueue.IntegerWidthsAgree | pkg/shardqueue/shardqueue.go:69-81 | int, int32 and int64 keys with the same value give identical bytes and the same shard, including int and int64 values outside the int32 range. The same holds for uint, uint32 and uint64. |
| ShardQueue.SignedUnsignedCollide | pkg/shardqueue/shardqueue.go:69-81 | A signed key shares its bytes and shard with the unsigned key of the same bit pattern, for example -1 and 2^64-1. |
| ShardQueue.IntToBytesInjective | pkg/shardqueue/shardqueue.go:93-97 | Different int64 values give different bytes. |
| ShardQueue.StringAndBytesAgree | pkg/shardqueue/shardqueue.go:63-67 | A string key and a []byte key with the same contents give identical bytes and the same shard. |
| ShardQueue.UnsupportedKeysShareShard | pkg/shardqueue/shardqueue.go:88-89 | Every unsupported key type routes to one fixed shard: FNV-1a of "defaultRoutingKey" mod numShard. The string key "defaultRoutingKey" routes there too. |
| ShardQueue.HashKeyToShard | pkg/shardqueue/shardqueue.go:55-59 | The shard is FNV-1a-32 of the key reduced modulo abs(numShard), so it lies in [0, abs(numShard)). A zero numShard panics. |
| ShardQueue.EmptyKeyShard | pkg/shardqueue/shardqueue.go:55-59 | The empty key goes to shard 2166136261 mod numShard. |
| ShardQueue.ShardOf | pkg/shardqueue/shardqueue.go:41-43 | The queue index Shard sends to is always valid, in [0, numShard). |
| ShardQueue.ShardDependsOnlyOnKeyBytes | pkg/shardqueue/shardqueue.go:42 | The shard depends only on the key's bytes and numShard, not on the queue size. |

## Left out

- Goroutine scheduling, and the internals of `sync.Map` and `sync.WaitGroup`: each call is one atomic step, and a supervisor's end is a separate `SupervisorFinish` step.
- Concurrent `StopTask` calls: because `Load` and `Delete` are separate, the code does not guarantee exactly one true result, and the model does not claim it.
- The wait-and-timeout half of `GracefulShutdown` (`task_manager.go:82-97`): it is wall-clock timing. The `wait` and `timeout` parameters do not change manager state, so the model leaves them out.
- Outcome logging in the supervisor and in `StartTask` (`task_manager.go:35,54-60`): this is observability only. Task function bodies are opaque; a non-nil function is `Func(body)`.
- A nil parent context is not modelled: every `StartTask` call carries a parent signal. In Go, `StartTask(nil, id, fn)` with a valid id and function panics at `ctx.Err()` (`task_manager.go:34`).
- Context: parent contexts are independent signals. Their own ancestry, deadlines as clock events and the `context` package internals are not modelled. A deadline is represented by termination with `DeadlineExceeded`.
- Shard queue channel plumbing: `NewShardQueue`, `Start`, `Stop`, the channel send in `Shard`, and `shardWorker` use channels and goroutines. Only the shard index is modelled.
- Floats: `math.Float64bits` and the float32-to-float64 widening are not modelled. A float key carries the 64-bit pattern that `floatToBytes` encodes.
- Platform width: Go `int` and `uint` are taken to be 64 bits. With a 32-bit `int`, `int(h.Sum32())` could be negative.
- Go string contents are given as bytes, because a Go string is a byte sequence. No text encoding is modelled.
- Demo drivers `cmd/task_manager/main.go` and `cmd/shardqueue/main.go`: they sleep, print and handle signals. Only the shared-parent pattern in `cmd/task_manager/main.go` is stated, as a lemma.
