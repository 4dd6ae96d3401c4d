# Quorum replication coordinator, modelled in Dafny

A node of the distributed key-value store serves a client request with parameters `ack` and
`from` through a `ReplicatedRequestExecutor`. `execute` finds the key's primary shard and walks
`from` shards along the ring. The local node, when it is one of them, runs the request locally.
Every other chosen node gets the request by proxy, through a per-node admission gate that may
turn the task down.

Every attempt ends in one of the coordinator's handlers:
- A success takes a rank from `successCount`, stores its value in slot `rank - 1`, then
  increments `readyCount`. The `ack`-th ready success completes the future with the slots.
- A failure increments `failureCount`. The failure after which only `ack - 1` attempts can
  still succeed fails the future with "not enough replicas".
- A replica that fails while the request carries a non-empty body is handed to the hints
  manager, with the request's hint: its id's UTF-8 bytes and its body.

The future completes once; later completions still move the counters and still hand off hints.

The model has these modules:
- `Types`: bytes, `Option`, the hint and a hint-manager call.
- `Utf8`: the encoder that turns the id into the hint key, with its decoder and round trip.
- `StatusCodes`: the per-method success statuses.
- `ReplicaSelection`: the ring walk, the local/proxied split and the admission split.
- `Coordination`: the coordinator's state as a value. Each handler is a function on it. A
  completion is an `Event` and a schedule of completions is run by `Run`.
- `CoordinationTheorems`: what holds after any schedule a request can meet. This covers counters,
  slots, outcome, write-once, hints and termination.
- `AddSuccessRace`: success handlers running on several threads at once. Each action of
  `addSuccess` is a step of its own: taking a rank, storing the slot, raising `readyCount`, and
  completing the future. The module shows a race the code has, and proves its correction
  (see "## Findings").
- `Executor`: the class `ReplicatedRequestExecutor`, whose fields its methods update in place.
  Each method is proved to make the step of `Coordination` on the fields. The object also keeps
  a ghost log `events` of the completions handled so far, and `Traced()` says that the fields
  equal `Run` of that log. `Execute` leaves the log holding the rejections it handled; each
  completion handler appends its completion and keeps `Traced()`. The handlers accept any
  completion, so the theorems about `Run` apply to the object's fields whenever the log is a
  well-formed schedule, which every order an executed request meets is
  (`ExecutionSchedulesWellFormed`).

Concurrency is modelled by interleaving: each completion runs as one atomic step, in any order
(a schedule). A local attempt that fails is modelled as written in the code, as one failure plus
one empty success (see "## Findings"); its two handler stages are taken as one step (see
"## Left out"). The pure model is parameterised by
`LocalPolicy`, so the intended behaviour (one failure only) is modelled and proved beside it.

With every handler taken as one atomic step, two properties follow. Neither holds of the code
when handlers run at the same time (see "## Left out" and "## Findings"):
- The hints manager receives the request's one hint, already filled in, once per failing replica
  (`RunHints`).
- The future is completed with the whole slot array. Its first `ack` slots are filled at
  completion and never change afterwards (`RunValues`, `SucceededValuesStable`).

## Model

| member | source | states |
|---|---|---|
| StatusCodes.SuccessStatusCodes | src/main/java/ok/dht/test/siniachenko/service/ReplicatedRequestExecutor.java:29-33 | the table has an entry exactly for GET, PUT and DELETE, and any other method finds none (`null`); every listed status is 2xx or 404 |
| StatusCodes.SuccessStatusTable | src/main/java/ok/dht/test/siniachenko/service/ReplicatedRequestExecutor.java:29-33 | a status counts as success iff it is 200 or 404 for GET, 201 for PUT, or 202 for DELETE |
| Utf8.Encode | src/main/java/ok/dht/test/siniachenko/service/ReplicatedRequestExecutor.java:192 | the hint key of an id of n characters is between n and 4n bytes long |
| Utf8.DecodeEncode | src/main/java/ok/dht/test/siniachenko/service/ReplicatedRequestExecutor.java:192 | decoding the UTF-8 bytes of an id gives back the id |
| Utf8.EncodeInjective | src/main/java/ok/dht/test/siniachenko/service/ReplicatedRequestExecutor.java:192 | distinct ids give distinct hint keys |
| Utf8.EncodeAscii | src/main/java/ok/dht/test/siniachenko/service/ReplicatedRequestExecutor.java:192 | an ASCII id's key is its characters' codes, one byte each |
| ReplicaSelection.Walk | src/main/java/ok/dht/test/siniachenko/service/ReplicatedRequestExecutor.java:79-80 | walking `count` steps along the ring from a position visits `count` shards |
| ReplicaSelection.WalkAt | src/main/java/ok/dht/test/siniachenko/service/ReplicatedRequestExecutor.java:79-80 | step `i` of the walk reaches shard `(position + i) % |shards|`, wrapping to the first shard after the last |
| ReplicaSelection.Chosen | src/main/java/ok/dht/test/siniachenko/service/ReplicatedRequestExecutor.java:77-80 | the key's replicas are exactly `from` shards, taken from the ring |
| ReplicaSelection.Remotes | src/main/java/ok/dht/test/siniachenko/service/ReplicatedRequestExecutor.java:82-86 | the replicas the loop proxies to never include the local node, and are no more than the chosen ones |
| ReplicaSelection.ChosenAt | src/main/java/ok/dht/test/siniachenko/service/ReplicatedRequestExecutor.java:79-81 | the i-th replica walked is `shards[(nodeIndex + i) % shards.length]`, and that index is in range |
| ReplicaSelection.ChosenDistinct | src/main/java/ok/dht/test/siniachenko/service/ReplicatedRequestExecutor.java:79-81 | with no more replicas than shards and distinct shard URLs, the `from` replicas walked are pairwise distinct |
| ReplicaSelection.RemotesAreChosenOthers | src/main/java/ok/dht/test/siniachenko/service/ReplicatedRequestExecutor.java:82-86 | the proxied replicas are exactly the chosen ones other than the local node, each as often as it was chosen |
| ReplicaSelection.AdmissionSplitsRemotes | src/main/java/ok/dht/test/siniachenko/service/ReplicatedRequestExecutor.java:116-143 | every proxied replica is either admitted or rejected by the gate, never both and never neither |
| ReplicaSelection.AttemptCount | src/main/java/ok/dht/test/siniachenko/service/ReplicatedRequestExecutor.java:79-107 | a request makes `from` attempts minus the repetitions of the local node (it runs local work once) |
| ReplicaSelection.NeedsLocalIsMembership | src/main/java/ok/dht/test/siniachenko/service/ReplicatedRequestExecutor.java:81-83 | the loop's `needLocalWork` flag ends up set iff the local URL is among the chosen replicas |
| ReplicaSelection.FiltersSnoc | src/main/java/ok/dht/test/siniachenko/service/ReplicatedRequestExecutor.java:79-87 | walking one more replica extends the admitted or the rejected list by it, or marks local work |
| Coordination.Init | src/main/java/ok/dht/test/siniachenko/service/ReplicatedRequestExecutor.java:67-75 | a request starts with `from` empty slots |
| Coordination.AddSuccess | src/main/java/ok/dht/test/siniachenko/service/ReplicatedRequestExecutor.java:163-171 | a success takes the next rank and fills that slot only, then counts as ready; the future changes only by succeeding at the `ack`-th ready success, and never after completion; a rank past the end changes no slot and no ready count |
| Coordination.AddFailure | src/main/java/ok/dht/test/siniachenko/service/ReplicatedRequestExecutor.java:182-187 | a failure counts one; the future changes only by failing when the count reaches `from - ack + 1`, and never after completion |
| Coordination.AddHint | src/main/java/ok/dht/test/siniachenko/service/ReplicatedRequestExecutor.java:189-196 | after a hint, the stored hint is the request's (id bytes, body) and the replica with that hint is appended to the hint-manager calls; nothing else changes |
| Coordination.HandleReplicaFailure | src/main/java/ok/dht/test/siniachenko/service/ReplicatedRequestExecutor.java:173-180 | a replica failure counts one failure and stores nothing; it calls the hints manager once, for that replica with the request's hint, iff the body is non-null and non-empty; the future changes only by failing at the threshold |
| Coordination.ProxyResultEffect | src/main/java/ok/dht/test/siniachenko/service/ReplicatedRequestExecutor.java:116-143 | a success status counts one success and stores the body in the next free slot without hinting; a rejection, a transport error or another status counts one failure, stores nothing and hints the replica when the body is non-empty; a response for a method with no status table changes nothing; a completed future stays completed |
| Coordination.OnLocalResult | src/main/java/ok/dht/test/siniachenko/service/ReplicatedRequestExecutor.java:89-106 | a returned value counts one success and stores the value in the next free slot; an exception counts one failure and, as written, also one success storing an empty value (as intended, nothing stored); the local path never calls the hints manager |
| Coordination.Step | src/main/java/ok/dht/test/siniachenko/service/ReplicatedRequestExecutor.java:89-143 | any completion keeps the stored hint the request's own and never changes a completed outcome |
| CoordinationTheorems.StepEffect | src/main/java/ok/dht/test/siniachenko/service/ReplicatedRequestExecutor.java:89-143 | one completion adds to the success count what it records and to the failure count what it reports, and keeps the counters consistent with the outcome |
| CoordinationTheorems.RunConsistent | src/main/java/ok/dht/test/siniachenko/service/ReplicatedRequestExecutor.java:163-187 | after any schedule of at most `from` completions, `readyCount == successCount` is the number of recorded values (never more than the completions), `failureCount` is the failed replicas plus the local throws, and the outcome is pending iff neither threshold was reached |
| CoordinationTheorems.RunValues | src/main/java/ok/dht/test/siniachenko/service/ReplicatedRequestExecutor.java:98-99 | after any schedule of at most `from` completions, the slots hold the recorded values in rank order followed by empty slots: no slot is overwritten or skipped |
| CoordinationTheorems.StepValues | src/main/java/ok/dht/test/siniachenko/service/ReplicatedRequestExecutor.java:163-171 | one completion writes its recorded value into the next free slot, or nothing |
| CoordinationTheorems.RunOutcome | src/main/java/ok/dht/test/siniachenko/service/ReplicatedRequestExecutor.java:103-105 | the outcome is pending iff fewer than `ack` values are recorded and fewer than `from - ack + 1` failures counted; success implies `ack` values, failure implies the threshold |
| CoordinationTheorems.CountsBounded | src/main/java/ok/dht/test/siniachenko/service/ReplicatedRequestExecutor.java:89-143 | each completion is at most one of a genuine success, a failed replica and a local exception |
| CoordinationTheorems.EnoughSuccessesSucceed | src/main/java/ok/dht/test/siniachenko/service/ReplicatedRequestExecutor.java:103-105 | if at least `ack` attempts genuinely succeed, the request succeeds, under either counting of a local exception and in any order of completions |
| CoordinationTheorems.IntendedCountsWithinFrom | src/main/java/ok/dht/test/siniachenko/service/ReplicatedRequestExecutor.java:89-106 | as intended, the success and failure counters together never exceed the `from` attempts |
| CoordinationTheorems.RunWriteOnce | src/main/java/ok/dht/test/siniachenko/service/ReplicatedRequestExecutor.java:184-185 | once the future is completed, no later completion changes its outcome |
| CoordinationTheorems.SucceededValuesStable | src/main/java/ok/dht/test/siniachenko/service/ReplicatedRequestExecutor.java:168-169 | with each handler one atomic step, the first `ack` slots the future was completed with never change again |
| CoordinationTheorems.RecordedPrefix | src/main/java/ok/dht/test/siniachenko/service/ReplicatedRequestExecutor.java:163-171 | the values recorded by a prefix of a schedule are a prefix of those recorded by the whole |
| CoordinationTheorems.EveryCompletionCounts | src/main/java/ok/dht/test/siniachenko/service/ReplicatedRequestExecutor.java:116-143 | for a known method every completion records a value or counts a failure |
| CoordinationTheorems.AllAttemptsResolve | src/main/java/ok/dht/test/siniachenko/service/ReplicatedRequestExecutor.java:63-110 | for a known method, once all `from` attempts complete the future is no longer pending |
| CoordinationTheorems.PlanMakesFromAttempts | src/main/java/ok/dht/test/siniachenko/service/ReplicatedRequestExecutor.java:79-107 | with distinct shards and `from` at most their number, a request makes exactly `from` attempts |
| CoordinationTheorems.PlanFitsValues | src/main/java/ok/dht/test/siniachenko/service/ReplicatedRequestExecutor.java:69 | a request never makes more attempts than it has slots |
| CoordinationTheorems.ScheduleLength | src/main/java/ok/dht/test/siniachenko/service/ReplicatedRequestExecutor.java:79-107 | a well-formed schedule has at most one completion per attempt |
| CoordinationTheorems.ScheduleAppend | src/main/java/ok/dht/test/siniachenko/service/ReplicatedRequestExecutor.java:79-143 | the proxied replicas and local completions of two schedules in sequence are those of each, concatenated and added |
| CoordinationTheorems.RejectionsSchedule | src/main/java/ok/dht/test/siniachenko/service/ReplicatedRequestExecutor.java:140-143 | the rejections `execute` handles proxy exactly the rejected replicas and involve no local work |
| CoordinationTheorems.InterleavingCounts | src/main/java/ok/dht/test/siniachenko/service/ReplicatedRequestExecutor.java:79-143 | an interleaving of two schedules proxies the replicas of both, as a multiset, and runs the local work of both |
| CoordinationTheorems.AppendInterleaves | src/main/java/ok/dht/test/siniachenko/service/ReplicatedRequestExecutor.java:79-143 | the rejections followed by the later completions, the order the object's log takes, is one of their interleavings |
| CoordinationTheorems.ExecutionSchedulesWellFormed | src/main/java/ok/dht/test/siniachenko/service/ReplicatedRequestExecutor.java:79-143 | any interleaving of the rejections `execute` handles, in ring order, with at most one completion per admitted task and at most one local completion, is a well-formed schedule |
| CoordinationTheorems.StepHints | src/main/java/ok/dht/test/siniachenko/service/ReplicatedRequestExecutor.java:173-196 | a completion calls the hints manager once, for its replica with the request's hint, exactly when it is a replica failure and the body is non-empty |
| CoordinationTheorems.RunHints | src/main/java/ok/dht/test/siniachenko/service/ReplicatedRequestExecutor.java:173-196 | with each handler one atomic step, the hint-manager calls are the failed replicas, in order, each with the request's one hint, or none without a non-empty body; the hint is built iff it was needed |
| CoordinationTheorems.RejectionIsLikeReplicaFailure | src/main/java/ok/dht/test/siniachenko/service/ReplicatedRequestExecutor.java:120-143 | a rejected task, a transport error and an unexpected status have the same effect: one failure and nothing stored |
| CoordinationTheorems.RecordedCounts | src/main/java/ok/dht/test/siniachenko/service/ReplicatedRequestExecutor.java:89-106 | as written, the values recorded are the genuine successes plus one per local throw; as intended, only the genuine successes |
| CoordinationTheorems.AsWrittenSucceedsBelowQuorum | src/main/java/ok/dht/test/siniachenko/service/ReplicatedRequestExecutor.java:90-106 | with ack 2 of 3, a local throw, one replica success and one transport error complete the future successfully with one genuine success, and the three attempts are counted four times (two successes, two failures) |
| CoordinationTheorems.IntendedSuccessNeedsQuorum | src/main/java/ok/dht/test/siniachenko/service/ReplicatedRequestExecutor.java:90-106 | when a local throw is only a failure, success implies at least `ack` genuine successes |
| AddSuccessRace.Act | src/main/java/ok/dht/test/siniachenko/service/ReplicatedRequestExecutor.java:163-171 | each step of a handler (line 164, 165, 167, or 168-169) keeps `ack`, the number of slots and the number of handlers |
| AddSuccessRace.StoreKeepsRank | src/main/java/ok/dht/test/siniachenko/service/ReplicatedRequestExecutor.java:164-165 | storing a slot keeps the ranks handed out distinct and within `successCount` |
| AddSuccessRace.StoreKeepsSlots | src/main/java/ok/dht/test/siniachenko/service/ReplicatedRequestExecutor.java:164-165 | in either version, a store writes only the slot of the handler's own rank, which no one had stored before |
| AddSuccessRace.CountKeepsSlots | src/main/java/ok/dht/test/siniachenko/service/ReplicatedRequestExecutor.java:165-167 | in either version, raising `readyCount` releases only a slot its handler has stored |
| AddSuccessRace.CountKeepsReady | src/main/java/ok/dht/test/siniachenko/service/ReplicatedRequestExecutor.java:165-169 | corrected, `readyCount` stays the number of released slots among the first `ack`, and the handler that gets `ack` has seen those slots stored |
| AddSuccessRace.RunKeepsInv | src/main/java/ok/dht/test/siniachenko/service/ReplicatedRequestExecutor.java:163-171 | corrected, every interleaving of the four steps keeps the ranks distinct, keeps `readyCount` equal to the released slots among the first `ack`, and keeps a completed future's first `ack` slots stored |
| AddSuccessRace.AsWrittenCompletesBeforeFirstSlot | src/main/java/ok/dht/test/siniachenko/service/ReplicatedRequestExecutor.java:163-171 | as written, with `ack = 1` and two handlers, the handler of rank 2 stores, counts and completes the future while the handler of rank 1 is between lines 164 and 165: slot 0 is unstored at completion |
| AddSuccessRace.CorrectedCompletesWithFirstSlots | src/main/java/ok/dht/test/siniachenko/service/ReplicatedRequestExecutor.java:163-171 | corrected, under every interleaving, `readyCount` never exceeds the stored slots among the first `ack`, and a completed future has the slots of ranks 1 to `ack` stored; once no handler is between two steps, it is completed exactly when they are stored |
| Executor.ReplicatedRequestExecutor.Execute | src/main/java/ok/dht/test/siniachenko/service/ReplicatedRequestExecutor.java:63-88 | sets up `from` fresh slots and the status table, walks the ring, reports local work iff the local node is chosen and returns the admitted replicas in order; the completion log is one rejection per rejected replica, in ring order, and the fields are its run |
| Executor.ReplicatedRequestExecutor.Prepare | src/main/java/ok/dht/test/siniachenko/service/ReplicatedRequestExecutor.java:67-75 | looks up the method's success statuses, allocates `from` fresh empty slots, zeroes the counters and leaves the future pending: the fields are the initial state |
| Executor.ReplicatedRequestExecutor.WalkReplicas | src/main/java/ok/dht/test/siniachenko/service/ReplicatedRequestExecutor.java:77-87 | visits the `from` replicas from the key's ring position: local work is noted iff the local node is among them, the admitted others are returned in ring order, and the fields are the run of one rejection per rejected replica, in ring order |
| Executor.ReplicatedRequestExecutor.ProxyAndHandle | src/main/java/ok/dht/test/siniachenko/service/ReplicatedRequestExecutor.java:112-144 | an admitted task changes nothing now; a rejected one is the step of a rejection |
| Executor.ReplicatedRequestExecutor.OnProxyCompletion | src/main/java/ok/dht/test/siniachenko/service/ReplicatedRequestExecutor.java:118-137 | the fields after a proxy completion are the step of that completion, which is appended to the completion log; the fields stay the run of the log |
| Executor.ReplicatedRequestExecutor.OnResponse | src/main/java/ok/dht/test/siniachenko/service/ReplicatedRequestExecutor.java:125-136 | the fields after a response are the step of that response: a success for a status the method accepts, a replica failure for any other, and no change when the method has no success-status table, because that stage then throws |
| Executor.ReplicatedRequestExecutor.OnLocalResult | src/main/java/ok/dht/test/siniachenko/service/ReplicatedRequestExecutor.java:89-106 | the fields after the local work ends are the step of that completion, as written, which is appended to the completion log; the fields stay the run of the log |
| Executor.ReplicatedRequestExecutor.AddSuccess | src/main/java/ok/dht/test/siniachenko/service/ReplicatedRequestExecutor.java:163-171 | the fields, slots included, become `Coordination.AddSuccess` of the old ones |
| Executor.ReplicatedRequestExecutor.HandleReplicaFailure | src/main/java/ok/dht/test/siniachenko/service/ReplicatedRequestExecutor.java:173-180 | the fields become `Coordination.HandleReplicaFailure` of the old ones |
| Executor.ReplicatedRequestExecutor.AddFailure | src/main/java/ok/dht/test/siniachenko/service/ReplicatedRequestExecutor.java:182-187 | the fields become `Coordination.AddFailure` of the old ones |
| Executor.ReplicatedRequestExecutor.AddHint | src/main/java/ok/dht/test/siniachenko/service/ReplicatedRequestExecutor.java:189-196 | the fields become `Coordination.AddHint` of the old ones |
| Executor.ReplicatedRequestExecutor.Complete | src/main/java/ok/dht/test/siniachenko/service/ReplicatedRequestExecutor.java:104 | the future takes a resolution only while pending |

## Left out

- The HTTP transport (`proxyRequest`, lines 146-161) is not modelled. A proxy attempt's result is a parameter: rejected, transport error, or a status with a body. Timeouts are transport errors.
- Threads and executors are not modelled outside `AddSuccessRace`. Elsewhere, each completion handler is one atomic step, and a schedule fixes their order. The two counters of `addSuccess` do not keep the first `ack` slots filled when handlers interleave inside it. `AddSuccessRace` models that interleaving, one step per action of `addSuccess`, and "## Findings" records it. That module has success handlers only. A failure completing the future exceptionally, and the local handler's copy of `addSuccess`, are not part of it.
- CoordinationTheorems.SucceededValuesStable: it holds only with each handler one atomic step. In the code, a handler can take rank 1 at line 164 and be overtaken: with `ack = 1`, the handler of rank 2 stores slot 1 and completes the future while slot 0 is still `null`, and slot 0 is written afterwards. `AddSuccessRace.AsWrittenCompletesBeforeFirstSlot` shows this.
- CoordinationTheorems.RunHints: it holds only with each handler one atomic step. In `addHint` (lines 190-195), line 191 publishes a new, empty `Hint` before lines 192-193 fill in its key and value. A second failure at that moment sees a hint that is not `null` and hands the hints manager the unfilled one. Whether the manager then reads the empty fields depends on when it reads them, and the hints manager is not part of this model. This interleaving is not modelled.
- CoordinationTheorems.ExecutionSchedulesWellFormed: the lemma allows admitted completions before, between and after the rejections, since an admitted task can complete while the loop of lines 79-87 still rejects later replicas. `Executor.ReplicatedRequestExecutor.Execute` runs the whole walk as one step, so the object's log always starts with all the rejections, and the object reaches only those orders. The set of well-formed schedules, and with it every theorem about `Run`, covers the other orders.
- Logging is not modelled.
- The node mapper, the admission gate and the hints manager are parameters:
  - the shard URLs and the key's primary index;
  - one admission answer per walked replica;
  - the sequence of hint-manager calls, which replaces the hint store.
- Executor.ReplicatedRequestExecutor.Execute: `nodeIndex` is a natural number. A negative index, and 32-bit overflow of `nodeIndex + replicaIndex` with Java's truncating `%`, are not modelled.
- Executor.ReplicatedRequestExecutor.Execute: it requires a non-empty shard array. With no shards, `% shards.length` at line 80 throws `ArithmeticException` out of `execute`, and this path is not modelled.
- Executor.ReplicatedRequestExecutor.constructor: it requires `1 <= ack <= from`. The constructor does not check this. The model assumes that the code that builds executors ensures it; that code is not part of this model.
- When `from` exceeds the number of shards, the local node can be walked several times. It still runs local work once, so fewer than `from` attempts are made. A request then stays pending when too few complete. `AttemptCount` states the count; `AllAttemptsResolve` assumes `from` attempts.
- An out-of-range slot write in `addSuccess` throws `ArrayIndexOutOfBoundsException`. The model keeps the raised success count and stores nothing. `PlanFitsValues` (a request makes at most `from` attempts), `ScheduleLength` and `RunConsistent` together show this cannot happen on a well-formed schedule.
- The null status table of an unknown method makes the response handler throw. Such a response is lost: nothing is counted and nothing is stored.
- A transport error runs `handleReplicaFailure`, and then the response handler throws on the null response. The model counts that one failure only.
- Utf8.Encode: the id is a sequence of Unicode scalar values, encoded by standard UTF-8 in one to four bytes each. The library encoder the code calls (`Utf8.toBytes`, lines 78 and 192) is not part of this model. If that encoder works on UTF-16 units one at a time, a character outside the Basic Multilingual Plane (U+1F600, say) takes six bytes there and four here, and lone surrogates, which it would accept, are not representable here. If it is the modified UTF-8 that Java's data streams use, it also writes U+0000 as the two bytes `0xC0 0x80`.
- Utf8.EncodeAscii: it holds of standard UTF-8. Under the modified UTF-8 named above, an id holding U+0000 would not be encoded byte for byte.
- Coordination.OnLocalResult: a local exception is handled by two separate stages, `exceptionally` (lines 91-95, a failure) and then `thenAccept` (lines 96-106, a success with a `null` value), and other completions can run between them. The model, and `Executor.ReplicatedRequestExecutor.OnLocalResult`, take the two stages as one step. Final states agree, because placing the fused step where `thenAccept` runs gives the same state as the split stages. The intermediate state, with the failure counted and the `null` success not yet taken, is never reached by `Run`, so `RunConsistent` does not describe it.
- ReplicaSelection.Walk and ReplicaSelection.Chosen: their own contracts state only the number of replicas. The shard at each position is stated by `WalkAt` and `ChosenAt`.
- `ChunkedTransferEncoder` and `EntryKeyComparator` are not part of this model. They belong to range queries and to the storage engine, not to the coordinator.

## Findings

| source | as written | input that shows it | evidently intended | confidence | as-written member | corrected member |
|---|---|---|---|---|---|---|
| src/main/java/ok/dht/test/siniachenko/service/ReplicatedRequestExecutor.java:90-106 | when the local work throws, `exceptionally` counts a failure and returns `null`; the following `thenAccept` then also counts a success with a `null` value | `ack = 2`, `from = 3`, local node chosen: local work throws, one replica answers 200, one replica has a transport error; the future succeeds with one genuine success | a local exception is one failure and no success, so success needs `ack` genuine successes | not executed | CoordinationTheorems.AsWrittenSucceedsBelowQuorum | CoordinationTheorems.IntendedSuccessNeedsQuorum |
| src/main/java/ok/dht/test/siniachenko/service/ReplicatedRequestExecutor.java:163-171 | a handler takes its rank at line 164, stores its slot at line 165 and raises `readyCount` at line 167; `readyCount` counts raises of any rank, so any `ack` raises complete the future | `ack = 1`, two replicas answer 201 at once: the handler of rank 1 pauses after line 164, and the handler of rank 2 stores slot 1, raises `readyCount` to 1 and completes the future while slot 0 is still `null` | the future completes only once the slots of ranks 1 to `ack` are stored, as the comment at line 166 says; only ranks up to `ack` raise `readyCount` | not executed | AddSuccessRace.AsWrittenCompletesBeforeFirstSlot | AddSuccessRace.CorrectedCompletesWithFirstSlots |

`Coordination` and `Executor` take every handler as one atomic step. There a success stores its
slot as soon as it takes its rank, so `readyCount` equals `successCount` (`RunConsistent`) and
the `ack`-th ready success holds rank `ack`: the code and the corrected `addSuccess` then complete
the future alike, and `Coordination.AddSuccess` stands for both.
