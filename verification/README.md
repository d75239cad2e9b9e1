# nats-micro in Dafny

This project models the parts of the nats-micro microservice framework where its promises are hardest to
see from the code, and proves those promises for all inputs, all runs or all interleavings.

| file | models |
|---|---|
| `RuntimeProtocol.dfy` | shutdown across the watch channel, all supervisors and all worker incarnations |
| `RuntimeRun.dfy` | `Runtime::run`: reasons to stop, hook, broadcast, drain, services, client |
| `Supervisors.dfy`, `Restarts.dfy` | the supervisor loop and its restart budget |
| `RuntimeBudget.dfy` | that budget over every interleaving of the runtime |
| `Workers.dfy` | the loop of the request, subscription and consumer workers |
| `ConsumerAcks.dfy` | acknowledging one consumer message, and over whole worker runs |
| `JetStream.dfy`, `JetStreamLedger.dfy`, `JetStreamDriver.dfy` | the JetStream simulator, what every run of it keeps, and the harness that drains it |
| `ErrorFormat.dfy`, `ErrorWire.dfy` | `#[service_error]` as a compiler: display strings, and the generated encoder and decoder |
| `Transcript.dfy`, `Encryption.dfy`, `EncryptedCall.dfy`, `RequestChecks.dfy` | the signature transcript, encrypted requests, a whole encrypted call, and what the server's checks mean |
| `Subjects.dfy`, `SubjectTemplates.dfy` | subjects, wildcards, and one template read by server and client |
| `FaultPlans.dfy`, `ServiceSets.dfy` | two refinements: one deque as many queues, map insertion as a pairwise check |
| `Text.dfy` | bytes, options, results |

`dafny verify dfyconfig.toml` checks everything.

## How the model is built

- A loop iteration with its `select!` is one atomic step. Which branches are ready, and with what, is an
  input, so a statement about all inputs is a statement about all schedules at this granularity. Branch
  order is kept: `biased` selects try their branches in order, the others allow any ready branch.
- Loops and objects that change in place are methods and classes. Each is proved equal to a function, and
  the properties are proved of that function.
- What such a function decides is stated once more without it, by constructors, quantifiers or a grammar
  (`...Exactly`, `...Decides`), for all inputs or over all runs.
- Strings are byte sequences, except in the two `service_error` files, where they are characters.
- The simulator numbers its fan-outs. The number is bookkeeping: no decision depends on it.
- X25519, HMAC-SHA256, XChaCha20-Poly1305, base64 (section 4 of RFC 4648), JSON and the serde codecs are
  parameters. Their laws are hypotheses of the lemmas that need them, never global assumptions. Key
  derivation follows sections 2.2 and 2.3 of RFC 5869 for one output block. Random choices, clock readings
  and the order of hash maps are parameters too.
- A header map is taken to compare names exactly; async-nats, which provides it, is not part of this model.
  Only the lookup of encrypted headers ignores case.
- What a registration, a stream, a handler or the network answers is an input.

## What the code does that a reader may not expect

- Anyone with the public `shutdown_sender()` can take a request for shutdown back. The framework itself never
  does. Every interleaving of a history of sends accepts nothing after a request exactly when the history never
  takes one back (`RuntimeProtocol.SafeExactlyWhenNeverRevoked`). A revocation lets messages in again exactly
  when some supervisor with room for messages still has an accepting worker, is about to start one, or has a
  restart policy: even a worker that has noticed the request and drained is then replaced by one that accepts
  (`RuntimeProtocol.RevocationReopens`, `RuntimeProtocol.DrainedWorkerIsReplaced`).
- A handler panic under the propagate policy unwinds the worker and its supervisor with it, so even a restart
  policy starts no other worker (`RuntimeProtocol.UnwoundStaysDown`). Such a supervisor is the exception to the
  point above: no revocation brings it back.
- Results of workers that end while the runtime drains, or together with a request, are not reported.
- The client signs the `x-request-id` it sends, and the server checks the signature with the id only if it
  is valid. An id that is neither empty nor valid is therefore refused as a bad signature. Plaintext headers
  are not checked for reserved names: `x-signature` is harmless, `x-ephemeral-pub-key` and, when the call
  has no encrypted headers, `x-encrypted-headers` make the server refuse the call
  (`EncryptedCall.AcceptedExactly`).
- If two encrypted headers whose names differ only in case end up with different values, which one the handler
  sees is up to the order of a hash map. In every other case the last value wins
  (`EncryptedCall.LastWinsExactly`).
- An encrypted response that carries a service error header is not decrypted by the client, even if it is not
  an error (`EncryptedCall.OriginalComesBackExactly`).
- A tuple or struct variant without fields is encoded without details and never decodes to a typed error.
- A consumer registered directly with `max_deliver` 0 still gets one delivery, so the cap on deliveries is
  the larger of 1 and `max_deliver`. Registration through the harness never passes 0.
- In a unit variant explicit format arguments are ignored rather than refused.

## Model

| member | source | states |
|---|---|---|
| RuntimeProtocol.NothingIsAcceptedAfterARequest | nats-micro/src/app/typed_runtime.rs:384-446 | over every interleaving of sends, supervisors, worker incarnations, backoffs and registrations in which no request is taken back: a request for shutdown stays, no live supervisor has seen it, and the number of accepted messages never grows again |
| RuntimeProtocol.RunKeeps | nats-micro/src/app/typed_runtime.rs:402-446 | every run keeps the invariant: live supervisors have seen only versions before the request, and a worker that has seen it does not accept |
| RuntimeProtocol.NextKeeps | nats-micro/src/app/typed_runtime.rs:398-446 | each single event keeps that invariant and, once shutdown is requested, the count of accepted messages |
| RuntimeProtocol.IterateKeeps | nats-micro/src/runtime/request_worker.rs:156-167 | an iteration of a worker whose receiver has not seen the request takes the signal before any message |
| RuntimeProtocol.ShutdownProgresses | nats-micro/src/app/typed_runtime.rs:402-446 | once shutdown is requested, each event that moves a supervisor lowers its rank, so it can take only so many steps before it exits, even if it starts one more worker |
| RuntimeProtocol.ShutdownIsBounded | nats-micro/src/app/typed_runtime.rs:402-446 | over whole runs after a request, with no new supervisor and no revocation, at most as many events move a supervisor as the ranks add up to |
| RuntimeProtocol.SafeExactlyWhenNeverRevoked | nats-micro/src/app/typed_runtime.rs:235-237 | exactly when the property holds: every interleaving of a history of sends accepts nothing after a request if and only if the history never takes a request back |
| RuntimeProtocol.RevocationReopens | nats-micro/src/app/typed_runtime.rs:419-445 | exactly what taking a request back can do, in every reachable state: some continuation without new supervisors accepts a message if and only if a supervisor with room has a worker that still accepts, is about to start one, or has a restart policy that may start one after this worker, which must not have ended by an uncaught panic |
| RuntimeProtocol.RevivableAccepts | nats-micro/src/app/typed_runtime.rs:419-445 | each such supervisor leads to an accepted message |
| RuntimeProtocol.UnwoundStaysDown | nats-micro/src/runtime/request_worker.rs:269-276 | a supervisor whose worker unwound by an uncaught panic never runs another worker, in any run |
| RuntimeProtocol.AcceptsExactlyWhenUpToDate | nats-micro/src/runtime/request_worker.rs:156-176 | in the interleaved runtime the count of accepted messages grows, by one, exactly when a worker with room that still accepts and whose receiver has seen the latest state of the channel finds a message and no completion |
| RuntimeProtocol.ReturnDecides | nats-micro/src/app/typed_runtime.rs:398-423 | how a supervisor goes on when its worker returns: badly if it unwound, well if shutdown is requested by then, badly if a restart is refused, and otherwise it waits; only the last two ask the tracker |
| RuntimeProtocol.BackoffEnds | nats-micro/src/app/typed_runtime.rs:439-442 | while it waits for a restart a supervisor exits well exactly when its receiver reports a request, and registers again exactly when the time is up or the receiver reports anything else |
| RuntimeProtocol.RegistrationDecides | nats-micro/src/app/typed_runtime.rs:443-446 | it goes on with a fresh worker exactly if the registration succeeds |
| RuntimeProtocol.LostStaysLost | nats-micro/src/app/typed_runtime.rs:419-445 | a supervisor that cannot be revived stays that way, whatever is sent |
| RuntimeProtocol.RunStaysSane | nats-micro/src/app/typed_runtime.rs:398-446 | what every run keeps even when requests are taken back |
| RuntimeProtocol.DrainedWorkerIsReplaced | nats-micro/src/app/typed_runtime.rs:399-445 | a run from the start in which the worker drains first and its replacement accepts a message |
| RuntimeBudget.RestartBudgetOverRuns | nats-micro/src/app/typed_runtime.rs:398-446 | over every interleaving of all supervisors and the channel, with clock readings: in any stretch of time as long as the window a supervisor starts its worker again at most twice as often as its budget |
| RuntimeBudget.StartsFollowGrants | nats-micro/src/app/typed_runtime.rs:419-445 | in every run the calls of a supervisor to its tracker are in the order of time, and its grants and its new starts take turns |
| Supervisors.Supervise | nats-micro/src/app/typed_runtime.rs:398-446 | the supervisor loop: how it ends, when it asks for restarts and how many it gets |
| Supervisors.CourseOfASupervisor | nats-micro/src/app/typed_runtime.rs:398-446 | the course of every supervisor, incarnation by incarnation, with the reason why it ends and the result it ends with |
| Supervisors.WaitDecides | nats-micro/src/app/typed_runtime.rs:727-734 | an incarnation that is granted a restart ends the supervisor well, with nothing registered after it, if and only if the channel closes or shutdown is requested while it waits, and goes on to register in every other case |
| Supervisors.RestartsAreGrants | nats-micro/src/app/typed_runtime.rs:419-445 | the supervisor asks the restart tracker once for each incarnation that ended by itself, and restarts exactly as often as the tracker grants |
| Supervisors.RestartBudget | nats-micro/src/app/typed_runtime.rs:686-725 | in any stretch of time as long as the window a supervisor restarts its worker at most twice as often as its budget |
| Supervisors.WithoutPolicyNoRestart | nats-micro/src/app/typed_runtime.rs:702-711 | without a restart policy the first failure ends the supervisor |
| Supervisors.EndsWellOnlyWhenAsked | nats-micro/src/app/typed_runtime.rs:419-443 | a supervisor returns normally only if shutdown was requested or the channel closed |
| RuntimeRun.Runtime.Run | nats-micro/src/app/typed_runtime.rs:246-343 | on every path that ends: the hook, the draining broadcast, the workers, the services and the client in this order; no live worker left; every service stopped rather than kept; the result is the first failure that came up |
| RuntimeRun.Runtime.AwaitShutdown | nats-micro/src/app/typed_runtime.rs:251-293 | the main loop ends for the reason, with the workers and with the failure that the specification gives |
| RuntimeRun.MainLoopExactly | nats-micro/src/app/typed_runtime.rs:251-293 | under every policy the main loop ends exactly if some turn is a reason to stop; the first such turn decides the failure, and exactly the workers are left that no turn up to it reported as ended |
| RuntimeRun.EachIsAwaitedOnce | nats-micro/src/app/typed_runtime.rs:247-273 | the workers that the main loop reports and those that it leaves to be drained are all the workers, each of them once |
| RuntimeRun.InTimeExactly | nats-micro/src/app/typed_runtime.rs:351-357 | draining is in time exactly if each worker is reported as ended before a deadline |
| RuntimeRun.ReturnedFailure | nats-micro/src/app/typed_runtime.rs:295-342 | which failure a run returns: that of the main loop, the hook, the deadline or the client, in this order |
| RuntimeRun.FirstWorkerToEndIsReported | nats-micro/src/app/typed_runtime.rs:267-291 | unless failures are ignored, the failure that ends the run is that of the first worker to end, and it is reported if and only if that happens before anybody asks for shutdown |
| RuntimeRun.IgnoredFailuresDoNotEnd | nats-micro/src/app/typed_runtime.rs:279-282 | under the ignore policy no worker failure ends the run or is returned |
| RuntimeRun.Runtime.RunHook | nats-micro/src/app/typed_runtime.rs:295-300 | a failing hook counts only if there was no failure before |
| RuntimeRun.Runtime.DrainWorkers | nats-micro/src/app/typed_runtime.rs:346-367 | however draining goes, each live worker is awaited exactly once and none is left; only a passed deadline records a failure, and never over an earlier one |
| RuntimeRun.Runtime.JoinUntilDeadline | nats-micro/src/app/typed_runtime.rs:351-357 | workers are awaited until none is left or the deadline passes |
| RuntimeRun.Runtime.AbortAll | nats-micro/src/app/typed_runtime.rs:358-360 | at the deadline every remaining worker is aborted |
| RuntimeRun.Runtime.JoinRest | nats-micro/src/app/typed_runtime.rs:361 | each aborted worker is awaited once |
| RuntimeRun.Runtime.StopServices | nats-micro/src/app/typed_runtime.rs:318-333 | a service is stopped exactly when no worker refers to it; otherwise the first such service is the failure, unless there was one before |
| RuntimeRun.Runtime.Finish | nats-micro/src/app/typed_runtime.rs:318-336 | with no worker left all services are stopped and the client is drained last |
| RuntimeRun.HeldIsReferenced | nats-micro/src/app/typed_runtime.rs:318-320 | a service has no reference but the runtime's own exactly when no live worker holds it |
| RuntimeRun.Runtime.SpawnRequest | nats-micro/src/app/typed_runtime.rs:94-127 | a request worker refers to the latest service, and cannot be started before one |
| RuntimeRun.Runtime.SpawnOther | nats-micro/src/app/typed_runtime.rs:168-202 | subscription and consumer workers refer to no service |
| RuntimeRun.Runtime.StartService | nats-micro/src/app/typed_runtime.rs:82-92 | services are numbered in the order they start |
| Workers.RunWorker | nats-micro/src/runtime/request_worker.rs:147-297 | the loop of the worker, for all three kinds, equals the step-by-step specification |
| Workers.WorkerSafety | nats-micro/src/runtime/request_worker.rs:147-297 | in every reachable state: at most `concurrency` in flight, each received message in flight or finished and never both, always something left to wake the worker, and a normal return only after every message finished with a tolerated result |
| Workers.StepKeeps | nats-micro/src/runtime/subscription_worker.rs:48-100 | each iteration keeps the invariant, including how often the endpoint was stopped and which message an error blames |
| Workers.RanKeeps | nats-micro/src/runtime/consumer_worker.rs:104-209 | every run keeps the invariant |
| Workers.DrainingOnlyShrinks | nats-micro/src/runtime/request_worker.rs:278-295 | after the worker stops accepting, each step takes one message out of flight, ends the worker or leaves it waiting |
| Workers.DrainingOnlyShrinksOverRuns | nats-micro/src/runtime/request_worker.rs:151-297 | over whole runs the set in flight never grows again and nothing more is received |
| Workers.StopsExactly | nats-micro/src/runtime/subscription_worker.rs:51-66 | a worker stops accepting exactly when shutdown is requested or the channel is closed; it then stops its endpoint or subscription, and ends on a subscription exactly if that fails |
| Workers.EndsExactly | nats-micro/src/runtime/consumer_worker.rs:113-209 | a worker ends on its stream exactly when that ended or, unless it is a consumer, failed; on a message exactly when its processing failed or the policy makes its panic a failure; and it unwinds exactly when a panic propagates |
| Workers.DrainsExactly | nats-micro/src/runtime/request_worker.rs:151-154 | a worker ends normally exactly when it no longer accepts, nothing is in flight, and the last thing it saw was no error |
| Workers.MessagesMoveExactly | nats-micro/src/runtime/request_worker.rs:169-176 | a message finishes exactly when its completion is handled, with that result, and one is received exactly when it is next |
| Workers.CompleteKeeps | nats-micro/src/runtime/request_worker.rs:352-366 | a completion moves one message from in flight to finished and ends the worker only as the panic policy says |
| Workers.DrainReturns | nats-micro/src/runtime/request_worker.rs:151-154 | a draining worker returns as soon as everything in flight has completed with tolerated results, in any order |
| ConsumerAcks.ProcessConsumer | nats-micro/src/runtime/consumer_worker.rs:246-379 | processing one message equals the turn-by-turn specification |
| ConsumerAcks.TurnsWellAcked | nats-micro/src/runtime/consumer_worker.rs:259-363 | every trace is delivered progress followed by at most one more acknowledgement, which tells how the processing ended |
| ConsumerAcks.AtMostOneTerminal | nats-micro/src/runtime/consumer_worker.rs:309-363 | at most one acknowledgement settles a message, it is the last one, and a success has exactly one |
| ConsumerAcks.OneProgressPerTick | nats-micro/src/runtime/consumer_worker.rs:259-309 | while the handler works exactly one progress is sent for each tick of the timer, none without an ack wait; its result then adds exactly one acknowledgement, a panic none |
| ConsumerAcks.ProgressNeedsAckWait | nats-micro/src/runtime/consumer_worker.rs:256-257 | the progress period is a third of the ack wait, and there is none exactly when the ack wait is zero |
| ConsumerAcks.AcksOverRuns | nats-micro/src/runtime/consumer_worker.rs:104-379 | over whole consumer-worker runs: the shape of every trace, the answer that settles each finished message, and what a worker that returned normally leaves behind |
| ConsumerAcks.RunKeeps | nats-micro/src/runtime/consumer_worker.rs:104-209 | every run of worker and messages keeps the worker's invariant and the traces together |
| Restarts.RestartTracker.NextDelay | nats-micro/src/app/typed_runtime.rs:702-725 | one call of the tracker, with its two readings of the clock |
| Restarts.RestartTracker.constructor | nats-micro/src/app/typed_runtime.rs:687-700 | a fresh tracker |
| Restarts.RefusedExactlyOverRuns | nats-micro/src/app/typed_runtime.rs:702-724 | after any run of calls the next restart is refused exactly when the last one granted was the last of the budget of its window and that window is not over |
| Restarts.GrantsFormChain | nats-micro/src/app/typed_runtime.rs:702-725 | the k-th delay of a window is the smaller of initial * 2^k and the maximum; each window holds at most the budget, and windows are more than their length apart |
| Restarts.AnyWindowGrantsAtMostTwiceTheBudget | nats-micro/src/app/typed_runtime.rs:702-724 | any stretch of time as long as the window contains at most twice the budget of grants |
| Restarts.LaterGrantsAreFewer | nats-micro/src/app/typed_runtime.rs:702-724 | after the first grant any stretch of time as long as the window contains fewer than twice the budget of grants |
| Restarts.TotalGrantsNeedTime | nats-micro/src/app/typed_runtime.rs:702-724 | by a grant in the r-th window at most budget * (1 + r) restarts were granted, and r windows took more than r window lengths |
| JetStreamLedger.LedgerOverRuns | nats-micro-testing/src/jetstream.rs:163-230 | in every run a fan-out is queued exactly once while pending and not at all otherwise; the delivery counter of a durable is the sum over its fan-outs of what they used up, and at most the cap times their number |
| JetStreamLedger.OrderOverRuns | nats-micro-testing/src/jetstream.rs:186-248 | in every run first attempts leave in the order the fan-outs were queued, attempts of a fan-out are 1, 2, 3, ..., and no retry is popped before the time it was asked for plus its delay |
| JetStreamLedger.RetryComesInTime | nats-micro-testing/src/jetstream.rs:224-313 | in every state of every run, after a Nack, a Nack with a delay or a missed acknowledgement of attempt k: attempt k + 1 is queued if the consumer allows it, due after no time, the delay asked for, or the k-th backoff entry or else the ack wait; and no run pops it earlier |
| JetStreamLedger.SettledIsOver | nats-micro-testing/src/jetstream.rs:226-232 | after an Ack or a Term no run queues, delivers or buries the message again |
| JetStreamLedger.RegistrationRefusedExactly | nats-micro-testing/src/jetstream.rs:142-161 | which registrations are refused, and why |
| JetStreamLedger.PublishAcceptedExactly | nats-micro-testing/src/jetstream.rs:163-186 | a publish is accepted exactly if some pattern of some stream matches the subject |
| JetStreamLedger.EnqueueAllQueues | nats-micro-testing/src/jetstream.rs:187-207 | a publish appends one first attempt for each durable, due at once, and changes nothing else |
| JetStreamLedger.RunKeeps | nats-micro-testing/src/jetstream.rs:142-313 | every run of the simulator keeps the whole invariant, dead letters included |
| JetStreamLedger.StepKeeps | nats-micro-testing/src/jetstream.rs:142-313 | each operation keeps the invariant and the clock in range |
| JetStreamLedger.PublishFansOut | nats-micro-testing/src/jetstream.rs:163-207 | a publish makes one fan-out for each consumer that wants the subject, in the order of their durables |
| JetStreamLedger.FanOutToSorted | nats-micro-testing/src/jetstream.rs:187-196 | the durables are exactly those whose stream and filter accept the subject, in ascending order |
| JetStreamLedger.RegisterKeeps | nats-micro-testing/src/jetstream.rs:142-161 | registering a consumer keeps the invariant |
| JetStreamLedger.PopKeeps | nats-micro-testing/src/jetstream.rs:210-222 | taking a due delivery keeps the invariant, and the delivery is held from then on |
| JetStreamLedger.RetryKeeps | nats-micro-testing/src/jetstream.rs:289-308 | a retry keeps the invariant, whether it queues the next attempt or buries the message |
| JetStreamLedger.CompleteKeeps | nats-micro-testing/src/jetstream.rs:224-230 | completing a held delivery keeps the invariant |
| JetStreamLedger.BuryKeepsLetters | nats-micro-testing/src/jetstream.rs:295-304 | an exhausted fan-out gets exactly one dead letter if its durable has a dead-letter subject |
| JetStream.JetStreamSimulator.RegisterConsumer | nats-micro-testing/src/jetstream.rs:142-161 | the new state, or the error and no change |
| JetStream.JetStreamSimulator.MatchingStreams | nats-micro-testing/src/jetstream.rs:170-182 | the names of exactly the streams that accept the subject |
| JetStream.JetStreamSimulator.AnyPatternMatches | nats-micro-testing/src/jetstream.rs:176-180 | whether one of a stream's patterns matches the subject |
| JetStream.JetStreamSimulator.MatchingDurables | nats-micro-testing/src/jetstream.rs:187-196 | exactly the durables that want the subject, in key order |
| JetStream.JetStreamSimulator.Publish | nats-micro-testing/src/jetstream.rs:163-207 | one delivery for each of them, due at once; or the error and no change |
| JetStream.JetStreamSimulator.NextDue | nats-micro-testing/src/jetstream.rs:210-222 | the first due delivery leaves the queue and is counted |
| JetStream.JetStreamSimulator.Complete | nats-micro-testing/src/jetstream.rs:224-230 | the state after an action, and the events it records |
| JetStream.JetStreamSimulator.CompleteTimeout | nats-micro-testing/src/jetstream.rs:232-248 | a missed acknowledgement retries after the attempt's backoff entry, or the ack wait |
| JetStream.JetStreamSimulator.Retry | nats-micro-testing/src/jetstream.rs:289-308 | the next attempt, or the dead letter once the attempts are used up |
| JetStream.JetStreamSimulator.TimeoutNext | nats-micro-testing/src/jetstream.rs:250-252 | a planned timeout goes to the end of the queue |
| JetStream.JetStreamSimulator.ConsumeTimeout | nats-micro-testing/src/jetstream.rs:255-266 | takes the durable's oldest planned timeout, if there is one |
| JetStream.JetStreamSimulator.Advance | nats-micro-testing/src/jetstream.rs:310-313 | the clock saturates |
| JetStream.EventLog.Record | nats-micro-testing/src/lib.rs:52-59 | events are kept in order |
| JetStreamDriver.TestHarness.RunUntilIdle | nats-micro/src/testing.rs:537-583 | the drain terminates for every handler, in the specified state and with the specified result, and records exactly the new events |
| JetStreamDriver.TestHarness.Serve | nats-micro/src/testing.rs:539-580 | one turn reaches the specified state and records exactly its new events, for a planned timeout, a handled delivery or no route |
| JetStreamDriver.TestHarness.RegisterConsumers | nats-micro/src/testing.rs:196-236 | the consumers of the list are registered in order, up to the first refused one |
| JetStreamDriver.TestHarness.RegisterSpecs | nats-micro/src/testing.rs:218-234 | the consumers of one service, up to the first refused one |
| JetStreamDriver.TurnProgresses | nats-micro/src/testing.rs:537-583 | each turn keeps the invariant and lowers the sum over the queue of cap - attempt + 1 |
| JetStreamDriver.DrainsToIdle | nats-micro/src/testing.rs:537-583 | with a route for every registered consumer the drain never stops for want of one, and leaves nothing due |
| JetStreamDriver.AlwaysNackedIsDeliveredToTheCap | nats-micro-testing/src/jetstream.rs:289-308 | with no planned timeout, a due message whose handler always answers Nack gets attempts 1 to the cap and then exactly one dead letter if configured, whatever else is queued |
| JetStreamDriver.PublishedAndNackedReachesTheCap | nats-micro/src/testing.rs:537-583 | after any run of a harness, a message published to such a consumer gets attempts 1 to max_deliver in the next drain and then exactly one dead letter if configured |
| JetStreamDriver.HarnessRunsKeep | nats-micro/src/testing.rs:433-583 | every run of publishes, planned timeouts, clock advances and drains keeps the invariant, the routes, the declarations and the clock range, and its next drain ends idle |
| JetStreamDriver.HarnessStepKeeps | nats-micro/src/testing.rs:515-630 | each use of the harness keeps them |
| JetStreamDriver.HarnessStartsRouted | nats-micro/src/testing.rs:217-236 | a harness starts with every declaration registered, every registered consumer routed and at least one delivery allowed |
| JetStreamDriver.ConfiguredExactly | nats-micro/src/testing.rs:217-235 | a registered consumer is its declaration: times in milliseconds, `max_deliver` as it is if positive, one for zero, the largest number if negative |
| JetStreamDriver.AttemptIsAnnounced | nats-micro/src/testing.rs:548-560 | the handler is told the number of the attempt and is given the message as it was published |
| JetStreamDriver.DispatchMatchesDeclared | nats-micro/src/testing.rs:238-254 | the lookup along the list finds a route exactly for the declared durables |
| JetStreamDriver.RegisterServicesKeeps | nats-micro/src/testing.rs:217-236 | registration keeps the invariant and adds nothing but declarations |
| ErrorFormat.ParseErrorFormat | nats-micro-macros/src/service_error/mod.rs:692-756 | the rewritten format string and the keys, or the first thing wrong with the message |
| ErrorFormat.ReadPiece | nats-micro-macros/src/service_error/mod.rs:701-752 | one round of that loop: what it appends and where it goes on, or the error |
| ErrorFormat.ReadPlaceholder | nats-micro-macros/src/service_error/mod.rs:710-735 | a placeholder loses its key and keeps its spec |
| ErrorFormat.FindEnd | nats-micro-macros/src/service_error/mod.rs:710-728 | where a placeholder ends, or that it is nested or unterminated |
| ErrorFormat.PiecesAreTheGrammar | nats-micro-macros/src/service_error/mod.rs:692-756 | the accepted messages are exactly those of a grammar, and are read in only one way |
| ErrorFormat.ParsesExactlyWhatItMeans | nats-micro-macros/src/service_error/mod.rs:758-790 | what the text of a placeholder means: between whitespace and before a spec nothing, the numeral of an index, or an identifier that is no numeral; it is read as exactly that |
| ErrorFormat.PlaceholdersMean | nats-micro-macros/src/service_error/mod.rs:768-782 | `{n}` in decimal is index n, `{name}` is that name and `{}` the next field, with whitespace around them and with any spec |
| ErrorFormat.RefusedExactly | nats-micro-macros/src/service_error/mod.rs:700-755 | a message is refused for exactly what is wrong after its longest readable beginning: a brace on its own, one that is never closed, one inside a placeholder, or a text that means nothing |
| ErrorFormat.DecimalRoundTrip | nats-micro-macros/src/service_error/mod.rs:772-774 | an index written in decimal is read back as that index |
| ErrorFormat.RewritingIsIdempotent | nats-micro-macros/src/service_error/mod.rs:692-756 | reading the rewritten string again gives it back unchanged, with as many placeholders, all implicit |
| ErrorFormat.DisplayArgs | nats-micro-macros/src/service_error/mod.rs:553-620 | the field of each placeholder, or the first error; no explicit argument is left over |
| ErrorFormat.DisplayArm | nats-micro-macros/src/service_error/mod.rs:470-551 | the format string and arguments of a variant's display arm |
| ErrorFormat.NotShownBecause | nats-micro-macros/src/service_error/mod.rs:561-649 | why a placeholder shows no field, error by error |
| ErrorFormat.ArmRefusedBecause | nats-micro-macros/src/service_error/mod.rs:478-611 | what a display arm is refused for: the message, placeholders of a unit, the first placeholder that shows no field, or arguments left over |
| ErrorFormat.MeaningIsPositional | nats-micro-macros/src/service_error/mod.rs:553-620 | the arguments are defined exactly when the message has a meaning, and show the same text |
| ErrorFormat.DisplayPreservesMeaning | nats-micro-macros/src/service_error/mod.rs:470-620 | for every accepted message and all fields the rewritten string with its arguments renders what the message says, with as many arguments as placeholders |
| ErrorFormat.AcceptedExactly | nats-micro-macros/src/service_error/mod.rs:470-620 | a message is accepted exactly when it follows the grammar, every placeholder has a field, and explicit arguments are absent or as many as the placeholders |
| ErrorWire.ForVariant | nats-micro-macros/src/service_error/mod.rs:868-943 | the roles of the fields, accepted exactly under the stated conditions; each error is raised only for what it says |
| ErrorWire.ReadRole | nats-micro-macros/src/service_error/mod.rs:879-884 | the attributes of one field |
| ErrorWire.ReadVariant | nats-micro-macros/src/service_error/mod.rs:70-110 | a variant's roles, code, kind and whether it is internal |
| ErrorWire.FieldsAreTakenExactly | nats-micro-macros/src/service_error/mod.rs:868-990 | which field attributes are accepted, said of the attributes themselves |
| ErrorWire.HeaderExactly | nats-micro-macros/src/service_error/mod.rs:85-108 | which code, internal and kind attributes are accepted, which variants are internal, and the code and kind under which a variant travels |
| ErrorWire.ShapeIsOfTheFields | nats-micro-macros/src/service_error/mod.rs:505-545 | the display string speaks of exactly the fields of the variant |
| ErrorWire.Expand | nats-micro-macros/src/service_error/mod.rs:66-144 | accepts exactly the enums whose variants are each accepted and do not clash, and generates their arms; an error is always about a variant it applies to, or about two that clash |
| ErrorWire.ClashIsFound | nats-micro-macros/src/service_error/mod.rs:109-120 | the two key sets find a clash exactly when there is one |
| ErrorWire.ClashesExactly | nats-micro-macros/src/service_error/mod.rs:109-120 | when two variants clash |
| ErrorWire.OrderDoesNotMatter | nats-micro-macros/src/service_error/mod.rs:109-120 | acceptance does not depend on the order of the variants |
| ErrorWire.SkipsIsHasSkipped | nats-micro-macros/src/service_error/mod.rs:960-966 | a field stays off the wire exactly when one of its or its variant's attributes says so |
| ErrorWire.OnlyOwnArm | nats-micro-macros/src/service_error/mod.rs:301-310 | no other variant's arm can match a variant's response |
| ErrorWire.EncodedErrorsDecode | nats-micro-macros/src/service_error/mod.rs:164-253 | decoding an encoded error gives it back exactly when its variant is not internal, skips no field and is a unit or has fields; otherwise the response comes back unchanged |
| ErrorWire.ResponseCarries | nats-micro-macros/src/service_error/mod.rs:120-250 | what a response carries: no details and a fixed message if internal, the one visible string as it is, and in every other case exactly the visible fields in order |
| ErrorWire.CatchesExactly | nats-micro-macros/src/service_error/mod.rs:160-240 | which responses the arm of a variant matches |
| ErrorWire.SerializesExactly | nats-micro-macros/src/service_error/mod.rs:1300-1318 | the chosen fields are written exactly if each of them can be |
| ErrorWire.DeserializesExactly | nats-micro-macros/src/service_error/mod.rs:1325-1340 | fields are read exactly from a list of as many elements, each readable at its type |
| ErrorWire.AnyResponseDecodes | nats-micro-macros/src/service_error/mod.rs:160-235 | what the decoder makes of any response with the code and kind of a variant, whoever sent it |
| ErrorWire.SurvivorDecodes | nats-micro-macros/src/service_error/mod.rs:1295-1405 | the encode and decode arms of such a variant undo each other |
| ErrorWire.OtherStaysUntyped | nats-micro-macros/src/service_error/mod.rs:227-235 | the arms of any other variant leave the response as it is |
| ErrorWire.InternalErrorsLookAlike | nats-micro-macros/src/service_error/mod.rs:122-126 | the response to an internal error shows nothing of its fields or text |
| ErrorWire.SerializeRoundTrip | nats-micro-macros/src/service_error/mod.rs:1407-1413 | fields serialized as a tuple are read back |
| Transcript.UpdateSignatureMac | nats-micro/src/encryption/mod.rs:175-187 | the MAC is fed exactly the encoding of the transcript |
| Transcript.UpdateLenPrefixed | nats-micro/src/encryption/mod.rs:162-166 | a field is its label, its length in eight bytes and its value |
| Transcript.UpdateOptional | nats-micro/src/encryption/mod.rs:168-173 | an absent field is fed like an empty one |
| Transcript.EncodingSpelledOut | nats-micro/src/encryption/mod.rs:175-190 | the encoding, label by label |
| Transcript.EncodeDecodes | nats-micro/src/encryption/mod.rs:162-187 | a decoder inverts the encoding, up to empty optional fields |
| Transcript.DecodeEncodes | nats-micro/src/encryption/mod.rs:162-187 | the decoder accepts nothing but encodings, so it is an inverse on both sides |
| Transcript.EncodeIsInjective | nats-micro/src/encryption/mod.rs:162-187 | two transcripts below 2^64 bytes have the same encoding exactly when they differ in nothing but an absent and an empty optional field |
| Encryption.KeysAgree | nats-micro/src/encryption/mod.rs:336-340 | client and server derive the same keys |
| Encryption.RequestEnvelopeOpens | nats-micro/src/encryption/mod.rs:693-700 | a request envelope opens to what was put in and starts with the ephemeral key |
| Encryption.ResponseEnvelopeOpens | nats-micro/src/encryption/mod.rs:702-719 | a response envelope opens to what was put in |
| Encryption.RequestBuilder.TryHeader | nats-micro/src/encryption/mod.rs:504-523 | adds a plaintext header, or refuses it |
| Encryption.RequestBuilder.TryEncryptedHeader | nats-micro/src/encryption/mod.rs:531-554 | adds an encrypted header, or refuses an invalid or reserved one |
| Encryption.RequestBuilder.Payload | nats-micro/src/encryption/mod.rs:570-574 | sets a plain payload |
| Encryption.RequestBuilder.EncryptedPayload | nats-micro/src/encryption/mod.rs:576-580 | sets a payload to be encrypted |
| Encryption.RequestBuilder.Build | nats-micro/src/encryption/mod.rs:593-650 | the signed request, or the first encryption failure |
| EncryptedCall.AcceptedExactly | nats-micro/src/encryption/request.rs:27-125 | unless the MAC collides on the two transcripts of this call, the server accepts a built request exactly when its plaintext headers leave the ephemeral key and the encrypted headers alone and the request id is absent, empty or valid |
| EncryptedCall.AdmissibleIsAccepted | nats-micro/src/encryption/request.rs:27-125 | every such request is accepted, without any assumption on the MAC, and unpacks to the original body and headers |
| EncryptedCall.AcceptedIsAdmissible | nats-micro/src/encryption/request.rs:77-104 | no request with other plaintext headers is accepted, unless the MAC collides on the two transcripts |
| EncryptedCall.SignatureBinds | nats-micro/src/encryption/mod.rs:243-253 | whatever key the server finds, an accepted signature means that both sides saw the same transcript, unless the MAC collides on the two |
| EncryptedCall.EmptyBlobFails | nats-micro/src/encryption/headers.rs:92-103 | an empty header of encrypted headers is never accepted |
| EncryptedCall.OverlayOpens | nats-micro/src/encryption/headers.rs:92-119 | the overlay holds exactly the client's encrypted headers |
| EncryptedCall.LastWinsExactly | nats-micro/src/encryption/headers.rs:19-24 | for every order of the hash map and every name the last encrypted value wins, if and only if names that differ only in case end up with the same value |
| EncryptedCall.OverlayIsLastWins | nats-micro/src/encryption/headers.rs:19-24 | the last encrypted value of a name wins under that condition |
| EncryptedCall.CaseClashDependsOnOrder | nats-micro/src/encryption/headers.rs:113-118 | without that condition two orders of the hash map give different values for some name |
| EncryptedCall.CaseClashExample | nats-micro/src/encryption/headers.rs:113-118 | an instance of that: the names A and a with different values |
| EncryptedCall.HandlerSees | nats-micro/src/encryption/request.rs:128-134 | the handler sees the original body, and encrypted headers before plaintext ones |
| EncryptedCall.PlaintextArrives | nats-micro/src/encryption/mod.rs:600-602 | any other plaintext header arrives with its last value |
| EncryptedCall.BuiltArrives | nats-micro/src/encryption/mod.rs:593-650 | what the server finds under each protocol header; a plaintext signature is replaced |
| EncryptedCall.MergeHeaders | nats-micro/src/client/v2.rs:30-52 | per-call values replace the defaults of the same name |
| EncryptedCall.MergeOne | nats-micro/src/client/v2.rs:39-48 | the first value is inserted, the others appended |
| EncryptedCall.AddPlainHeaders | nats-micro/src/client/v2.rs:734-745 | each name keeps its last value; refused exactly when a name or value is invalid |
| EncryptedCall.AddValues | nats-micro/src/client/v2.rs:738-743 | the values of one name are added in order, so the last one stays |
| EncryptedCall.Prime | nats-micro/src/client/v2.rs:475-490 | the builder holds the call's payload and headers, or the call is refused |
| EncryptedCall.Send | nats-micro/src/client/v2.rs:468-513 | the outcome of the call: without a recipient, a payload or valid headers it is not sent; the reply is decrypted exactly when wanted and no service error is reported |
| EncryptedCall.ResponseReturns | nats-micro/src/encryption/request.rs:136-158 | an encrypted response opens at the client to the handler's payload, its headers unchanged |
| EncryptedCall.FailureIsReported | nats-micro/src/response.rs:159-170 | every error reply carries the headers by which the client knows it |
| EncryptedCall.CallRoundTrip | nats-micro/src/client/v2.rs:468-513 | a whole call: the handler is given the accepted request and the client ends up with what the handler answered |
| EncryptedCall.FlatteningIsAdmissible | nats-micro/src/client/v2.rs:734-745 | whether the headers are admissible depends on the merged header maps alone, not on the order in which they are added |
| EncryptedCall.HeadersArrive | nats-micro/src/client/v2.rs:468-513 | from the header maps of the call: under every name but three of the protocol the handler finds the last encrypted value given in any case, or else the last per-call or default value |
| EncryptedCall.CallReturns | nats-micro/src/client/v2.rs:468-513 | from the defaults, the per-call headers and the encrypted headers to the reply: an admissible call is served with the original body and, if case variants of encrypted names agree, with the original headers, and the caller gets what the handler answered |
| EncryptedCall.OriginalComesBackExactly | nats-micro/src/client/v2.rs:504-511 | the handler's own response comes back if and only if responses are not encrypted or this one carries neither of the two service error headers |
| RequestChecks.AcceptedIsUntampered | nats-micro/src/encryption/request.rs:75-101 | whatever was done to a request on its way, the server accepts it under the signature of a client only if subject, payload, ephemeral key, version, request id and encrypted headers are those the client signed, unless the MAC collides on the two transcripts |
| RequestChecks.RefusedExactly | nats-micro/src/encryption/request.rs:29-101 | why a request is refused, check by check, and which id the refusal names |
| RequestChecks.UnpackedExactly | nats-micro/src/encryption/request.rs:103-126 | once the signature holds a request is accepted exactly if its encrypted headers open and, where payloads are encrypted, its payload begins with the same key and opens |
| RequestChecks.OverlayOpensExactly | nats-micro/src/encryption/headers.rs:92-116 | encrypted headers open exactly if there are none or they decode, decrypt and parse to a map without reserved names |
| RequestChecks.EnvelopesAreCutRight | nats-micro/src/encryption/mod.rs:342-360 | an envelope shorter than its fixed parts is too short, and every other one is cut into key, nonce and ciphertext at the right places |
| RequestChecks.FailuresSayWhat | nats-micro/src/encryption/mod.rs:342-420 | what each step that fails says |
| RequestChecks.CaseExactly | nats-micro/src/encryption/headers.rs:27-31 | when two header names are the same in any case |
| RequestChecks.ProtocolNamesCannotBeHidden | nats-micro/src/encryption/headers.rs:27-31 | in an accepted request no encrypted header hides one of the protocol, in any case |
| RequestChecks.ValidIdsExactly | nats-micro/src/request.rs:11-18 | which request ids are valid |
| RequestChecks.KeysAreHkdf | nats-micro/src/encryption/mod.rs:139-160 | the derived keys are the 32-byte outputs of HKDF, as sections 2.2 and 2.3 of RFC 5869 define it for outputs of any length |
| RequestChecks.ErrorReplyCarries | nats-micro/src/response.rs:159-169 | the headers of an error reply |
| RequestChecks.RefusalIsReported | nats-micro/src/encryption/request.rs:29-101 | a refused request comes back in the clear as the error that says why |
| RequestChecks.FailedCallsSayWhy | nats-micro/src/client/v2.rs:485-512 | what the caller is told when a call fails, and that nothing else fails |
| SubjectTemplates.ParseSubjectTemplate | nats-micro-macros/src/service/parse.rs:179-233 | the wildcard pattern and the indexed placeholders, or the error of the first unreadable segment |
| SubjectTemplates.SegmentsAreReadExactly | nats-micro-macros/src/service/parse.rs:190-226 | what every segment is read as: a placeholder, itself, or the error that says what is wrong with it |
| SubjectTemplates.ParsesExactlyAccepted | nats-micro-macros/src/service/parse.rs:179-233 | a template parses exactly when each of its segments is readable |
| SubjectTemplates.StaticSubjectIsTemplate | nats-micro-macros/src/service/parse.rs:179-233 | a template without placeholders is its own pattern |
| SubjectTemplates.SubjectExpressionFor | nats-micro-macros/src/service/client.rs:344-378 | the code that builds the subject and computes its capacity |
| SubjectTemplates.ClientAndServerAgree | nats-micro-macros/src/service/client.rs:344-378 | for dot-free arguments the built subject has the computed capacity, matches the pattern, and has each argument at its recorded index |
| Subjects.Segment | nats-micro/src/subject.rs:6-24 | the token at an index of the dot split, empty tokens included |
| Subjects.SubjectMatches | nats-micro/src/subject.rs:95-108 | exactly the token-wise wildcard relation |
| Subjects.LiteralPatternMatchesOnlyItself | nats-micro/src/subject.rs:95-108 | a pattern without wildcards matches only itself |
| Subjects.TailWildcard | nats-micro/src/subject.rs:95-108 | a final `>` stands for one or more tokens |
| Subjects.JoinSplit | nats-micro/src/subject.rs:6-24 | splitting at dots loses nothing |
| Subjects.SplitJoin | nats-micro/src/subject.rs:6-24 | splitting undoes joining dot-free tokens |
| FaultPlans.SharedDequeRefinesQueues | nats-micro-testing/src/lib.rs:202-239 | over every interleaving the shared deque answers like independent queues, one for each operation and subject |
| FaultPlans.ConsumedPopsOneQueue | nats-micro-testing/src/lib.rs:227-239 | a use takes the oldest fault of its own key and leaves the other queues alone |
| FaultPlans.PendingIsSumOfQueues | nats-micro-testing/src/lib.rs:211-213 | the number of pending faults is the sum of the queue lengths |
| FaultPlans.FaultPlan.Push | nats-micro-testing/src/lib.rs:219-225 | a fault goes to the end of the deque |
| FaultPlans.FaultPlan.Consume | nats-micro-testing/src/lib.rs:227-239 | takes the oldest fault of the key out of the deque, if there is one |
| FaultPlans.FaultPlan.Clear | nats-micro-testing/src/lib.rs:215-217 | empties every queue |
| ServiceSets.ValidateServiceSet | nats-micro/src/app/services.rs:141-148 | accepts exactly the lists in which each service is consistent and each pair compatible; a refusal names two members that share the key |
| ServiceSets.ValidateAll | nats-micro/src/app/services.rs:89-92 | over the rest of the list, from what was recorded so far: success means that all keys are distinct, a refusal names two members that share one |
| ServiceSets.ServiceSetValidator.Add | nats-micro/src/app/services.rs:104-138 | records all of a service, or reports two members that really share a key |
| ServiceSets.ServiceSetValidator.AddOperations | nats-micro/src/app/services.rs:105-119 | records the subjects of a service, or reports one that is already taken together with the member that took it |
| ServiceSets.ServiceSetValidator.AddConsumers | nats-micro/src/app/services.rs:120-136 | the same for its (stream, durable) pairs |
| ServiceSets.DistinctIffPairwise | nats-micro/src/app/services.rs:166-203 | inserting into maps finds a duplicate exactly when the quadratic pairwise check does |
| ServiceSets.StrEq | nats-micro/src/app/services.rs:150-164 | equality of two strings, byte by byte |
| ServiceSets.AssertServicesCompatible | nats-micro/src/app/services.rs:166-203 | no subject and no (stream, durable) pair on both sides |

## Left out

- RuntimeProtocol.NothingIsAcceptedAfterARequest: assumes that no request is taken back, which `RuntimeProtocol.SafeExactlyWhenNeverRevoked` shows to be exactly the condition.
- RuntimeProtocol.RevocationReopens: says that some continuation accepts, not that every one does; a restart asked for too early is refused by the budget.
- RuntimeBudget.RestartBudgetOverRuns: each supervisor reads a clock that never runs backwards; that all of them read the same clock is not used, nor is that a backoff lasts as long as its delay.
- Workers.RunWorker: which future of several ready ones completes first, and what happens inside a handler between two polls, is not modelled.
- RuntimeRun.Runtime.Run: the deadline is an event of the script; a script that ends early means that the deadline comes next.
- Supervisors.Supervise: the delay is not waited out in the model; the clock readings and the end of the backoff are inputs.
- EncryptedCall.AcceptedExactly: needs that the MAC does not collide on the two transcripts of the call, and inputs shorter than 2^64 bytes; `EncryptedCall.AdmissibleIsAccepted` needs neither.
- EncryptedCall.Send: decoding the reply into a typed response is not modelled, nor is `EncryptedPublishCall`, which builds the same request.
- ErrorFormat.ParseErrorFormat: format specs are opaque text; specs that take further arguments (`{:.*}`, `$`) are outside the model, as is what counts as a Rust identifier.
- ErrorWire.Expand: only the data decisions of the macro; tokens, spans, derives, generics and N-API output are not modelled.
- JetStreamDriver.TestHarness.RunUntilIdle: a handler does not publish into the simulator, and a held delivery is completed once, as the harness does.
- JetStream.JetStreamSimulator.NextDue: delivery counts and attempts are unbounded, so the 64-bit limits of the counters are not modelled.
- Subjects.Segment: a slice that would cut a UTF-8 character cannot arise at a dot, so bytes suffice and character boundaries are not modelled.
- SubjectTemplates.ClientAndServerAgree: arguments with dots are outside it, since they change the number of tokens.
- `async-nats` connections, endpoint registration, JetStream binding, transport delivery, header parsing on the wire: I/O and foreign calls.
- Panics that propagate: they unwind the worker (`Workers.Unwound`) and its supervisor and count as a failed task; the script of `Supervisors.Supervise` has only incarnations that return.
- Telemetry, tracing, deployment files, the CLI, connect options, profiles and duration parsing: easy members.
- Zeroizing memory, allocation counts, pinning and lifetimes: not visible in the model.
- Protobuf and JSON response decoders, `build_subject`, `assign_indexes`, event selections: easy members.
