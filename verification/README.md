# Active replication: a verified model

This project models the two protocol stacks of an actively replicated counter service and proves what they promise over
all runs.

**Replicated counter.** A client sends request n to all its replicas and delivers the first valid reply
(`ActiveClient.dfy`, and as an object updated in place in `ActiveClientApp.dfy`). A replica de-duplicates by request
number, replays its cached reply or applies the operation (`Replica.dfy`). `ReplicatedSystem.dfy` composes any number of
clients with any number of replicas over two first-in first-out queues per connection and proves that, whatever the
interleaving, timeouts, retries, retirements, lost suffixes and crashes, callers see exactly one fault-free counter
service. `ReconnectingClient.dfy` proves exactly-once for the single-server client, whose old requests may arrive in any
order and any number of times and whose calls may be cancelled.

**Health pipeline.** A local fault detector beats one replica and tracks its health (`Lfd.dfy`, delays in
`Backoff.dfy`), its reporter passes changes on, and the global fault detector keeps sessions and members (`Gfd.dfy`, and
as an object in `GfdApp.dfy`). `HealthPipeline.dfy` composes any number of detectors with the handlers of the global one
over lossy streams: no update is lost, the stream protocol is error-free, and no replica becomes a member without an
acknowledgement of its own. `HeartbeatTiming.dfy` gives the exact condition under which no write timeout, deadline or
receive timeout of the heartbeats fires.

Each object of the program is a class whose methods are proved equal to functions on values, with their effects also
stated on the fields and messages themselves; the systems are step functions over those same functions; runs are
arbitrary sequences of actions, an impossible action having no effect.

## Assumptions

- Replicas start fresh and never restart, a client id belongs to one process that is not restarted, and failures are
  crash-stop (`docs/DESIGN.md:17` and `docs/DESIGN.md:41`). Client ids are configured at the replicas,
  and no configured name is blank (`src/ft_system/common/protocol.py:34-37` refuses messages with one).
- A connection delivers in order and loses only a suffix, in either direction. Messages stay below the size limit.
- A call is cancelled from outside during its broadcast only when its number has gone to all replicas in use, or is not
  delivered and has gone to no connection that is still read. `ActiveClient.CancelIsSafe` proves that this is exactly
  when no replica in use can ever miss a number; runs contain all such cancellations. A call that waits may be cancelled
  at any time, which is the same as its timeout. Connections are opened by the first call.
- The map from local fault detectors to replicas is injective. The configuration loader does not check this;
  `Gfd.SharedReplicaBreaksMembership` shows that it is needed.
- In the timing model, the way down is counted from the end of the handler's write until the reporter reads the
  heartbeat; the way up from there, through the wait for the write lock, until the handler reads the acknowledgement. The
  way up takes strictly less than its bound: an acknowledgement that arrives at the deadline itself is in a race with it
  (`src/ft_system/gfd/app.py:78-82`), and the model lets the deadline win. A write that takes exactly its timeout counts
  as finished. Both ends share one timeout; their periods may differ, as one of them can be overridden alone.

The documentation of the first milestone says that servers do not de-duplicate
(`docs/milestone-1-instructions.md:273-275`); the code does (`src/ft_system/server/app.py:53-61`), and the model follows
the code. A false statement that is close to a true one: a replayed second reply is not always compared with the value
delivered first (`ActiveClient.ReplayedReplyMayEscape`); the exact condition is `ActiveClient.DuplicateCompared`.

## Model

| member | source | states |
|---|---|---|
| Protocol.ValidatedIdentity | src/ft_system/common/protocol.py:52-67 | two requests or replies that pass validation have the same request id if and only if they name the same client and number, even if client names contain colons |
| Protocol.RequestWellFormed | src/ft_system/common/protocol.py:140-154 | a client request can be built exactly for a positive number and two non-blank names, and is then the expected message |
| Protocol.RequestIdInjective | src/ft_system/common/protocol.py:57 | a request id determines both the client and the number |
| Protocol.AcceptedReplyIsDetermined | src/ft_system/client/app.py:72-81 | a well-formed message passes the reply check exactly when it is the reply of that replica to that very request; only the value is the sender's choice |
| Protocol.ReplyRoundTrip | src/ft_system/common/protocol.py:157-174 | building a reply to a genuine request and checking it against that request succeeds |
| Protocol.BuildersRefuseExactly | src/ft_system/common/protocol.py:177-231 | heartbeats, membership messages and errors can be built exactly for positive counts and non-blank names and ids, and are then the expected messages |
| Protocol.AnswersBuiltExactly | src/ft_system/common/protocol.py:157-205 | a reply can be built exactly for a non-negative value and a request whose every field is as its client builds it, an acknowledgement exactly for a heartbeat, with its ends swapped |
| StateMachine.DeterministicStateMachine.Create | src/ft_system/server/state_machine.py:23-31 | succeeds exactly for at least one id, no empty and no repeated id; all counters start at 0 |
| StateMachine.DeterministicStateMachine.Snapshot | src/ft_system/server/state_machine.py:33-34 | a copy of all counters |
| StateMachine.DeterministicStateMachine.Increment | src/ft_system/server/state_machine.py:36-45 | applied exactly for a known client and the one operation: that counter goes up by one, no other changes, with the snapshots before and after; the two refusals in their order change nothing |
| Replica.ClientListener.ProcessRequest | src/ft_system/server/app.py:50-91 | new counters, cache and response are those of `Process`, whose answers the next three members state on the messages |
| Replica.AnsweredWithoutEffect | src/ft_system/server/app.py:53-81 | an old number, a reused number, the last number again, an unknown client and an unknown operation: each with its response, field by field, and the unchanged state |
| Replica.ExecutedOnce | src/ft_system/server/app.py:62-91 | a new number of a known client: its counter goes up by one and nothing else, and the reply carries the new value and is cached under that number |
| Replica.ContainsSomewhere | src/ft_system/server/app.py:70-74 | the error code depends on whether those words occur anywhere in the text |
| Replica.ClientListener.Handle | src/ft_system/server/app.py:93-125 | every served input is a client request whose destination is this replica, served in order as a request log; the first that is not changes nothing and is answered by exactly one invalid_client_message error, and a failing write ends the connection |
| Replica.RetryIsIdempotent | src/ft_system/server/app.py:53-61 | for any state and any request, repeating it changes nothing and gets the same response, whatever other clients sent in between |
| Replica.ProcessIsLocal | src/ft_system/server/app.py:50-91 | a request of one client neither reads nor changes what the replica knows of another |
| Replica.LogIsLocal | src/ft_system/server/app.py:50-91 | deleting all other clients' requests from any log leaves a client's counter, cached reply and responses as they were |
| Replica.LogsConverge | src/ft_system/server/app.py:50-91 | logs with equal projections on every client give the same state, the same cache and the same responses |
| Replica.IncrementCountsMaxima | src/ft_system/server/app.py:53-89 | one increment, stale, repeated or with a gap, keeps the counter equal to the number of strict running maxima |
| Replica.CounterCountsMaxima | src/ft_system/server/app.py:53-89 | a fresh replica's counter of a client is the number of strict running maxima among its increments, and the cached number is their maximum |
| Replica.ResponsesSendable | src/ft_system/server/app.py:53-91 | to any log of well-formed requests, every response of a fresh replica, replayed replies and errors included, passes the checks for sending |
| Replica.ReplicasConverge | src/ft_system/server/app.py:50-91 | two fresh replicas agree on a client whose increments arrived in the same order, however other requests were interleaved |
| ActiveClient.AcceptsIsReplyCheck | src/ft_system/client/active.py:92-93 | the acceptance test is the reply check against the rebuilt request |
| ActiveClient.StepKeepsSequence | src/ft_system/client/active.py:84-148 | every section keeps next-1 <= delivered <= next and, per connection, received <= sent <= next |
| ActiveClient.StepKeepsBroadcast | src/ft_system/client/active.py:117-148 | every section, safe cancellations included, keeps all live connections within one number of the broadcast, and the future tied to the current number |
| ActiveClient.PruningIsExact | src/ft_system/client/active.py:77-82 | pruning leaves exactly the history restricted to the numbers some unfinished connection has yet to answer |
| ActiveClient.StepKeepsCache | src/ft_system/client/active.py:65-111 | every section keeps the cache exact up to readers that finished since the last pruning |
| ActiveClient.RunKeepsInv | src/ft_system/client/active.py:84-148 | all of this holds in every run, against replicas that may answer anything |
| ActiveClient.ReturnsCurrentNumber | src/ft_system/client/active.py:121-144 | a call returns the reply to the current number with the value delivered for it, and only then the number advances |
| ActiveClient.HistoryGrows | src/ft_system/client/active.py:102-105 | a delivered value is never revised |
| ActiveClient.ReturnsInSequence | src/ft_system/client/active.py:117-148 | over every run, successive calls return 1, 2, 3, ... without repetition or gap, each with the value delivered for it |
| ActiveClient.FutureResolvesOnce | src/ft_system/client/active.py:102-108 | in every run a future is resolved at most once, only by the reply to its call's number, and stays until that call ends |
| ActiveClient.CancelIsSafe | src/ft_system/client/active.py:117-148 | for every broadcast that is cancelled: no replica in use can miss a number in any run from there on, if and only if the number went to all replicas in use, or is undelivered and went to no connection that is still read |
| ActiveClient.UnsafeCancelLeavesGap | src/ft_system/client/active.py:121-148 | from every other cancelled broadcast, a run after which the client is past a number that a replica in use was never sent |
| ActiveClient.CancelLeavesGap | src/ft_system/client/active.py:121-148 | a concrete run with two replicas: request 1 is returned without having been sent to the second one, which is sent 2 next, and whose reply with the value 1 is delivered for it |
| ActiveClient.LateReplyReturnedOnce | src/ft_system/client/active.py:120-123 | in every run, a reply that came after its caller's timeout is returned by the next call, without sending, and only once |
| ActiveClient.UnexpectedNumberIsDead | src/ft_system/client/active.py:89-110 | a message is rejected exactly when it is out of range or no reply to the request sent; the last branch is dead |
| ActiveClient.DuplicateCompared | src/ft_system/client/active.py:96-100 | divergence is reported exactly when the value differs from the full history and some connection has yet to answer or finished since the last pruning |
| ActiveClient.FirstReplyComparedInFull | src/ft_system/client/active.py:94-100 | in every run, each connection's first answer is compared as if nothing had been pruned |
| ActiveClient.ReplayedReplyMayEscape | src/ft_system/client/active.py:94-111 | a run in which a replayed answer with another value goes unnoticed |
| ActiveClient.SendFrame | src/ft_system/client/active.py:129-131 | a send raises the sent number of its connection to the current number, by at most one, and changes nothing else of the connections |
| ActiveClient.AcceptedReadFrame | src/ft_system/client/active.py:88-111 | a valid reply in range keeps its connection in use, and extends the history exactly when its number is new |
| ActiveClient.TakenExactlyWhen | src/ft_system/client/active.py:88-110 | a message from the wire is taken exactly when it is this replica's reply to a request sent there and no older than the last one it answered |
| ActiveClient.FailureRetiresOnlyIts | src/ft_system/client/active.py:69-115 | a failed send, a failed read and a rejected reply retire that replica only; the last two end its reader; every other connection, the call and all that was delivered stay |
| ActiveClient.TaskDoneEndsOnlyIts | src/ft_system/client/active.py:62-65 | when a reader finishes, its connection is done with and nothing else changes |
| ActiveClient.StaysInUse | src/ft_system/client/active.py:47-148 | under any section, timeouts, cancellations and later calls included, a replica leaves use exactly by its own failed send, failed read or rejected reply |
| ActiveClient.TimedOutCallGetsLateReply | src/ft_system/client/active.py:120-148 | a call that timed out: the reply of any replica that was sent its number is returned by the next call |
| ActiveClientObjects.ActiveClientApp.Create | src/ft_system/client/active.py:23-41 | succeeds exactly for a non-empty list of distinct replicas, with a fresh state |
| ActiveClientObjects.ActiveClientApp.Connect | src/ft_system/client/active.py:47-67 | the first call opens one fresh connection to each replica reached, all of them in use, and changes nothing else; every later call changes nothing at all |
| ActiveClientObjects.ActiveClientApp.OpenAll | src/ft_system/client/active.py:52-67 | both tables hold exactly the replicas reached, each with a fresh connection |
| ActiveClientObjects.ActiveClientApp.OpenReplica | src/ft_system/client/active.py:59-65 | registers one fresh connection in both tables and disturbs no other |
| ActiveClientObjects.ActiveClientApp.BeginCall | src/ft_system/client/active.py:120-127 | the late reply, the error or the broadcast targets, with the whole new state |
| ActiveClientObjects.ActiveClientApp.MarkSent | src/ft_system/client/active.py:129-131 | the request built, and the sent number of that connection set to the current one |
| ActiveClientObjects.ActiveClientApp.Retire | src/ft_system/client/active.py:69-75 | this connection leaves the live ones and no other does |
| ActiveClientObjects.ActiveClientApp.StopReading | src/ft_system/client/active.py:112-115 | this connection leaves the live ones, no other does, and its read loop is over |
| ActiveClientObjects.ActiveClientApp.FinishTask | src/ft_system/client/active.py:62-65 | the reader task of this connection is done |
| ActiveClientObjects.ActiveClientApp.Prune | src/ft_system/client/active.py:77-82 | the loop over cached numbers drops exactly the settled ones |
| ActiveClientObjects.ActiveClientApp.Receive | src/ft_system/client/active.py:88-115 | new state and event of one message, on the objects updated in place |
| ActiveClientObjects.ActiveClientApp.Deliver | src/ft_system/client/active.py:102-108 | number, value, last reply and future after a delivery |
| ActiveClientObjects.ActiveClientApp.CompleteCall | src/ft_system/client/active.py:142-148 | the resolved reply, the advanced number, no future |
| ActiveClientObjects.ActiveClientApp.AbandonCall | src/ft_system/client/active.py:145-148 | only the future is given up |
| Links.ProcessGenuineRequest | src/ft_system/server/app.py:50-91 | a replica that executed 1..k once answers k or k+1 with value equal to the number, never with an error |
| Links.SkippedNumberMiscounts | src/ft_system/server/app.py:53-91 | a replica whose counter a new number has left behind answers it with the wrong value and stays behind for every later number |
| Links.FreshReplicaMiscounts | src/ft_system/server/app.py:62-91 | a replica that never saw request 1 answers request 2 with the value 1 |
| Links.TransmitKeepsInv | src/ft_system/client/active.py:129-136 | sending the same or the next number, whether the write arrives or not, keeps the connection's invariant |
| Links.ServeKeepsInv | src/ft_system/server/app.py:120-121 | serving the head of a connection answers it genuinely, keeps the invariant and leaves other clients alone |
| Links.ReceiveKeepsInv | src/ft_system/client/active.py:88-94 | the next reply is genuine and lies between what was received and what was sent |
| Links.CutsKeepInv | src/ft_system/client/active.py:112-115 | losing any suffix of either queue keeps the invariant |
| ReplicatedSystem.InitEstablishesInv | src/ft_system/client/active.py:31-40 | fresh clients, connections and replicas satisfy the invariant |
| ReplicatedSystem.StepKeepsInv | src/ft_system/client/active.py:84-148 | every step of the composed system keeps the invariant over clients, queues, caches and counters |
| ReplicatedSystem.StepRefinesService | src/ft_system/client/active.py:117-148 | every step is invisible to callers or exactly one call of a fault-free counter service |
| ReplicatedSystem.RunRefinesService | src/ft_system/client/active.py:84-148 | in every run, the k-th returned call of each client has number k and value k |
| ReplicatedSystem.ExactlyOnceEverywhere | src/ft_system/server/app.py:53-91 | in every reachable state a replica's counter of a client equals its cached number, and every queued reply has value = number |
| ReplicatedSystem.ServedWithoutError | src/ft_system/server/app.py:59-81 | no request of a genuine client is ever answered as stale or with any other error |
| ReplicatedSystem.DeliveredWithoutWarning | src/ft_system/client/active.py:89-110 | no connection is retired for a protocol error and the divergence warning is unreachable |
| ReplicatedSystem.FaultsAreFinal | docs/DESIGN.md:41 | over any run, behind a cut there is never more in a queue than it kept, and a crashed replica never changes or replies again |
| ReplicatedSystem.QuiescentAgreement | src/ft_system/client/active.py:126-141 | in every reachable state, between calls, any two drained live replicas hold the same counter, the last number ever sent to anyone; only a broadcast cancelled after going to connections no longer read may have sent one more there |
| ReplicatedSystem.UncancelledIsWhole | src/ft_system/client/active.py:138-148 | that exception needs a cancellation: in runs without one it does not occur |
| ReplicatedSystem.PumpShortensBacklog | src/ft_system/server/app.py:93-121 | serving one healthy connection lowers 2 * requests + replies by one and disturbs nothing |
| ReplicatedSystem.DrainedCallReturns | src/ft_system/client/active.py:138-144 | after the broadcast, a drained healthy connection has delivered the current number, so the call can return |
| ReplicatedSystem.Progress | src/ft_system/client/active.py:117-144 | from every reachable state with a completed broadcast, one healthy connection suffices for the call to return, within 2 * requests + replies steps |
| ReplicatedSystem.OneReplicaSuffices | src/ft_system/client/active.py:117-144 | from every reachable state, idle, broadcasting or waiting, one healthy connection suffices for the call of the current number to return it with that value, though every send to another replica is lost and retires that replica |
| ReplicatedSystem.HealthySurvives | src/ft_system/client/active.py:69-148 | a healthy connection survives every step that does not harm that connection itself: failures and retirements of other replicas, timeouts, cancellations, later calls, other clients |
| ReplicatedSystem.SurvivorSuffices | docs/DESIGN.md:39 | so after any further run that spares one connection, the current call can still return over it alone |
| ReplicatedSystem.LastReplicaSuffices | docs/DESIGN.md:39 | in every reachable state, in the middle of a call too, all other replicas can be retired, and the last one finishes the call |
| SingleClient.ClientApp.DropConnection | src/ft_system/client/app.py:66-70 | no connection remains |
| SingleClient.ClientApp.SendIncrement | src/ft_system/client/app.py:83-104 | succeeds exactly on a valid reply to the current number; otherwise, also if a kept connection is found closed and cannot be reopened, the number stays and there is no connection |
| ReconnectingSystem.StrayServed | src/ft_system/server/app.py:53-61 | a copy of any earlier request is answered as stale, from the cache or executed once, by its number alone |
| ReconnectingSystem.StepKeepsInv | src/ft_system/client/app.py:56-104 | every step, with calls cancelled from outside and a network that may deliver any old request again, keeps the invariant |
| ReconnectingSystem.ExactlyOnceAcrossReconnects | src/ft_system/client/app.py:83-104 | in every run the counter equals the highest number processed, each of 1..k executed once, and the client was given 1, 2, ... with those values |
| ReconnectingSystem.RetryNeverStale | src/ft_system/server/app.py:53-61 | in every run the current number, first attempt or retry, is never answered as stale; the reply a waiting call reads is accepted if and only if the oldest number owed on its connection is the current one, and always in runs without cancelled calls |
| ReconnectingSystem.RetryReturns | src/ft_system/client/app.py:56-104 | from every reachable state, reconnecting and sending the current number once more returns its genuine reply and advances the number |
| ReconnectingSystem.LateArrivalCountsOnce | src/ft_system/server/app.py:53-89 | the current request arriving late over an old connection is executed, once, and its retry is answered from the cache |
| ReconnectingSystem.OldAnswerCostsConnection | src/ft_system/client/app.py:94-100 | a call that reads an older answer fails and drops the connection, and nothing else changes |
| ReconnectingSystem.CancelledCallLeavesAnswer | src/ft_system/client/app.py:94-104 | a run with a cancelled call after which an older answer is left on the connection |
| Backoff.ExponentialBackoff.Create | src/ft_system/common/retry.py:18-22 | succeeds exactly for positive values in order |
| Backoff.ExponentialBackoff.NextDelay | src/ft_system/common/retry.py:24-29 | the clamped computation gives the initial delay after a reset, and otherwise min(2 * the previous delay, maximum), for every attempt, and counts it |
| Backoff.ExponentialBackoff.Reset | src/ft_system/common/retry.py:31-32 | the series starts anew |
| Backoff.DoublingIsPower | src/ft_system/common/retry.py:27 | doubling step by step with the cap at each step is min(initial * 2^n, maximum) |
| Backoff.CeilLog2IsLeast | src/ft_system/common/retry.py:25 | the exponent bound is the least exponent that reaches the ratio |
| Backoff.CapReachedExactly | src/ft_system/common/retry.py:24-29 | the maximum is reached at failure ceil(log2(maximum / initial)) exactly, and kept |
| Backoff.ClampingIsHarmless | src/ft_system/common/retry.py:25-27 | clamping the exponent never changes the delay |
| Backoff.DelaysGrowWithinBounds | src/ft_system/common/retry.py:24-29 | delays never shrink between resets and stay within the configured bounds |
| Reporter.GfdReporter.constructor | src/ft_system/lfd/reporter.py:13-19 | unhealthy, with nothing to report |
| Reporter.GfdReporter.SetHealth | src/ft_system/lfd/reporter.py:21-24 | the health is taken, and a change is marked for reporting exactly when it is one |
| Reporter.GfdReporter.TakeReport | src/ft_system/lfd/reporter.py:41-49 | the report carries the health at the moment the mark is cleared |
| Reporter.GfdReporter.AnswerHeartbeats | src/ft_system/lfd/reporter.py:51-61 | heartbeats are answered in order with their own numbers, up to the first message that is none for this reporter |
| Reporter.ReportBuilds | src/ft_system/lfd/reporter.py:42-49 | for configured names the builder's checks pass and the report is what it builds |
| Lfd.OnlyItsAckSucceeds | src/ft_system/lfd/app.py:98-106 | an attempt succeeds exactly on the acknowledgement that the replica's builder makes from the heartbeat sent |
| Lfd.LfdApp.HeartbeatOnce | src/ft_system/lfd/app.py:108-139 | succeeds exactly on a validated acknowledgement; the number advances once the heartbeat is written; the reporter mirrors the health |
| Lfd.LfdApp.MarkFailed | src/ft_system/lfd/app.py:82-88 | one callback and one logged death exactly when the replica was healthy |
| Lfd.LfdApp.ActOn | src/ft_system/lfd/app.py:152-174 | state, delay, reporter and logged deaths and recoveries after one attempt; nothing is acted upon when a failing attempt is overtaken by a stop |
| Lfd.LfdApp.Run | src/ft_system/lfd/app.py:148-179 | the loop goes on until the script ends or a stop is met, in the wait or during a failing attempt, and leaves exactly the state, reporter, delays, deaths and recoveries of the attempts it made |
| Lfd.BackoffFollowsFailures | src/ft_system/lfd/app.py:148-177 | every delay of a run is the period after an answered heartbeat; after a failure it is the initial one when the attempt before succeeded or there was none, and otherwise min(2 * the delay before, maximum) |
| Lfd.TransitionDiscipline | src/ft_system/lfd/app.py:82-139 | over every run callbacks alternate from True, the reporter mirrors the health, deaths = recoveries + (1 while down after having been up), the numbers written in full are 1, 2, 3, ... across reconnects, and those on the wire repeat only after a failed write and never skip one |
| Gfd.StepKeepsInv | src/ft_system/gfd/app.py:36-116 | every step of any handler, whatever it is sent, keeps sessions and members exact |
| Gfd.MembershipExact | src/ft_system/gfd/app.py:36-116 | in every run there is one session per local fault detector, and the members are exactly the replicas whose session last reported them healthy |
| Gfd.RegisteredExactlyWhen | src/ft_system/gfd/app.py:58-69 | a handler is registered if and only if it reads the registration of a configured detector without session for its own replica |
| Gfd.UnexpectedMessageEndsSession | src/ft_system/gfd/app.py:83-113 | any other message than a report of its replica or the awaited acknowledgement ends the session and that membership, and no other |
| Gfd.EndingTakesOnlyItsOwn | src/ft_system/gfd/app.py:108-116 | the end of a handler for any reason removes its own session and membership, if any, and nothing else |
| Gfd.PauseLeadsToNextHeartbeat | src/ft_system/gfd/app.py:93-107 | the end of a pause writes exactly the next heartbeat and changes nothing else |
| Gfd.ExpectedMessagesTaken | src/ft_system/gfd/app.py:66-106 | the whole new state after an admitted registration, a valid report and the awaited acknowledgement, and heartbeat 1 on registration |
| Gfd.RefusedRegistrationChangesNothing | src/ft_system/gfd/app.py:58-65 | any other first message ends the handler and changes nothing else |
| Gfd.SharedReplicaBreaksMembership | src/ft_system/gfd/app.py:36-46 | if two detectors share a replica, a run after which the members are wrong |
| GfdObjects.GfdApp.UpdateMember | src/ft_system/gfd/app.py:36-46 | the replica is a member afterwards exactly when reported healthy; no other membership changes |
| GfdObjects.GfdApp.Release | src/ft_system/gfd/app.py:110-113 | ends the session and membership of this connection only, and only if it holds the session |
| GfdObjects.GfdApp.TakeReport | src/ft_system/gfd/app.py:83-85 | a valid report updates the member, any other is refused and changes nothing |
| GfdObjects.GfdApp.AwaitAcknowledgement | src/ft_system/gfd/app.py:78-92 | the wait is over exactly on the acknowledgement of this number behind reports only; a deadline, a loss or any other message ends the session; the last report read decides the membership |
| GfdObjects.GfdApp.AwaitPause | src/ft_system/gfd/app.py:93-106 | the pause is over exactly at its deadline behind reports only; a loss or any other message ends the session; the last report read decides the membership |
| GfdObjects.GfdApp.HeartbeatRounds | src/ft_system/gfd/app.py:70-107 | the heartbeats sent are exactly 1 to the handler's count, in order, to the registered detector, through both nested waits |
| GfdObjects.GfdApp.Handle | src/ft_system/gfd/app.py:53-116 | after a handler has met any inputs and ended, the sessions are as before, the members are those before without the replica of the detector it registered, if any, and the heartbeats written, the first of them number 1 to that detector, are those of the specification |
| GfdObjects.HeartbeatsNumbered | src/ft_system/gfd/app.py:70-107 | whatever it meets, a registered handler has written heartbeats 1 to its count in order |
| GfdObjects.InputKeepsCount | src/ft_system/gfd/app.py:70-107 | a heartbeat is written exactly on registration and at the end of a pause |
| GfdObjects.DeadlineOrLossEndsSession | src/ft_system/gfd/app.py:78-113 | a missed acknowledgement deadline, or the loss of the connection at any time, ends that session and membership and no other |
| GfdObjects.PauseOverSendsNext | src/ft_system/gfd/app.py:94-107 | the deadline of a pause leads to exactly the next heartbeat |
| GfdObjects.UnregisteredEndsQuietly | src/ft_system/gfd/app.py:58-65 | before registration, a deadline, a loss or any inadmissible message ends the handler without other effect |
| GfdObjects.MessagesTaken | src/ft_system/gfd/app.py:66-106 | the whole new state after each message a handler expects |
| GfdObjects.MissedDeadlineIsFinal | src/ft_system/gfd/app.py:77-113 | in every run, after a missed acknowledgement deadline the handler stays closed whatever comes, its replica is no member, and no further heartbeat is written |
| ReportChannels.HeadExpected | src/ft_system/gfd/app.py:58-106 | the next message of a genuine reporter is one its handler expects, and an acknowledgement carries the awaited number |
| ReportChannels.TakeHeartbeatKeepsInv | src/ft_system/lfd/reporter.py:53-61 | what a reporter reads is a heartbeat for it; answering keeps at most one unacknowledged |
| ReportChannels.CaptureKeepsInv | src/ft_system/lfd/reporter.py:45-49 | capturing a report while older traffic is under way keeps the last thing told equal to the captured health |
| HealthPipeline.LineKeepsInv | src/ft_system/lfd/reporter.py:37-73 | every action of a reporter on its connection keeps its stream in order |
| HealthPipeline.StepKeepsInv | src/ft_system/lfd/reporter.py:28-78 | every step of detectors, reporters, handlers and streams keeps the invariant of the whole pipeline |
| HealthPipeline.NoLostUpdate | src/ft_system/lfd/reporter.py:21-49 | in every reachable state an update is still marked, or the current connection was told the health, or there is none; what it was told last is the last report under way or read |
| HealthPipeline.DrainedMembership | src/ft_system/gfd/app.py:36-106 | when a registered connection is drained and nothing is marked, the replica is a member exactly when its detector holds it healthy |
| HealthPipeline.UpdateArrives | src/ft_system/lfd/reporter.py:45-49 | from every reachable state with a registered connection, writing and reading alone bring membership to agree with the health |
| HealthPipeline.AgreementAlwaysReachable | src/ft_system/lfd/reporter.py:28-78 | from every reachable state, without any further heartbeat to the replica, hanging up, ending the old handler, registering anew and draining bring membership to agree with the health |
| HealthPipeline.OutcomeReachesMembership | src/ft_system/lfd/app.py:98-139 | after any run and one more attempt, the members can be brought to contain the replica if and only if that attempt was answered by its acknowledgement of the number sent |
| HealthPipeline.StreamsAreErrorFree | src/ft_system/gfd/app.py:58-106 | in every reachable state, the next message of a reporter ends its handler if and only if it is a registration and its detector already has a session |
| HealthPipeline.OneHeartbeatAtATime | src/ft_system/gfd/app.py:70-107 | in every reachable state at most one heartbeat of a stream is unacknowledged, with the number the handler awaits, and a reporter only finds heartbeats meant for it |
| HealthPipeline.HeartbeatsGoRound | src/ft_system/gfd/app.py:70-107 | in every reachable state, a heartbeat that has arrived over an unbroken connection is answered so that its handler's wait ends, and the pause ends with the next number on its way |
| HealthPipeline.CutsAreFinal | src/ft_system/lfd/reporter.py:72-78 | over any run, behind a cut there is never more under way on a stream than it kept |
| HealthPipeline.MembersWereAcknowledged | src/ft_system/lfd/app.py:98-139 | every member has a validated acknowledgement of its own, carrying the number sent, in the run |
| HealthPipeline.AddIsPreceded | src/ft_system/gfd/app.py:63-69 | that acknowledgement precedes the step that adds the replica |
| TimedWaits.WaitForAck | src/ft_system/gfd/app.py:77-92 | the loop with a fixed deadline computes the specified outcome and time |
| TimedWaits.WaitForPause | src/ft_system/gfd/app.py:93-106 | the pause loop computes the specified outcome and time |
| TimedWaits.ReportsCannotExtendWait | src/ft_system/gfd/app.py:71-82 | however many reports arrive, the wait ends by its deadline or when the message read last before it is dealt with; nothing is given up earlier, and reports alone always end in the timeout |
| TimedWaits.AckedExactlyWhen | src/ft_system/gfd/app.py:77-92 | behind any number of reports, the first other message decides if and only if it is read strictly before the deadline: the acknowledgement counts, anything else fails |
| TimedWaits.PauseFailsExactlyWhen | src/ft_system/gfd/app.py:93-106 | in the pause, the first message that is no report fails if and only if it is read before the pause is over |
| TimedWaits.PauseEndsInTime | src/ft_system/gfd/app.py:93-106 | the pause ends when the next heartbeat is due, or when the report read last before that is dealt with |
| HeartbeatTiming.RoomSuffices | src/ft_system/lfd/reporter.py:53-54 | with room enough, no schedule of any length lets a write timeout, the deadline or the reporter's timeout fire, from the registration on |
| HeartbeatTiming.LateWrite | src/ft_system/gfd/app.py:75-76 | a schedule that fires a write timeout when a write may outlast it |
| HeartbeatTiming.LateAck | src/ft_system/gfd/app.py:75-80 | a schedule that misses the deadline, with all other timeouts kept, when both ways together may exceed the timeout |
| HeartbeatTiming.LateHeartbeat | src/ft_system/lfd/reporter.py:53-54 | a schedule that fires the reporter's timeout, with all timeouts before it kept, when the period, write, ways and handling may exceed what the reporter waits |
| HeartbeatTiming.TimeoutsNeverFireIff | src/ft_system/gfd/app.py:70-107 | no schedule fires a timeout if and only if writes fit the timeout, both ways together fit it, and the handler's period with write, ways and handling fits the reporter's period plus twice the timeout |
| HeartbeatTiming.HalfATimeoutEachWay | src/ft_system/lfd/reporter.py:53-54 | so it is for writes within the timeout, half a timeout each way, and a handler's period not above the reporter's |
| HeartbeatTiming.LongerPeriodFires | docs/DESIGN.md:29 | with those bounds used up, timeouts never fire if and only if the handler's period is not longer than the reporter's |

## Left out

- asyncio itself: coroutines become the atomic sections between their suspension points, sockets become queues, `src/ft_system/common/transport.py` and its size limit are not modelled.
- JSON: messages are typed, so malformed lines are one kind of failed read, and extra keys do not exist.
- Texts of log lines and errors: error details are a datatype; the one decision that depends on a text, the error code of a refused operation, is kept.
- Binary floating point: delays and times are real numbers, so the rounding of `math.log2` does not appear.
- Replica and client restart, state transfer and a total order across clients: outside the design.
- Restart of a local fault detector process: the pipeline starts each detector once.
- `ActiveClientApp.close`, `ServerApp`, `GfdApp.close` and task bookkeeping: shutdown and listener lifecycle.
- `HeartbeatListener`: it only echoes the count (see `Protocol.AckRoundTrip`).
- Command line, configuration files, signals, launchers and interactive mode: their facts enter as the assumptions above.
- ActiveClientObjects.ActiveClientApp.Connect: the list of all connections is kept by replica id, since endpoints are unique; opening order is not captured.
- Replica.ClientListener.Handle: the processing lock is not modelled; each request is processed in one piece, as the lock guarantees.
- GfdObjects.GfdApp.Handle: one handler at a time on the object; interleavings of handlers are covered on values by `Gfd.MembershipExact` and `HealthPipeline.StepKeepsInv`.
- HealthPipeline.AgreementAlwaysReachable: says that agreement can always be reached, not that a scheduler reaches it.
- HeartbeatTiming.RoomSuffices: the timeout of the handler's first read, before a registration, and the write timeouts of membership reports are not stated; reports count as part of the wait for the write lock.
- The reporter's fixed half-second pause between connections, and the periods of the heartbeat loops in `HealthPipeline`: any interleaving is allowed there; time is treated in `HeartbeatTiming` only.
