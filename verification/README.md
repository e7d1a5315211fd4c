# Verified model of the swarm server's stateful core

This project models, in Dafny, the parts of the swarm MCP server that keep state or run a non-trivial loop, and
proves what they are for:

- `TaskGraph`, `TaskManager`, `TaskHistory`, `TaskProgress`, `TaskSnapshot`: the dependency graph between tasks, its
  depth-first cycle check, every operation of the manager and what it leaves in a task, the progress of ready tasks,
  and saving and restoring all of it;
- `RateLimiter`, `SseQueue` and `SseBroadcast`: the sliding-window limiter, the bounded queue of an SSE connection,
  and the stream that broadcasts to all of them;
- `MergeCoordinator`: merge requests whose execution is split by a released lock;
- `ArgTokenizer` and `TopicMatching`: the quote-aware tokenizer and the two MQTT topic matchers;
- `ContextStore` and `EventBus`: versioned values with JSON merge patch, and the bounded event log;
- `CursorPagination`: list pages;
- `AuthTokens` and `TokenRefresh`: access tokens, and refreshes whose three steps interleave.

`Common.dfy` and `Json.dfy` hold what several modules share.

Each class has the fields the C++ object has, and each of its methods is proved equal to a step of a specification
(`Apply`, `Next`, or a function of the old fields). The theorems are then about those steps and about whole runs of
them, in any order. Where a lock is released or a flag is read without one, the C++ method is split into several
steps, which interleave freely.

Inputs from outside are parameters: clock readings, UUIDs, the keyed hash, the result of running git, and the order
in which an unordered map is iterated (any order). Times are integers in nanoseconds, and the truncation of
`duration_cast` is written out. A clock that must not go back, fresh ids and dot-free signatures are stated as
preconditions where they are needed and nowhere else.

Where a natural claim is false of the code, the model keeps the code and states exactly when the claim holds:

- `update_task` and `restore_task` can close a dependency cycle (`UpdateCanCloseCycle`); a step keeps the map
  well formed if and only if it is `Safe`, a check the caller could make with `would_create_cycle`.
- Completing ready tasks one by one need not finish every pending task; those that finish are, in whatever order, exactly
  the ones that do not wait, directly or not, for a task that is missing or has another status, or for a cycle.
- Two overlapping executions of one merge request both merge, and the second overwrites the outcome of the first
  (`OverlapLosesTheOutcome`); a request is begun at most once if and only if its executions never overlap, and at any
  point a written outcome is final if and only if every execution still in flight has already run with that outcome.
- The tokenizer loses empty arguments: the round trip holds if and only if there is none.
- `topic_matches` says no to every filter without a `+`, and filters that start with `+` also match topics that start
  with `$`, against section 4.7.2 of MQTT 3.1.1: for a valid filter it is section 4.7.1 on every topic name if and only
  if the filter has a `+`, and all of section 4.7 if and only if moreover it does not start with `+`.
- The test for one verified callback also compares a string prefix for filters that end in `/#`, so `a/#` takes `ab`:
  for a valid filter it is section 4.7.1 on every topic name if and only if the filter has a `+` or does not end in `/#`.
- The two topic matchers differ on filters without a `+`, on some trailing slashes and on the empty topic
  (`MatchersDiffer`). A filter gets the same answers from both on every non-empty topic if and only if it has a `+` and
  the split does not matter to it (`SplitDoesNotMatter`): cut after its first `#` level, it ends in `#` with at most one
  level before it or with a level before it that is neither `+` nor empty; or it has no `#` level and ends in two empty
  levels. For valid filters, with or without a `+`, `SplitDoesNotMatter` decides whether `mqtt_match` is section 4.7.1
  on every topic name.
- Merging into a missing key stores nulls that a second merge of the same data removes; from there merging is
  idempotent if and only if the data has no null member and no array items.
- A query on the bounded log is a query on the full history if and only if the log holds enough events of the type or
  no event of the type has fallen out of it.
- An event of type `*` calls each wildcard handler twice.
- Two overlapping refreshes of one token both pass the check and both issue a token that stays valid
  (`OverlapIssuesTwo`); the check passes at most once for a token if and only if its refreshes never overlap, and then
  there is at most one replacement.
- A client that follows `_nextCursor` until it is absent stops if and only if its role sees every entry.

## Model

| member | source | states |
|---|---|---|
| TaskManager.Manager.WouldCreateCycle | src/workspace/task_manager.cpp:341-362 | on any graph, cyclic or with ids that are not stored, the search answers yes exactly when `id` is reachable from `dep` by zero or more dependency edges; it ends after at most one round more than the total length of all dependency lists |
| TaskGraph.ClosedSetTraps | src/workspace/task_manager.cpp:347-361 | why an exhausted search may answer no: no path leaves a set closed under edges |
| TaskGraph.OverwriteAcyclicIff | src/workspace/task_manager.cpp:214-245 | giving one id a new dependency list keeps an acyclic graph acyclic if and only if none of the new dependencies already leads to that id |
| TaskGraph.AppendAcyclicIff | src/workspace/task_manager.cpp:229-237 | appending one dependency closes a cycle exactly when that dependency already leads back |
| TaskGraph.TotalWithout | src/workspace/task_manager.cpp:352-359 | expanding one id uses up exactly its own dependency list of the total: the reason for the bound on rounds |
| TaskManager.StepKeepsWellFormedIff | src/workspace/task_manager.cpp:106-279 | each operation keeps the map acyclic, free of repeated dependencies and keyed by id if and only if it is safe; all but restore and update always are |
| TaskManager.EveryRunIsWellFormed | src/workspace/task_manager.cpp:106-279 | from the empty manager no sequence of create, delete, assign, set_status, add/remove dependency and add_tag creates a cycle or a repeated dependency |
| TaskManager.SafeRunStaysWellFormed | src/workspace/task_manager.cpp:125-156 | runs that also restore or update keep the invariant as long as each such step is safe |
| TaskManager.AddDependencyIsExact | src/workspace/task_manager.cpp:214-245 | false exactly when an id is missing or the new edge would close a cycle, and then nothing changes; true means the edge is there and every other edge is as before |
| TaskManager.RemoveDependencyIsExact | src/workspace/task_manager.cpp:247-266 | false exactly when the task is missing; otherwise that one edge is gone and every other edge is as before, the other dependencies keep their order, and nothing else changes but the update time, and that only with the list |
| TaskManager.RemoveUndoesAdd | src/workspace/task_manager.cpp:214-266 | removing a dependency that was just added gives back the old graph |
| TaskHistory.TaskTellsItsStory | src/workspace/task_manager.cpp:106-279 | after any run, restores and wholesale updates included, a task is stored exactly when it was installed and not deleted since; its assignee, status, completion time, tags in order and update time are those of the latest effective operation of the kind, and its other fields but the dependencies are as installed |
| TaskManager.UpdateCanCloseCycle | src/workspace/task_manager.cpp:141-156 | a concrete update that closes a cycle |
| TaskManager.Manager.CreateTask | src/workspace/task_manager.cpp:106-123 | the new map is the specified step; it starts pending, unassigned and without dependencies |
| TaskManager.Manager.RestoreTask | src/workspace/task_manager.cpp:125-132 | the new map is the specified step |
| TaskManager.Manager.UpdateTask | src/workspace/task_manager.cpp:141-156 | the new map and the answer are the specified step |
| TaskManager.Manager.DeleteTask | src/workspace/task_manager.cpp:158-172 | the new map and the answer are the specified step; ids that depended on it keep the dangling id |
| TaskManager.Manager.AssignTask | src/workspace/task_manager.cpp:174-190 | the new map and the answer are the specified step |
| TaskManager.Manager.UpdateStatus | src/workspace/task_manager.cpp:192-212 | the new map and the answer are the specified step; completion is stamped only on completed |
| TaskManager.Manager.AddDependencyEdge | src/workspace/task_manager.cpp:214-245 | with the search as its guard, the new map and the answer are those of the step stated by reachability |
| TaskManager.Manager.RemoveDependencyEdge | src/workspace/task_manager.cpp:247-266 | the new map and the answer are the specified step, which `RemoveDependencyIsExact` pins |
| TaskManager.Manager.AddTaskTag | src/workspace/task_manager.cpp:268-279 | the new map and the answer are the specified step |
| TaskManager.Manager.GetReadyTasks | src/workspace/task_manager.cpp:303-321 | returns each pending task whose dependencies are all stored and completed exactly once, and no other, in any order |
| TaskProgress.SomethingIsReady | src/workspace/task_manager.cpp:303-321 | if the graph is acyclic, nothing is missing and everything is pending or completed, something is ready while anything is pending |
| TaskProgress.CompleteIsSetStatus | src/workspace/task_manager.cpp:192-212 | completing in a drain is set_status with the completed status |
| TaskProgress.DrainFinishes | src/workspace/task_manager.cpp:192-212 | however ready tasks are chosen, completing them one by one is stuck exactly after as many rounds as there were pending tasks, which is exactly when everything is completed |
| TaskProgress.DrainExtends | src/workspace/task_manager.cpp:303-321 | an unfinished drain always has a next round |
| TaskProgress.DrainNeverRepeats | src/workspace/task_manager.cpp:192-212 | on any map no task is completed twice in a drain |
| TaskProgress.DrainIsTopological | src/workspace/task_manager.cpp:303-321 | on any map what a drain completes was pending, and every dependency of a task was completed before it |
| TaskProgress.StuckDrainIsExact | src/workspace/task_manager.cpp:303-321 | on any map, with missing ids, cycles and every status: once nothing is ready, the tasks completed are exactly the pending ones that do not wait, directly or not, for a missing or otherwise unfinished task or for a cycle |
| TaskProgress.StuckDrainsAgree | src/workspace/task_manager.cpp:303-321 | so on any map all stuck drains have completed the same tasks in equally many rounds, however ready tasks were chosen |
| TaskProgress.DrainCanEnd | src/workspace/task_manager.cpp:303-321 | on any map every drain can be continued until nothing is ready |
| TaskSnapshot.TaskRoundTrip | src/workspace/task_manager.cpp:47-104 | from_json undoes to_json for every task, optional times included, up to whole milliseconds, and never throws on its output |
| TaskSnapshot.ReadableIff | src/workspace/task_manager.cpp:75-104 | from_json throws exactly on what is not an object or has one of eleven fields of the wrong type |
| TaskSnapshot.MissingTakesDefault | src/workspace/task_manager.cpp:75-104 | each missing field takes its default, deadline and completion time are ignored unless numbers, and every named status and priority but the default comes from exactly its own name |
| TaskSnapshot.TimesAreSavedInMillis | src/workspace/task_manager.cpp:59-62 | times are saved as whole milliseconds |
| TaskSnapshot.LoadAll | src/mcp/server.cpp:199-208 | the restore loop: the loaded map is that of the elements before the first one that throws |
| TaskSnapshot.RestoreKeepsWhatItRead | src/mcp/server.cpp:199-226 | restoring ends at the first unreadable element and keeps what came before: each id has the last of those elements that names it, other ids are as they were |
| TaskSnapshot.SnapshotRoundTripIff | src/mcp/server.cpp:229-236 | in whatever order the map is listed and restored, the empty manager ends with the same map up to whole milliseconds if and only if every task was stored under its own id |
| TaskSnapshot.RestartKeepsTheGraph | src/mcp/server.cpp:199-208 | a restart keeps the edges, well-formedness and the ready set, and a second restart loses nothing more |
| RateLimiter.StaleIffWindowPassed | src/http/handler.cpp:35-37 | comparing truncated seconds evicts exactly what is 60 s old or older |
| Arithmetic.TruncDivDropsTheFraction | src/http/handler.cpp:36 | duration_cast to seconds or milliseconds drops the fraction, on both sides of zero |
| RateLimiter.DropStaleKeepsTheFresh | src/http/handler.cpp:34-39 | on a queue in time order, evicting from the front keeps exactly the entries younger than 60 s |
| RateLimiter.Limiter.Allow | src/http/handler.cpp:27-47 | the decision and the new queues, for any clock readings; other keys are untouched |
| RateLimiter.QueueHistory | src/http/handler.cpp:32-45 | after any requests the queue is the part of the admission history younger than a window, and holds at most the limit |
| RateLimiter.QueueIsExactlyRecent | src/http/handler.cpp:32-46 | right after a request, admitted or refused, the queue holds exactly the admissions younger than 60 s |
| RateLimiter.NoLimitAdmitsAll | src/http/handler.cpp:27-28 | without a positive limit every request is admitted and nothing is remembered |
| RateLimiter.AllowsIffFewerThanLimit | include/mcp_collab/transport_http.hpp:46-51 | admitted if and only if fewer than the limit of all earlier admissions are younger than 60 s |
| RateLimiter.WindowBound | include/mcp_collab/transport_http.hpp:46-51 | no half-open 60-second interval, wherever it lies in the run, holds more admissions than the limit |
| RateLimiter.CappedIffSpaced | include/mcp_collab/transport_http.hpp:46-51 | keeping the cap in every window is the same as m-apart admissions being a window apart |
| RateLimiter.GreedyIsOptimal | src/http/handler.cpp:27-47 | after any n requests the limiter has admitted at least as many of them as any other selection that keeps the cap, its k-th admission no later than the k-th of that selection |
| RateLimiter.KeysAreIndependent | src/http/handler.cpp:32-45 | each key's queue is the one its own requests alone would leave |
| RateLimiter.TimesOfSorted | src/http/handler.cpp:30-31 | under a clock that never goes back each key's requests are in time order |
| SseQueue.ClientStream.CallSink | src/http/handler.cpp:299-300 | first step of the sink: false exactly when disconnected, else the push is under way |
| SseQueue.ClientStream.PushSink | src/http/handler.cpp:301-314 | second step of the sink: drop the oldest if full, then append |
| SseQueue.ClientStream.Check | src/http/handler.cpp:325 | the loop test of the consumer |
| SseQueue.ClientStream.TakeMessage | src/http/handler.cpp:326-337 | the locked part of the consumer loop |
| SseQueue.ClientStream.Write | src/http/handler.cpp:338-340 | the new state is the specified step: a successful write delivers, a failed one ends the consumer |
| SseQueue.ClientStream.Release | src/http/handler.cpp:344-348 | the connection is marked disconnected |
| SseQueue.ClientSeesNewestInOrder | src/http/handler.cpp:299-343 | under any interleaving the queue holds at most 1024 entries and is exactly the newest part of what was accepted; written, in-flight and queued messages form an order-preserving subsequence of it; accepted = written + in flight + dropped + queued |
| SseQueue.NoDropsIffSmallBacklog | src/http/handler.cpp:303-311 | nothing is ever dropped if and only if at no point more than 1024 accepted messages were waiting |
| SseQueue.DeliveredAreWritten | src/http/handler.cpp:338-340 | in every run exactly the successful writes deliver, and the flag is up exactly when the connection was released |
| SseQueue.StoppedOnlyIf | src/http/handler.cpp:325-342 | a consumer has stopped with a message lost if and only if a write failed, and otherwise only after a disconnect |
| SseQueue.TurnsDeliverTheQueue | src/http/handler.cpp:325-341 | progress: from any reachable connected state at the loop test, as many turns of test, take and successful write as messages are queued deliver exactly those in order and leave the queue empty |
| SseQueue.DisconnectedStopsDelivery | src/http/handler.cpp:325-332 | over the rest of any run, a consumer delivers after a disconnect at most the one message it was already past the test for |
| SseQueue.DisconnectedConsumerEnds | src/http/handler.cpp:325-332 | after a disconnect the consumer stops on its own steps: at the test, at an empty queue, or after the one message it holds or takes |
| SseQueue.FrameCarriesItsNotification | src/http/handler.cpp:67 | every frame is one message event, and different notifications give different frames |
| SseQueue.DisconnectedStopsIntake | src/http/handler.cpp:299-315 | whatever happens after a disconnect, for the rest of the run what is accepted stays as it was, or grows by exactly the one push that was already under way |
| SseQueue.BroadcastsLeaveTheNewest | src/http/handler.cpp:303-311 | a client that takes nothing is left with the newest 1024 messages |
| SseBroadcast.SseStream.AddClient | src/http/handler.cpp:49-54 | the new state is the specified step: a client joins with an empty queue, and no other client changes |
| SseBroadcast.SseStream.RemoveClient | src/http/handler.cpp:56-59 | the new state is the specified step |
| SseBroadcast.SseStream.OfferTo | src/http/handler.cpp:71-73 | the new state is the specified step: a client whose sink says no is erased |
| SseBroadcast.SseStream.PutCurrent | src/http/handler.cpp:299-315 | the new state is the specified step: the locked part of the sink |
| SseBroadcast.SseStream.Broadcast | src/http/handler.cpp:61-77 | the loop with nothing in between: every registered client is offered the message once, and exactly the disconnected ones are forgotten, in any order of iteration |
| SseBroadcast.BroadcastReachesEveryClient | src/http/handler.cpp:61-77 | while consumers take, write and disconnect between any two steps of the loop: every registered client is reached, it is kept if and only if its flag was down at that moment, a kept client has accepted exactly this one message more and every other client nothing |
| SseBroadcast.ClientsRunOnTheirOwn | src/http/handler.cpp:61-77 | in every interleaving of broadcasts and connections each client's state is what its own events make of it, so the theorems on one queue hold of every client |
| SseBroadcast.RegisteredIffJoined | src/http/handler.cpp:49-77 | in every interleaving the registered clients are exactly those that joined and have neither left nor been found disconnected by a broadcast since |
| SseBroadcast.DisconnectWhileBroadcasting | src/http/handler.cpp:69-76 | the race is real: a client that disconnects after a broadcast began but before the loop reaches it is forgotten and accepts nothing |
| MergeCoordinator.Coordinator.RequestMerge | src/git/merge_coordinator.cpp:40-61 | the new state is the specified step |
| MergeCoordinator.Coordinator.ApproveMerge | src/git/merge_coordinator.cpp:63-77 | the new state is the specified step; true exactly when the request was pending |
| MergeCoordinator.Coordinator.RejectMerge | src/git/merge_coordinator.cpp:79-95 | the new state is the specified step; true exactly when the request was pending |
| MergeCoordinator.Coordinator.BeginExecute | src/git/merge_coordinator.cpp:97-105 | the check under the lock: true exactly when the request is approved, and then it is copied |
| MergeCoordinator.Coordinator.PerformMerge | src/git/merge_coordinator.cpp:107 | the merge of the copied request, outside the lock |
| MergeCoordinator.Coordinator.FinishExecute | src/git/merge_coordinator.cpp:109-126 | the write-back under the lock |
| MergeCoordinator.InFlightIsDecided | src/git/merge_coordinator.cpp:97-116 | an execution in flight is of a request that is still there, approved, completed or failed, and unchanged since the copy but for status and result |
| MergeCoordinator.RequestsOnlyMoveForward | src/git/merge_coordinator.cpp:63-127 | rejected is final, nothing returns to pending, the review field is frozen by the decision, and the description never changes |
| MergeCoordinator.PerformedWasApproved | src/git/merge_coordinator.cpp:97-107 | every merge that ran was approved earlier, by whom the request still names, and its request was never rejected |
| MergeCoordinator.RequestsAreAccounted | src/git/merge_coordinator.cpp:40-127 | after any run a stored request carries the branches, requester and strategy of the request event with its id, the reviewer and reason of the event that decided it while it was pending, and the outcome and text of a merge of it that had run |
| MergeCoordinator.InFlightIsAsRequested | src/git/merge_coordinator.cpp:97-107 | what an execution in flight merges is the very request that was made, approved by the reviewer it names |
| MergeCoordinator.BegunOnceIffNoOverlap | src/git/merge_coordinator.cpp:97-127 | a request is begun at most once if and only if its executions never overlap; then it is performed and written back at most once |
| MergeCoordinator.OutcomeIsFinalIff | src/git/merge_coordinator.cpp:97-127 | after any run, a written outcome keeps its status in every continuation if and only if every execution of the request in flight has already run with that outcome; then the whole request stays |
| MergeCoordinator.OutcomeIsFinal | src/git/merge_coordinator.cpp:113-116 | in particular, without overlap the first written outcome is final |
| MergeCoordinator.SettledStays | src/git/merge_coordinator.cpp:97-127 | a written outcome with nothing in flight never changes |
| MergeCoordinator.OverlapLosesTheOutcome | src/git/merge_coordinator.cpp:105-116 | from any state with an approved request and two free threads, two overlapping executions both merge and a completed request ends as failed |
| MergeCoordinator.OverlapIsReachable | src/git/merge_coordinator.cpp:40-77 | such a state is reached |
| ArgTokenizer.TokenizeArgs | src/git/operations.cpp:215-242 | the loop equals a recursive three-state automaton |
| ArgTokenizer.TokensKeepTheText | src/git/operations.cpp:215-242 | on any input no token is empty, and the tokens put together are exactly the characters that are neither quote delimiters nor unquoted blanks |
| ArgTokenizer.LineTokens | src/git/operations.cpp:213-242 | however arguments are written, bare or quoted in pieces, with any blanks between, the tokens are exactly the non-empty arguments |
| ArgTokenizer.RoundTripIff | src/git/operations.cpp:215-242 | quoting every character with the other quote and joining by spaces is undone exactly, over any characters, if and only if no argument is empty |
| TopicMatching.SplitByFind | src/mqtt/secure_mqtt.cpp:14-23 | the loop yields the levels of the string |
| TopicMatching.SplitByGetline | src/mqtt/client.cpp:241-247 | the loop yields what getline yields |
| TopicMatching.JoinLevels | src/mqtt/secure_mqtt.cpp:14-23 | joining the levels gives the string back, and no level holds a slash |
| TopicMatching.LevelsJoin | src/mqtt/secure_mqtt.cpp:14-23 | any slash-free levels are what their join splits into |
| TopicMatching.LinesAreLevelsOfChop | src/mqtt/client.cpp:241-247 | the getline split loses exactly one trailing slash |
| TopicMatching.TopicMatches | src/mqtt/secure_mqtt.cpp:11-40 | the two-index loop equals the level-by-level match, and the answer is no without a `+` |
| TopicMatching.MqttMatch | src/mqtt/client.cpp:237-267 | the two-index loop, shortcut included, equals the level-by-level match |
| TopicMatching.ShortcutAgrees | src/mqtt/client.cpp:238 | the shortcut never changes the answer of the slow path |
| TopicMatching.MatchIsAcceptsUpToHash | src/mqtt/secure_mqtt.cpp:28-39 | on all levels the comparison loop decides section 4.7.1 of MQTT 3.1.1 for the filter cut after its first `#` |
| TopicMatching.MatchesSection471 | src/mqtt/secure_mqtt.cpp:11-40 | for valid filters topic_matches answers yes exactly when the filter has a `+` and section 4.7.1 holds; on topics without a leading `$` that is all of section 4.7 |
| TopicMatching.FollowsSection47Iff | src/mqtt/secure_mqtt.cpp:11-40 | for a valid filter topic_matches is section 4.7.1 on every topic name if and only if the filter has a `+`, and all of section 4.7 if and only if moreover it does not start with `+` |
| TopicMatching.CallbackIsSection471Iff | src/mqtt/secure_mqtt.cpp:318-322 | for a valid filter the test for one verified callback (equality, `#`, the `/#` prefix, topic_matches) is section 4.7.1 on every topic name if and only if the filter has a `+` or does not end in `/#` |
| TopicMatching.MatchersAgreeUpToTrailingSlash | src/mqtt/client.cpp:241-266 | for every non-empty filter and topic, mqtt_match answers what the comparison of topic_matches answers without one trailing slash on each side; for filters with a `+` that is the answer of topic_matches |
| TopicMatching.MqttMatchIsAccepts | src/mqtt/client.cpp:241-266 | so mqtt_match is section 4.7.1 on both sides without one trailing slash, for the filter cut after its first `#` |
| TopicMatching.ComparisonsAgreeIff | src/mqtt/client.cpp:241-266 | the comparison loops of the two matchers, after their two splits, give the same answer on all non-empty topics if and only if the split does not matter to the filter |
| TopicMatching.MatchersAgreeIff | src/mqtt/secure_mqtt.cpp:11-40 | the exact filters on which topic_matches and mqtt_match agree: on all non-empty topics if and only if the filter has a `+` and the split does not matter to it, and for valid filters topic names alone decide it |
| TopicMatching.MqttMatchIsSection471Iff | src/mqtt/client.cpp:237-267 | a valid filter gets section 4.7.1 from mqtt_match on every topic name if and only if the split does not matter to it |
| TopicMatching.AgreeOnEmptyTopicIff | src/mqtt/client.cpp:241-247 | on the empty topic topic_matches and mqtt_match agree if and only if the filter has a `+` and does not begin with a `+` or empty level that stands alone or before a `#`, or has no `+` and does not begin with a `#` level |
| TopicMatching.MatchersAgree | src/mqtt/client.cpp:241-266 | where neither side ends in a slash, topic_matches says yes exactly when the filter has a `+` and mqtt_match says yes |
| TopicMatching.MatchersDiffer | src/mqtt/client.cpp:241-247 | four concrete inputs on which they differ |
| ContextStore.UnmentionedIsKept | src/workspace/context_store.cpp:90-91 | whatever the patch does not mention, at any depth, is as it was (section 2 of RFC 7396) |
| ContextStore.GivenIsWritten | src/workspace/context_store.cpp:121-122 | whatever the patch gives, at any depth: a null removes the member, an object makes it an object, and any other value is there exactly (section 2 of RFC 7396) |
| ContextStore.BelowGivenIsGone | src/workspace/context_store.cpp:121-122 | below a member given a value that is not an object nothing of the target is left; with the two rows above every path of the result is settled |
| ContextStore.MergePatchIsExact | src/workspace/context_store.cpp:90-94 | a value is the result of a merge patch if and only if it is right at every path: as before where the patch says nothing, absent, an object or the given value where it does, and the patch itself when that is no object (section 2 of RFC 7396) |
| ContextStore.WriteIsExact | src/workspace/context_store.cpp:28-140 | set, update_partial and merge fail, changing nothing, exactly for a missing key or an object patch on another value in update_partial; otherwise the key holds the right value, writer, time and next version, stated by paths, items or verbatim, and no other key changes |
| ContextStore.MergePatchIdempotent | src/workspace/context_store.cpp:121-122 | merging the same patch again changes nothing, for any target and any patch |
| ContextStore.ObjectWritesAreIdempotent | src/workspace/context_store.cpp:79-140 | an object given twice to merge or update_partial on a stored object leaves the same value as once |
| ContextStore.MergeFromMissingTwiceIff | src/workspace/context_store.cpp:111-119 | on a missing key the data is stored verbatim, and merging it again changes nothing if and only if it has no null member and no array items |
| ContextStore.ArrayMergeAppends | src/workspace/context_store.cpp:123-127 | array data is appended, so lengths add up |
| ContextStore.VersionCountsWrites | src/workspace/context_store.cpp:28-140 | in every run a key's version is the number of successful writes since it was last created, and the key exists exactly when there was one |
| ContextStore.ContextStore.SetValue | src/workspace/context_store.cpp:28-52 | the new store is the specified step |
| ContextStore.ContextStore.Delete | src/workspace/context_store.cpp:61-72 | the new store and the answer are the specified step |
| ContextStore.ContextStore.Patch | src/workspace/context_store.cpp:79-103 | the new store and the answer are the specified step, which `WriteIsExact` pins; an object patch on a value that is not an object is refused |
| ContextStore.ContextStore.Merge | src/workspace/context_store.cpp:105-140 | the new store is the specified step, which `WriteIsExact` pins |
| ContextStore.ContextStore.RemoveAll | src/workspace/context_store.cpp:166-169 | the store is emptied |
| EventBus.Bus.TakeSnapshot | src/workspace/event_bus.cpp:60-70 | the new state is the specified step: the handlers of the type and then the wildcard handlers are copied |
| EventBus.Bus.CallHandler | src/workspace/event_bus.cpp:72-83 | the new state is the specified step: the next handler of the snapshot is called |
| EventBus.Bus.AppendToLog | src/workspace/event_bus.cpp:85-91 | the new state is the specified step: the event is logged and the log cut to its last 10000 |
| EventBus.Bus.Emit | src/workspace/event_bus.cpp:46-92 | with nothing in between: the handlers of the type and then the wildcard handlers are called in subscription order, and the event is logged |
| EventBus.EmitCallsItsSubscribers | src/workspace/event_bus.cpp:60-83 | whatever subscribes, unsubscribes or emits meanwhile, handlers included: when an emit is about to be logged it has called exactly those subscribed to its type when that very emit began, in the order of their subscriptions, and then those subscribed to `*`, in theirs |
| EventBus.EmitIsLoggedOnce | src/workspace/event_bus.cpp:85-91 | logging adds the very event the emit was begun with, once, and nothing else adds to the history |
| EventBus.LogIsTheEndOfHistory | src/workspace/event_bus.cpp:85-91 | however emits interleave and nest, the log is the last min(n, 10000) of the n events logged so far, in order |
| EventBus.Bus.RecentEvents | src/workspace/event_bus.cpp:94-98 | the last min(count, size) entries |
| EventBus.Bus.QueryEvents | src/workspace/event_bus.cpp:100-107 | the first `limit` entries of the reversed log filtered by type |
| EventBus.OfTypeSelects | src/workspace/event_bus.cpp:103-105 | filtering by type keeps each event of the type once and in order, and no other |
| EventBus.RecentSeesTheFullHistory | src/workspace/event_bus.cpp:85-98 | reading recent events of the bounded log is reading the full history if and only if no more than 10000 are asked for or no more were logged |
| EventBus.QuerySeesTheFullHistory | src/workspace/event_bus.cpp:85-107 | a query on the bounded log gives what it would give on the full history if and only if the log holds as many events of the type as asked for, or none of the type has fallen out |
| EventBus.Bus.Subscribe | src/workspace/event_bus.cpp:31-36 | the new state is the specified step: a new id at the end of its type's list |
| EventBus.Bus.Unsubscribe | src/workspace/event_bus.cpp:38-44 | the new state is the specified step: the id is removed from every list, and nothing else |
| EventBus.ListedIffSubscribed | src/workspace/event_bus.cpp:31-44 | after any run a handler is listed under a type if and only if it was subscribed to it and not unsubscribed since |
| EventBus.IdsCountSubscriptions | src/workspace/event_bus.cpp:31-36 | subscription ids are handed out from 1 on, one for each subscription |
| EventBus.CalledOnceIff | src/workspace/event_bus.cpp:60-83 | every event calls each of its handlers once, unless its type is `*` and a wildcard handler exists |
| CursorPagination.EffectiveLimit | src/mcp/protocol.cpp:270-274 | a requested limit from 1 to 1000 is in force as it is, a greater one means 1000, and none or a non-positive one 100 |
| CursorPagination.PageHolds | src/mcp/protocol.cpp:268-301 | a page is what is visible from the cursor on, never more than a positive requested limit, and exactly the limit in force while there is so much left; the next cursor is where it ends, unless that is the size of the registry |
| CursorPagination.ListPage | src/mcp/protocol.cpp:268-301 | the loop yields a slice of what the role sees and a next cursor unless the slice ends at the size of the unfiltered registry; the same loop serves resources (340-373) and prompts (405-438) |
| CursorPagination.PagesAreExact | src/mcp/protocol.cpp:340-373 | the pages up to the first short one hold exactly what the role sees, once and in order, for any limit |
| CursorPagination.PromptPagesAreExact | src/mcp/protocol.cpp:405-438 | following the cursor yields each prompt exactly once in max(1, ceil(n / limit)) pages |
| CursorPagination.FollowingStopsIff | src/mcp/protocol.cpp:296-299 | following the cursor until it is absent stops if and only if the role sees every entry |
| AuthTokens.LastDot | src/util/auth.cpp:141-142 | the last dot, or none exactly when there is none |
| AuthTokens.LastDotSplits | src/util/auth.cpp:141-145 | the last dot separates payload and signature for any payload, dots included, because a signature has none |
| AuthTokens.StringDeterminesId | src/util/auth.cpp:119-127 | two issued tokens with the same string have the same id |
| AuthTokens.StringDeterminesFields | src/util/auth.cpp:119-127 | as long as names hold no colon, the string tells the id, agent, role, swarm and the expiry to the millisecond |
| AuthTokens.ForgedNeverValidates | src/util/auth.cpp:140-149 | whatever the provider holds, a string without a dot or with a wrong signature does not validate |
| AuthTokens.IssuedIsGenuine | src/util/auth.cpp:108-138 | an issued token carries its own fields in its signed string and passes the signature check |
| AuthTokens.AuthProvider.IssueToken | src/util/auth.cpp:108-138 | the token made, and the state with it stored under its string |
| AuthTokens.AuthProvider.ValidateToken | src/util/auth.cpp:140-168 | the answer is that of the specification: signature, then store, then revocation, then expiry |
| AuthTokens.AuthProvider.RevokeToken | src/util/auth.cpp:170-184 | the id is revoked and exactly its tokens are dropped |
| AuthTokens.AuthProvider.RefreshToken | src/util/auth.cpp:213-221 | the three calls with nothing in between: nothing happens unless the string validates; else its token is revoked and one with the same agent, role and swarm is issued |
| AuthTokens.ValidatesIff | src/util/auth.cpp:108-184 | after any run a string validates as a token if and only if it was issued as that token, the token's id was never revoked and it has not expired |
| AuthTokens.StoredIffHeld | src/util/auth.cpp:130-182 | the store holds exactly the tokens issued and not revoked afterwards |
| AuthTokens.RefreshIsExact | src/util/auth.cpp:213-221 | after any proper run: the answer is none, with nothing changed, exactly when the string does not validate; otherwise it is a new token with the fresh id and the old agent, role and swarm, which validates as itself until it expires, while the old string validates no more |
| AuthTokens.RefreshReplaces | src/util/auth.cpp:213-221 | whatever comes between its steps and after, a refresh kills the old string for good, and the new token, with the agent, role and swarm of the old one, is valid until it expires or is revoked |
| TokenRefresh.RefreshedOnceIffNoOverlap | src/util/auth.cpp:213-221 | in every interleaving of the steps of refreshes with each other and with other operations, the check passes at most once for a token if and only if no two refreshes of it are under way at once; then at most one replacement is issued |
| TokenRefresh.OverlapIssuesTwo | src/util/auth.cpp:213-221 | from any state in which the string validates, two overlapping refreshes both issue a token, and both are valid until they expire |
| TokenRefresh.OverlapIsReachable | src/util/auth.cpp:108-138 | such a state is reached by issuing a token |
| TokenRefresh.AloneIsRefreshToken | src/util/auth.cpp:213-221 | the three steps with nothing in between are the whole call: the same state, and the answer is the token the last step issued |

## Left out

- Callbacks and notifications (`notify`, `on_change`, logging): they run outside the locks and change no modelled state.
- Reading single entries and filtered lists (`get_task`, `list_tasks` filters, `has_dependency`, `list_by_branch`, `snapshot`): lookups that add only easy members.
- 32-bit and 64-bit overflow of versions, subscription ids and millisecond counts: numbers are unbounded.
- The JSON library itself: values are an algebraic type, a field of the wrong type gives an error result, numbers are reals, and text parsing and printing are not part of this model.
- The HMAC computation: any function from payloads to signatures without dots stands for it; a hash that fails at one call and works at another is not modelled.
- `perform_merge` and `mark_merged`: running git is an outcome, true or false, of one step.
- SseBroadcast.SseStream.Broadcast: the loop with nothing in between, on sinks held as values rather than shared objects; what can happen between its steps is the subject of `BroadcastReachesEveryClient` and `ClientsRunOnTheirOwn`.
- The greeting written before the consumer loop, and the timing of its 100 ms wait: a wait may end at any time.
- EventBus.Bus.Emit: the emit with nothing in between; nested and concurrent emits are runs of its three parts (`EmitCallsItsSubscribers`, `LogIsTheEndOfHistory`). Handlers are the ids called, and what they do otherwise is not modelled.
- AuthTokens.AuthProvider.RefreshToken: the call with nothing in between; what can come between its three calls is the subject of `TokenRefresh` and `RefreshReplaces`.
- CursorPagination.ListPage: the registry is fixed during a run of requests, as registration happens at start-up; cursors and limits that are not numbers count as absent.
- Choosing among several matching verified callbacks, which depends on hash-map order, and the checks of a message before it is dispatched.
- Access-control tables, role bitmasks, the agent registry, branches, configuration, persistence files, TLS and the transports: table lookups, field writes or I/O.
- `AuthToken` scopes: issued tokens carry none.
