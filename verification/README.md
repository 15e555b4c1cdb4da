# Verified models of the gRPC client and its xDS control plane

These modules model the behaviour-rich parts of a gRPC client and its xDS
control-plane client and prove what they promise. Code that changes state step by
step is modelled by classes and loops, each proved against a specification on
values; the properties over runs are proved about the specifications.

- `RetryState.dfy`, `RetryingCall.dfy`: client retries and hedging (gRFC A6). One
  call fans writes out to several attempts, replays an index-offset buffer, commits
  to one attempt and accounts bytes at a tracker shared by the channel's calls.
- `XdsClient.dfy`: the watcher table of the xDS client and its mirror in the
  subscription maps of streams that come and go. `LoadReports.dfy`: the counters
  that load reports drain.
- `ClusterTree.dfy`: the aggregate-cluster graph, cycles included.
- `MessageFraming.dfy`: length-prefixed messages and the incremental decoder.
- `PickFirst.dfy`, `ChildHandler.dfy`, `Priority.dfy`, `PriorityNames.dfy`,
  `RingHash.dfy`, `OutlierDetection.dfy`: load-balancing policies.
- `XdsResolver.dfy`: virtual host selection and cluster reference counts.

Time, random draws, connectivity states of foreign objects, hash and compression
functions are parameters, so every property holds for all of them. Every callback is
one atomic step, and callbacks do not re-enter their owner within a step. Numbers
that the source keeps as floating point (weights, rates, percentages) are exact
reals; counters are unbounded integers.

## What the proofs found

Each of these is stated by a member of the table, with the exact condition or a
concrete run.

- A final status never commits a retrying call (`StatusNeverCommits`), so after an OK
  status other hedged attempts go on.
- After a status was reported, the write buffer can skip a write
  (`ReplayGapAfterReport`); up to then it cannot (`ReplaySafety`). Exactly when the order
  is kept: `OrderKeptIff`, `OrderKeptOverRuns`, `FirstReportTrims`.
- A write over the buffer limit between two attempts never has its callback called
  (`ForgottenWrite`; exactly when: `CallbackDecided`).
- A discovery stream that ends late makes the client lose sight of its current one
  (`HandleAdsStreamEnd`, `LateEndLosesStream`).
- Unsubscribing from the last resource of a type tells the server nothing
  (`LastOfTypeIsSilent`).
- The cluster that a load reporting server lists first is never reported by name
  (`FirstClusterIsNotSelected`), and localities are never deleted (`ReleasedKeeps`).
  The timer of a load reporting stream outlives the stream, and what it drains is lost
  (`StatsTimerFired`, `EndedStreamDrains`).
- A commit that removes a cluster can put an older route configuration back over a
  newer one (`Committed`, `OvertakenConfiguration`). A call that selected by an older
  config selector can give up a reference it never took (`StrayCommitted`), and so take
  the cluster of another call away (`StrayCommitRemovesCluster`).
- A list of two addresses is never shuffled (`Shuffled`).
- pick_first can report CONNECTING without listening to any child
  (`StuckConnecting`; exactly when: `ConnectToAddressList`, `OnSubchannelStateUpdate`).
  A destroyed one can still ask for re-resolution and report IDLE (`DelayTimerFired`,
  `DestroyedPolicyReports`).
- A ring cut short by its maximum size can lack endpoints
  (`CappedRingMayMissEndpoints`, exactly which: `LeafOnRingIffWhole`), and then a picker
  can fail although READY was reported (`CappedPickerCanFail`, exactly when:
  `RingServesIff`). One weight of zero empties the ring (`ConstructRing`).
- A destroyed priority policy comes back to life when a timer fires, exactly if a listed
  priority is configured (`FailoverTimerFired`, `DestroyedPolicyRevives`), and a stale
  deactivation timer can then drop a child undestroyed (`DeactivationTimerFired`,
  `StaleTimerDropsChild`).
- A subchannel for an address without an outlier detection entry starts unhealthy and
  stays so (`CreateSubchannel`). Entries that are ejected already are ejected again
  (`PassEjectsOutliers`), with the clock read anew, not with the timestamp passed in. An
  ejection can end in the run that made it (`EjectionOutlastsRun`). With a request volume
  of zero an idle endpoint switches the success rate check off (`IdleEntryDisarms`).
- A child policy that reports from its constructor takes down the current child
  (`ChildLoadBalancerHandler.UpdateState`).
- The comment at packages/grpc-js/src/load-balancer-pick-first.ts:134 names RFC 8304;
  the rule is that of RFC 8305.

## Model

| member | source | states |
|---|---|---|
| `RetryState.ReplaySafety` | packages/grpc-js/src/retrying-call.ts:277-313 | Over every run up to the first reported status, each child attempt was sent a gap-free, in-order prefix of what the application wrote, has at most one message in flight, is not stalled, and, while active, finds everything it still needs in the buffer. |
| `RetryState.CommitOnce` | packages/grpc-js/src/retrying-call.ts:315-368 | Over every continuation of every run: a committed index never changes, no attempt is added after it, only that child ever delivered to the listener, attempts stay within min(maxAttempts, 5), and the children are the attempts plus the NOT_STARTED retries plus at most one REFUSED retry. |
| `RetryState.RunKeeps` | packages/grpc-js/src/retrying-call.ts:612-684 | Every event sequence keeps the whole invariant of the call (buffer, attempts, timers, commitment). |
| `RetryState.StepKeeps` | packages/grpc-js/src/retrying-call.ts:519-570 | Each single event, in any enabled order, keeps that invariant and only ever moves the call forward (states, sent prefixes, commitment). |
| `RetryState.AttemptsFrozen` | packages/grpc-js/src/retrying-call.ts:612-619 | After a commitment no run changes the number of attempts. |
| `RetryState.StatusNeverCommits` | packages/grpc-js/src/retrying-call.ts:536-539 | A child's final status never commits the call, although commitCall is called for it: the child is COMPLETED by then. The other attempts and the hedging timer stay as they were. |
| `RetryState.StatusMeansOutcome` | packages/grpc-js/src/retrying-call.ts:441-570 | A final status ends its child and has exactly one of three outcomes: a transparent retry if the server never processed the call, a timer of the policy's kind if the policy allows a retry, a report otherwise; stated by what may be retried, not by the branches of the code. |
| `RetryState.ReportIsFinal` | packages/grpc-js/src/retrying-call.ts:441-570 | Where retries are sequential, or once committed, a status is reported only when no child is live; in RETRY mode no retry is pending either. |
| `RetryState.ClearKeepsIndexIff` | packages/grpc-js/src/retrying-call.ts:290-313 | Trimming the buffer keeps every buffered write under its own index if and only if it does not move the offset backwards. |
| `RetryState.OrderKeptIff` | packages/grpc-js/src/retrying-call.ts:239-313 | From a state in which the buffer is indexed and every child was sent an in-order prefix, reported or not, each single event keeps that if and only if it does not trim the buffer for a committed child that is behind it. |
| `RetryState.OrderKeptOverRuns` | packages/grpc-js/src/retrying-call.ts:239-313 | Over every run, reports included, the writes reach every child in order throughout if and only if no event trims back. |
| `RetryState.FirstReportTrims` | packages/grpc-js/src/retrying-call.ts:239-313 | Before a report no event trims back. After the first one an event does if and only if the child it trims for (the one committed to, or the committed one when a write completes) has not completed the sending of every write. |
| `RetryState.LostOrderShows` | packages/grpc-js/src/retrying-call.ts:734-763 | When the call then commits to a child behind the buffer, the next granted write is sent to that child at once, over the writes it misses or with the last of them in flight. |
| `RetryState.CallbacksExact` | packages/grpc-js/src/retrying-call.ts:695-784 | Over every run until a report no write's callback is called twice, and it has been called if and only if it was to be called at once, or was left to the committed child and that has completed the sending of the write. |
| `RetryState.CallbackDecided` | packages/grpc-js/src/retrying-call.ts:734-784 | Which of these it is, is decided when the write is made, before any report: at once if the buffer grants it, with the committed child's send if there is or can be one, and never otherwise. |
| `RetryState.ForgottenWrite` | packages/grpc-js/src/retrying-call.ts:766-771 | A write over the buffer limit that finds no child to commit to: over every continuation, reports included, its callback is never called. |
| `RetryState.CallBackMeans` | packages/grpc-js/src/retrying-call.ts:695-699 | The end of a send calls the callback of that very write, exactly if it was left for the committed child and that is the child. |
| `RetryState.ReplayGapAfterReport` | packages/grpc-js/src/retrying-call.ts:239-268 | After a report the guarantee is gone: a concrete run in which a cancelled call hands its child a write with an earlier one missing. |
| `RetryState.Furthest` | packages/grpc-js/src/retrying-call.ts:346-368 | The child chosen for commitment is an active one with the most messages sent, the first of them; none only if no child is active. |
| `RetryState.ChargedSlice` | packages/grpc-js/src/retrying-call.ts:290-313 | Dropping sent entries from the buffer releases exactly the allocated bytes of the dropped entries. |
| `RetryingCalls.MessageBufferTracker.Allocate` | packages/grpc-js/src/retrying-call.ts:77-88 | Grants an allocation exactly when both limits allow it, and then adds it to the call's account and to the total; other calls' accounts are unchanged and the total stays the sum of the accounts. |
| `RetryingCalls.MessageBufferTracker.Free` | packages/grpc-js/src/retrying-call.ts:90-104 | Throws exactly when the account holds less than is freed; otherwise takes it off the account and the total. |
| `RetryingCalls.MessageBufferTracker.FreeAll` | packages/grpc-js/src/retrying-call.ts:106-116 | Empties one account and takes it off the total. |
| `RetryingCalls.TotalUpdate` | packages/grpc-js/src/retrying-call.ts:71-88 | Changing one account changes the sum over all accounts by the difference. |
| `RetryingCalls.RetryingCall.EventKeepsValid` | packages/grpc-js/src/retrying-call.ts:173-200 | Any method that realises a step of the state machine keeps the call valid together with its account at the shared tracker. |
| `RetryingCalls.RetryingCall.ValidIsReady` | packages/grpc-js/src/retrying-call.ts:173-200 | A valid call meets what every event's helper steps rely on. |
| `RetryingCalls.RetryingCall.StableUnderOthers` | packages/grpc-js/src/retrying-call.ts:71-116 | Steps of other calls on the same tracker leave this call valid. |
| `RetryingCalls.RetryingCall.constructor` | packages/grpc-js/src/retrying-call.ts:201-225 | A new call is valid and in the initial state of its policy. |
| `RetryingCalls.RetryingCall.ReportStatus` | packages/grpc-js/src/retrying-call.ts:239-258 | The report empties the buffer and brings the call's account to zero. |
| `RetryingCalls.RetryingCall.FreeSent` | packages/grpc-js/src/retrying-call.ts:290-313 | Freeing sent entries never throws, for the account covers them. |
| `RetryingCalls.RetryingCall.CommitCall` | packages/grpc-js/src/retrying-call.ts:315-344 | Realises the commitment step: other active children are completed and the buffer is trimmed to what the chosen child needs. |
| `RetryingCalls.RetryingCall.CommitCallWithMostMessages` | packages/grpc-js/src/retrying-call.ts:346-368 | Commits to the furthest active child, or falls back to transparent retries if there is none. |
| `RetryingCalls.RetryingCall.MaybeRetryCall` | packages/grpc-js/src/retrying-call.ts:394-429 | Realises the retry decision: attempt limit, negative pushback, or a backoff timer. |
| `RetryingCalls.RetryingCall.BackoffTimerFired` | packages/grpc-js/src/retrying-call.ts:418-428 | The timer's callback realises its step whether or not the throttle lets the retry through. |
| `RetryingCalls.RetryingCall.HandleProcessedStatus` | packages/grpc-js/src/retrying-call.ts:441-505 | Realises the decision for a processed status in all four states. |
| `RetryingCalls.RetryingCall.HedgeStatusTimerFired` | packages/grpc-js/src/retrying-call.ts:472-479 | After a non-fatal hedged failure, whichever pending timer fires: a further attempt if allowed, and a report if no child is active then. |
| `RetryingCalls.RetryingCall.HandleChildStatus` | packages/grpc-js/src/retrying-call.ts:519-570 | Realises the final-status step, transparent retries included. |
| `RetryingCalls.RetryingCall.MaybeStartHedgingAttempt` | packages/grpc-js/src/retrying-call.ts:572-586 | Realises a hedged attempt within the limit. |
| `RetryingCalls.RetryingCall.StartNewAttempt` | packages/grpc-js/src/retrying-call.ts:612-684 | Adds a child that starts replaying from the first buffered write. |
| `RetryingCalls.RetryingCall.OnReceiveData` | packages/grpc-js/src/retrying-call.ts:642-666 | Metadata or a message commits to its child, and is delivered only if that child is still active. |
| `RetryingCalls.RetryingCall.HandleChildWriteCompleted` | packages/grpc-js/src/retrying-call.ts:695-702 | A completed write calls the callback its entry carries, trims the buffer and hands the child its next write. |
| `RetryingCalls.RetryingCall.SendMessage` | packages/grpc-js/src/retrying-call.ts:734-784 | Buffers the write and, if the tracker grants it, calls its callback and offers it to every child that is waiting for it; otherwise commits the call first and leaves the callback with the entry if there is a committed child; the account stays the sum of the buffered bytes. |
| `RetryingCalls.RetryingCall.AttachCallback` | packages/grpc-js/src/retrying-call.ts:766-772 | The callback is left with the entry of the write just made, and the account stays right. |
| `RetryingCalls.RetryingCall.HalfCloseCall` | packages/grpc-js/src/retrying-call.ts:795-811 | Buffers the half-close and passes it to every child that has sent everything before it. |
| `RetryingCalls.RetryingCall.CancelWithStatus` | packages/grpc-js/src/retrying-call.ts:260-267 | Cancelling reports a status and leaves the children's states to their own callbacks. |
| `XdsSubscriptions.SubscribeAdds` | packages/grpc-js-xds/src/xds-client.ts:418-439 | Subscribing adds exactly one key to a stream's subscriptions. |
| `XdsSubscriptions.UnsubscribeRemoves` | packages/grpc-js-xds/src/xds-client.ts:441-458 | Unsubscribing removes exactly that key. |
| `XdsSubscriptions.UnsubscribePruned` | packages/grpc-js-xds/src/xds-client.ts:441-458 | No empty inner map is left behind. |
| `XdsSubscriptions.SubscribeTells` | packages/grpc-js-xds/src/xds-client.ts:418-439 | After a subscription that sends, the last request for the type lists exactly what is subscribed, with the current nonce and error. |
| `XdsSubscriptions.UnsubscribeTells` | packages/grpc-js-xds/src/xds-client.ts:441-490 | After an unsubscription every type still subscribed is up to date with the server. |
| `XdsSubscriptions.LastOfTypeIsSilent` | packages/grpc-js-xds/src/xds-client.ts:441-490 | Dropping the last resource of a type is never told to the server: the last request matches the subscriptions if and only if the type has another resource. |
| `XdsSubscriptions.AcknowledgeKeeps` | packages/grpc-js-xds/src/xds-client.ts:334-382 | A response for a live type is answered with its nonce and verdict and keeps the subscriptions; one for a dead type changes nothing. |
| `XdsSubscriptions.HasSubscribedMeans` | packages/grpc-js-xds/src/xds-client.ts:407-416 | The test for remaining subscriptions is exact. |
| `XdsClients.XdsClient.WatchResource` | packages/grpc-js-xds/src/xds-client.ts:1192-1242 | A watch throws exactly if another type object was used for the type URL before, the name cannot be parsed, or the authority is unknown; the type is registered under both its URLs first. Otherwise it adds the watcher to its resource and nothing else, takes a reference when the authority is new, and keeps the mirror of the table in the stream. |
| `XdsClients.XdsClient.CancelResourceWatch` | packages/grpc-js-xds/src/xds-client.ts:1244-1266 | A cancel removes exactly that watcher, prunes what becomes empty, gives the authority's reference back, and ends the client's stream exactly if nothing of the client is watched any more; its end is then still to be reported. |
| `XdsClients.XdsClient.NewAdsCall` | packages/grpc-js-xds/src/xds-client.ts:292-306 | A new stream is subscribed to exactly the keys the table holds for its client and has told the server so, one request per type. |
| `XdsClients.XdsClient.HandleAdsStreamEnd` | packages/grpc-js-xds/src/xds-client.ts:906-913 | Whichever stream ends, and however late, the mirror and the reference counts are kept, and a new stream is there at once exactly if the backoff timer does not run and the client is used; and a stream is lost sight of, open beside its replacement, exactly when another than the current one ends while there is a current one. |
| `XdsClients.LateEndLosesStream` | packages/grpc-js-xds/src/xds-client.ts:906-913 | A run (watch, give up, watch again, late end of the first stream) that ends with two open streams, one of them out of sight. |
| `XdsClients.XdsClient.BackoffElapsed` | packages/grpc-js-xds/src/xds-client.ts:828-831 | When the backoff timer fires the stream restarts if it is needed and missing; the invariant is kept although the timer still counts as running during the callback. |
| `XdsClients.XdsClient.HandleResponseMessage` | packages/grpc-js-xds/src/xds-client.ts:320-383 | A response is acknowledged without touching the subscriptions. |
| `XdsClients.WatchKeeps` | packages/grpc-js-xds/src/xds-client.ts:1192-1242 | The invariant of all clients survives a watch. |
| `XdsClients.CancelKeeps` | packages/grpc-js-xds/src/xds-client.ts:1244-1266 | The invariant of all clients survives a cancel. |
| `XdsClients.RemoveWatcherKeys` | packages/grpc-js-xds/src/xds-client.ts:1252-1264 | A cancel removes a key from a client's table exactly when the last watcher of that resource goes. |
| `XdsClients.KeysMeanReferences` | packages/grpc-js-xds/src/xds-client.ts:971-977 | A client that has keys in the table has references. |
| `LoadCounters.DrainLocalities` | packages/grpc-js-xds/src/xds-client.ts:745-764 | Every active locality is reported with its counts and its calls in progress, no other is; the counts are cleared and moved into the report in full. |
| `LoadCounters.Drain` | packages/grpc-js-xds/src/xds-client.ts:745-796 | Everything pending for a cluster moves into its report; no report only if all of it is zero. |
| `LoadReports.SentEntryOk` | packages/grpc-js-xds/src/xds-client.ts:731-800 | Sending a report keeps, for each entry and each counter: recorded equals what all reports since the entry's creation say plus what is pending, with calls in progress equal to started minus finished. |
| `LoadReports.CallRecorded` | packages/grpc-js-xds/src/xds-client.ts:1037-1050 | Recording a started, succeeded or failed call keeps that equation. |
| `LoadReports.DropRecorded` | packages/grpc-js-xds/src/xds-client.ts:989-997 | Recording a drop, with or without a category, keeps it too. |
| `LoadReports.OtherEntry` | packages/grpc-js-xds/src/xds-client.ts:583-666 | Recording on one entry is invisible to every other. |
| `LoadReports.LoadReporter.SendStats` | packages/grpc-js-xds/src/xds-client.ts:731-800 | One report is sent, on the stream whose timer fired; the selected clusters have nothing pending afterwards, the others are unchanged. |
| `LoadReports.LoadReporter.MaybeStartLrsStream` | packages/grpc-js-xds/src/xds-client.ts:940-948 | Opens a stream, which reports at once, exactly if there is none, the client is used and a cluster has an entry. |
| `LoadReports.LoadReporter.HandleResponseMessage` | packages/grpc-js-xds/src/xds-client.ts:689-717 | The settings are taken over and the timer is set exactly if it was not set or the interval changed; throws exactly if there is no interval then, with the old timer stopped and the old settings kept. |
| `LoadReports.LoadReporter.HandleLrsStreamEnd` | packages/grpc-js-xds/src/xds-client.ts:931-938 | The end of a stream leaves its timer as it was. |
| `LoadReports.LoadReporter.StatsTimerFired` | packages/grpc-js-xds/src/xds-client.ts:710-712 | The timer of any stream drains the counters; what it sends is heard exactly if that stream is still in use. |
| `LoadReports.EndedStreamDrains` | packages/grpc-js-xds/src/xds-client.ts:682-713 | A run in which the one recorded call is drained into a message that no open stream carries. |
| `LoadReports.LoadReporter.GetOrCreate` | packages/grpc-js-xds/src/xds-client.ts:609-632 | Finds or creates the entry of a cluster, with one more reference. |
| `LoadReports.LoadReporter.Unref` | packages/grpc-js-xds/src/xds-client.ts:648-661 | Gives one reference back and removes the entry exactly when it was the last. |
| `LoadReports.LoadReporter.AddClusterLocalityStats` | packages/grpc-js-xds/src/xds-client.ts:1005-1051 | Gives out the locality's statistics object, created once per entry. |
| `LoadReports.LoadReporter.AddCall` | packages/grpc-js-xds/src/xds-client.ts:1037-1050 | Records a call on a live entry; on an entry that is gone it has no effect that any report shows. |
| `LoadReports.LoadReporter.AddDrop` | packages/grpc-js-xds/src/xds-client.ts:989-997 | The same for drops. |
| `LoadReports.LoadReporter.RemoveClusterLocalityStats` | packages/grpc-js-xds/src/xds-client.ts:1053-1073 | Gives back one reference of the cluster's entry, removing the entry exactly when it was the last; if it stays, no counter and no locality of it changes, and no other entry does. |
| `LoadReports.ReleasedKeeps` | packages/grpc-js-xds/src/xds-client.ts:1063-1071 | Releasing never deletes a locality: its reference count starts at zero and only falls. |
| `LoadReports.FirstClusterIsNotSelected` | packages/grpc-js-xds/src/xds-client.ts:741-744 | When not all clusters are asked for, a cluster is reported if and only if it is listed and is not the one listed first. |
| `ClusterTree.IsClusterTreeFullyUpdated` | packages/grpc-js-xds/src/load-balancer-cds.ts:78-93 | On any finite graph, cycles included, the search ends and answers true exactly when every reachable cluster is present with an update. |
| `ClusterTree.GetDiscoveryMechanismList` | packages/grpc-js-xds/src/load-balancer-cds.ts:117-143 | On a fully updated graph the walk reads no absent cluster and returns each reachable leaf once, in first-visit order; it throws if and only if that order has a childless aggregate or a cluster with children at the depth limit. |
| `ClusterTree.DfsDepthsAreDepths` | packages/grpc-js-xds/src/load-balancer-cds.ts:119-141 | The recursion depth of each cluster is its distance from the root along the first-visit order, where a cluster hangs on the latest earlier one that still had an unvisited child. |
| `ClusterTree.DepthsAgree` | packages/grpc-js-xds/src/load-balancer-cds.ts:119-141 | A first-visit order has only one such assignment of depths. |
| `ClusterTree.DiscoveryWalk.VisitChildren` | packages/grpc-js-xds/src/load-balancer-cds.ts:127-134 | The loop over children throws if and only if the cluster is at the limit or some cluster visited from it stops the walk. |
| `ClusterTree.DfsIsFirstVisitOrder` | packages/grpc-js-xds/src/load-balancer-cds.ts:119-141 | The recursive walk visits in first-visit order: each cluster follows the nearest earlier one that still had an unvisited child. |
| `ClusterTree.OrderIsUnique` | packages/grpc-js-xds/src/load-balancer-cds.ts:119-141 | There is only one such order. |
| `ClusterTree.OrderIsReachable` | packages/grpc-js-xds/src/load-balancer-cds.ts:119-141 | That order holds exactly the reachable clusters, each once. |
| `ClusterTree.LeavesExact` | packages/grpc-js-xds/src/load-balancer-cds.ts:127-140 | Its leaves are exactly the childless clusters in it, each once. |
| `ClusterTree.ClosedHoldsReachable` | packages/grpc-js-xds/src/load-balancer-cds.ts:90-92 | A set with the root and all children of its members holds everything reachable. |
| `ClusterTree.DiscoveryWalk.Visit` | packages/grpc-js-xds/src/load-balancer-cds.ts:119-141 | One call of the recursive helper with its shared visited set: what it appends and what it marks. |
| `MessageFraming.ParseSplits` | packages/grpc-js/src/stream-decoder.ts:33-104 | A one-shot parse splits a byte string into complete frames and an incomplete rest, losing no byte. |
| `MessageFraming.ParseUnique` | packages/grpc-js/src/stream-decoder.ts:33-104 | There is only one such split. |
| `MessageFraming.ParseResumes` | packages/grpc-js/src/stream-decoder.ts:33-104 | Parsing a prefix first and then its rest with what follows gives the parse of the whole. |
| `MessageFraming.LengthRoundTrip` | packages/grpc-js/src/stream-decoder.ts:66-70 | The big-endian length octets read back as the number written. |
| `MessageFraming.WriteMessage` | packages/grpc-js/src/compression-filter.ts:51-64 | Fills a buffer with flag, length and body; rejects what cannot be framed. |
| `MessageFraming.ReadInvertsWrite` | packages/grpc-js/src/compression-filter.ts:66-74 | Reading a framed message gives the message back, for every handler with an invertible codec. |
| `StreamDecoding.StreamDecoder.Write` | packages/grpc-js/src/stream-decoder.ts:33-104 | For any state and any chunk: the frames returned and the partial state kept are the one-shot parse of the bytes held before and the chunk. |
| `StreamDecoding.DecodeChunks` | packages/grpc-js/src/stream-decoder.ts:33-104 | Over any split of a stream the frames returned and the bytes kept are the one-shot parse of the whole stream. |
| `StreamDecoding.RoundTrip` | packages/grpc-js/src/compression-filter.ts:51-89 | Framing any messages, cutting the bytes anywhere, decoding and stripping headers returns the messages. |
| `AddressOrder.InterleaveAddressFamilies` | packages/grpc-js/src/load-balancer-pick-first.ts:138-167 | Keeps every address and the order within each family, starts with the family of the first address and alternates while both last (section 4 of RFC 8305). |
| `AddressOrder.RoundsInterleave` | packages/grpc-js/src/load-balancer-pick-first.ts:155-166 | Taking one address of each family per round is such an interleaving. |
| `AddressOrder.Shuffled` | packages/grpc-js/src/load-balancer-pick-first.ts:122-131 | A permutation made by the drawn exchanges; a list of two is never reordered, as the loop stops before index 1. |
| `AddressOrder.LastIsDrawn` | packages/grpc-js/src/load-balancer-pick-first.ts:124-129 | The place treated first gets the element that was drawn for it and keeps it. |
| `PickFirst.PickFirstLoadBalancer.UpdateAddressList` | packages/grpc-js/src/load-balancer-pick-first.ts:501-523 | Throws exactly when there is no address, changing nothing at all; otherwise connects to the interleaved list. |
| `PickFirst.PickFirstLoadBalancer.ConnectToAddressList` | packages/grpc-js/src/load-balancer-pick-first.ts:468-499 | Every reference, channelz child and listener held afterwards is accounted for; the first ready subchannel is picked, or connecting starts. When the ready one is the current pick already, exactly the subchannels up to it are listened to, so all children are if and only if the later ones are repetitions. |
| `PickFirst.PickFirstLoadBalancer.PickSubchannel` | packages/grpc-js/src/load-balancer-pick-first.ts:414-430 | Taking a pick, also the early return for the current pick, keeps the references exact. |
| `PickFirst.PickFirstLoadBalancer.RemoveCurrentPick` | packages/grpc-js/src/load-balancer-pick-first.ts:314-332 | Gives up the pick's reference, channelz child and listeners, and nothing else. |
| `PickFirst.PickFirstLoadBalancer.ResetSubchannelList` | packages/grpc-js/src/load-balancer-pick-first.ts:442-460 | Gives up one reference per child occurrence. |
| `PickFirst.PickFirstLoadBalancer.OnSubchannelStateUpdate` | packages/grpc-js/src/load-balancer-pick-first.ts:334-367 | A state change keeps references, the reported state and stickiness right in every case. When the pick is lost, all children are listened to if and only if they were and it is not among them, and none is if and only if nothing else was listened to. |
| `PickFirst.PickFirstLoadBalancer.StartNextSubchannelConnecting` | packages/grpc-js/src/load-balancer-pick-first.ts:369-392 | Moves to the first idle or connecting child from the given index on, unless all were tried before; if there is none, all count as tried, and stickiness, re-resolution and reports follow. |
| `PickFirst.PickFirstLoadBalancer.MaybeEnterStickyTransientFailureMode` | packages/grpc-js/src/load-balancer-pick-first.ts:291-312 | Once every child has failed: asks for re-resolution exactly if it has not since the last update; and exactly if it was not sticky becomes so, asks every child to connect, in order, and reports. |
| `PickFirst.PickFirstLoadBalancer.DelayTimerFired` | packages/grpc-js/src/load-balancer-pick-first.ts:394-412 | The connection delay timer moves on to the next child and keeps every invariant. On a destroyed policy, whose timer still runs, it asks for re-resolution, and reports IDLE if and only if the policy was not sticky. |
| `PickFirst.DestroyedPolicyReports` | packages/grpc-js/src/load-balancer-pick-first.ts:536-539 | A run in which a policy that was destroyed while connecting asks for re-resolution and reports IDLE. |
| `PickFirst.PickFirstLoadBalancer.ConnectTick` | packages/grpc-js/src/load-balancer-pick-first.ts:402-406 | The deferred request to connect goes to the child that has the index by then, if any. |
| `PickFirst.PickFirstLoadBalancer.HealthChanged` | packages/grpc-js/src/load-balancer-pick-first.ts:257-284 | A health change of the pick leads to TRANSIENT_FAILURE if health is reported and the pick is unhealthy, and to READY otherwise. |
| `PickFirst.PickFirstLoadBalancer.ExitIdle` | packages/grpc-js/src/load-balancer-pick-first.ts:525-529 | An idle policy with a list connects and is no longer idle; otherwise nothing happens. |
| `PickFirst.PickFirstLoadBalancer.Destroy` | packages/grpc-js/src/load-balancer-pick-first.ts:536-539 | Afterwards no reference, channelz child or listener is held on any subchannel; the delay timer, stickiness and the reported state are as before. |
| `PickFirst.StuckConnecting` | packages/grpc-js/src/load-balancer-pick-first.ts:414-417 | A run that ends reporting CONNECTING with children and no listener on any of them; when that happens is said by the two rows on connecting and on state updates. |
| `PriorityNames.XdsClusterResolver.MaybeUpdateChild` | packages/grpc-js-xds/src/load-balancer-xds-cluster-resolver.ts:262-359 | Waits for every mechanism, then renames every entry by the rule; with distinct clusters the full list has no duplicates. |
| `PriorityNames.UpdateEntry` | packages/grpc-js-xds/src/load-balancer-xds-cluster-resolver.ts:275-358 | Keeps names pairwise distinct and the locality map within them; each priority inherits the name of the least earlier priority at or after it that shared a locality, unless taken, and otherwise gets a new one. |
| `PriorityNames.HighestOldPriority` | packages/grpc-js-xds/src/load-balancer-xds-cluster-resolver.ts:285-297 | Finds the least such priority, or none. |
| `PriorityNames.UnchangedUpdateKeepsNames` | packages/grpc-js-xds/src/load-balancer-xds-cluster-resolver.ts:285-312 | Reapplying an update with nonempty priorities and disjoint localities keeps every name and generates none. |
| `PriorityNames.DroppedNamesNeverReturn` | packages/grpc-js-xds/src/load-balancer-xds-cluster-resolver.ts:241-243 | Over any sequence of updates, a name used at two moments was in use all the time between: dropped names never return. |
| `PriorityNames.NumbersGrow` | packages/grpc-js-xds/src/load-balancer-xds-cluster-resolver.ts:241-243 | Over any sequence of updates the child numbers given out only grow. |
| `PriorityNames.NoDuplicates` | packages/grpc-js-xds/src/load-balancer-xds-cluster-resolver.ts:275-359 | With distinct clusters all names of all entries differ. |
| `PriorityNames.NameInjective` | packages/grpc-js-xds/src/load-balancer-xds-cluster-resolver.ts:242-242 | Two written names are equal exactly when cluster and number are, whatever the cluster is called. |
| `PriorityNames.WrittenNamesDistinct` | packages/grpc-js-xds/src/load-balancer-xds-cluster-resolver.ts:241-243 | The written names of a list differ exactly when the names do. |
| `PriorityNames.RecordLocalities` | packages/grpc-js-xds/src/load-balancer-xds-cluster-resolver.ts:314-328 | The new map sends each locality to the last priority that has it. |
| `RingSizes.RingHasCeilScale` | packages/grpc-js-xds/src/load-balancer-ring-hash.ts:355-376 | The endpoints' shares add up to exactly ceil(scale). |
| `RingSizes.ShareIsProportional` | packages/grpc-js-xds/src/load-balancer-ring-hash.ts:361-375 | Each endpoint's share is within one of scale times its normalized weight. |
| `RingSizes.WholeShareIsExact` | packages/grpc-js-xds/src/load-balancer-ring-hash.ts:341-350 | A share that is a whole number is met exactly. |
| `RingSizes.OnRingIffWhole` | packages/grpc-js-xds/src/load-balancer-ring-hash.ts:361-375 | An endpoint has an entry if and only if a whole number lies in its stretch of the running target. |
| `RingSizes.WholeShareHasEntry` | packages/grpc-js-xds/src/load-balancer-ring-hash.ts:361-375 | So it has one whenever its proportional share is at least one. |
| `RingSizes.EveryEndpointOnRing` | packages/grpc-js-xds/src/load-balancer-ring-hash.ts:341-350 | Unless the maximum cuts the ring short every endpoint's share is at least one, and the lightest has its share of the minimum size rounded up. |
| `RingSizes.CappedRingMayMissEndpoints` | packages/grpc-js-xds/src/load-balancer-ring-hash.ts:347-350 | When it does, an endpoint can be left off the ring. |
| `RingSizes.CappedRingMayKeepEndpoints` | packages/grpc-js-xds/src/load-balancer-ring-hash.ts:347-350 | Or none is, at another input. |
| `RingSizes.ScaleInBounds` | packages/grpc-js-xds/src/load-balancer-ring-hash.ts:339-350 | The scale lies between the minimum and the maximum ring size. |
| `RingHash.RingHashPicker.FindIndexForHash` | packages/grpc-js-xds/src/load-balancer-ring-hash.ts:135-165 | The least index whose hash is at least the key, or 0 if there is none, on any sorted ring and for any key. |
| `RingHash.RingHashPicker.Pick` | packages/grpc-js-xds/src/load-balancer-ring-hash.ts:166-209 | The first READY, IDLE or CONNECTING entry in circular order from there serves the call; an IDLE one is asked to connect, nothing else changes; it fails exactly when no entry is usable. |
| `RingHash.PlaceIsUnique` | packages/grpc-js-xds/src/load-balancer-ring-hash.ts:129-135 | A key has only one place. |
| `RingHash.SortIsSortedPermutation` | packages/grpc-js-xds/src/load-balancer-ring-hash.ts:379-387 | The stored ring is sorted by hash and a rearrangement of the generated one. |
| `RingHash.RingIsSortedAndSized` | packages/grpc-js-xds/src/load-balancer-ring-hash.ts:317-388 | The stored ring has ceil(scale) entries, with the scale in bounds. |
| `RingHash.RingIsProportional` | packages/grpc-js-xds/src/load-balancer-ring-hash.ts:317-388 | Each endpoint's leaf has its proportional number of entries on the stored ring, within one. |
| `RingHash.LeafOnRingIffWhole` | packages/grpc-js-xds/src/load-balancer-ring-hash.ts:357-387 | An endpoint's leaf is on the stored ring if and only if a whole number lies in its stretch of the running target. |
| `RingHash.RingHasEveryLeaf` | packages/grpc-js-xds/src/load-balancer-ring-hash.ts:341-387 | If the maximum does not cut the ring short every endpoint's leaf is on it. |
| `RingHash.RingHashLoadBalancer.ConstructRing` | packages/grpc-js-xds/src/load-balancer-ring-hash.ts:317-388 | Builds that ring from the weights, an empty one if a weight is zero (the scale is then 0/0), and throws exactly when an endpoint has lost its leaf. |
| `RingHash.RingHashLoadBalancer.UpdateAddressList` | packages/grpc-js-xds/src/load-balancer-ring-hash.ts:390-428 | One leaf per endpoint, old ones kept; weights added up and the list reduced to first occurrences. |
| `RingHash.RingHashLoadBalancer.HashLoaded` | packages/grpc-js-xds/src/load-balancer-ring-hash.ts:423-427 | The ring is built and reporting resumes, unless building throws, in which case reporting stays paused. |
| `RingHash.RingHashLoadBalancer.CalculateAndUpdateState` | packages/grpc-js-xds/src/load-balancer-ring-hash.ts:262-305 | Reports the aggregate of the leaves' states. |
| `RingHash.WeighedIsSum` | packages/grpc-js-xds/src/load-balancer-ring-hash.ts:413-417 | A leaf weighs the sum of its endpoints' weights. |
| `RingHash.DedupedIsFirsts` | packages/grpc-js-xds/src/load-balancer-ring-hash.ts:413-416 | The reduced list has, for each endpoint, its first occurrence. |
| `RingHash.PublishedPickerServes` | packages/grpc-js-xds/src/load-balancer-ring-hash.ts:276-304 | With every leaf on the ring, a picker published with a state other than TRANSIENT_FAILURE has a usable entry. |
| `RingHash.RingServesIff` | packages/grpc-js-xds/src/load-balancer-ring-hash.ts:166-209 | The ring can serve a call if and only if the leaf of some endpoint with a whole number in its stretch is usable. |
| `RingHash.UpdatedRingServes` | packages/grpc-js-xds/src/load-balancer-ring-hash.ts:262-428 | So if every endpoint has one, no call fails for want of an entry unless TRANSIENT_FAILURE was reported. |
| `RingHash.CappedPickerCanFail` | packages/grpc-js-xds/src/load-balancer-ring-hash.ts:276-304 | Otherwise every pick can fail although READY was reported: two equal endpoints and room for one. |
| `VirtualHosts.FindVirtualHostForDomain` | packages/grpc-js-xds/src/resolver-xds.ts:100-129 | The first virtual host, in list order, that holds a best matching pattern by type and then length; none exactly when nothing matches. |
| `VirtualHosts.MatchesIsFits` | packages/grpc-js-xds/src/resolver-xds.ts:66-98 | A pattern matches exactly the domains that its star can stand for. |
| `VirtualHosts.TargetIsUnique` | packages/grpc-js-xds/src/resolver-xds.ts:100-129 | There is only one such host. |
| `VirtualHosts.ExactIsFinal` | packages/grpc-js-xds/src/resolver-xds.ts:120-126 | Both early exits are sound: after an exact match nothing later is better. |
| `XdsResolvers.XdsResolver.ApplyRouteConfig` | packages/grpc-js-xds/src/resolver-xds.ts:385-627 | Without a matching host nothing changes but the latest configuration; otherwise the table becomes the configured clusters and those with calls, and all of it is published. |
| `XdsResolvers.XdsResolver.MarkClusters` | packages/grpc-js-xds/src/resolver-xds.ts:564-581 | The two loops over the table come to marking, dropping unused and adding configured clusters. |
| `XdsResolvers.XdsResolver.SelectCluster` | packages/grpc-js-xds/src/resolver-xds.ts:582-589 | A selection, by the newest config selector or an older one, counts one reference on its cluster exactly if the cluster is in the table. |
| `XdsResolvers.XdsResolver.Committed` | packages/grpc-js-xds/src/resolver-xds.ts:374-383 | A commit counts one down; the last one of an unconfigured cluster removes it and queues the latest configuration again. The newest configuration is overtaken by that if and only if the queue ended in another one than the latest. |
| `XdsResolvers.XdsResolver.StrayCommitted` | packages/grpc-js-xds/src/resolver-xds.ts:374-383 | The commit of a selection that took no reference keeps the counts right if and only if its cluster is not in the table; otherwise the cluster has one reference too few, or is gone although a call refers to it. |
| `XdsResolvers.StrayCommitRemovesCluster` | packages/grpc-js-xds/src/resolver-xds.ts:582-589 | A run in which the cluster of a call in flight is taken out of the table that way. |
| `XdsResolvers.AppliedOk` | packages/grpc-js-xds/src/resolver-xds.ts:564-581 | Applying a configuration keeps counts equal to uncommitted selections and the table equal to configured and referenced clusters. |
| `XdsResolvers.CommittedOk` | packages/grpc-js-xds/src/resolver-xds.ts:374-383 | So does a commit. |
| `XdsResolvers.OvertakenConfiguration` | packages/grpc-js-xds/src/resolver-xds.ts:380-390 | A run that ends, with nothing waiting, on a configuration other than the one received last. |
| `ChildHandler.ChildLoadBalancerHandler.UpdateAddressList` | packages/grpc-js/src/load-balancer-child-handler.ts:105-138 | The update reaches exactly one child, the newest, of the policy it names; a replaced pending child is destroyed once, the current one stays. |
| `ChildHandler.ChildLoadBalancerHandler.UpdateState` | packages/grpc-js/src/load-balancer-child-handler.ts:50-62 | Only the current child, or a pending one past CONNECTING that thereby becomes current, reaches the parent; a destroyed one never does. |
| `ChildHandler.ChildLoadBalancerHandler.RequestReresolution` | packages/grpc-js/src/load-balancer-child-handler.ts:63-68 | Only the newest child's requests get through. |
| `ChildHandler.ChildLoadBalancerHandler.Destroy` | packages/grpc-js/src/load-balancer-child-handler.ts:155-168 | Afterwards every child ever created has been destroyed exactly once. |
| `EjectionPasses.RunWithinLimit` | packages/grpc-js/src/load-balancer-outlier-detection.ts:719-758 | Over a whole run of the checks the number of ejected entries does not grow, or all but one of them are within the limit. |
| `EjectionPasses.ChecksWithinLimit` | packages/grpc-js/src/load-balancer-outlier-detection.ts:531-691 | After the two checks the number is unchanged or all but one are within the limit. |
| `EjectionPasses.PassWithinLimit` | packages/grpc-js/src/load-balancer-outlier-detection.ts:593-626 | The same for one pass, whatever it takes for outliers. |
| `EjectionPasses.FullStaysFull` | packages/grpc-js/src/load-balancer-outlier-detection.ts:595-601 | The early exit of a pass is sound: without room nothing more would be ejected. |
| `EjectionPasses.PassEjectsOutliers` | packages/grpc-js/src/load-balancer-outlier-detection.ts:593-626 | Exactly which entries a pass ejects: the outliers it comes to while there is room, ejected before or not; all others stay as they were. |
| `EjectionPasses.SomeCandidateIsSpared` | packages/grpc-js/src/load-balancer-outlier-detection.ts:576-626 | With a nonnegative factor some candidate that is not below the mean is left as it was by the success rate check, whatever is drawn. |
| `EjectionPasses.IdleEntryDisarms` | packages/grpc-js/src/load-balancer-outlier-detection.ts:541-626 | With a request volume of zero one entry without calls makes the check eject nobody: its rate and hence the threshold are 0/0. |
| `EjectionPasses.SomeAtLeastMean` | packages/grpc-js/src/load-balancer-outlier-detection.ts:577-578 | Some rate is not below the mean, undefined rates included. |
| `EjectionPasses.EjectionOutlastsRun` | packages/grpc-js/src/load-balancer-outlier-detection.ts:734-757 | What the checks of a run ejected is still ejected at its end if and only if the clock, read again, has not passed the ejection's end; with a base time of zero one tick is enough. |
| `OutlierDetection.OutlierDetectionLoadBalancer.RunChecks` | packages/grpc-js/src/load-balancer-outlier-detection.ts:719-758 | Realises the whole run, throwing included, with the clock read anew at every entry and rates that may be 0/0; judges exactly the calls that ended since the previous run; and keeps each listed wrapper healthy exactly when its entry is not ejected. |
| `OutlierDetection.OutlierDetectionLoadBalancer.RunSuccessRateCheck` | packages/grpc-js/src/load-balancer-outlier-detection.ts:532-627 | Realises the success rate check; it throws exactly when there is no candidate and the configuration asks for none. |
| `OutlierDetection.OutlierDetectionLoadBalancer.RunFailurePercentageCheck` | packages/grpc-js/src/load-balancer-outlier-detection.ts:629-691 | Realises the failure percentage check. |
| `OutlierDetection.OutlierDetectionLoadBalancer.UpdateAddressList` | packages/grpc-js/src/load-balancer-outlier-detection.ts:760-811 | One entry per endpoint, known ones as they were; without counting all ejections end. |
| `OutlierDetection.OutlierDetectionLoadBalancer.CreateSubchannel` | packages/grpc-js/src/load-balancer-outlier-detection.ts:476-496 | A new wrapper has its entry's health; for an address without an entry it is unhealthy and listed nowhere. |
| `OutlierDetection.OutlierDetectionLoadBalancer.Unref` | packages/grpc-js/src/load-balancer-outlier-detection.ts:356-367 | A wrapper without references leaves its entry's list, and only it. |
| `OutlierDetection.MapEntry.CallEnded` | packages/grpc-js/src/load-balancer-outlier-detection.ts:398-417 | The bucket that is being filled counts exactly the outcomes of the calls that ended since the buckets were switched, this one included. |
| `OutlierDetection.MapEntry.SwitchBuckets` | packages/grpc-js/src/load-balancer-outlier-detection.ts:407-410 | The calls that ended since the last switch become the ones to be judged, and the next interval starts with none. |
| `OutlierDetection.AtLimit` | packages/grpc-js/src/load-balancer-outlier-detection.ts:522-530 | The percentage test is the comparison of the ejected count with the limit, and fails for an empty map, whose percentage is 0/0. |
| `PriorityPolicy.PriorityLoadBalancer.ChoosePriority` | packages/grpc-js-xds/src/load-balancer-priority.ts:375-429 | Selects the first priority that is READY, IDLE, has its failover timer pending or must be created, creating no other child; else the first CONNECTING; else the last; and throws exactly when it meets a priority with neither child nor configuration first. |
| `PriorityPolicy.PriorityLoadBalancer.SelectPriority` | packages/grpc-js-xds/src/load-balancer-priority.ts:361-373 | Reports the child's state and sends lower priorities away only when asked to. |
| `PriorityPolicy.PriorityLoadBalancer.ChildReports` | packages/grpc-js-xds/src/load-balancer-priority.ts:342-349 | After any report the current priority is the right one for the children's states; a policy without children has one again if and only if a listed priority is configured. |
| `PriorityPolicy.PriorityLoadBalancer.FailoverTimerFired` | packages/grpc-js-xds/src/load-balancer-priority.ts:223-235 | The failover timer counts as a failure, and the choice is made anew; so a destroyed policy comes back to life if and only if a listed priority is configured. |
| `PriorityPolicy.PriorityLoadBalancer.UpdateAddressList` | packages/grpc-js-xds/src/load-balancer-priority.ts:431-502 | Ignored as a whole if an endpoint has no path; otherwise every configured child is assigned its endpoints in order, every child that is not listed is kept with its deactivation timer pending, and a priority is chosen. |
| `PriorityPolicy.PriorityLoadBalancer.DeactivationTimerFired` | packages/grpc-js-xds/src/load-balancer-priority.ts:253-260 | The child is destroyed and whatever child has its name is dropped. Until the policy is destroyed these are the same child; the dropped one is destroyed if and only if they are. |
| `PriorityPolicy.StaleTimerDropsChild` | packages/grpc-js-xds/src/load-balancer-priority.ts:253-260 | A run (unlist, destroy, list again, old timer) in which the new child is dropped undestroyed and the old one is destroyed twice. |
| `PriorityPolicy.PriorityChild.UpdateState` | packages/grpc-js-xds/src/load-balancer-priority.ts:205-221 | The failover timer restarts only on CONNECTING with a READY or IDLE since the last failure; starts are at most one more than recoveries. |
| `PriorityPolicy.SeenMeansSinceFailure` | packages/grpc-js-xds/src/load-balancer-priority.ts:208-219 | The flag says that some READY or IDLE report has no failure after it. |
| `PriorityPolicy.BucketEndpoints` | packages/grpc-js-xds/src/load-balancer-priority.ts:449-469 | Sorts endpoints by the head of their path, keeping order. |
| `PriorityPolicy.DestroyedPolicyRevives` | packages/grpc-js-xds/src/load-balancer-priority.ts:513-518 | A run in which a destroyed policy creates a child again when a failover timer left running fires. |

## Left out

- HTTP/2, sockets, TLS, DNS and Node streams: only their callbacks appear, as steps.
- Protobuf and JSON decoding, validation of configurations, RE2, zlib, xxhash: taken as
  given values or arbitrary functions.
- `RetryThrottler`: whether a retry is let through is arbitrary. That a throttled retry
  is never reported is part of the model; no liveness of retries is claimed.
- Retry delays and jitter: a timer fires at any time after it was set.
- Metadata contents, deadlines, credentials, read flow control and write flags of a call.
- The xDS client's cached resources, versions, resource timers and watcher
  notifications; errors in the bootstrap other than an unknown authority.
- A backoff timer that is reset while it runs is modelled by its two outcomes, running
  or not.
- Property names that JavaScript objects inherit are not clusters of the cluster tree.
- `StreamDecoding.StreamDecoder.Write`: frames are values; that they may share memory
  with the chunk is not modelled.
- Negotiation of compression from received metadata, and the order in which filter
  promises resolve.
- pick_first's subchannels are identified by what createSubchannel gives for an address;
  wrappers of one subchannel count as one.
- The endpoint list, drop categories and child configurations that the cluster resolver
  builds next to the priority names.
- The leaf policies under ring_hash: a leaf is its connectivity state and a count of
  requests to connect. Weights are not negative.
- The ring as an array sorted in place: it is a sequence that is replaced by its sorted
  form, so sharing of the array with an older picker is not modelled.
- Route actions, header matching and hash policies: a selection may name any cluster.
- Entries of the outlier detection map that were removed: their wrappers keep the health
  they had.
- The backoff timer of load reporting streams: a stream may be opened at any time at
  which there is none.
- `XdsClients.XdsClient.CancelResourceWatch`: that it throws for a name that cannot be
  parsed is not modelled.
- Reports that a priority child makes while the policy updates it.
- round_robin, weighted_target, cluster_manager, wrr_locality and cluster_impl repeat
  patterns covered here and would add only easy members.
