# A verified model of the build control plane

buildkit-operator keeps one warm BuildKit daemon per project and promises that nothing takes a daemon
away from a running build. This project models the parts that promise rests on, in Dafny, and proves
what they keep over every input, every run and every interleaving.

`dafny verify dfyconfig.toml` checks the whole project.

| module | models |
|---|---|
| `Base`, `Strings` | optional values, the clock's units; the string operations the router and the gateway use |
| `Inflight` | the dated in-flight set: register, release by token or unnamed, expire, cap, adopt a legacy count |
| `KeepWarm` | the 24h cadence ring and the idle window that drives scale-to-zero |
| `Rollout` | withholding a changed pod template from a busy daemon, for a bounded time |
| `Requeue` | the soonest-deadline requeue at the end of a reconcile pass |
| `HoldSchedule` | the hold and the requeue together: when a withheld template lands |
| `S3Cadence` | the export cadence, status-based and in-memory |
| `Lease` | what each writer of the stored status computes, and what every write keeps |
| `Cluster` | the protocol as a state machine: a version history, stale cached reads, compare-and-swap updates, the StatefulSet with its merge patches, every takedown and every roll |
| `Safety` | what holds in every run of `Cluster` |
| `StatusUpdate` | the retry loop around status writes, proved to continue a run of `Cluster` and to land at most once |
| `ClientHello`, `Gateway` | the SNI peek, an encoder it undoes, domain matching, and routing end to end |
| `Router`, `Convergence`, `Keys` | the repository normal form, the convergence of spellings, key and volume names, the orphan sweep |
| `AutoGrow` | bounded growth of the cache volume |
| `Fanout` | warm clones of a saturated project |
| `LocalBackend` | the single-host provisioner, the routing handler, token conservation |

## Modelling decisions

- Instants and durations are integers counting nanoseconds on one nondecreasing clock. Stored times are
  kept exact, except the export grant, whose truncation to whole seconds matters and is modelled.
- The API server is the history of one object's versions. A cached read returns any past version, a
  direct read the last one (or nothing once the object is deleted), and a status update lands only when
  it was computed from the last version. The clock of a write is taken after its read. Every version
  carries the step of the run at which it landed, and a deletion its step, so "registered before that
  read" and "gone by that read" are exact.
- The StatefulSet is a history of versions too. A pass reads any past version of it from the cache, and
  its merge patch sends only what differs from the copy it read, with no version check.
- Both the routing API and the reconciler are given the same `--max-build-seconds`
  (cmd/buildd/main.go:234, 257-258), of any value, and the direct reader is wired (line 240).
- The SHA-256 of a build token is a free constructor; the digest in a project key is a function
  parameter, assumed not to collide only where a lemma says so.
- Floating point in the growth decision is real arithmetic. Letter case is folded for ASCII letters.
- Clone prunes and resize bounces appear in `Cluster` as a direct read followed by the act, without the
  cached guards in front of them, so the proofs cover more runs than the code has.

## Where the code and its documentation disagree

- The comment at internal/controller/buildproject_controller.go:536 says a forced roll never severs a
  build younger than an hour. The absolute cap at line 574 overrides it: `Rollout.YoungBuildCanBeSevered`,
  and `Rollout.GraceYieldsOnlyToTheCap` says exactly when.
- The requeue reads the expiry of the first live entry only. When that expiry is not strictly ahead any
  more while a younger entry's is, and no other deadline is set, no requeue is asked for:
  `Requeue.LostWakeup`, with the exact condition in `Requeue.WakesForExpiryExactlyWhen`.
- The hold stamp is meant to bound a hold by max-build-age. A pass that still reads a copy from before
  the stamp moves it to its own instant (`Rollout.StampMovesExactlyWhen`), so the bound is max-build-age
  plus less than the lag of that cache (`Rollout.HoldIsBounded`), and this bound is reached
  (`Rollout.BoundIsReached`). A pass that applies its template from such a copy leaves the stamp behind
  (`Rollout.StampOutlivesARollExactlyWhen`).
- /route promises to release what it registered on every failing path (cmd/buildd/route.go:174-184). On
  Kubernetes the release reads the cache: a copy from before the registration landed holds nothing to
  release, so nothing is written and the entry stays until another release, its own age or the cap
  removes it (`StatusUpdate.StaleReleaseIsLost`, `Safety.RegisteredUntilReleased`);
  `StatusUpdate.ReleaseWritesExactlyWhen` gives the exact condition.
- `EndInflightBefore` is documented to prefer an entry past its cutoff. On a chronological set it always
  drops the oldest (`Inflight.UnnamedReleaseDropsOldest`), and after expiry no entry lies before the
  cutoff (`Inflight.CutoffNeverFires`).
- `NormalizeRepo` is not idempotent on arbitrary strings: `Router.NotIdempotent`; its fixed points are
  characterised by `Router.FixedPointsAreNormalForms`, and on every spelling of a well-formed host and
  path it is idempotent (`Convergence.SpellingsAreIdempotent`).
- The two export-cadence backends differ within a second of the window's edge, because the stored grant
  is truncated: `S3Cadence.BackendsDifferWithinASecond`, exactly as `S3Cadence.BackendsAgreeExactlyWhen`
  says. For the same reason a fractional interval can lose its fraction (`Safety.GrantsAreApart`).
- The guards `next <= currentGi` and `next <= reqGi` of auto-grow can never fire
  (`AutoGrow.TargetExactly`, `AutoGrow.DecisionIsSound`).

## Model

| member | source | states |
|---|---|---|
| `Inflight.ExpireInflight` | api/v1alpha1/inflight.go:139-156 | the two loops compute the sublist of entries not older than the window, and count the others |
| `Inflight.LiveMembers` | api/v1alpha1/inflight.go:136-156 | expiry is per entry: exactly the entries past the window go |
| `Inflight.LiveIsSuffix` | api/v1alpha1/inflight.go:46-53 | on a chronological set expiry only sheds a prefix and order is kept |
| `Inflight.DeadStaysDead` | internal/controller/buildproject_controller.go:122-130 | a set with nothing live stays so as time passes |
| `Inflight.EndInflight` | api/v1alpha1/inflight.go:103-134 | the release loops drop exactly the entry at the position the specification names, or nothing |
| `Inflight.NamedReleaseIsExact` | api/v1alpha1/inflight.go:88-134 | with distinct tokens a named release removes that entry and no other, iff it is there; a second one finds nothing |
| `Inflight.UnnamedReleaseDropsOldest` | api/v1alpha1/inflight.go:97-117 | whatever the cutoff, an unnamed release on a chronological set is drop-the-oldest |
| `Inflight.CutoffNeverFires` | internal/provisioner/k8s/k8s.go:205-205 | after expiry with the same window no entry is older than the cutoff |
| `Inflight.BuildProjectStatus.SetInflight` | api/v1alpha1/inflight.go:38-53 | entries capped to the newest 64 and the count rewritten to match; nothing else changes |
| `Inflight.BuildProjectStatus.AdoptLegacyInflight` | api/v1alpha1/inflight.go:58-79 | a bare count becomes that many entries dated from the last build (at most 64), exactly when there are none |
| `Inflight.AdoptionIsExact` | api/v1alpha1/inflight.go:58-79 | a bare count becomes that many entries, at most 64, dated from the last build and distinct; every other status and field stays |
| `Lease.ApplyKeepsGood` | internal/provisioner/k8s/k8s.go:184-240 | every write keeps the stored set chronological, at most 64 long, dated in the past and matching its count, and the cadence ring ordered and within its cap |
| `Lease.DepartureHasReason` | internal/provisioner/k8s/k8s.go:200-217 | an entry a write removes left by its own token, as the oldest of an unnamed release, by being older than --max-build-seconds (two hours when unset), or by 64 entries no older than it |
| `Lease.ArrivalHasReason` | internal/provisioner/k8s/k8s.go:184-196 | an entry a write adds is the build being registered, or adopted from a legacy count |
| `Lease.LiveExactlyWhen` | internal/provisioner/k8s/k8s.go:233-240 | what the routing API and the reconciler take to be running: exactly the adopted entries not older than the flag in seconds (the routing API sheds nothing when it is unset, the reconciler then allows two hours) |
| `Lease.LeaksAreShed` | internal/controller/buildproject_controller.go:201-223 | no registration, release or reconcile stores an entry that has outlived the window |
| `Lease.ReleaseRemoves` | internal/provisioner/k8s/k8s.go:200-217 | a release that lands takes exactly one live entry off the set: its own token's, or the oldest |
| `Lease.StoredStamp` | internal/provisioner/k8s/k8s.go:283-292 | every landed route, release and prewarm stamps the last build with its own instant, nothing else does, and only an edit changes the spec |
| `Lease.StartRegisters` | api/v1alpha1/inflight.go:81-86 | a registered build is on the set its write stores |
| `Lease.UnknownReleaseWritesNothing` | internal/provisioner/k8s/k8s.go:206-212 | a release that names no live build writes nothing at all |
| `Cluster.StaleCopyNeverLands` | internal/controller/buildproject_controller.go:127-137 | when the confirming read finds a build, the pass's cached copy is stale and its status write can no longer land |
| `Cluster.PatchIsLogged` | internal/controller/buildproject_controller.go:382-410 | a pass takes the daemon to zero replicas only with a scale-to-zero logged at that step, and changes its template only with a roll logged at that step |
| `Cluster.PatchDrivesReplicas` | internal/controller/buildproject_controller.go:403-410 | a patch from the last version of the daemon leaves no replica when confirmed idle and one whenever the pass knows of a build or the project is wanted, template withheld or not; a confirmation that found builds also decides the roll |
| `Cluster.LossIsLogged` | internal/controller/buildproject_controller.go:141-151 | the object is lost only to somebody else's delete or with a fork reap or clone prune logged at that step |
| `Cluster.RollIsJustified` | internal/controller/buildproject_controller.go:377-397 | a roll step of a pass meets the roll rule over the whole list it used; with an empty list, a direct read of the last version found nothing live |
| `Cluster.StepKeepsInv` | internal/controller/buildproject_controller.go:106-275 | every step of every replica and pass keeps the invariant and only extends the history; in it every direct read saw the version that was the last at its step, or the object was gone by then, and the logs of takedowns and rolls are complete |
| `Cluster.RunKeepsInv` | internal/controller/buildproject_controller.go:106-275 | so does every run, of any length and interleaving |
| `Cluster.RunExtends` | internal/provisioner/k8s/k8s.go:275-299 | whatever was stored at some point of a run is part of the history at every later point |
| `Safety.StoredSetIsWellFormed` | api/v1alpha1/inflight.go:38-53 | in every version of every run the set is chronological, at most 64 long, and its count matches from the first matching version on |
| `Safety.NoLostUpdate` | internal/provisioner/k8s/k8s.go:275-299 | in every run the stored object equals the successful writes applied one after the other: no successful update is lost |
| `Safety.LeavesForAReason` | api/v1alpha1/inflight.go:88-156 | between any two versions an entry disappears only through a write that removed it for one of the four reasons |
| `Safety.RegisteredUntilReleased` | internal/provisioner/k8s/k8s.go:184-217 | a registered build is on every later version unless it left for one of the four reasons |
| `Safety.LastBuildIsStamped` | internal/provisioner/k8s/k8s.go:275-299 | in every run the stored last build is the instant of the last route, release or prewarm that landed, and the spec the one last edited |
| `Safety.FreshProjectIsWanted` | internal/controller/buildproject_controller.go:442-455 | a project routed, released or prewarmed less than its idle window ago is wanted at one replica |
| `Safety.TakedownSparesLiveBuilds` | internal/controller/buildproject_controller.go:127-151 | every scale-to-zero, fork reap, clone prune and resize bounce of every run rests on a direct read in the same pass of the version that was the last at that step; a build stored on any version that had landed before that read had left for a reason or expired, or the object was gone by the time of the read |
| `Safety.ZeroReplicasSpareLiveBuilds` | internal/controller/buildproject_controller.go:127-137 | whenever a stored version of the daemon goes to zero replicas, in any run, a logged scale-to-zero that spares every such build stored it |
| `Safety.LostObjectSparesLiveBuilds` | internal/controller/buildproject_controller.go:141-151 | whenever the object is lost other than to somebody else's delete, a logged fork reap or clone prune that spares every such build removed it |
| `Safety.TakedownWasIdle` | internal/controller/buildproject_controller.go:442-477 | every scale-to-zero and fork reap was decided on a stored version that was not hot, had no build within the window and had been quiet for its whole idle window, adaptive part included |
| `Safety.TakedownSparesRegisteredBuild` | internal/controller/buildproject_controller.go:127-151 | in particular any build whose registration landed before the read |
| `Safety.TakedownSparesLegacyCount` | internal/controller/buildproject_controller.go:115-117 | no takedown rests on a bare legacy count whose last build is still within the window, on the version that was the last when it was confirmed |
| `Safety.RollsAreJustified` | internal/controller/buildproject_controller.go:377-397 | every roll onto a healthy daemon: with an empty list, a direct read in the same pass found nothing live on the last version; otherwise every build listed is over an hour old, or the hold outlasted the window |
| `Safety.TemplateChangeIsJustified` | internal/controller/buildproject_controller.go:377-410 | whenever a stored version of the daemon has another template than the one before, a logged roll stored it, onto a wedged daemon or justified as above |
| `Safety.CapFollowsAHold` | internal/controller/buildproject_controller.go:566-580 | a healthy daemon is rolled under a build younger than an hour only more than max-build-age after an earlier pass of the same run withheld a template (or the stamp the daemon came with) |
| `Safety.GrantsAreApart` | internal/provisioner/k8s/k8s.go:326-359 | across all replicas two stamped grants are the later interval apart for whole-second intervals, and more than the interval less a second in general |
| `Safety.FractionalIntervalLosesItsFraction` | internal/provisioner/k8s/k8s.go:342-347 | two due grants an interval apart keep stamps that far apart exactly for whole-second intervals |
| `Safety.RingCountsRoutedBuilds` | internal/provisioner/k8s/k8s.go:187-192 | in every run the stored ring counts the builds of the last 24h, those on it at the start and those all replicas routed, up to 30 |
| `Safety.ForkRingStands` | internal/provisioner/k8s/k8s.go:190-192 | a fork's cadence ring is never touched |
| `StatusUpdate.RetryUpdate` | internal/provisioner/k8s/k8s.go:275-299 | the retry loop continues the run of the cluster; in it exactly one of its updates lands if it says so and none otherwise; a declined write was declined on the version the deciding attempt read; while the object exists it gives up only if every attempt was disturbed (or a read missed the object and that is not retried); alone it always decides at once |
| `StatusUpdate.Attempt` | internal/provisioner/k8s/k8s.go:281-293 | one Get-mutate-Update: an undisturbed attempt on an existing object succeeds, or the version it read, the last one, asks for no write |
| `StatusUpdate.UpdateLands` | internal/provisioner/k8s/k8s.go:292-292 | an update makes a new version exactly when the object is there and was read at its last version |
| `StatusUpdate.Server.OthersAct` | internal/provisioner/k8s/k8s.go:275-299 | whatever the other actors do meanwhile continues the run, leaves this caller's state alone and lands nothing in its name |
| `StatusUpdate.RegistrationMeans` | internal/provisioner/k8s/k8s.go:184-196 | a registration that succeeded put the build on the stored set; one that failed on an existing object had every attempt disturbed |
| `StatusUpdate.StartInflight` | internal/provisioner/k8s/k8s.go:184-196 | registers through the retry loop with that meaning, landing exactly once if it succeeds |
| `StatusUpdate.ReleaseWritesExactlyWhen` | internal/provisioner/k8s/k8s.go:200-217 | a release writes iff something it names is live on the copy it read |
| `StatusUpdate.ReleaseMeans` | internal/provisioner/k8s/k8s.go:200-217 | true: the build was live on the version released from; false on an existing object: the copy the deciding attempt read (the last version when undisturbed) held nothing to release, or it was not found, or every attempt was disturbed; alone, a live build is always released |
| `StatusUpdate.EndInflight` | internal/provisioner/k8s/k8s.go:200-217 | releases through the retry loop with that meaning, landing exactly once if it answers true |
| `StatusUpdate.StaleReleaseIsLost` | cmd/buildd/route.go:174-184 | a release that reads the copy from just before the registration writes nothing, while the build is live on the last version |
| `StatusUpdate.S3CacheDecision` | internal/provisioner/k8s/k8s.go:307-360 | under contention an export is answered under cadence only if this call's own grant landed or the version its deciding attempt read had turned to always; a landed grant is always answered with an export; imports follow the policy first read, open on a failed read; alone at the API server the answer and the stored clock are those of the uncontended decision |
| `Rollout.StatefulSet.Ensure` | internal/controller/buildproject_controller.go:363-411 | replicas, template and hold stamp after one call from any cached copy, including a lost patch and the skipped no-op patch |
| `Rollout.StatefulSet.Patch` | internal/controller/buildproject_controller.go:372-410 | a merge patch changes exactly the fields that differ between the copy read and the wanted one |
| `Rollout.ReplicasAreDriven` | internal/controller/buildproject_controller.go:400-410 | a landed pass leaves the wanted replicas, template withheld or not, iff the copy it read had another count or it was so already |
| `Rollout.RollExactlyWhen` | internal/controller/buildproject_controller.go:377-397 | a changed template is applied iff wedged, or nothing on the list used, or every build on it is over an hour old, or the hold outlasted max-build-age |
| `Rollout.GraceYieldsOnlyToTheCap` | internal/controller/buildproject_controller.go:566-580 | under a build younger than an hour a healthy daemon rolls iff the hold outlasted max-build-age |
| `Rollout.YoungBuildCanBeSevered` | internal/controller/buildproject_controller.go:536-540 | a one-second-old build is severed once the cap passes |
| `Rollout.StampIsLeftExactlyWhen` | internal/controller/buildproject_controller.go:560-565 | a held pass whose patch landed leaves a stamp iff there was one or the copy it read carries none |
| `Rollout.StampMovesExactlyWhen` | internal/controller/buildproject_controller.go:560-565 | a held pass moves a standing stamp iff the copy it read carries none, and then to its own instant |
| `Rollout.StampOutlivesARollExactlyWhen` | internal/controller/buildproject_controller.go:398-400 | a pass that applies its template leaves a stamp iff the copy it read is older than that stamp |
| `Rollout.StampStandsWhileHeld` | internal/controller/buildproject_controller.go:552-584 | over any series of held passes, with changing targets, lost patches and stale reads, the template stands; so does the stamp as long as each pass reads some stamped copy; every held pass is within max-build-age of the stamp it read |
| `Rollout.HoldIsBounded` | internal/controller/buildproject_controller.go:400-404 | an unbroken series of held passes that left a stamp lasts at most max-build-age plus less than the lag of the StatefulSet cache; with no lag, max-build-age |
| `Rollout.BoundIsReached` | internal/controller/buildproject_controller.go:363-370 | for every positive lag some series of held passes lasts exactly that long |
| `Rollout.CapAlwaysApplies` | internal/controller/buildproject_controller.go:570-580 | past the cap the next pass applies whatever template it aims at |
| `Requeue.RequeueAfter` | internal/controller/buildproject_controller.go:236-274 | the running minimum is the least of the deadlines, or zero when there is none |
| `Requeue.PolledConditions` | internal/controller/buildproject_controller.go:241-270 | a held roll, a deferred prune and a daemon not ready are polled within 30s; idle re-check and snapshot are not overslept |
| `Requeue.NoRequeueExactlyWhen` | internal/controller/buildproject_controller.go:236-274 | no requeue is asked for iff there is nothing to come back for |
| `Requeue.RequeueHasReason` | internal/controller/buildproject_controller.go:236-270 | a requeue is one of the deadlines something asks for |
| `Requeue.WakesForExpiryExactlyWhen` | internal/controller/buildproject_controller.go:252-259 | reading index 0 wakes up for every live entry's expiry iff the first entry's is still ahead or other deadlines cover the rest |
| `Requeue.LostWakeup` | internal/controller/buildproject_controller.go:255-259 | two live entries, the older exactly at its expiry, and no requeue at all |
| `HoldSchedule.HeldIsPolled` | internal/controller/buildproject_controller.go:265-270 | a held pass is followed by the next within 30s |
| `HoldSchedule.HeldTemplateLands` | internal/controller/buildproject_controller.go:265-270 | from the first hold that left a stamp, in any series of passes that honours the requeues: every pass that still withholds lies within max-build-age plus less than the cache lag after it, and the first that does not comes at most 30s later and applies its template |
| `KeepWarm.RecordBuildTime` | api/v1alpha1/adaptive.go:25-37 | the loop computes the pruned, capped ring |
| `KeepWarm.BuildsInWindow` | api/v1alpha1/adaptive.go:40-48 | the loop counts the entries within 24h |
| `KeepWarm.WithinCounts` | api/v1alpha1/adaptive.go:40-48 | exactly the recorded times at most 24 hours old are counted, each as often as it occurs |
| `KeepWarm.RingIsSuffix` | api/v1alpha1/adaptive.go:23-37 | from any ring, after any nondecreasing builds the ring is the recent suffix of the full history that fits the cap |
| `KeepWarm.RingCountsLikeHistory` | api/v1alpha1/adaptive.go:23-48 | at any later time the ring counts min(30, builds of the last 24h), those it started with included |
| `KeepWarm.WantedExactlyWhen` | internal/controller/buildproject_controller.go:442-477 | one replica is wanted iff hot, or a build is in flight, or quiet for less than the spec window, or (no fork) for less than both the adaptive cap and n windows, n being the builds of the last 24h |
| `KeepWarm.RingWindowIsExact` | internal/controller/buildproject_controller.go:463-477 | the idle window from the ring equals the one from the unbounded history iff 30 windows reach the cap, or at most 30 builds, or adaptivity is off |
| `KeepWarm.WindowNeverGrows` | internal/controller/buildproject_controller.go:463-477 | with no new build the effective window never grows |
| `KeepWarm.ClosedStaysClosed` | internal/controller/buildproject_controller.go:442-455 | once zero replicas are wanted they stay wanted |
| `KeepWarm.Recheck` | internal/controller/buildproject_controller.go:507-519 | the re-check interval lies between 30s and the larger of 30s and a sixth of the window |
| `KeepWarm.RecheckIsTight` | internal/controller/buildproject_controller.go:507-519 | the re-check is no later than five seconds after the window it sees, and no sooner than that or a sixth of the window, down to 30s |
| `KeepWarm.DrainsToZero` | internal/controller/buildproject_controller.go:442-519 | with nothing in flight, any series of passes long enough for what the window had left reaches zero replicas, however close together the passes come |
| `KeepWarm.PassesAreBounded` | internal/controller/buildproject_controller.go:507-519 | passes that all find the window open, any positive gap apart, are fewer than fit into what the window had left |
| `KeepWarm.OvershootIsBounded` | internal/controller/buildproject_controller.go:501-519 | on any schedule that comes back no later than asked, the final pass comes less than max(30s, window/6) after the window closed |
| `S3Cadence.StatusBackend.S3CacheDecision` | internal/provisioner/k8s/k8s.go:307-360 | the answer and the cadence clock when every API call succeeds |
| `S3Cadence.MemoryBackend.S3CacheDecision` | internal/provisioner/local/local.go:356-386 | the answer and the cadence clock, for a known and an unknown project |
| `S3Cadence.EveryAnswerFollowsPolicy` | internal/provisioner/k8s/k8s.go:307-360 | in every run of either backend: never neither imports nor exports, always does both, cadence imports and exports iff the call may grant and the interval is off or has passed since the last granted export |
| `S3Cadence.ClockIsLastGrant` | internal/provisioner/k8s/k8s.go:342-359 | the cadence clock is the instant of the last granted export, in whole seconds in the status, and moves on nothing else |
| `S3Cadence.StatusIsMemoryOnStoredTime` | internal/provisioner/k8s/k8s.go:326-359 | for whole-second intervals the status-based backend is the in-memory one run at truncated instants: same answers, same clock |
| `S3Cadence.BackendsAgree` | internal/provisioner/local/local.go:354-386 | on a clock of whole seconds the two give the same answers and keep the same clock over any series of calls |
| `S3Cadence.BackendsAgreeExactlyWhen` | internal/provisioner/local/local.go:354-386 | at arbitrary instants they agree over a series iff no call falls in the part of a second by which the stored stamp is too old |
| `S3Cadence.BackendsDifferWithinASecond` | internal/provisioner/k8s/k8s.go:342-347 | a series of two calls they answer differently |
| `ClientHello.ScanNames` | cmd/gateway/sni.go:92-103 | the inner loop finds the first host_name or the truncation |
| `ClientHello.ScanExtensions` | cmd/gateway/sni.go:77-106 | the outer loop finds the first host_name over the server_name extensions |
| `ClientHello.SniFromClientHello` | cmd/gateway/sni.go:39-107 | the cursor loops compute the specified parse of any bytes, errors included |
| `ClientHello.PeekClientHelloSni` | cmd/gateway/sni.go:18-36 | exactly one record is consumed and returned for replay; unless the stream ends early, replayed plus unread bytes are the stream; a short stream yields the padded buffer |
| `ClientHello.NamesRoundTrip` | cmd/gateway/sni.go:92-103 | parsing an encoded name list gives its first host_name |
| `ClientHello.ExtensionsRoundTrip` | cmd/gateway/sni.go:77-106 | parsing an encoded extensions block gives its first host_name, or no-SNI iff there is none |
| `ClientHello.HelloRoundTrip` | cmd/gateway/sni.go:39-107 | the parser undoes the encoder on every well-formed ClientHello, whatever bytes follow |
| `ClientHello.TrailerNeverChangesSni` | cmd/gateway/sni.go:69-76 | on any bytes, appending never changes a successful parse |
| `ClientHello.AcceptsOnlyClientHellos` | cmd/gateway/sni.go:23-42 | only a handshake record of 1 to 18432 bytes, there in full and holding a ClientHello, is accepted |
| `Gateway.BackendFor` | cmd/gateway/main.go:165-178 | the first configured domain that matches decides, with both rejections |
| `Gateway.BackendStaysInNamespace` | cmd/gateway/main.go:162-178 | an accepted SNI is a daemon name before a configured domain, and goes to that daemon in the gateway's own namespace |
| `Gateway.DomainMatches` | cmd/gateway/main.go:166-170 | on an advertised host a domain matches iff it is the gateway's own or a proper dot-suffix of it |
| `Gateway.AdvertisedHostIsRoutedExactlyWhen` | cmd/gateway/main.go:165-178 | an advertised host reaches exactly its key's service iff no earlier configured domain is a proper dot-suffix of its own |
| `Gateway.EndpointDialsAdvertisedHost` | internal/provisioner/k8s/k8s.go:151-160 | the host dialed from the advertised endpoint is the key's gateway host name |
| `Gateway.EndpointDialsPort` | internal/provisioner/k8s/k8s.go:151-160 | the port dialed is the gateway's when one is configured, the daemon's otherwise |
| `Gateway.EndpointDialsService` | internal/router/router.go:187-195 | without a gateway the daemon's in-cluster service is dialed |
| `Gateway.Handle` | cmd/gateway/main.go:122-160 | the backend chosen from the peeked SNI, and for an accepted connection replayed plus unread bytes equal the stream |
| `Gateway.RecordRoundTrip` | cmd/gateway/sni.go:18-36 | peeking an encoded record yields its SNI, whatever follows on the stream |
| `Gateway.EndToEnd` | internal/provisioner/k8s/k8s.go:151-160 | for every canonical, fork and clone key the advertised endpoint, in any well-formed single-record ClientHello, leads to that key's service |
| `Strings.HalvingKeepsSingle` | internal/router/router.go:99-101 | one round of the slash rewrite keeps what the runs reduce to |
| `Strings.HalvingShortens` | internal/router/router.go:99-101 | each round shortens the text, so the loop terminates |
| `Router.IsAllDigits` | internal/router/router.go:106-113 | non-empty and every character a digit |
| `Router.DropPort` | internal/router/router.go:83-94 | a numeric port goes, with or without a path behind it; anything else stays |
| `Router.CollapseSlashes` | internal/router/router.go:98-101 | the loop reduces every run of slashes to one |
| `Router.NormalizeRepo` | internal/router/router.go:69-103 | the step-by-step rewrite computes the specified normalization of any string |
| `Router.OutputIsClean` | internal/router/router.go:66-103 | every output is lower case and holds neither a colon nor a double slash |
| `Router.FixedPointsAreNormalForms` | internal/router/router.go:66-103 | the fixed points are exactly the strings no step touches |
| `Router.IdempotentExactlyWhen` | internal/router/router.go:66-103 | a second round changes nothing iff the first left no outer space, user part or tail to trim |
| `Router.NotIdempotent` | internal/router/router.go:96-96 | `x.git.git` takes two rounds |
| `Convergence.SpellingsConverge` | internal/router/router.go:66-103 | every listed scheme, user, port, scp form, .git, slash, letter case and surrounding space of a well-formed host and path normalizes to host/path |
| `Convergence.CanonicalIsFixed` | internal/router/router.go:66-103 | host/path is itself a fixed point |
| `Convergence.SpellingsAreIdempotent` | internal/router/router.go:66-103 | on every such spelling a second round changes nothing |
| `Convergence.CanonicalIsInjective` | internal/router/router.go:66-103 | different hosts or paths stay different |
| `Keys.CaseAndSpaceMeanNothing` | internal/router/router.go:115-140 | letter case and surrounding space mean nothing in a name, target or architecture |
| `Keys.TargetsAgreeExactlyWhen` | internal/router/router.go:116-122 | targets agree iff equal after trimming, the empty one being the default one |
| `Keys.ArchesAgreeExactlyWhen` | internal/router/router.go:130-140 | architectures agree iff equal after trimming, or both names of amd64, or both of arm64 |
| `Keys.SeedsAgreeExactlyWhen` | internal/router/router.go:147-152 | NUL-free requests hash the same seed iff normalized repo, name, target and arch agree |
| `Keys.KeysAgreeExactlyWhen` | internal/router/router.go:142-155 | so they share a key iff they are of one project, as far as the digest does not collide |
| `Keys.SameKeyExactlyWhen` | internal/router/router.go:142-155 | two requests share a key iff repository, name, target and architecture are the same in these senses, as far as the digest does not collide |
| `Keys.UnnamedSeedIsOld` | internal/router/router.go:145-152 | a request without a name keeps the seed it had before names existed |
| `Keys.KeysNeverCollide` | internal/router/router.go:163-179 | canonical, fork and clone keys are pairwise distinct and injective, and only fork keys read as forks |
| `Keys.KeysAreLabels` | internal/router/router.go:157-179 | keys hold only lower-case letters and digits |
| `Keys.CachePVCNameIsInjective` | internal/router/router.go:181-185 | volume names agree iff keys do |
| `Keys.Namespace.Sweep` | internal/controller/pvc_sweeper.go:68-109 | the sweep deletes exactly the volumes its listing, however stale, shows as aged, non-terminating cache volumes with no listed project and the API server agrees to delete; one that is gone already is passed over |
| `Keys.OrphanExactlyWhen` | internal/controller/pvc_sweeper.go:76-108 | a project's volume is an orphan iff the project is not listed, the volume is not terminating and its grace is over |
| `Keys.OnlyCacheVolumesAreSwept` | internal/controller/pvc_sweeper.go:45-50 | only cache volumes past the grace, ten minutes unless configured, and not terminating, are swept |
| `AutoGrow.TargetExactly` | internal/controller/autogrow.go:108-129 | the target is non-zero iff below quota, past the threshold and stepping up; then above the current size and at most the quota |
| `AutoGrow.DecisionIsSound` | internal/controller/autogrow.go:173-224 | a grow is above both sizes and within quota, an expansion in flight decides nothing, and the guard against the request never fires |
| `AutoGrow.DecisionExactly` | internal/controller/autogrow.go:136-224 | a pass grows iff it can decide, usage is at or past the threshold and the size below quota, to the step times the current size rounded up, quota at most; and records iff it does not grow and the claim is larger than recorded |
| `AutoGrow.CacheVolume.RecordSpecGi` | internal/controller/autogrow.go:244-259 | the recorded size only ever rises |
| `AutoGrow.CacheVolume.MaybeAutoGrow` | internal/controller/autogrow.go:136-241 | one pass writes its decision, claim first, and nothing below what is stored |
| `AutoGrow.EventNeverShrinks` | internal/controller/autogrow.go:173-259 | no pass and no hand growth lowers the request or the recorded size; an automatic raise is at least one Gi and within quota |
| `AutoGrow.DecisionIsCarriedOut` | internal/controller/autogrow.go:226-259 | a decision whose writes succeed is stored, claim first; without the claim nothing is |
| `AutoGrow.RunNeverShrinks` | internal/controller/autogrow.go:173-259 | nor does any run, with stale readings and failing writes |
| `AutoGrow.GrowthIsBounded` | internal/controller/autogrow.go:108-129 | without hand edits at most quota minus start raises, ever |
| `AutoGrow.ProbeGate.Allow` | internal/controller/autogrow.go:93-104 | due iff the interval has passed for that key, and recorded only then |
| `AutoGrow.AllowedIsRemembered` | internal/controller/autogrow.go:93-104 | after an allowed call the gate's record of that key never falls back behind it, whatever other keys are called |
| `AutoGrow.AllowedAreApart` | internal/controller/autogrow.go:85-104 | two calls of a series that the gate allows for one project are at least the interval apart, however calls for other projects interleave |
| `Fanout.CloneSet.ReconcileFanout` | internal/controller/buildproject_controller.go:711-773 | the clones one pass leaves under a cache that may lag, deferral exactly when a listed surplus clone is busy, failure exactly when a clone it finds missing exists after all |
| `Fanout.OnePassConverges` | internal/controller/buildproject_controller.go:711-773 | with a snapshot, no busy surplus and a cache that has caught up, one pass does not fail and leaves exactly clones 1..Fanout |
| `Fanout.SecondPassIsNoop` | internal/controller/buildproject_controller.go:711-773 | a second pass changes nothing once the cache shows what the first left |
| `Fanout.BusySurplusSurvives` | internal/controller/buildproject_controller.go:728-745 | however stale the listing, no wanted and no busy clone is pruned; a listed busy surplus clone is reported |
| `Fanout.NothingToSeedFrom` | internal/controller/buildproject_controller.go:747-749 | without a snapshot, or with fan-out off, no clone is created |
| `Fanout.WantedSize` | internal/router/router.go:175-179 | the wanted clones have Fanout different names |
| `Fanout.OthersAreNotWanted` | internal/router/router.go:163-179 | no key of another project or role is a wanted clone name |
| `LocalBackend.Provisioner.StartInflight` | internal/provisioner/local/local.go:303-309 | registers the build and stamps the last build, for that key alone |
| `LocalBackend.Provisioner.EndInflight` | internal/provisioner/local/local.go:313-324 | releases what the token names and says so; otherwise leaves the state alone |
| `LocalBackend.Provisioner.Touch` | internal/provisioner/local/local.go:327-331 | keeps the project off the idle loop for a whole timeout and changes nothing in flight, for it or any other project |
| `LocalBackend.Provisioner.Reconcile` | internal/provisioner/local/local.go:399-423 | the loop expires every project once and picks exactly the idle ones to stop and exactly the due canonical ones to snapshot |
| `LocalBackend.ExpireExactly` | internal/provisioner/local/local.go:409-411 | a pass leaves in flight exactly the entries not older than the window in seconds, if there is one, and changes nothing else |
| `LocalBackend.IdleExactlyWhen` | internal/provisioner/local/local.go:412-416 | a project is picked iff not hot, built once, quiet for longer than the timeout, and all in flight has outlived the window |
| `LocalBackend.SnapshotExactlyWhen` | internal/provisioner/local/local.go:416-421 | a snapshot is taken iff enabled, no fork, not hot, built once, and past the interval |
| `LocalBackend.Provisioner.SnapshotTaken` | internal/provisioner/local/local.go:442-455 | a snapshot restarts the interval of that project, if it still exists, and changes nothing else |
| `LocalBackend.IdleSparesLiveBuilds` | internal/provisioner/local/local.go:405-415 | a project with a build inside its window is never picked |
| `LocalBackend.HandleRoute` | cmd/buildd/route.go:131-211 | registers, and releases on every path that ends without a response |
| `LocalBackend.FailedRouteLeavesNothing` | cmd/buildd/route.go:174-184 | a failed route gives back the in-flight set iff it was below the cap; at the cap it costs the oldest entry |
| `LocalBackend.EventBalances` | cmd/buildd/route.go:162-332 | each event keeps the set equal to the outstanding tokens; a duplicate or unknown release changes nothing |
| `LocalBackend.EventStamps` | internal/provisioner/local/local.go:303-324 | routes and the releases that find their build stamp the last build, nothing else does |
| `LocalBackend.TokensAreConserved` | cmd/buildd/route.go:162-332 | after any run with distinct tokens and at most 64 outstanding the set is exactly the outstanding tokens, each with its own date |

## Left out

- Kubernetes object rendering, Services, disruption budgets, Helm and YAML: data construction with no hard property.
- Creation of a StatefulSet, status phases and conditions: one-branch facts that would only add easy members.
- A pod template is one field here: how a merge patch from a stale copy mixes the fields inside two templates is not modelled.
- The birth window of a fresh fork (90s): a fork is reaped here whenever its confirming read is empty, which covers the code's later reaps too.
- Errors of the API server other than conflict and not-found end the operation early and are not modelled, except where a member has a parameter for them; an update that lands but reports failure is assumed not to happen.
- Time between the cadence check and the grant stamp: one instant stands for both.
- 32-bit widths of counts, ports and sizes, and overflow of nanosecond durations.
- Case folding outside ASCII, and bytes that are not valid text.
- OIDC, bearer tokens, rate limiting and the authorization rules of /complete: they depend on libraries that are not part of this model.
- Waiting for a cold start: the route handler's outcome is a parameter, and the semaphore is not modelled.
- Stopping a host instance after the lock is released, and ZFS and Incus operations: I/O.
- Byte piping, half-close, connection limits and deadlines of the gateway: only what is consumed and replayed is modelled.
- A ClientHello split over several records is rejected by the source; only its rejection is modelled.
- Snapshot cadence of the reconciler and snapshot pruning: the requeue takes the snapshot deadline as given.
- A build registered between a takedown's direct read and the takedown itself is not protected by the source either; the theorems are about builds registered before the read.
