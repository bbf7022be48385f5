/**
 What holds in every run of the lease protocol, however its replicas and reconcile passes interleave
 and however stale their cached reads are.
 */
module Safety {
  import opened Base
  import opened Inflight
  import opened KeepWarm
  import opened S3Cadence
  import opened Lease
  import opened Cluster
  import Rollout

  /** The stored set is chronological and holds at most 64 entries in every version of every run; and
      from a version whose count matches its entries on, every count does. */
  lemma StoredSetIsWellFormed(cfg: Config, w: World, i: nat, j: nat)
    requires Reached(cfg, w) && i <= j < |w.store.history|
    ensures var st := w.store.history[j].status;
      && Chronological(st.inflight) && |st.inflight| <= 64
      && (forall b | b in st.inflight :: b.since <= w.store.clock)
      && (w.store.history[i].status.inflightBuilds == |w.store.history[i].status.inflight|
          ==> st.inflightBuilds == |st.inflight|)
  {
    ReachedHistory(cfg, w);
    assert Good(w.store.history[j].status, w.store.clock);
    if w.store.history[i].status.inflightBuilds == |w.store.history[i].status.inflight| {
      CountsMatch(cfg, w.store, i, j);
    }
  }

  lemma {:induction false} CountsMatch(cfg: Config, s: Store, i: nat, j: nat)
    requires HistoryOk(cfg, s) && i <= j < |s.history|
    requires s.history[i].status.inflightBuilds == |s.history[i].status.inflight|
    ensures s.history[j].status.inflightBuilds == |s.history[j].status.inflight|
    decreases j - i
  {
    if i < j {
      assert Linked(cfg, s.history, s.writes, i);
      ApplyKeepsGood(cfg, s.writes[i], s.history[i]);
      CountsMatch(cfg, s, i + 1, j);
    }
  }

  // -------------------------------------------------------------- no lost update

  /** Applying writes one after the other, alone. */
  function Replay(cfg: Config, o: Object, writes: seq<Write>): Option<Object> {
    if writes == [] then Some(o)
    else
      match Replay(cfg, o, writes[..|writes| - 1])
      case None => None
      case Some(p) => Apply(cfg, writes[|writes| - 1], p)
  }

  lemma {:induction false} ReplayPrefix(cfg: Config, s: Store, n: nat)
    requires HistoryOk(cfg, s) && n < |s.history|
    ensures Replay(cfg, s.history[0], s.writes[..n]) == Some(s.history[n])
  {
    if n > 0 {
      ReplayPrefix(cfg, s, n - 1);
      assert s.writes[..n][..n - 1] == s.writes[..n - 1];
      LinkApplies(cfg, s, n - 1);
    }
  }

  lemma LinkApplies(cfg: Config, s: Store, k: nat)
    requires HistoryOk(cfg, s) && k < |s.writes|
    ensures Apply(cfg, s.writes[k], s.history[k]) == Some(s.history[k + 1])
  {
    assert Linked(cfg, s.history, s.writes, k);
  }

  /** No successful update is lost: whatever the interleaving, the stored object is what the successful
      writes give when they run one after the other with nobody else around. */
  lemma NoLostUpdate(cfg: Config, w: World)
    requires Reached(cfg, w)
    ensures w.store.history != []
    ensures Replay(cfg, w.store.history[0], w.store.writes) == Some(Last(w.store))
  {
    ReachedHistory(cfg, w);
    ReplayPrefix(cfg, w.store, |w.store.writes|);
    assert w.store.writes[..|w.store.writes|] == w.store.writes;
  }

  // ------------------------------------------------------ entries leave for a reason

  /** Some write between versions i and j removed e, for one of the four reasons. */
  ghost predicate LeftBetween(cfg: Config, s: Store, i: nat, j: nat, e: Build)
    requires |s.history| == |s.writes| + 1 && j < |s.history|
  {
    exists k :: i <= k < j && Leaves(cfg, s.history[k], s.writes[k], s.history[k + 1], e)
  }

  lemma {:induction false} LeavesForAReason(cfg: Config, s: Store, i: nat, j: nat, e: Build)
    requires HistoryOk(cfg, s) && i <= j < |s.history|
    requires e in s.history[i].status.inflight && e !in s.history[j].status.inflight
    ensures LeftBetween(cfg, s, i, j, e)
    decreases j - i
  {
    assert Linked(cfg, s.history, s.writes, i);
    if e in s.history[i + 1].status.inflight {
      LeavesForAReason(cfg, s, i + 1, j, e);
    } else {
      DepartureHasReason(cfg, s.writes[i], s.history[i], e);
    }
  }

  /** A registered build stays on the set until it is released by its own token, is the oldest when an
      unnamed release comes, outlives the window, or is pushed out by 64 entries no older than it. */
  lemma RegisteredUntilReleased(cfg: Config, w: World, k: nat, j: nat)
    requires Reached(cfg, w) && k < j < |w.store.history|
    requires k < |w.store.writes| && w.store.writes[k].op.Start?
    ensures |w.store.history| == |w.store.writes| + 1
    ensures var e := Build(Digest(w.store.writes[k].op.token), w.store.writes[k].now);
      e in w.store.history[j].status.inflight || LeftBetween(cfg, w.store, k + 1, j, e)
  {
    ReachedHistory(cfg, w);
    var s := w.store;
    assert Linked(cfg, s.history, s.writes, k);
    StartRegisters(cfg, s.writes[k], s.history[k]);
    var e := Build(Digest(s.writes[k].op.token), s.writes[k].now);
    if e !in s.history[j].status.inflight {
      LeavesForAReason(cfg, s, k + 1, j, e);
    }
  }

  // --------------------------------------------------------- nothing cuts a live build

  /** Version i was stored before the given step of the run. */
  predicate StoredBefore(s: Store, i: nat, step: nat) {
    i == 0 || (i <= |s.landed| && s.landed[i - 1] < step)
  }

  /** Takedown c cannot have cut build e of version i: it rests on a direct read, made in the same pass,
      of the version that was the last one at that step, by which e had left for a reason or expired; or
      the whole object was gone by the time of that read. */
  ghost predicate Spared(cfg: Config, w: World, c: nat, i: nat, e: Build)
    requires c < |w.cuts| && |w.store.history| == |w.store.writes| + 1
  {
    var r := w.cuts[c].read;
    && w.cuts[c].begun <= r.step <= w.cuts[c].step && r.at <= w.cuts[c].now
    && match r.version
       case None => WasGone(w.store, r.step)
       case Some(m) =>
         && i <= m < |w.store.history| && WasLast(w.store, m, r.step) && !WasGone(w.store, r.step)
         && (LeftBetween(cfg, w.store, i, m, e) || Outlived(cfg, e.since, r.at))
  }

  /** Build e was stored on version i before the read behind takedown c. */
  predicate StoredFirst(w: World, c: nat, i: nat, e: Build) {
    && c < |w.cuts| && i < |w.store.history|
    && e in w.store.history[i].status.inflight && StoredBefore(w.store, i, w.cuts[c].read.step)
  }

  /** Every scale-to-zero, fork reap, clone prune and resize bounce of every run spares every build that
      was stored before its read and neither left nor expired. */
  lemma TakedownSparesLiveBuilds(cfg: Config, w: World, c: nat, i: nat, e: Build)
    requires Reached(cfg, w) && StoredFirst(w, c, i, e)
    ensures |w.store.history| == |w.store.writes| + 1 && Spared(cfg, w, c, i, e)
  {
    ReachedCut(cfg, w, c);
    var s, r := w.store, w.cuts[c].read;
    if r.version.Some? {
      var m := r.version.value;
      assert i > 0 ==> (s.landed[i - 1] < r.step <==> i - 1 < m);
      if e in s.history[m].status.inflight {
        LiveExactlyWhen(cfg, s.history[m].status, r.at, e);
      } else {
        LeavesForAReason(cfg, s, i, m, e);
      }
    }
  }

  /** Takedown c spares every build stored before its read. */
  ghost predicate SparesAll(cfg: Config, w: World, c: nat)
    requires c < |w.cuts|
  {
    |w.store.history| == |w.store.writes| + 1 && forall i: nat, e | StoredFirst(w, c, i, e) :: Spared(cfg, w, c, i, e)
  }

  lemma TakedownSparesAll(cfg: Config, w: World, c: nat)
    requires Reached(cfg, w) && c < |w.cuts|
    ensures SparesAll(cfg, w, c)
  {
    ReachedHistory(cfg, w);
    forall i: nat, e | StoredFirst(w, c, i, e) ensures Spared(cfg, w, c, i, e) {
      TakedownSparesLiveBuilds(cfg, w, c, i, e);
    }
  }

  /** Whenever a stored version of the daemon goes to zero replicas, in any run, a scale-to-zero that
      spares every such build was behind it. */
  lemma ZeroReplicasSpareLiveBuilds(cfg: Config, w: World, v: nat) returns (c: nat)
    requires Reached(cfg, w) && v + 1 < |w.daemons| && v < |w.patched|
    requires w.daemons[v].replicas != 0 && w.daemons[v + 1].replicas == 0
    ensures c < |w.cuts| && w.cuts[c].kind == ScaleToZero && w.cuts[c].step == w.patched[v] && SparesAll(cfg, w, c)
  {
    ReachedLogs(cfg, w);
    assert PatchLogged(w, v);
    c :| 0 <= c < |w.cuts| && w.cuts[c].kind == ScaleToZero && w.cuts[c].step == w.patched[v];
    TakedownSparesAll(cfg, w, c);
  }

  /** Whenever the object is lost, and not to somebody else's delete, a fork reap or a clone prune that
      spares every such build was behind it. */
  lemma LostObjectSparesLiveBuilds(cfg: Config, w: World) returns (c: nat)
    requires Reached(cfg, w) && !w.store.present && w.store.gone !in w.deletes
    ensures c < |w.cuts| && (w.cuts[c].kind == ForkReap || w.cuts[c].kind == ClonePrune)
    ensures w.cuts[c].step == w.store.gone && SparesAll(cfg, w, c)
  {
    ReachedLogs(cfg, w);
    var kind := if CutAt(w.cuts, ForkReap, w.store.gone) then ForkReap else ClonePrune;
    assert CutAt(w.cuts, kind, w.store.gone);
    c :| 0 <= c < |w.cuts| && w.cuts[c].kind == kind && w.cuts[c].step == w.store.gone;
    TakedownSparesAll(cfg, w, c);
  }

  /** Every scale-to-zero and every fork reap was decided on a stored version that was not hot, had no
      build within the window, and had been quiet for its whole idle window: the spec's, and for a project
      that is no fork also n times that or the adaptive cap, whichever is sooner, n being its recorded
      builds of the last 24 hours. */
  lemma TakedownWasIdle(cfg: Config, w: World, c: nat)
    requires Reached(cfg, w) && c < |w.cuts| && (w.cuts[c].kind.ScaleToZero? || w.cuts[c].kind.ForkReap?)
    ensures w.cuts[c].idle.Some? && w.cuts[c].idle.value.version < |w.store.history|
    ensures var Idle(v, at) := w.cuts[c].idle.value;
      var o := w.store.history[v];
      && at <= w.cuts[c].read.at && !o.spec.hot
      && (forall b | b in o.status.inflight :: Outlived(cfg, b.since, at))
      && (o.spec.idle > 0 && o.status.lastBuild.Some? ==>
            var quiet, n := at - o.status.lastBuild.value, |Within(o.status.recent, at)|;
            quiet >= o.spec.idle && (cfg.fork || quiet >= Min(cfg.adaptiveMax, n * o.spec.idle)))
  {
    ReachedCut(cfg, w, c);
    var Idle(v, at) := w.cuts[c].idle.value;
    var o := w.store.history[v];
    WantedExactlyWhen(ProjectOf(cfg, o), ReconciledLive(cfg, o.status, at), at, cfg.adaptiveMax);
    forall b | b in o.status.inflight ensures Outlived(cfg, b.since, at) {
      LiveExactlyWhen(cfg, o.status, at, b);
    }
  }

  /** In particular a build whose registration landed before the read. */
  lemma TakedownSparesRegisteredBuild(cfg: Config, w: World, c: nat, k: nat)
    requires Reached(cfg, w) && c < |w.cuts| && k < |w.store.writes| && k < |w.store.landed|
    requires w.store.writes[k].op.Start? && w.store.landed[k] < w.cuts[c].read.step
    ensures |w.store.history| == |w.store.writes| + 1
    ensures Spared(cfg, w, c, k + 1, Build(Digest(w.store.writes[k].op.token), w.store.writes[k].now))
  {
    ReachedHistory(cfg, w);
    var s := w.store;
    assert Linked(cfg, s.history, s.writes, k);
    StartRegisters(cfg, s.writes[k], s.history[k]);
    TakedownSparesLiveBuilds(cfg, w, c, k + 1, Build(Digest(s.writes[k].op.token), s.writes[k].now));
  }

  /** An upgrade that lands mid-build does not read as idle: no takedown rests on a bare count whose
      last build is still within the window, on the version that was the last when it was confirmed. */
  lemma TakedownSparesLegacyCount(cfg: Config, w: World, c: nat)
    requires Reached(cfg, w) && c < |w.cuts| && w.cuts[c].read.version.Some?
    ensures var r := w.cuts[c].read;
      && r.version.value < |w.store.history| && WasLast(w.store, r.version.value, r.step)
      && var st := w.store.history[r.version.value].status;
         st.inflight == [] && st.inflightBuilds > 0 && st.lastBuild.Some? ==> Outlived(cfg, st.lastBuild.value, r.at)
  {
    ReachedCut(cfg, w, c);
    var s, r := w.store, w.cuts[c].read;
    var st := s.history[r.version.value].status;
    if Legacy(st) {
      LegacyIsLive(cfg, st, r.at);
    }
  }

  lemma LegacyIsLive(cfg: Config, st: Status, now: int)
    requires Good(st, now) && Legacy(st) && ReconciledLive(cfg, st, now) == []
    ensures Outlived(cfg, st.lastBuild.value, now)
  {
    assert Adopt(st).inflight[0] in Adopt(st).inflight;
    LiveExactlyWhen(cfg, st, now, Adopt(st).inflight[0]);
  }

  /** Why a healthy daemon may be rolled. With nothing on the list used, a direct read made in the same
      pass found nothing live on the version that was the last at that step; otherwise every build on the
      list is older than an hour, or the hold outlasted the window. */
  predicate Justified(cfg: Config, s: Store, r: Roll) {
    && (r.list == [] ==>
          && r.read.Some? && ReadOk(cfg, s, r.read.value)
          && r.begun <= r.read.value.step && r.read.value.live == [])
    && (r.list != [] ==>
          || (forall b | b in r.list :: r.now - b.since > HOUR)
          || (r.held.At? && Outlived(cfg, r.held.time, r.now)))
  }

  /** Every roll of every run onto a healthy daemon is justified. */
  lemma RollsAreJustified(cfg: Config, w: World, i: nat)
    requires Reached(cfg, w) && i < |w.rolls| && !w.rolls[i].wedged
    ensures Justified(cfg, w.store, w.rolls[i])
  {
    ReachedRoll(cfg, w, i);
  }

  /** Whenever a stored version of the daemon has another template than the one before, a roll was behind
      it: onto a wedged daemon, or justified. */
  lemma TemplateChangeIsJustified(cfg: Config, w: World, v: nat) returns (i: nat)
    requires Reached(cfg, w) && v + 1 < |w.daemons| && v < |w.patched|
    requires w.daemons[v].template != w.daemons[v + 1].template
    ensures i < |w.rolls| && w.rolls[i].step == w.patched[v]
    ensures w.rolls[i].wedged || Justified(cfg, w.store, w.rolls[i])
  {
    ReachedLogs(cfg, w);
    assert PatchLogged(w, v);
    i :| 0 <= i < |w.rolls| && w.rolls[i].step == w.patched[v];
    if !w.rolls[i].wedged {
      RollsAreJustified(cfg, w, i);
    }
  }

  /** A pass of this run withheld its template at the instant of the stamp, before the given step. */
  ghost predicate HeldBefore(w: World, stamp: Rollout.Stamp, step: nat) {
    stamp.At? && exists h | h in w.holds :: h.now == stamp.time && h.step < step
  }

  /** A healthy daemon is rolled under a build younger than an hour only after a hold: some earlier pass
      of the run withheld a template more than max-build-age before (or the daemon came with such a stamp). */
  lemma CapFollowsAHold(cfg: Config, w: World, i: nat, young: Build)
    requires Reached(cfg, w) && i < |w.rolls| && !w.rolls[i].wedged
    requires young in w.rolls[i].list && w.rolls[i].now - young.since <= HOUR
    ensures var r := w.rolls[i];
      && w.daemons != [] && r.held.At? && Outlived(cfg, r.held.time, r.now)
      && (r.held == w.daemons[0].held || HeldBefore(w, r.held, r.step))
  {
    ReachedRoll(cfg, w, i);
    var r := w.rolls[i];
    if r.held != w.daemons[0].held {
      var j :| 0 <= j < |w.holds| && w.holds[j].now == r.held.time && w.holds[j].step < r.step;
      assert w.holds[j] in w.holds;
    }
  }

  // ----------------------------------------------------------------- the S3 election

  lemma GrantStamps(cfg: Config, write: Write, o: Object)
    requires Apply(cfg, write, o).Some?
    ensures Apply(cfg, write, o).value.status.lastGrant
      == if write.op.Grant? then Some(Stored(write.now)) else o.status.lastGrant
    ensures write.op.Grant? ==> Due(o.status.lastGrant, write.now, write.op.interval)
  {
  }

  lemma {:induction false} GrantIsRemembered(cfg: Config, s: Store, i: nat, j: nat)
    requires HistoryOk(cfg, s) && i < j < |s.history| && s.writes[i].op.Grant?
    ensures var g := s.history[j].status.lastGrant; g.Some? && Stored(s.writes[i].now) <= g.value
    decreases j
  {
    LinkStamps(cfg, s, j - 1);
    if i < j - 1 {
      GrantIsRemembered(cfg, s, i, j - 1);
      InOrder(cfg, s, i, j - 1);
      StoredIsMonotone(s.writes[i].now, s.writes[j - 1].now);
    }
  }

  lemma LinkStamps(cfg: Config, s: Store, k: nat)
    requires HistoryOk(cfg, s) && k < |s.writes|
    ensures s.history[k + 1].status.lastGrant
      == if s.writes[k].op.Grant? then Some(Stored(s.writes[k].now)) else s.history[k].status.lastGrant
    ensures s.writes[k].op.Grant? ==> Due(s.history[k].status.lastGrant, s.writes[k].now, s.writes[k].op.interval)
  {
    assert Linked(cfg, s.history, s.writes, k);
    GrantStamps(cfg, s.writes[k], s.history[k]);
  }

  lemma InOrder(cfg: Config, s: Store, i: nat, j: nat)
    requires HistoryOk(cfg, s) && i < j < |s.writes|
    ensures s.writes[i].now <= s.writes[j].now
  {
  }

  lemma StoredIsMonotone(t: int, t': int)
    requires t <= t'
    ensures Stored(t) <= Stored(t') && t - SECOND < Stored(t) <= t
  {
  }

  /** Across all replicas, two export grants stamped for one project are at least the interval of the
      later one apart, for whole-second intervals; a fractional interval can lose its fraction, never more. */
  lemma GrantsAreApart(cfg: Config, w: World, i: nat, j: nat)
    requires Reached(cfg, w) && i < j < |w.store.writes|
    requires w.store.writes[i].op.Grant? && w.store.writes[j].op.Grant?
    ensures var gap := Stored(w.store.writes[j].now) - Stored(w.store.writes[i].now);
      var interval := w.store.writes[j].op.interval;
      && gap > interval - SECOND
      && (interval % SECOND == 0 ==> gap >= interval)
  {
    ReachedHistory(cfg, w);
    var s := w.store;
    GrantIsRemembered(cfg, s, i, j);
    LinkStamps(cfg, s, j);
    StampsAreApart(s.writes[i].now, s.writes[j].now, s.writes[j].op.interval);
  }

  lemma StampsAreApart(t: int, t': int, interval: int)
    requires t' - Stored(t) >= interval
    ensures Stored(t') - Stored(t) > interval - SECOND
    ensures interval % SECOND == 0 ==> Stored(t') - Stored(t) >= interval
  {
    StoredIsMonotone(t', t');
    if interval % SECOND == 0 {
      DueOnWholeSeconds(Stored(t), t', interval);
    }
  }

  /** A fractional interval always can: a grant at zero and one exactly an interval later are both due,
      and their stamps are closer than the interval. */
  lemma FractionalIntervalLosesItsFraction(interval: int)
    requires interval > 0
    ensures var stamp := Stored(0);
      && Due(Some(stamp), interval, interval)
      && (Stored(interval) - stamp >= interval <==> interval % SECOND == 0)
  {
  }

  // ------------------------------------------------------------- the last build

  /** When the last build started, ended or was anticipated. */
  function LastStamp(first: Option<int>, writes: seq<Write>): Option<int> {
    if writes == [] then first
    else
      var w := writes[|writes| - 1];
      if w.op.Start? || w.op.End? || w.op.Touch? then Some(w.now)
      else LastStamp(first, writes[..|writes| - 1])
  }

  /** The spec as last edited. */
  function LastSpec(first: Spec, writes: seq<Write>): Spec {
    if writes == [] then first
    else
      var w := writes[|writes| - 1];
      if w.op.Edit? then w.op.spec else LastSpec(first, writes[..|writes| - 1])
  }

  lemma {:induction false} StampFollowsWrites(cfg: Config, s: Store, n: nat)
    requires HistoryOk(cfg, s) && n < |s.history|
    ensures s.history[n].status.lastBuild == LastStamp(s.history[0].status.lastBuild, s.writes[..n])
    ensures s.history[n].spec == LastSpec(s.history[0].spec, s.writes[..n])
  {
    if n > 0 {
      StampFollowsWrites(cfg, s, n - 1);
      assert s.writes[..n][..n - 1] == s.writes[..n - 1];
      LinkApplies(cfg, s, n - 1);
      StoredStamp(cfg, s.writes[n - 1], s.history[n - 1]);
    }
  }

  /** In every run the stored last build is the instant of the last route, release or prewarm that landed,
      and the stored spec the one last edited; neither is touched by anything else. */
  lemma LastBuildIsStamped(cfg: Config, w: World)
    requires Reached(cfg, w)
    ensures w.store.history != []
    ensures Last(w.store).status.lastBuild == LastStamp(w.store.history[0].status.lastBuild, w.store.writes)
    ensures Last(w.store).spec == LastSpec(w.store.history[0].spec, w.store.writes)
  {
    ReachedHistory(cfg, w);
    var s := w.store;
    StampFollowsWrites(cfg, s, |s.writes|);
    assert s.writes[..|s.writes|] == s.writes;
  }

  /** So a project routed, released or prewarmed less than its idle window ago is wanted at one replica. */
  lemma FreshProjectIsWanted(cfg: Config, w: World, now: int)
    requires Reached(cfg, w) && w.store.history != []
    requires var stamp, idle := LastStamp(None, w.store.writes), Last(w.store).spec.idle;
      stamp.Some? && idle > 0 && now - stamp.value < idle
    ensures forall live :: DesiredReplicas(ProjectOf(cfg, Last(w.store)), live, now, cfg.adaptiveMax) == 1
  {
    LastBuildIsStamped(cfg, w);
    StampOverrides(w.store.history[0].status.lastBuild, w.store.writes);
    forall live ensures DesiredReplicas(ProjectOf(cfg, Last(w.store)), live, now, cfg.adaptiveMax) == 1 {
      WantedExactlyWhen(ProjectOf(cfg, Last(w.store)), live, now, cfg.adaptiveMax);
    }
  }

  lemma {:induction false} StampOverrides(first: Option<int>, writes: seq<Write>)
    ensures LastStamp(None, writes).Some? ==> LastStamp(first, writes) == LastStamp(None, writes)
  {
    if writes != [] {
      StampOverrides(first, writes[..|writes| - 1]);
    }
  }

  // ------------------------------------------------------------- the cadence ring

  /** When the routed builds were registered. */
  function StartTimes(writes: seq<Write>): seq<int> {
    if writes == [] then []
    else
      var front, last := StartTimes(writes[..|writes| - 1]), writes[|writes| - 1];
      if last.op.Start? then front + [last.now] else front
  }

  lemma {:induction false} StartTimesInOrder(writes: seq<Write>)
    requires forall i, j | 0 <= i < j < |writes| :: writes[i].now <= writes[j].now
    ensures NonDecreasing(StartTimes(writes))
    ensures writes != [] ==> forall t | t in StartTimes(writes) :: t <= writes[|writes| - 1].now
  {
    if writes != [] {
      var front := StartTimes(writes[..|writes| - 1]);
      StartTimesInOrder(writes[..|writes| - 1]);
      assert forall i | 0 <= i < |front| :: front[i] in front;
    }
  }

  lemma {:induction false} RingFollowsStarts(cfg: Config, s: Store, n: nat)
    requires HistoryOk(cfg, s) && !cfg.fork && n < |s.history|
    ensures s.history[n].status.recent == RecordAll(s.history[0].status.recent, StartTimes(s.writes[..n]))
  {
    if n > 0 {
      RingFollowsStarts(cfg, s, n - 1);
      assert s.writes[..n][..n - 1] == s.writes[..n - 1];
      var times, last := StartTimes(s.writes[..n - 1]), s.writes[n - 1].now;
      assert (times + [last])[..|times|] == times;
      LinkRecords(cfg, s, n - 1);
    }
  }

  lemma LinkRecords(cfg: Config, s: Store, k: nat)
    requires HistoryOk(cfg, s) && !cfg.fork && k < |s.writes|
    ensures var before, w := s.history[k].status.recent, s.writes[k];
      s.history[k + 1].status.recent == if w.op.Start? then Recorded(before, w.now) else before
  {
    assert Linked(cfg, s.history, s.writes, k);
    StoredRing(cfg, s.writes[k], s.history[k]);
  }

  lemma {:induction false} StartTimesAreLater(writes: seq<Write>, t: int)
    requires forall i | 0 <= i < |writes| :: t <= writes[i].now
    ensures forall x | x in StartTimes(writes) :: t <= x
  {
    if writes != [] {
      StartTimesAreLater(writes[..|writes| - 1], t);
    }
  }

  lemma JoinInOrder(a: seq<int>, b: seq<int>, t: int)
    requires NonDecreasing(a) && NonDecreasing(b) && (forall x | x in a :: x <= t) && (forall x | x in b :: t <= x)
    ensures NonDecreasing(a + b)
  {
    assert forall i | 0 <= i < |a| :: a[i] in a;
    assert forall i | 0 <= i < |b| :: b[i] in b;
  }

  /** The ring a run starts from is older than all it routes. */
  lemma FirstRingIsDated(cfg: Config, s: Store)
    requires HistoryOk(cfg, s)
    ensures RingDated(s.history[0].status.recent, if s.writes == [] then s.clock else s.writes[0].now)
  {
    assert Good(s.history[0].status, s.clock);
    if s.writes != [] {
      assert Linked(cfg, s.history, s.writes, 0);
    }
  }

  /** Such a ring, followed by the builds routed, is in order. */
  lemma BuildsInOrder(ring: seq<int>, writes: seq<Write>)
    requires forall i, j | 0 <= i < j < |writes| :: writes[i].now <= writes[j].now
    requires IsRing(ring) && (writes != [] ==> RingDated(ring, writes[0].now))
    ensures NonDecreasing(ring + StartTimes(writes))
  {
    if writes == [] {
      assert ring + StartTimes(writes) == ring;
    } else {
      StartTimesInOrder(writes);
      StartTimesAreLater(writes, writes[0].now);
      JoinInOrder(ring, StartTimes(writes), writes[0].now);
    }
  }

  lemma StartTimesAreOver(writes: seq<Write>, clock: int)
    requires forall i, j | 0 <= i < j < |writes| :: writes[i].now <= writes[j].now
    requires writes != [] ==> writes[|writes| - 1].now <= clock
    ensures var times := StartTimes(writes); times != [] ==> times[|times| - 1] <= clock
  {
    StartTimesInOrder(writes);
    var times := StartTimes(writes);
    assert times != [] ==> times[|times| - 1] in times;
  }

  lemma RingCountsStarts(cfg: Config, s: Store)
    requires HistoryOk(cfg, s)
    ensures var ring, times := s.history[0].status.recent, StartTimes(s.writes);
      |Within(RecordAll(ring, times), s.clock)| == Min(RECENT_CAP, |Within(ring + times, s.clock)|)
  {
    var ring := s.history[0].status.recent;
    FirstRingIsDated(cfg, s);
    BuildsInOrder(ring, s.writes);
    StartTimesAreOver(s.writes, s.clock);
    RingCountsLikeHistory(ring, StartTimes(s.writes), s.clock);
  }

  /** In every run the stored ring counts the builds of the last 24 hours, those it held at the start and
      those routed by all replicas together, up to its cap. */
  lemma RingCountsRoutedBuilds(cfg: Config, w: World)
    requires Reached(cfg, w) && !cfg.fork
    ensures w.store.history != []
    ensures |Within(Last(w.store).status.recent, w.store.clock)|
      == Min(30, |Within(w.store.history[0].status.recent + StartTimes(w.store.writes), w.store.clock)|)
  {
    ReachedHistory(cfg, w);
    LastRing(cfg, w.store);
    RingCountsStarts(cfg, w.store);
  }

  /** A fork's ring is never touched. */
  lemma {:induction false} ForkRingStands(cfg: Config, s: Store, n: nat)
    requires HistoryOk(cfg, s) && cfg.fork && n < |s.history|
    ensures s.history[n].status.recent == s.history[0].status.recent
  {
    if n > 0 {
      ForkRingStands(cfg, s, n - 1);
      assert Linked(cfg, s.history, s.writes, n - 1);
      StoredRing(cfg, s.writes[n - 1], s.history[n - 1]);
    }
  }

  lemma LastRing(cfg: Config, s: Store)
    requires HistoryOk(cfg, s) && !cfg.fork
    ensures Last(s).status.recent == RecordAll(s.history[0].status.recent, StartTimes(s.writes))
  {
    RingFollowsStarts(cfg, s, |s.writes|);
    assert s.writes[..|s.writes|] == s.writes;
  }
}
