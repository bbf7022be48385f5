/**
 The operations of the in-flight lease protocol on one stored object, and what each of them keeps.

 Every writer (a /route replica or the reconciler) reads some version of the object, computes a new
 one, and writes it back by compare-and-swap on the version. This module holds the computation each
 of them performs (internal/provisioner/k8s/k8s.go, internal/controller/buildproject_controller.go);
 module Cluster interleaves them.
 */
module Lease {
  import opened Base
  import opened Inflight
  import opened KeepWarm
  import opened S3Cadence

  /** maxBuildSeconds is the one --max-build-seconds value both the routing API and the reconciler are
      given; fork is IsForkKey of the object's immutable key. */
  datatype Config = Config(maxBuildSeconds: int, adaptiveMax: int, fork: bool)

  function MaxBuildAge(cfg: Config): (age: int)
    ensures age > 0
  {
    if cfg.maxBuildSeconds <= 0 then 2 * HOUR else cfg.maxBuildSeconds * SECOND
  }

  /** Something that began at since has outlived --max-build-seconds: two hours when the flag is unset. */
  predicate Outlived(cfg: Config, since: int, now: int) {
    if cfg.maxBuildSeconds > 0 then now - since > cfg.maxBuildSeconds * 1_000_000_000
    else now - since > 7_200_000_000_000
  }

  lemma OutlivedIsExpired(cfg: Config, b: Build, now: int)
    ensures Expired(b, now, MaxBuildAge(cfg)) <==> Outlived(cfg, b.since, now)
  {
  }

  datatype Spec = Spec(hot: bool, idle: int, policy: Policy)

  datatype Object = Object(spec: Spec, status: Status)

  function ProjectOf(cfg: Config, o: Object): Project {
    Project(o.spec.hot, cfg.fork, o.spec.idle, o.status.lastBuild, o.status.recent)
  }

  /** Provisioner.live: no expiry at all when the window is switched off. */
  function RoutedLive(cfg: Config, st: Status, now: int): seq<Build> {
    if cfg.maxBuildSeconds <= 0 then Adopt(st).inflight
    else Live(Adopt(st).inflight, now, MaxBuildAge(cfg))
  }

  /** The reconciler's view: adopt, then expire. */
  function ReconciledLive(cfg: Config, st: Status, now: int): seq<Build> {
    Live(Adopt(st).inflight, now, MaxBuildAge(cfg))
  }

  /** The in-flight part of the reconciler's status write. */
  function Synced(st: Status, expired: int, live: seq<Build>): Status {
    var adopted := Adopt(st);
    if expired > 0 || Legacy(st) || adopted.inflightBuilds != |live| then WithInflight(adopted, live) else adopted
  }

  datatype Op =
    | Start(token: string)
    | End(token: string)
    | Touch
    | Grant(interval: int)
    | Sync
    | Edit(spec: Spec)

  datatype Write = Write(op: Op, now: int)

  /** The in-flight list a write wants to store, before the cap. */
  function NextList(cfg: Config, w: Write, st: Status): seq<Build> {
    match w.op
    case Start(token) => RoutedLive(cfg, st, w.now) + [Build(Digest(token), w.now)]
    case End(token) => Released(RoutedLive(cfg, st, w.now), token, Some(w.now - cfg.maxBuildSeconds * SECOND))
    case Sync => ReconciledLive(cfg, st, w.now)
    case _ => st.inflight
  }

  /** The object a write wants to store, computed from the version it read; None writes nothing. */
  function Apply(cfg: Config, w: Write, o: Object): Option<Object> {
    var st := o.status;
    match w.op
    case Start(token) =>
      var st' := WithInflight(Adopt(st), Newest(NextList(cfg, w, st)));
      var recent := if cfg.fork then st.recent else Recorded(st.recent, w.now);
      Some(o.(status := st'.(recent := recent, lastBuild := Some(w.now))))
    case End(token) =>
      if ReleaseIndex(RoutedLive(cfg, st, w.now), token, Some(w.now - cfg.maxBuildSeconds * SECOND)) < 0 then None
      else Some(o.(status := WithInflight(Adopt(st), NextList(cfg, w, st)).(lastBuild := Some(w.now))))
    case Touch => Some(o.(status := st.(lastBuild := Some(w.now))))
    case Grant(interval) =>
      if o.spec.policy.Cadence? && interval > 0 && Due(st.lastGrant, w.now, interval)
      then Some(o.(status := st.(lastGrant := Some(Stored(w.now)))))
      else None
    case Sync =>
      var live := NextList(cfg, w, st);
      Some(o.(status := Synced(st, |Adopt(st).inflight| - |live|, live)))
    case Edit(spec) => Some(o.(spec := spec))
  }

  // ------------------------------------------------------------- what every write keeps

  predicate Dated(es: seq<Build>, t: int) {
    forall b | b in es :: b.since <= t
  }

  /** In order of registration, none later than t. */
  predicate Ordered(es: seq<Build>, t: int) {
    Chronological(es) && Dated(es, t)
  }

  predicate RingDated(ring: seq<int>, t: int) {
    IsRing(ring) && forall x | x in ring :: x <= t
  }

  /** The stored set is chronological, bounded, dated no later than t, and matches its count (a bare
      pre-entries count being the one exception); and so is the cadence ring. */
  predicate Good(st: Status, t: int) {
    && Chronological(st.inflight)
    && |st.inflight| <= INFLIGHT_CAP
    && Dated(st.inflight, t)
    && (st.inflightBuilds == |st.inflight| || st.inflight == [])
    && (st.lastBuild.Some? ==> st.lastBuild.value <= t)
    && (st.lastGrant.Some? ==> st.lastGrant.value <= t)
    && RingDated(st.recent, t)
  }

  lemma AdoptKeepsGood(st: Status, t: int)
    requires Good(st, t)
    ensures Good(Adopt(st), t)
    ensures Legacy(st) ==> Adopt(st).inflightBuilds == |Adopt(st).inflight|
  {
  }

  lemma RoutedLiveIsPart(cfg: Config, st: Status, now: int)
    requires Good(st, now)
    ensures var live, all := RoutedLive(cfg, st, now), Adopt(st).inflight;
      && |live| <= |all| <= INFLIGHT_CAP && Chronological(live) && Dated(live, now)
      && (forall b | b in live :: b in all)
      && (forall b | b in all :: b in live || Expired(b, now, MaxBuildAge(cfg)))
  {
    AdoptKeepsGood(st, now);
    LiveIsSuffix(Adopt(st).inflight, now, MaxBuildAge(cfg));
    LiveMembers(Adopt(st).inflight, now, MaxBuildAge(cfg));
  }

  lemma ReconciledLiveIsPart(cfg: Config, st: Status, now: int)
    requires Good(st, now)
    ensures var live, all := ReconciledLive(cfg, st, now), Adopt(st).inflight;
      && |live| <= |all| <= INFLIGHT_CAP && Chronological(live) && Dated(live, now)
      && (forall b :: b in live <==> b in all && !Expired(b, now, MaxBuildAge(cfg)))
      && (|live| == |all| ==> live == all)
  {
    AdoptKeepsGood(st, now);
    LiveIsSuffix(Adopt(st).inflight, now, MaxBuildAge(cfg));
    LiveMembers(Adopt(st).inflight, now, MaxBuildAge(cfg));
    LiveAll(Adopt(st).inflight, now, MaxBuildAge(cfg));
  }

  lemma NewestKeepsOrder(es: seq<Build>, t: int)
    requires Ordered(es, t)
    ensures Ordered(Newest(es), t) && |Newest(es)| <= INFLIGHT_CAP
  {
  }

  lemma DropKeepsOrder(es: seq<Build>, i: nat, t: int)
    requires i < |es| && Chronological(es) && Dated(es, t)
    ensures Chronological(DropAt(es, i)) && Dated(DropAt(es, i), t)
  {
  }

  lemma ReleaseKeepsOrder(es: seq<Build>, token: string, cutoff: Option<int>, t: int)
    requires Chronological(es) && Dated(es, t)
    ensures var out := Released(es, token, cutoff);
      Chronological(out) && Dated(out, t) && |out| <= |es| && forall b | b in out :: b in es
  {
    var i := ReleaseIndex(es, token, cutoff);
    if i >= 0 {
      DropKeepsOrder(es, i, t);
    }
  }

  lemma AppendKeepsOrder(es: seq<Build>, b: Build)
    requires Chronological(es) && Dated(es, b.since)
    ensures Chronological(es + [b]) && Dated(es + [b], b.since)
  {
  }

  lemma RoutedListIsOrdered(cfg: Config, st: Status, token: string, now: int)
    requires Good(st, now)
    ensures var live, b := RoutedLive(cfg, st, now), Build(Digest(token), now);
      Ordered(live + [b], now)
  {
    RoutedLiveIsPart(cfg, st, now);
    AppendKeepsOrder(RoutedLive(cfg, st, now), Build(Digest(token), now));
  }

  lemma ReleasedListIsOrdered(cfg: Config, st: Status, token: string, cutoff: Option<int>, now: int)
    requires Good(st, now)
    ensures var out := Released(RoutedLive(cfg, st, now), token, cutoff);
      Ordered(out, now) && |out| <= INFLIGHT_CAP
  {
    RoutedLiveIsPart(cfg, st, now);
    ReleaseKeepsOrder(RoutedLive(cfg, st, now), token, cutoff, now);
  }

  lemma NextListIsOrdered(cfg: Config, w: Write, st: Status)
    requires Good(st, w.now)
    ensures Ordered(NextList(cfg, w, st), w.now)
    ensures w.op.End? || w.op.Sync? ==> |NextList(cfg, w, st)| <= INFLIGHT_CAP
  {
    match w.op
    case Start(token) => RoutedListIsOrdered(cfg, st, token, w.now);
    case End(token) => ReleasedListIsOrdered(cfg, st, token, Some(w.now - cfg.maxBuildSeconds * SECOND), w.now);
    case Sync => SyncedListIsOrdered(cfg, st, w.now);
    case _ => assert Ordered(st.inflight, w.now);
  }

  lemma SyncedListIsOrdered(cfg: Config, st: Status, now: int)
    requires Good(st, now)
    ensures Ordered(ReconciledLive(cfg, st, now), now) && |ReconciledLive(cfg, st, now)| <= INFLIGHT_CAP
  {
    ReconciledLiveIsPart(cfg, st, now);
  }

  /** The list a write leaves on the object. */
  lemma StoredList(cfg: Config, w: Write, o: Object)
    requires Good(o.status, w.now) && Apply(cfg, w, o).Some?
    ensures Apply(cfg, w, o).value.status.inflight == Newest(NextList(cfg, w, o.status))
  {
    match w.op
    case Start(token) =>
      NextListIsOrdered(cfg, w, o.status);
      NewestKeepsOrder(NextList(cfg, w, o.status), w.now);
    case Sync =>
      AdoptKeepsGood(o.status, w.now);
      ReconciledLiveIsPart(cfg, o.status, w.now);
    case _ =>
  }

  /** The dates and the count a write leaves beside it. */
  lemma StoredFields(cfg: Config, w: Write, o: Object)
    requires Good(o.status, w.now) && Apply(cfg, w, o).Some?
    ensures var st' := Apply(cfg, w, o).value.status;
      && (st'.inflightBuilds == |st'.inflight|
          || (!w.op.Start? && !w.op.End? && !w.op.Sync? && st'.inflightBuilds == o.status.inflightBuilds))
      && (st'.lastBuild.Some? ==> st'.lastBuild.value <= w.now)
      && (st'.lastGrant.Some? ==> st'.lastGrant.value <= w.now)
  {
    match w.op
    case Sync =>
      AdoptKeepsGood(o.status, w.now);
      ReconciledLiveIsPart(cfg, o.status, w.now);
    case _ =>
  }

  lemma StoredRing(cfg: Config, w: Write, o: Object)
    requires RingDated(o.status.recent, w.now) && Apply(cfg, w, o).Some?
    ensures var ring := Apply(cfg, w, o).value.status.recent;
      && ring == (if w.op.Start? && !cfg.fork then Recorded(o.status.recent, w.now) else o.status.recent)
      && RingDated(ring, w.now)
  {
    RecordedIsRing(o.status.recent, w.now);
  }

  /** Every write keeps the stored set good, at its own instant, and a write that touches the entries
      (or starts from a matching count) leaves a matching count. */
  lemma ApplyKeepsGood(cfg: Config, w: Write, o: Object)
    requires Good(o.status, w.now) && Apply(cfg, w, o).Some?
    ensures var st' := Apply(cfg, w, o).value.status;
      && Good(st', w.now)
      && (o.status.inflightBuilds == |o.status.inflight| || w.op.Start? || w.op.End? || w.op.Sync?
          ==> st'.inflightBuilds == |st'.inflight|)
  {
    NextListIsOrdered(cfg, w, o.status);
    NewestKeepsOrder(NextList(cfg, w, o.status), w.now);
    StoredList(cfg, w, o);
    StoredFields(cfg, w, o);
    StoredRing(cfg, w, o);
  }

  // --------------------------------------------------- why an entry leaves or arrives

  predicate OldestOf(e: Build, es: seq<Build>) {
    es != [] && es[0] == e
  }

  /** The four ways an entry can leave the stored set: by its own token, by an unnamed release that
      found it oldest, by its own age, or by INFLIGHT_CAP entries no older than it. */
  predicate Leaves(cfg: Config, o: Object, w: Write, o': Object, e: Build) {
    && e in o.status.inflight
    && e !in o'.status.inflight
    && (|| (w.op.End? && w.op.token != "" && e.id == Digest(w.op.token))
        || (w.op == End("") && OldestOf(e, RoutedLive(cfg, o.status, w.now)))
        || Outlived(cfg, e.since, w.now)
        || (w.op.Start? && |o'.status.inflight| == 64
            && forall b | b in o'.status.inflight :: e.since <= b.since))
  }

  lemma DepartureHasReason(cfg: Config, w: Write, o: Object, e: Build)
    requires Good(o.status, w.now) && Apply(cfg, w, o).Some?
    requires e in o.status.inflight && e !in Apply(cfg, w, o).value.status.inflight
    ensures Leaves(cfg, o, w, Apply(cfg, w, o).value, e)
  {
    var st := o.status;
    assert Adopt(st) == st;
    StoredList(cfg, w, o);
    RoutedLiveIsPart(cfg, st, w.now);
    ReconciledLiveIsPart(cfg, st, w.now);
    var live := RoutedLive(cfg, st, w.now);
    OutlivedIsExpired(cfg, e, w.now);
    if !Outlived(cfg, e.since, w.now) {
      match w.op
      case Start(token) =>
        NextListIsOrdered(cfg, w, st);
        CapDropsOldest(live, Build(Digest(token), w.now), e);
      case End(token) =>
        var cutoff := Some(w.now - cfg.maxBuildSeconds * SECOND);
        DropKeepsOthers(live, ReleaseIndex(live, token, cutoff), e);
        if token == "" {
          UnnamedReleaseDropsOldest(live, cutoff);
        }
      case _ =>
    }
  }

  lemma DropKeepsOthers(es: seq<Build>, i: nat, e: Build)
    requires i < |es| && e in es
    ensures e in DropAt(es, i) || e == es[i]
  {
    var k :| 0 <= k < |es| && es[k] == e;
    if k != i {
      assert DropAt(es, i)[if k < i then k else k - 1] == e;
    }
  }

  lemma CapDropsOldest(live: seq<Build>, b: Build, e: Build)
    requires Chronological(live + [b]) && |live| <= INFLIGHT_CAP && e in live && e !in Newest(live + [b])
    ensures |Newest(live + [b])| == INFLIGHT_CAP
    ensures forall x | x in Newest(live + [b]) :: e.since <= x.since
  {
    var all := live + [b];
    var k :| 0 <= k < |live| && live[k] == e;
    assert all[k] == e;
    OldestIsDropped(all, k);
  }

  lemma OldestIsDropped(all: seq<Build>, k: nat)
    requires Chronological(all) && k < |all| <= INFLIGHT_CAP + 1 && all[k] !in Newest(all)
    ensures |Newest(all)| == INFLIGHT_CAP
    ensures forall x | x in Newest(all) :: all[k].since <= x.since
  {
    var rest := all[1..];
    assert Newest(all) == rest;
    assert forall j | 0 <= j < |rest| :: rest[j] == all[j + 1] && all[j + 1] in rest;
  }

  /** An entry arrives only by being registered, or by adopting a bare legacy count. */
  lemma ArrivalHasReason(cfg: Config, w: Write, o: Object, e: Build)
    requires Good(o.status, w.now) && Apply(cfg, w, o).Some?
    requires e !in o.status.inflight && e in Apply(cfg, w, o).value.status.inflight
    ensures (w.op.Start? && e == Build(Digest(w.op.token), w.now)) || (Legacy(o.status) && e in Adopt(o.status).inflight)
  {
    StoredList(cfg, w, o);
    assert e in NextList(cfg, w, o.status);
    NextListMembers(cfg, w, o.status, e);
  }

  lemma NextListMembers(cfg: Config, w: Write, st: Status, e: Build)
    requires Good(st, w.now) && e in NextList(cfg, w, st)
    ensures e in Adopt(st).inflight || e in st.inflight || (w.op.Start? && e == Build(Digest(w.op.token), w.now))
  {
    match w.op
    case Start(_) => RoutedLiveIsPart(cfg, st, w.now);
    case End(token) =>
      RoutedLiveIsPart(cfg, st, w.now);
      ReleaseKeepsOrder(RoutedLive(cfg, st, w.now), token, Some(w.now - cfg.maxBuildSeconds * SECOND), w.now);
    case Sync => ReconciledLiveIsPart(cfg, st, w.now);
    case _ =>
  }

  /** A registered build is on the set the moment its write lands. */
  lemma StartRegisters(cfg: Config, w: Write, o: Object)
    requires Good(o.status, w.now) && w.op.Start?
    ensures Build(Digest(w.op.token), w.now) in Apply(cfg, w, o).value.status.inflight
  {
    StoredList(cfg, w, o);
    var all := NextList(cfg, w, o.status);
    var last := Build(Digest(w.op.token), w.now);
    assert all[|all| - 1] == last && Newest(all)[|Newest(all)| - 1] == last;
  }

  /** What the two readers take to be running: exactly the entries that have not outlived the flag. The
      routing API sheds nothing when the flag is unset, the reconciler then allows two hours. */
  lemma LiveExactlyWhen(cfg: Config, st: Status, now: int, b: Build)
    ensures b in RoutedLive(cfg, st, now) <==>
      b in Adopt(st).inflight && (cfg.maxBuildSeconds > 0 ==> !Outlived(cfg, b.since, now))
    ensures b in ReconciledLive(cfg, st, now) <==> b in Adopt(st).inflight && !Outlived(cfg, b.since, now)
  {
    LiveMembers(Adopt(st).inflight, now, MaxBuildAge(cfg));
    OutlivedIsExpired(cfg, b, now);
  }

  /** A leak is reclaimed: no write of the routing API (with the flag set) or of the reconciler stores an
      entry that has outlived the window. */
  lemma LeaksAreShed(cfg: Config, w: Write, o: Object, b: Build)
    requires Good(o.status, w.now) && Apply(cfg, w, o).Some?
    requires w.op.Sync? || ((w.op.Start? || w.op.End?) && cfg.maxBuildSeconds > 0)
    requires b in Apply(cfg, w, o).value.status.inflight
    ensures !Outlived(cfg, b.since, w.now)
  {
    StoredList(cfg, w, o);
    assert b in NextList(cfg, w, o.status);
    LiveExactlyWhen(cfg, o.status, w.now, b);
    if w.op.End? {
      RoutedLiveIsPart(cfg, o.status, w.now);
      ReleaseKeepsOrder(
        RoutedLive(cfg, o.status, w.now), w.op.token, Some(w.now - cfg.maxBuildSeconds * SECOND), w.now);
    }
  }

  /** A release that lands takes one live entry off the set and no other: the one under its token, or the
      oldest when it names none. */
  lemma ReleaseRemoves(cfg: Config, w: Write, o: Object) returns (e: Build)
    requires Good(o.status, w.now) && w.op.End? && Apply(cfg, w, o).Some?
    ensures var live := RoutedLive(cfg, o.status, w.now);
      && e in live && multiset(Apply(cfg, w, o).value.status.inflight) == multiset(live) - multiset{e}
      && (if w.op.token != "" then e.id == Digest(w.op.token) else OldestOf(e, live))
  {
    var live, cutoff := RoutedLive(cfg, o.status, w.now), Some(w.now - cfg.maxBuildSeconds * SECOND);
    RoutedLiveIsPart(cfg, o.status, w.now);
    e := ReleasedIsOne(live, w.op.token, cutoff);
    ReleasedIsStored(cfg, w, o);
  }

  lemma ReleasedIsStored(cfg: Config, w: Write, o: Object)
    requires Good(o.status, w.now) && w.op.End? && Apply(cfg, w, o).Some?
    ensures Apply(cfg, w, o).value.status.inflight
      == Released(RoutedLive(cfg, o.status, w.now), w.op.token, Some(w.now - cfg.maxBuildSeconds * SECOND))
  {
    StoredList(cfg, w, o);
    NextListIsOrdered(cfg, w, o.status);
  }

  lemma ReleasedIsOne(live: seq<Build>, token: string, cutoff: Option<int>) returns (e: Build)
    requires Chronological(live) && ReleaseIndex(live, token, cutoff) >= 0
    ensures e in live && multiset(Released(live, token, cutoff)) == multiset(live) - multiset{e}
    ensures if token != "" then e.id == Digest(token) else OldestOf(e, live)
  {
    var i := ReleaseIndex(live, token, cutoff);
    e := live[i];
    DropIsOne(live, i);
    if token == "" {
      UnnamedReleaseDropsOldest(live, cutoff);
    }
  }

  lemma DropIsOne(es: seq<Build>, i: nat)
    requires i < |es|
    ensures multiset(DropAt(es, i)) == multiset(es) - multiset{es[i]}
  {
    assert es == es[..i] + [es[i]] + es[i + 1..];
  }

  /** The last build is stamped by every write of the routing API that lands, and by nothing else. */
  lemma StoredStamp(cfg: Config, w: Write, o: Object)
    requires Apply(cfg, w, o).Some?
    ensures var o' := Apply(cfg, w, o).value;
      && o'.status.lastBuild == (if w.op.Start? || w.op.End? || w.op.Touch? then Some(w.now) else o.status.lastBuild)
      && o'.spec == if w.op.Edit? then w.op.spec else o.spec
  {
  }

  /** A release that names no live build writes nothing. */
  lemma UnknownReleaseWritesNothing(cfg: Config, token: string, now: int, o: Object)
    requires token != "" && forall e | e in RoutedLive(cfg, o.status, now) :: e.id != Digest(token)
    ensures Apply(cfg, Write(End(token), now), o) == None
  {
  }
}
