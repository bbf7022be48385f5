/**
 The retry loop around every status write of the routing API (touchStatus and the grant loop of
 S3CacheDecision, internal/provisioner/k8s/k8s.go): read a cached copy, compute, send the
 version-checked update, and start over on a conflict. Between any two of its calls to the API server
 everybody else may take any steps of module Cluster.
 */
module StatusUpdate {
  import opened Base
  import opened Inflight
  import opened S3Cadence
  import opened Lease
  import opened Cluster

  /** The steps of statusBackoff. */
  const STEPS := 8

  /** The surroundings of one attempt: what others do before its read, the version that read returns
      (how many versions behind; None is not found), and what others do before the update is sent. */
  datatype Try = Try(before: seq<Step>, lag: Option<nat>, meanwhile: seq<Step>)

  /** Nothing is in the way of this attempt: it reads the last version and nobody writes meanwhile. */
  predicate Undisturbed(t: Try) {
    t.lag == Some(0) && t.meanwhile == []
  }

  /** Undisturbed, and nobody moves before its read either. */
  predicate Alone(t: Try) {
    Undisturbed(t) && t.before == []
  }

  /** The version a cached read returns that is lag versions behind. */
  function Behind(s: Store, lag: nat): (version: nat)
    requires s.history != []
    ensures version < |s.history| && (lag == 0 ==> version == |s.history| - 1)
  {
    if lag < |s.history| then |s.history| - 1 - lag else 0
  }

  /** How the loop ended: an update landed, the copy it read asked for no write, or it gave up. */
  datatype Verdict = Landed | Declined(version: nat) | Failed

  predicate IsBy(step: Step, me: nat) {
    match step
    case BeginWrite(a, _, _) => a == me
    case BeginPass(a, _) => a == me
    case Confirm(a) => a == me
    case Reap(a) => a == me
    case RereadForRoll(a) => a == me
    case Ensure(a, _, _, _, _) => a == me
    case StatusWrite(a) => a == me
    case Commit(a) => a == me
    case Finish(a) => a == me
    case Check(a, _) => a == me
    case Act(a) => a == me
    case _ => false
  }

  /** The update an actor has ready would make a new version now. */
  predicate Ready(w: World, me: nat) {
    && me in w.actors && w.actors[me].Writing?
    && |Update(w.store, w.actors[me]).history| > |w.store.history|
  }

  /** How many updates of one actor land in a run. */
  function Landings(r: Run, me: nat): nat {
    match r
    case Genesis(_) => 0
    case Then(past, step, _) => Landings(past, me) + if step == Commit(me) && Ready(past.w, me) then 1 else 0
  }

  lemma IntentApplies(cfg: Config, s: Store, s': Store, op: Op, version: nat)
    requires version < |s.history| && Apply(cfg, Write(op, s.clock), s.history[version]).Some?
    ensures s'.history == s.history + [Intent(cfg, s, op, version).next] && version == |s.history| - 1
      ==> AppliedOnce(cfg, s, s', op)
  {
  }

  predicate SameFor(w: World, w': World, me: nat) {
    (me in w.actors <==> me in w'.actors) && (me in w.actors ==> w'.actors[me] == w.actors[me])
  }

  lemma OtherStepIsOther(cfg: Config, w: World, step: Step, me: nat)
    requires Enabled(cfg, w, step) && !IsBy(step, me)
    ensures SameFor(w, Do(cfg, w, step), me)
  {
  }

  /** The update this actor has ready. */
  predicate Pending(w: World, me: nat, a: Actor) {
    me in w.actors && w.actors[me] == a && a.Writing?
  }

  /** The update computed from the version read, at this instant. */
  function Intent(cfg: Config, s: Store, op: Op, version: nat): Actor
    requires version < |s.history| && Apply(cfg, Write(op, s.clock), s.history[version]).Some?
  {
    var write := Write(op, s.clock);
    Writing(version, write, Apply(cfg, write, s.history[version]).value)
  }

  /** The operation, applied to the last version at this instant, is the one new version. */
  predicate AppliedOnce(cfg: Config, s: Store, s': Store, op: Op) {
    && s.history != [] && Apply(cfg, Write(op, s.clock), Last(s)).Some?
    && s'.history == s.history + [Apply(cfg, Write(op, s.clock), Last(s)).value]
  }

  /** The last write is this operation's, computed from the version right before it. */
  predicate JustLanded(cfg: Config, s: Store, op: Op) {
    && s.writes != [] && s.writes[|s.writes| - 1].op == op
    && |s.history| == |s.writes| + 1
    && Lands(cfg, s.history[|s.writes| - 1], s.writes[|s.writes| - 1], Last(s))
  }

  /** The version this attempt reads asks for no write, at the instant of the read. */
  predicate DeclinedBy(cfg: Config, s: Store, op: Op, t: Try, version: nat) {
    && t.lag.Some? && s.history != [] && version == Behind(s, t.lag.value)
    && Apply(cfg, Write(op, s.clock), s.history[version]).None?
  }

  predicate StatusOp(op: Op) {
    op.Start? || op.End? || op.Touch? || op.Grant?
  }

  /** What one attempt comes back with: nil after a landed or a declined write, or an API error. */
  datatype Reply = Ok | Skip(version: nat) | Conflict | NotFound

  function One(landed: bool): nat { if landed then 1 else 0 }

  /** An update lands exactly when the object is there and was read at its last version. */
  lemma UpdateLands(cfg: Config, s: Store, a: Actor)
    requires HistoryOk(cfg, s) && a.Writing? && ActorOk(cfg, s, a)
    ensures |Update(s, a).history| > |s.history| <==> s.present && a.version == |s.history| - 1
    ensures s.present && a.version == |s.history| - 1 ==> JustLanded(cfg, Advance(Update(s, a)), a.write.op)
  {
  }

  lemma SendLands(cfg: Config, w: World, me: nat, a: Actor)
    requires Inv(cfg, w) && Pending(w, me, a)
    ensures var lands, w' := w.store.present && a.version == |w.store.history| - 1, Do(cfg, w, Commit(me));
      && (Ready(w, me) <==> lands) && me !in w'.actors && w'.store.present == w.store.present
      && (lands ==> JustLanded(cfg, w'.store, a.write.op) && w'.store.history == w.store.history + [a.next])
  {
    assert ActorOk(cfg, w.store, w.actors[me]);
    UpdateLands(cfg, w.store, w.actors[me]);
  }

  /** The API server, its clients included, and the run so far. */
  class Server {
    const cfg: Config
    var world: World
    ghost var run: Run

    ghost predicate Valid()
      reads this
    {
      IsRun(cfg, run) && run.w == world
    }

    constructor (cfg: Config, w: World)
      requires Init(w)
      ensures Valid() && this.cfg == cfg && world == w && run == Genesis(w)
    {
      this.cfg, world, run := cfg, w, Genesis(w);
    }

    method Take(step: Step)
      requires Valid() && Enabled(cfg, world, step)
      modifies this
      ensures Valid() && world == Do(cfg, old(world), step) && run == Then(old(run), step, world)
    {
      world := Do(cfg, world, step);
      run := Then(run, step, world);
    }

    /** Others take what steps of a schedule they can; me stands still, and nothing lands in its name. */
    method OthersAct(me: nat, steps: seq<Step>)
      requires Valid()
      modifies this
      ensures Valid() && Continues(old(run), run) && Landings(run, me) == Landings(old(run), me)
      ensures SameFor(old(world), world, me)
      ensures steps == [] ==> world == old(world)
    {
      for i := 0 to |steps|
        invariant Valid() && Continues(old(run), run) && Landings(run, me) == Landings(old(run), me)
        invariant SameFor(old(world), world, me)
        invariant i == 0 ==> world == old(world)
      {
        if Enabled(cfg, world, steps[i]) && !IsBy(steps[i], me) {
          OtherStepIsOther(cfg, world, steps[i], me);
          Take(steps[i]);
        }
      }
    }

    /** Get and mutate, computed from the version read at this instant; then others act before the
        update is sent. */
    method Begin(me: nat, op: Op, version: nat, meanwhile: seq<Step>)
      requires Valid() && Enabled(cfg, world, BeginWrite(me, op, version))
      modifies this
      ensures Valid() && Continues(old(run), run) && Landings(run, me) == Landings(old(run), me)
      ensures Pending(world, me, Intent(cfg, old(world).store, op, version))
      ensures meanwhile == [] ==>
        world.store.history == old(world).store.history && world.store.present == old(world).store.present
    {
      Take(BeginWrite(me, op, version));
      ghost var begun := run;
      OthersAct(me, meanwhile);
      ContinuesOn(old(run), begun, run);
    }

    /** Status().Update: version-checked by the API server. */
    method Send(me: nat, ghost a: Actor, version: nat) returns (reply: Reply)
      requires Valid() && Pending(world, me, a) && a.version == version
      modifies this
      ensures Valid() && Continues(old(run), run) && me !in world.actors
      ensures Landings(run, me) == Landings(old(run), me) + One(reply.Ok?)
      ensures reply.Ok? ==> JustLanded(cfg, world.store, a.write.op)
      ensures reply.Ok? ==> world.store.history == old(world).store.history + [a.next]
      ensures !reply.Skip? && (reply.NotFound? <==> !world.store.present)
      ensures reply.Conflict? ==> version != |old(world).store.history| - 1
      ensures world.store.present == old(world).store.present
    {
      RunKeepsInv(cfg, run);
      SendLands(cfg, world, me, a);
      reply :=
        if !world.store.present then NotFound
        else if version == |world.store.history| - 1 then Ok
        else Conflict;
      Take(Commit(me));
    }

    /** A whole exchange: mutate the version read, let others act, and send. */
    method Exchange(me: nat, op: Op, version: nat, meanwhile: seq<Step>) returns (reply: Reply)
      requires Valid() && Enabled(cfg, world, BeginWrite(me, op, version))
      modifies this
      ensures Valid() && Continues(old(run), run) && me !in world.actors
      ensures Landings(run, me) == Landings(old(run), me) + One(reply.Ok?)
      ensures reply.Ok? ==> JustLanded(cfg, world.store, op)
      ensures !reply.Skip? && (reply.NotFound? <==> !world.store.present)
      ensures meanwhile == [] ==>
        && world.store.present == old(world).store.present
        && (reply.Conflict? ==> version != |old(world).store.history| - 1)
        && (reply.Ok? && version == |old(world).store.history| - 1 ==>
              AppliedOnce(cfg, old(world).store, world.store, op))
    {
      ghost var before, intent := world.store, Intent(cfg, world.store, op, version);
      Begin(me, op, version, meanwhile);
      ghost var begun := run;
      reply := Send(me, intent, version);
      ContinuesOn(old(run), begun, run);
      IntentApplies(cfg, before, world.store, op, version);
    }
  }

  /** The body of the retry: Get, mutate, Status().Update. */
  method Attempt(server: Server, me: nat, op: Op, t: Try) returns (reply: Reply)
    requires server.Valid() && me !in server.world.actors && StatusOp(op)
    modifies server
    ensures server.Valid() && Continues(old(server.run), server.run) && me !in server.world.actors
    ensures Landings(server.run, me) == Landings(old(server.run), me) + One(reply.Ok?)
    ensures reply.Ok? ==> JustLanded(server.cfg, server.world.store, op)
    ensures reply.Skip? ==> DeclinedBy(server.cfg, server.world.store, op, t, reply.version)
    ensures reply.Skip? && t.before == [] ==> server.world == old(server.world)
    ensures Undisturbed(t) && server.world.store.present ==> reply.Ok? || reply.Skip?
    ensures Alone(t) ==> server.world.store.present == old(server.world).store.present
    ensures Alone(t) && reply.Ok? ==> AppliedOnce(server.cfg, old(server.world).store, server.world.store, op)
    ensures reply.NotFound? ==> t.lag.None? || !server.world.store.present
  {
    server.OthersAct(me, t.before);
    if t.lag.None? {
      return NotFound;
    }
    RunKeepsInv(server.cfg, server.run);
    var version := Behind(server.world.store, t.lag.value);
    var write := Write(op, server.world.store.clock);
    if Apply(server.cfg, write, server.world.store.history[version]).None? {
      return Skip(version);
    }
    ghost var read := server.run;
    reply := server.Exchange(me, op, version, t.meanwhile);
    ContinuesOn(old(server.run), read, server.run);
  }

  /** The verdict of a call that is alone at the API server: its write is the one new version, or there
      was nothing to write and nothing has changed. */
  predicate DecidesAtOnce(cfg: Config, w: World, w': World, op: Op, verdict: Verdict) {
    match verdict
    case Landed => AppliedOnce(cfg, w.store, w'.store, op)
    case Declined(_) => w' == w
    case Failed => false
  }

  /** The retry envelope: up to STEPS attempts, again on a conflict, and on a missing object when asked.
      It continues the run of the cluster, and in it exactly one update of ours lands if it says so and
      none otherwise; n is the attempt that decided. A declined write was declined on the version that
      attempt read, when it read it; and as long as the object exists the loop gives up only after every
      attempt was disturbed. */
  method RetryUpdate(server: Server, me: nat, op: Op, retryMissing: bool, tries: seq<Try>)
    returns (verdict: Verdict, ghost n: nat)
    requires server.Valid() && me !in server.world.actors && StatusOp(op) && |tries| == STEPS
    modifies server
    ensures server.Valid() && Continues(old(server.run), server.run) && me !in server.world.actors && n < STEPS
    ensures Landings(server.run, me) == Landings(old(server.run), me) + One(verdict.Landed?)
    ensures verdict.Landed? ==> JustLanded(server.cfg, server.world.store, op)
    ensures verdict.Declined? ==> DeclinedBy(server.cfg, server.world.store, op, tries[n], verdict.version)
    ensures server.world.store.present ==> forall j | 0 <= j < n :: !Undisturbed(tries[j])
    ensures verdict.Failed? && server.world.store.present ==>
      !Undisturbed(tries[n]) && (n == STEPS - 1 || (!retryMissing && tries[n].lag.None?))
    ensures Alone(tries[0]) && old(server.world).store.present ==>
      n == 0 && DecidesAtOnce(server.cfg, old(server.world), server.world, op, verdict)
  {
    verdict, n := Failed, 0;
    var i := 0;
    while i < STEPS
      invariant 0 <= i <= STEPS && verdict == Failed && n == (if i == 0 then 0 else i - 1)
      invariant server.Valid() && Continues(old(server.run), server.run) && me !in server.world.actors
      invariant Landings(server.run, me) == Landings(old(server.run), me)
      invariant server.world.store.present ==> forall j | 0 <= j < i :: !Undisturbed(tries[j])
      invariant i == 0 ==> server.world == old(server.world)
      invariant i > 0 && old(server.world).store.present ==> !Alone(tries[0])
    {
      n := i;
      ghost var before := server.run;
      var reply := Attempt(server, me, op, tries[i]);
      ContinuesOn(old(server.run), before, server.run);
      RunExtends(server.cfg, before, server.run);
      if reply.Ok? {
        return Landed, n;
      }
      if reply.Skip? {
        return Declined(reply.version), n;
      }
      if reply.NotFound? && !retryMissing {
        return Failed, n;
      }
      i := i + 1;
    }
  }

  /** What a registration says. Done: the build is on the stored set. Not done, on an existing object:
      every attempt was disturbed. */
  predicate RegistrationSays(cfg: Config, s: Store, token: string, done: bool, tries: seq<Try>) {
    && (done ==>
          && JustLanded(cfg, s, Start(token))
          && Build(Digest(token), s.writes[|s.writes| - 1].now) in Last(s).status.inflight)
    && (!done && s.present ==> forall i | 0 <= i < |tries| :: !Undisturbed(tries[i]))
  }

  lemma RegistrationMeans(cfg: Config, s: Store, token: string, verdict: Verdict, tries: seq<Try>, n: nat)
    requires |tries| == STEPS && n < STEPS
    requires verdict.Landed? ==> JustLanded(cfg, s, Start(token))
    requires verdict.Declined? ==> DeclinedBy(cfg, s, Start(token), tries[n], verdict.version)
    requires s.present ==> forall j | 0 <= j < n :: !Undisturbed(tries[j])
    requires verdict.Failed? && s.present ==> !Undisturbed(tries[n]) && n == STEPS - 1
    ensures RegistrationSays(cfg, s, token, verdict.Landed?, tries)
  {
    match verdict
    case Landed => LandedMeansRegistered(cfg, s, token);
    case Declined(version) => StartNeverDeclines(cfg, s, token, tries[n], version);
    case Failed =>
  }

  lemma LandedMeansRegistered(cfg: Config, s: Store, token: string)
    requires JustLanded(cfg, s, Start(token))
    ensures Build(Digest(token), s.writes[|s.writes| - 1].now) in Last(s).status.inflight
  {
    StartRegisters(cfg, s.writes[|s.writes| - 1], s.history[|s.writes| - 1]);
  }

  lemma StartNeverDeclines(cfg: Config, s: Store, token: string, t: Try, version: nat)
    ensures !DeclinedBy(cfg, s, Start(token), t, version)
  {
  }

  /** Registering a routed build. */
  method StartInflight(server: Server, me: nat, token: string, tries: seq<Try>) returns (done: bool)
    requires server.Valid() && me !in server.world.actors && |tries| == STEPS
    modifies server
    ensures server.Valid() && Continues(old(server.run), server.run) && me !in server.world.actors
    ensures Landings(server.run, me) == Landings(old(server.run), me) + One(done)
    ensures RegistrationSays(server.cfg, server.world.store, token, done, tries)
  {
    var verdict;
    ghost var n;
    verdict, n := RetryUpdate(server, me, Start(token), true, tries);
    done := verdict.Landed?;
    RegistrationMeans(server.cfg, server.world.store, token, verdict, tries, n);
  }

  /** What a release of this token would remove from this object is there. */
  ghost predicate Releasable(cfg: Config, o: Object, now: int, token: string) {
    exists e :: e in RoutedLive(cfg, o.status, now) && (token != "" ==> e.id == Digest(token))
  }

  /** A release writes exactly when there is something to release on the copy it read. */
  lemma ReleaseWritesExactlyWhen(cfg: Config, o: Object, now: int, token: string)
    ensures Apply(cfg, Write(End(token), now), o).Some? <==> Releasable(cfg, o, now, token)
  {
    var live, cutoff := RoutedLive(cfg, o.status, now), Some(now - cfg.maxBuildSeconds * SECOND);
    var i := ReleaseIndex(live, token, cutoff);
    if i >= 0 {
      assert live[i] in live;
    }
    if Releasable(cfg, o, now, token) {
      ReleasableIsFound(live, token, cutoff);
    }
  }

  lemma ReleasableIsFound(live: seq<Build>, token: string, cutoff: Option<int>)
    requires exists e :: e in live && (token != "" ==> e.id == Digest(token))
    ensures ReleaseIndex(live, token, cutoff) >= 0
  {
    var e :| e in live && (token != "" ==> e.id == Digest(token));
    var k :| 0 <= k < |live| && live[k] == e;
  }

  /** The copy this attempt reads holds nothing to release. */
  ghost predicate NothingThere(cfg: Config, s: Store, t: Try, token: string) {
    t.lag.Some? && s.history != [] && !Releasable(cfg, s.history[Behind(s, t.lag.value)], s.clock, token)
  }

  /** What a release says. True: the build was live on the version it was released from. False, on an
      existing object: the copy the deciding attempt read held nothing to release (the last version, when
      the first attempt is undisturbed), or the object was not found, or every attempt was disturbed.
      Alone at the API server, a live build is always released. */
  ghost predicate ReleaseSays(cfg: Config, w: World, w': World, token: string, released: bool, tries: seq<Try>, n: nat)
    requires n < |tries|
  {
    var s := w'.store;
    && (released ==>
          && JustLanded(cfg, s, End(token))
          && Releasable(cfg, s.history[|s.writes| - 1], s.writes[|s.writes| - 1].now, token))
    && (!released && s.present ==>
          NothingThere(cfg, s, tries[n], token) || tries[n].lag.None? || forall t | t in tries :: !Undisturbed(t))
    && (!released && s.present && Undisturbed(tries[0]) ==> NothingThere(cfg, s, tries[0], token))
    && (!released && w.store.present && Alone(tries[0]) ==> NothingThere(cfg, w.store, tries[0], token))
  }

  lemma ReleaseMeans(cfg: Config, w: World, w': World, token: string, verdict: Verdict, tries: seq<Try>, n: nat)
    requires |tries| == STEPS && n < STEPS
    requires verdict.Landed? ==> JustLanded(cfg, w'.store, End(token))
    requires verdict.Declined? ==> DeclinedBy(cfg, w'.store, End(token), tries[n], verdict.version)
    requires w'.store.present ==> forall j | 0 <= j < n :: !Undisturbed(tries[j])
    requires verdict.Failed? && w'.store.present ==> !Undisturbed(tries[n]) && (n == STEPS - 1 || tries[n].lag.None?)
    requires Alone(tries[0]) && w.store.present ==> n == 0 && DecidesAtOnce(cfg, w, w', End(token), verdict)
    ensures ReleaseSays(cfg, w, w', token, verdict.Landed?, tries, n)
  {
    var s := w'.store;
    match verdict
    case Landed =>
      ReleaseWritesExactlyWhen(cfg, s.history[|s.writes| - 1], s.writes[|s.writes| - 1].now, token);
    case Declined(version) =>
      ReleaseWritesExactlyWhen(cfg, s.history[version], s.clock, token);
    case Failed =>
  }

  method EndInflight(server: Server, me: nat, token: string, tries: seq<Try>) returns (released: bool, ghost n: nat)
    requires server.Valid() && me !in server.world.actors && |tries| == STEPS
    modifies server
    ensures server.Valid() && Continues(old(server.run), server.run) && me !in server.world.actors && n < STEPS
    ensures Landings(server.run, me) == Landings(old(server.run), me) + One(released)
    ensures ReleaseSays(server.cfg, old(server.world), server.world, token, released, tries, n)
  {
    ghost var before := server.world;
    var verdict;
    verdict, n := RetryUpdate(server, me, End(token), false, tries);
    released := verdict.Landed?;
    ReleaseMeans(server.cfg, before, server.world, token, verdict, tries, n);
  }

  /** The export decision under contention. first is the version its first read returns, None when
      that read fails for good; under the cadence policy an export is answered only when this call's
      own grant landed, or the version its deciding attempt read had turned to always. */
  method S3CacheDecision(server: Server, me: nat, interval: int, grant: bool, first: Option<nat>, tries: seq<Try>)
    returns (imports: bool, exports: bool, ghost n: nat, ghost landed: bool)
    requires server.Valid() && me !in server.world.actors && |tries| == STEPS
    requires first.Some? ==> first.value < |server.world.store.history|
    modifies server
    ensures server.Valid() && Continues(old(server.run), server.run) && me !in server.world.actors && n < STEPS
    ensures Landings(server.run, me) == Landings(old(server.run), me) + One(landed)
    ensures imports <==> first.None? || old(server.world).store.history[first.value].spec.policy != Never
    ensures first.Some? && old(server.world).store.history[first.value].spec.policy == Cadence && exports && interval > 0 ==>
      var s := server.world.store;
      || landed
      || (tries[n].lag.Some? && s.history != [] && s.history[Behind(s, tries[n].lag.value)].spec.policy == Always)
    ensures landed ==> exports && JustLanded(server.cfg, server.world.store, Grant(interval))
    ensures Alone(tries[0]) && old(server.world).store.present && first == Some(|old(server.world).store.history| - 1) ==>
      AnswersLike(old(server.world).store, server.world.store, interval, grant, Answer(imports, exports))
  {
    n, landed := 0, false;
    ghost var start := server.world;
    ghost var before := start.store;
    if first.Some? && first.value == |before.history| - 1 {
      UngrantedAnswers(before, interval, grant);
    }
    if first.None? {
      return true, true, n, landed;
    }
    var policy := server.world.store.history[first.value].spec.policy;
    if policy == Never {
      return false, false, n, landed;
    } else if policy == Always {
      return true, true, n, landed;
    }
    if !grant || interval <= 0 {
      return true, interval <= 0 && grant, n, landed;
    }
    imports := true;
    var verdict;
    verdict, n := RetryUpdate(server, me, Grant(interval), true, tries);
    exports :=
      match verdict
      case Landed => true
      case Declined(version) => server.world.store.history[version].spec.policy == Always
      case Failed => false;
    landed := verdict.Landed?;
    if Alone(tries[0]) && before.present && first.value == |before.history| - 1 {
      GrantAnswers(server.cfg, start, server.world, interval, tries[0], verdict, exports);
    }
  }

  /** The answer and the stored cadence clock are those of the uncontended decision on the last version. */
  predicate AnswersLike(s: Store, s': Store, interval: int, grant: bool, a: Answer) {
    && s.history != [] && s'.history != []
    && var o := Last(s);
       (a, Last(s').status.lastGrant) == StatusDecision(o.spec.policy, o.status.lastGrant, interval, grant, s.clock)
  }

  /** The answers that need no grant. */
  lemma UngrantedAnswers(s: Store, interval: int, grant: bool)
    requires s.history != []
    ensures var policy := Last(s).spec.policy;
      && (policy == Never ==> AnswersLike(s, s, interval, grant, Answer(false, false)))
      && (policy == Always ==> AnswersLike(s, s, interval, grant, Answer(true, true)))
      && (policy != Never && policy != Always && (!grant || interval <= 0) ==>
            AnswersLike(s, s, interval, grant, Answer(true, interval <= 0 && grant)))
  {
  }

  lemma GrantAnswers(cfg: Config, w: World, w': World, interval: int, t: Try, verdict: Verdict, exports: bool)
    requires w.store.history != [] && interval > 0 && Alone(t)
    requires Last(w.store).spec.policy != Never && Last(w.store).spec.policy != Always
    requires DecidesAtOnce(cfg, w, w', Grant(interval), verdict)
    requires verdict.Declined? ==> DeclinedBy(cfg, w'.store, Grant(interval), t, verdict.version)
    requires exports <==> verdict.Landed?
    ensures AnswersLike(w.store, w'.store, interval, true, Answer(true, exports))
  {
  }

  // ---------------------------------------------------------------- a release that races

  /** A release that reads the copy from just before the registration landed finds nothing and writes
      nothing, though the build is on the last version: it stays there until another release, its own age
      or the cap removes it (Safety.RegisteredUntilReleased). */
  lemma StaleReleaseIsLost(cfg: Config, s: Store, token: string)
    requires HistoryOk(cfg, s) && JustLanded(cfg, s, Start(token)) && token != ""
    requires forall e | e in Adopt(s.history[|s.history| - 2].status).inflight :: e.id != Digest(token)
    requires s.clock - s.writes[|s.writes| - 1].now <= MaxBuildAge(cfg)
    ensures Apply(cfg, Write(End(token), s.clock), s.history[|s.history| - 2]).None?
    ensures Releasable(cfg, Last(s), s.clock, token)
  {
    var v := |s.history| - 2;
    assert Good(s.history[v].status, s.clock) && Good(Last(s).status, s.clock);
    EarlierCopyHasNothing(cfg, s.history[v], s.clock, token);
    LaterCopyHasIt(cfg, s.history[v], s.writes[v], s.clock);
  }

  lemma EarlierCopyHasNothing(cfg: Config, o: Object, now: int, token: string)
    requires Good(o.status, now) && token != ""
    requires forall e | e in Adopt(o.status).inflight :: e.id != Digest(token)
    ensures Apply(cfg, Write(End(token), now), o).None?
  {
    RoutedLiveIsPart(cfg, o.status, now);
    UnknownReleaseWritesNothing(cfg, token, now, o);
  }

  lemma LaterCopyHasIt(cfg: Config, o: Object, w: Write, now: int)
    requires Good(o.status, w.now) && w.op.Start? && now - w.now <= MaxBuildAge(cfg)
    requires Good(Apply(cfg, w, o).value.status, now)
    ensures Releasable(cfg, Apply(cfg, w, o).value, now, w.op.token)
  {
    StartRegisters(cfg, w, o);
    var o', e := Apply(cfg, w, o).value, Build(Digest(w.op.token), w.now);
    assert Adopt(o'.status).inflight == o'.status.inflight;
    RoutedLiveIsPart(cfg, o'.status, now);
    assert e in RoutedLive(cfg, o'.status, now);
  }
}
