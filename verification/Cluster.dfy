/**
 The lease protocol as a state machine over one BuildProject: any number of /route replicas and
 reconcile passes, arbitrarily stale cached reads, version-checked status updates, and every decision
 that takes a daemon away.

 The API server is the version history of the object. A cached read returns any past version, a direct
 read the last one, and an update lands only when it was computed from the last version.
 */
module Cluster {
  import opened Base
  import opened Inflight
  import opened KeepWarm
  import opened S3Cadence
  import opened Lease
  import Rollout

  /** A read that bypasses the cache: the version it saw (None when the object is gone), at which step
      of the run and when, and the live entries it found. */
  datatype Read = Read(version: Option<nat>, step: nat, at: int, live: seq<Build>)

  datatype Takedown = ScaleToZero | ForkReap | ClonePrune | ResizeBounce

  datatype Actor =
    /** Has read a version and computed a write; the update is still to be sent. */
    | Writing(version: nat, write: Write, next: Object)
    /** A reconcile pass: its first step, its cached read, and the direct reads it has made since. */
    | Reconciling(version: nat, begun: nat, at: int, live: seq<Build>, confirm: Option<Read>, rollRead: Option<Read>)
    /** A clone prune (by the parent's pass) or a resize bounce, after its direct read. */
    | Checked(kind: Takedown, read: Read)

  /** The cached version a pass found idle, and when. */
  datatype Idle = Idle(version: nat, at: int)

  /** A daemon taken down by a pass begun at step begun, on the strength of a read; idle is what a
      scale-to-zero or a fork reap decided on first. */
  datatype Cut = Cut(kind: Takedown, begun: nat, idle: Option<Idle>, read: Read, step: nat, now: int)

  /** A template rolled onto the daemon: the list the decision used, the direct read if it made one,
      and the hold stamp on the copy of the StatefulSet it read. */
  datatype Roll = Roll(list: seq<Build>, begun: nat, read: Option<Read>, held: Rollout.Stamp, wedged: bool, step: nat, now: int)

  /** A template withheld. */
  datatype Hold = Hold(step: nat, now: int)

  /** The API server and the clock. writes[i] is the write that turned history[i] into history[i + 1],
      landed[i] the step of the run at which it did; present is false once the object is deleted, at
      step gone. */
  datatype Store = Store(
    history: seq<Object>, writes: seq<Write>, landed: seq<nat>, clock: int, step: nat, present: bool, gone: nat)

  /** daemons are the stored versions of the project's StatefulSet, patched[i] the step at which version
      i + 1 was stored; deletes are the steps at which somebody else deletes the object. */
  datatype World = World(
    store: Store, actors: map<nat, Actor>, daemons: seq<Rollout.Daemon>, patched: seq<nat>,
    cuts: seq<Cut>, rolls: seq<Roll>, holds: seq<Hold>, deletes: seq<nat>)

  function Last(s: Store): Object
    requires s.history != []
  {
    s.history[|s.history| - 1]
  }

  function DirectRead(cfg: Config, s: Store): Read
    requires s.history != []
  {
    if s.present
    then Read(Some(|s.history| - 1), s.step, s.clock, ReconciledLive(cfg, Last(s).status, s.clock))
    else Read(None, s.step, s.clock, [])
  }

  /** The first verdict of a pass, on its cached copy. */
  function CachedDesire(cfg: Config, s: Store, a: Actor): int
    requires a.Reconciling? && a.version < |s.history|
  {
    DesiredReplicas(ProjectOf(cfg, s.history[a.version]), a.live, a.at, cfg.adaptiveMax)
  }

  /** The entries everything downstream of the confirmation decides on. */
  function LiveUsed(a: Actor): seq<Build>
    requires a.Reconciling?
  {
    if a.confirm.Some? && a.confirm.value.live != [] then a.confirm.value.live else a.live
  }

  /** Zero replicas: wanted on the cached copy and confirmed by a direct read. */
  predicate WantsZero(cfg: Config, s: Store, a: Actor)
    requires a.Reconciling? && a.version < |s.history|
  {
    CachedDesire(cfg, s, a) == 0 && a.confirm.Some? && a.confirm.value.live == []
  }

  /** The pass may go on: a verdict of zero has been confirmed. */
  predicate Settled(cfg: Config, s: Store, a: Actor)
    requires a.Reconciling? && a.version < |s.history|
  {
    CachedDesire(cfg, s, a) == 0 ==> a.confirm.Some?
  }

  /** Ensure is ensureStatefulSet: seen is the version of the StatefulSet its cached read returns, hash
      the template it aims at, patched whether the API server took the patch. */
  datatype Step =
    | Tick(d: nat)
    | BeginWrite(a: nat, op: Op, version: nat)
    | BeginPass(a: nat, version: nat)
    | Confirm(a: nat)
    | Reap(a: nat)
    | RereadForRoll(a: nat)
    | Ensure(a: nat, hash: string, wedged: bool, seen: nat, patched: bool)
    | StatusWrite(a: nat)
    | Commit(a: nat)
    | Finish(a: nat)
    | Check(a: nat, kind: Takedown)
    | Act(a: nat)
    | EditSpec(spec: Spec)
    | Delete

  predicate IsPass(w: World, a: nat) {
    a in w.actors && w.actors[a].Reconciling? && w.actors[a].version < |w.store.history|
  }

  function Reread(a: Actor): seq<Build>
    requires a.Reconciling?
  {
    if a.rollRead.Some? then a.rollRead.value.live else []
  }

  /** The list a roll decision uses: the pass's, or the re-read when that is empty. */
  function RollList(a: Actor): seq<Build>
    requires a.Reconciling?
  {
    Rollout.ListUsed(LiveUsed(a), Reread(a))
  }

  /** What a call of ensureStatefulSet makes of the copy it read: the daemon it wants, and whether it
      withholds the template. */
  function Verdict(cfg: Config, s: Store, a: Actor, seen: Rollout.Daemon, hash: string, wedged: bool): (Rollout.Daemon, bool)
    requires a.Reconciling? && a.version < |s.history|
  {
    Rollout.Converge(
      seen, hash, if WantsZero(cfg, s, a) then 0 else 1, LiveUsed(a), Reread(a), wedged, s.clock, MaxBuildAge(cfg))
  }

  predicate Enabled(cfg: Config, w: World, step: Step) {
    var s := w.store;
    s.history != [] && w.daemons != [] &&
    match step
    case Tick(_) => true
    case BeginWrite(a, op, k) =>
      && a !in w.actors && k < |s.history|
      && (op.Start? || op.End? || op.Touch? || op.Grant?)
      && Apply(cfg, Write(op, s.clock), s.history[k]).Some?
    case BeginPass(a, k) => a !in w.actors && k < |s.history|
    case Confirm(a) => IsPass(w, a) && w.actors[a].confirm.None? && CachedDesire(cfg, s, w.actors[a]) == 0
    case Reap(a) => IsPass(w, a) && WantsZero(cfg, s, w.actors[a]) && cfg.fork
    case RereadForRoll(a) => IsPass(w, a) && Settled(cfg, s, w.actors[a]) && LiveUsed(w.actors[a]) == []
    case Ensure(a, hash, wedged, seen, patched) =>
      && IsPass(w, a) && Settled(cfg, s, w.actors[a]) && seen < |w.daemons|
      && !(cfg.fork && WantsZero(cfg, s, w.actors[a]))
      && (w.daemons[seen].template != hash && LiveUsed(w.actors[a]) == [] ==> w.actors[a].rollRead.Some?)
    case StatusWrite(a) => IsPass(w, a) && Settled(cfg, s, w.actors[a])
    case Commit(a) => a in w.actors && w.actors[a].Writing?
    case Finish(a) => a in w.actors
    case Check(a, kind) => a !in w.actors && (kind.ClonePrune? || kind.ResizeBounce?)
    case Act(a) => a in w.actors && w.actors[a].Checked? && w.actors[a].read.live == []
    case EditSpec(_) => s.present
    case Delete => true
  }

  /** The object a pass wants to store: its cached copy, with the in-flight set it decided on. */
  function PassObject(s: Store, a: Actor): Object
    requires a.Reconciling? && a.version < |s.history|
  {
    var o := s.history[a.version];
    o.(status := Synced(o.status, |Adopt(o.status).inflight| - |a.live|, LiveUsed(a)))
  }

  function Append(s: Store, write: Write, o: Object): Store {
    s.(history := s.history + [o], writes := s.writes + [write], landed := s.landed + [s.step])
  }

  /** A status update: version-checked by the API server, refused once the object is gone. */
  function Update(s: Store, a: Actor): Store
    requires a.Writing?
  {
    if s.present && a.version == |s.history| - 1 then Append(s, a.write, a.next) else s
  }

  /** Deleting the object, or finding it deleted already. */
  function Remove(s: Store): Store {
    if s.present then s.(present := false, gone := s.step) else s
  }

  /** What a step makes of the stored object. */
  function Effect(cfg: Config, w: World, step: Step): Store
    requires Enabled(cfg, w, step)
  {
    var s := w.store;
    match step
    case Tick(d) => s.(clock := s.clock + d)
    case Commit(a) => Update(s, w.actors[a])
    case Reap(_) => Remove(s)
    case Act(a) => if w.actors[a].kind.ClonePrune? then Remove(s) else s
    case EditSpec(spec) => Append(s, Write(Edit(spec), s.clock), Last(s).(spec := spec))
    case Delete => Remove(s)
    case _ => s
  }

  function Advance(s: Store): Store { s.(step := s.step + 1) }

  function NextStore(cfg: Config, w: World, step: Step): Store
    requires Enabled(cfg, w, step)
  {
    Advance(Effect(cfg, w, step))
  }

  function NextActors(cfg: Config, w: World, step: Step): map<nat, Actor>
    requires Enabled(cfg, w, step)
  {
    var s := w.store;
    match step
    case BeginWrite(a, op, k) =>
      var write := Write(op, s.clock);
      w.actors[a := Writing(k, write, Apply(cfg, write, s.history[k]).value)]
    case BeginPass(a, k) =>
      w.actors[a := Reconciling(k, s.step, s.clock, ReconciledLive(cfg, s.history[k].status, s.clock), None, None)]
    case Confirm(a) => w.actors[a := w.actors[a].(confirm := Some(DirectRead(cfg, s)))]
    case RereadForRoll(a) => w.actors[a := w.actors[a].(rollRead := Some(DirectRead(cfg, s)))]
    case StatusWrite(a) =>
      w.actors[a := Writing(w.actors[a].version, Write(Sync, w.actors[a].at), PassObject(s, w.actors[a]))]
    case Check(a, kind) => w.actors[a := Checked(kind, DirectRead(cfg, s))]
    case Reap(a) => w.actors - {a}
    case Commit(a) => w.actors - {a}
    case Finish(a) => w.actors - {a}
    case Act(a) => w.actors - {a}
    case _ => w.actors
  }

  function NextDaemons(cfg: Config, w: World, step: Step): seq<Rollout.Daemon>
    requires Enabled(cfg, w, step)
  {
    match step
    case Ensure(a, hash, wedged, seen, patched) =>
      if patched then
        var want := Verdict(cfg, w.store, w.actors[a], w.daemons[seen], hash, wedged).0;
        w.daemons + [Rollout.Merge(w.daemons[|w.daemons| - 1], w.daemons[seen], want)]
      else w.daemons
    case _ => w.daemons
  }

  function NewCuts(cfg: Config, w: World, step: Step): seq<Cut>
    requires Enabled(cfg, w, step)
  {
    var s := w.store;
    match step
    case Ensure(a, _, _, _, patched) =>
      if patched && WantsZero(cfg, s, w.actors[a])
      then [CutBy(s, ScaleToZero, w.actors[a])]
      else []
    case Reap(a) => [CutBy(s, ForkReap, w.actors[a])]
    case Act(a) => [Cut(w.actors[a].kind, w.actors[a].read.step, None, w.actors[a].read, s.step, s.clock)]
    case _ => []
  }

  function CutBy(s: Store, kind: Takedown, a: Actor): Cut
    requires a.Reconciling? && a.confirm.Some?
  {
    Cut(kind, a.begun, Some(Idle(a.version, a.at)), a.confirm.value, s.step, s.clock)
  }

  function NewRolls(cfg: Config, w: World, step: Step): seq<Roll>
    requires Enabled(cfg, w, step)
  {
    match step
    case Ensure(a, hash, wedged, seen, patched) =>
      var d := w.daemons[seen];
      if patched && d.template != hash && !Verdict(cfg, w.store, w.actors[a], d, hash, wedged).1
      then [RollBy(w.store, w.actors[a], wedged, d.held)]
      else []
    case _ => []
  }

  function RollBy(s: Store, a: Actor, wedged: bool, held: Rollout.Stamp): Roll
    requires a.Reconciling?
  {
    Roll(RollList(a), a.begun, if LiveUsed(a) == [] then a.rollRead else None, held, wedged, s.step, s.clock)
  }

  function NewHolds(cfg: Config, w: World, step: Step): seq<Hold>
    requires Enabled(cfg, w, step)
  {
    match step
    case Ensure(a, hash, wedged, seen, patched) =>
      if patched && Verdict(cfg, w.store, w.actors[a], w.daemons[seen], hash, wedged).1
      then [Hold(w.store.step, w.store.clock)]
      else []
    case _ => []
  }

  function Do(cfg: Config, w: World, step: Step): World
    requires Enabled(cfg, w, step)
  {
    World(
      NextStore(cfg, w, step), NextActors(cfg, w, step), NextDaemons(cfg, w, step),
      if step.Ensure? && step.patched then w.patched + [w.store.step] else w.patched,
      w.cuts + NewCuts(cfg, w, step), w.rolls + NewRolls(cfg, w, step), w.holds + NewHolds(cfg, w, step),
      if step.Delete? then w.deletes + [w.store.step] else w.deletes)
  }

  // ------------------------------------------------------------------ the invariant

  /** One link of the history: the next version is this one plus exactly one write. */
  predicate Lands(cfg: Config, o: Object, write: Write, o': Object) {
    Good(o.status, write.now) && Apply(cfg, write, o) == Some(o')
  }

  predicate Linked(cfg: Config, history: seq<Object>, writes: seq<Write>, i: nat)
    requires i < |writes| < |history|
  {
    Lands(cfg, history[i], writes[i], history[i + 1])
  }

  predicate HistoryOk(cfg: Config, s: Store) {
    PastOk(cfg, s.history, s.writes, s.clock) && LandedOk(s)
  }

  predicate PastOk(cfg: Config, history: seq<Object>, writes: seq<Write>, clock: int) {
    && |history| == |writes| + 1
    && (forall i | 0 <= i < |history| :: Good(history[i].status, clock))
    && (forall i | 0 <= i < |writes| :: Linked(cfg, history, writes, i))
    && (forall i | 0 <= i < |writes| :: writes[i].now <= clock)
    && (forall i, j | 0 <= i < j < |writes| :: writes[i].now <= writes[j].now)
  }

  predicate LandedOk(s: Store) {
    && |s.landed| == |s.writes| && (forall k | 0 <= k < |s.landed| :: s.landed[k] < s.step)
    && (!s.present ==> s.gone < s.step)
  }

  /** now is no earlier than the write that made the given version. */
  predicate After(s: Store, version: nat, now: int) {
    && version < |s.history| && now <= s.clock && Good(s.history[version].status, now)
    && (0 < version <= |s.writes| ==> s.writes[version - 1].now <= now)
  }

  /** At that step of the run, the given version was the last: the writes that had landed by then are
      exactly those that led up to it. */
  predicate WasLast(s: Store, version: nat, step: nat) {
    forall k | 0 <= k < |s.landed| :: s.landed[k] < step <==> k < version
  }

  /** At that step of the run, the object was gone already. */
  predicate WasGone(s: Store, step: nat) {
    !s.present && s.gone < step
  }

  /** A direct read saw the last version there was, and what was live on it; it found nothing exactly
      when the object was gone by then. */
  predicate ReadOk(cfg: Config, s: Store, r: Read) {
    && r.at <= s.clock && r.step <= s.step
    && match r.version
       case None => WasGone(s, r.step) && r.live == []
       case Some(m) =>
         && After(s, m, r.at) && WasLast(s, m, r.step) && !WasGone(s, r.step)
         && r.live == ReconciledLive(cfg, s.history[m].status, r.at)
  }

  /** Some direct read, made since the given step. */
  predicate ReadSince(cfg: Config, s: Store, begun: nat, r: Option<Read>) {
    r.Some? ==> ReadOk(cfg, s, r.value) && begun <= r.value.step
  }

  predicate ActorOk(cfg: Config, s: Store, a: Actor) {
    match a
    case Writing(k, write, o) =>
      After(s, k, write.now) && (k == |s.history| - 1 ==> Apply(cfg, write, s.history[k]) == Some(o))
    case Reconciling(k, begun, at, live, confirm, rollRead) =>
      && After(s, k, at) && begun <= s.step
      && live == ReconciledLive(cfg, s.history[k].status, at)
      && ReadSince(cfg, s, begun, confirm) && ReadSince(cfg, s, begun, rollRead)
      && (confirm.Some? ==>
            && at <= confirm.value.at && CachedDesire(cfg, s, a) == 0
            && (confirm.value.version.Some? ==> k <= confirm.value.version.value))
    case Checked(kind, read) => (kind.ClonePrune? || kind.ResizeBounce?) && ReadOk(cfg, s, read)
  }

  predicate CutOk(cfg: Config, s: Store, c: Cut) {
    && ReadOk(cfg, s, c.read) && c.read.live == []
    && c.begun <= c.read.step <= c.step && c.read.at <= c.now <= s.clock
    && (c.kind.ScaleToZero? || c.kind.ForkReap? ==> c.idle.Some?)
    && (c.idle.Some? ==> c.idle.value.at <= c.read.at && IdleOk(cfg, s, c.idle.value))
  }

  /** The verdict of the pass on its cached version was zero replicas. */
  predicate IdleOk(cfg: Config, s: Store, i: Idle) {
    && i.version < |s.history|
    && var o := s.history[i.version];
       DesiredReplicas(ProjectOf(cfg, o), ReconciledLive(cfg, o.status, i.at), i.at, cfg.adaptiveMax) == 0
  }

  /** Why a template may be rolled onto a healthy daemon. */
  predicate RollOk(cfg: Config, s: Store, r: Roll) {
    && ReadSince(cfg, s, r.begun, r.read)
    && (r.list == [] ==> r.read.Some? && r.read.value.live == [])
    && (r.wedged || r.list == []
        || (forall b | b in r.list :: r.now - b.since > Rollout.MIN_BUILD_GRACE)
        || (r.held.At? && r.now - r.held.time > MaxBuildAge(cfg)))
  }

  /** A hold stamp was there from the start, or a pass that withheld its template put it there. */
  predicate StampOk(first: Rollout.Stamp, holds: seq<Hold>, stamp: Rollout.Stamp, step: nat) {
    stamp.At? ==> stamp == first || exists i | 0 <= i < |holds| :: holds[i].now == stamp.time && holds[i].step < step
  }

  predicate DaemonsOk(w: World) {
    && w.daemons != []
    && (forall i | 0 <= i < |w.daemons| :: StampOk(w.daemons[0].held, w.holds, w.daemons[i].held, w.store.step))
    && (forall i | 0 <= i < |w.rolls| :: StampOk(w.daemons[0].held, w.holds, w.rolls[i].held, w.rolls[i].step))
  }

  /** A cut of that kind was logged at that step. */
  predicate CutAt(cuts: seq<Cut>, kind: Takedown, step: nat) {
    exists i | 0 <= i < |cuts| :: cuts[i].kind == kind && cuts[i].step == step
  }

  predicate RollAt(rolls: seq<Roll>, step: nat) {
    exists i | 0 <= i < |rolls| :: rolls[i].step == step
  }

  /** The daemon's version i + 1: whatever takes it to zero replicas or changes its template is logged. */
  predicate PatchLogged(w: World, i: nat)
    requires i < |w.patched| && |w.daemons| == |w.patched| + 1
  {
    && (w.daemons[i].replicas != 0 && w.daemons[i + 1].replicas == 0 ==> CutAt(w.cuts, ScaleToZero, w.patched[i]))
    && (w.daemons[i].template != w.daemons[i + 1].template ==> RollAt(w.rolls, w.patched[i]))
  }

  /** The logs are complete: nothing is taken down or rolled behind their back. */
  predicate LogsOk(w: World) {
    && |w.daemons| == |w.patched| + 1
    && (forall i | 0 <= i < |w.patched| :: PatchLogged(w, i))
    && (!w.store.present ==>
          w.store.gone in w.deletes || CutAt(w.cuts, ForkReap, w.store.gone) || CutAt(w.cuts, ClonePrune, w.store.gone))
  }

  predicate Inv(cfg: Config, w: World) {
    && HistoryOk(cfg, w.store)
    && (forall a | a in w.actors :: ActorOk(cfg, w.store, w.actors[a]))
    && (forall i | 0 <= i < |w.cuts| :: CutOk(cfg, w.store, w.cuts[i]))
    && (forall i | 0 <= i < |w.rolls| :: RollOk(cfg, w.store, w.rolls[i]))
    && DaemonsOk(w) && LogsOk(w)
  }

  /** Any stored object and any daemon, written before the run began. */
  predicate Init(w: World) {
    && |w.store.history| == 1 && w.store.writes == [] && w.store.landed == [] && w.store.present
    && w.actors == map[] && |w.daemons| == 1 && w.patched == []
    && w.cuts == [] && w.rolls == [] && w.holds == [] && w.deletes == []
    && Good(w.store.history[0].status, w.store.clock)
  }

  // --------------------------------------------------------- every step keeps it

  /** The past only grows, and what lands later lands at a later step. */
  predicate Extends(s: Store, s': Store) {
    && s.history <= s'.history && s.writes <= s'.writes && s.landed <= s'.landed
    && (forall k | |s.landed| <= k < |s'.landed| :: s.step <= s'.landed[k])
    && s.clock <= s'.clock && s.step <= s'.step
    && (if s.present then s'.present || s.step <= s'.gone else !s'.present && s'.gone == s.gone)
  }

  /** The store goes on from s to s' in good order. */
  predicate GoesOn(cfg: Config, s: Store, s': Store) {
    HistoryOk(cfg, s') && Extends(s, s')
  }

  lemma AfterExtends(s: Store, s': Store, version: nat, now: int)
    requires |s.history| == |s.writes| + 1 && Extends(s, s') && After(s, version, now)
    ensures After(s', version, now) && s'.history[version] == s.history[version]
  {
  }

  lemma WasLastExtends(s: Store, s': Store, version: nat, step: nat)
    requires LandedOk(s) && |s.history| == |s.writes| + 1 && Extends(s, s')
    requires version < |s.history| && step <= s.step && WasLast(s, version, step)
    ensures WasLast(s', version, step)
  {
    forall k | 0 <= k < |s'.landed| ensures s'.landed[k] < step <==> k < version {
      if k < |s.landed| {
        assert s'.landed[k] == s.landed[k];
      }
    }
  }

  lemma ReadExtends(cfg: Config, s: Store, s': Store, r: Read)
    requires LandedOk(s) && |s.history| == |s.writes| + 1 && Extends(s, s') && ReadOk(cfg, s, r)
    ensures ReadOk(cfg, s', r)
  {
    if r.version.Some? {
      AfterExtends(s, s', r.version.value, r.at);
      WasLastExtends(s, s', r.version.value, r.step);
    }
  }

  lemma ActorExtends(cfg: Config, s: Store, s': Store, a: Actor)
    requires LandedOk(s) && |s.history| == |s.writes| + 1 && Extends(s, s') && ActorOk(cfg, s, a)
    ensures ActorOk(cfg, s', a)
  {
    match a
    case Writing(k, write, o) => AfterExtends(s, s', k, write.now);
    case Reconciling(k, begun, at, live, confirm, rollRead) =>
      AfterExtends(s, s', k, at);
      if confirm.Some? {
        ReadExtends(cfg, s, s', confirm.value);
      }
      if rollRead.Some? {
        ReadExtends(cfg, s, s', rollRead.value);
      }
    case Checked(_, read) => ReadExtends(cfg, s, s', read);
  }

  lemma LongerPastOk(cfg: Config, history: seq<Object>, writes: seq<Write>, clock: int, write: Write, o: Object)
    requires PastOk(cfg, history, writes, clock) && write.now <= clock
    requires Lands(cfg, history[|history| - 1], write, o) && Good(o.status, clock)
    requires writes != [] ==> writes[|writes| - 1].now <= write.now
    ensures PastOk(cfg, history + [o], writes + [write], clock)
  {
    var h, ws := history + [o], writes + [write];
    forall i | 0 <= i < |ws| ensures Linked(cfg, h, ws, i) {
      if i < |writes| {
        assert Linked(cfg, history, writes, i);
        assert h[i] == history[i] && h[i + 1] == history[i + 1] && ws[i] == writes[i];
      } else {
        assert h[i] == history[|history| - 1] && h[i + 1] == o && ws[i] == write;
      }
    }
  }

  lemma AppendKeepsHistory(cfg: Config, s: Store, write: Write, o: Object)
    requires HistoryOk(cfg, s) && After(s, |s.history| - 1, write.now)
    requires Apply(cfg, write, Last(s)) == Some(o)
    ensures GoesOn(cfg, s, Advance(Append(s, write, o)))
  {
    var last := Last(s);
    ApplyKeepsGood(cfg, write, last);
    LongerPastOk(cfg, s.history, s.writes, s.clock, write, o);
  }

  lemma DirectReadOk(cfg: Config, s: Store)
    requires HistoryOk(cfg, s)
    ensures ReadOk(cfg, s, DirectRead(cfg, s))
  {
  }

  /** A confirmation that found a build proves the cached copy stale: the pass's own status write,
      computed from that copy, can no longer land. */
  lemma StaleCopyNeverLands(cfg: Config, s: Store, a: Actor)
    requires HistoryOk(cfg, s) && a.Reconciling? && ActorOk(cfg, s, a)
    requires a.confirm.Some? && a.confirm.value.live != []
    ensures a.version < |s.history| - 1
  {
    var r := a.confirm.value;
    DeadStaysDead(Adopt(s.history[a.version].status).inflight, a.at, r.at, MaxBuildAge(cfg));
  }

  lemma StatusWriteOk(cfg: Config, s: Store, a: Actor)
    requires HistoryOk(cfg, s) && a.Reconciling? && ActorOk(cfg, s, a)
    ensures ActorOk(cfg, s, Writing(a.version, Write(Sync, a.at), PassObject(s, a)))
  {
    if a.confirm.Some? && a.confirm.value.live != [] {
      StaleCopyNeverLands(cfg, s, a);
    }
  }

  lemma ReadIsOrdered(cfg: Config, s: Store, r: Read)
    requires ReadOk(cfg, s, r)
    ensures Chronological(r.live)
  {
    if r.version.Some? {
      ReconciledLiveIsPart(cfg, s.history[r.version.value].status, r.at);
    }
  }

  lemma ListsAreOrdered(cfg: Config, s: Store, a: Actor)
    requires a.Reconciling? && ActorOk(cfg, s, a)
    ensures Chronological(RollList(a))
  {
    ReconciledLiveIsPart(cfg, s.history[a.version].status, a.at);
    if a.confirm.Some? {
      ReadIsOrdered(cfg, s, a.confirm.value);
    }
    if a.rollRead.Some? {
      ReadIsOrdered(cfg, s, a.rollRead.value);
    }
  }

  /** A roll looks at the last entry only; the chronological invariant makes that speak for all. */
  lemma RollIsJustified(cfg: Config, s: Store, a: Actor, seen: Rollout.Daemon, hash: string, wedged: bool)
    requires HistoryOk(cfg, s) && a.Reconciling? && ActorOk(cfg, s, a)
    requires LiveUsed(a) == [] ==> a.rollRead.Some?
    requires seen.template != hash && !Verdict(cfg, s, a, seen, hash, wedged).1
    ensures RollOk(cfg, s, RollBy(s, a, wedged, seen.held))
  {
    ListsAreOrdered(cfg, s, a);
    NotHeldBecause(RollList(a), seen.held, wedged, s.clock, MaxBuildAge(cfg));
  }

  lemma NotHeldBecause(list: seq<Build>, held: Rollout.Stamp, wedged: bool, now: int, maxAge: int)
    requires Chronological(list) && maxAge >= 0
    ensures list != [] && !Rollout.HoldRoll(list, held, wedged, now, maxAge).0 ==>
      || wedged
      || (forall b | b in list :: now - b.since > Rollout.MIN_BUILD_GRACE)
      || (held.At? && now - held.time > maxAge)
  {
    if list != [] {
      assert forall i | 0 <= i < |list| :: list[i].since <= list[|list| - 1].since;
    }
  }

  lemma UpdateKeepsHistory(cfg: Config, s: Store, a: Actor)
    requires HistoryOk(cfg, s) && a.Writing? && ActorOk(cfg, s, a)
    ensures GoesOn(cfg, s, Advance(Update(s, a)))
  {
    if s.present && a.version == |s.history| - 1 {
      AppendKeepsHistory(cfg, s, a.write, a.next);
    } else {
      QuietKeepsHistory(cfg, s, s.clock, s);
    }
  }

  /** A step that writes nothing. */
  lemma QuietKeepsHistory(cfg: Config, s: Store, clock: int, kept: Store)
    requires HistoryOk(cfg, s) && s.clock <= clock && (kept == s || kept == Remove(s))
    ensures GoesOn(cfg, s, Advance(kept.(clock := clock)))
  {
    assert forall i | 0 <= i < |s.writes| :: s.writes[i].now <= clock;
  }

  lemma StepKeepsHistory(cfg: Config, w: World, step: Step)
    requires HistoryOk(cfg, w.store) && Enabled(cfg, w, step)
    requires step.Commit? ==> ActorOk(cfg, w.store, w.actors[step.a])
    ensures GoesOn(cfg, w.store, NextStore(cfg, w, step))
  {
    if step.Commit? {
      UpdateKeepsHistory(cfg, w.store, w.actors[step.a]);
    } else if step.EditSpec? {
      EditKeepsHistory(cfg, w.store, step.spec);
    } else {
      var kept := QuietEffect(cfg, w, step);
      QuietKeepsHistory(cfg, w.store, Effect(cfg, w, step).clock, kept);
    }
  }

  lemma EditKeepsHistory(cfg: Config, s: Store, spec: Spec)
    requires HistoryOk(cfg, s)
    ensures GoesOn(cfg, s, Advance(Append(s, Write(Edit(spec), s.clock), Last(s).(spec := spec))))
  {
    AppendKeepsHistory(cfg, s, Write(Edit(spec), s.clock), Last(s).(spec := spec));
  }

  lemma QuietEffect(cfg: Config, w: World, step: Step) returns (kept: Store)
    requires Enabled(cfg, w, step) && !step.Commit? && !step.EditSpec?
    ensures kept == w.store || kept == Remove(w.store)
    ensures var s' := Effect(cfg, w, step); s' == kept.(clock := s'.clock) && w.store.clock <= s'.clock
  {
    kept := if step.Tick? then w.store else Effect(cfg, w, step);
  }

  /** Every actor, moved or not, is in order with respect to the store the step found. */
  lemma StepKeepsActor(cfg: Config, w: World, step: Step, x: nat)
    requires Inv(cfg, w) && Enabled(cfg, w, step) && x in NextActors(cfg, w, step)
    ensures ActorOk(cfg, w.store, NextActors(cfg, w, step)[x])
  {
    if x in w.actors {
      assert ActorOk(cfg, w.store, w.actors[x]);
      if step.StatusWrite? && step.a == x {
        StatusWriteOk(cfg, w.store, w.actors[x]);
      } else if (step.Confirm? || step.RereadForRoll?) && step.a == x {
        RereadOk(cfg, w.store, w.actors[x], step.Confirm?);
      }
    } else {
      NewActorOk(cfg, w, step, x);
    }
  }

  lemma RereadOk(cfg: Config, s: Store, a: Actor, confirm: bool)
    requires HistoryOk(cfg, s) && a.Reconciling? && ActorOk(cfg, s, a)
    requires confirm ==> CachedDesire(cfg, s, a) == 0
    ensures ActorOk(cfg, s, if confirm then a.(confirm := Some(DirectRead(cfg, s))) else a.(rollRead := Some(DirectRead(cfg, s))))
  {
    DirectReadOk(cfg, s);
  }

  lemma NewActorOk(cfg: Config, w: World, step: Step, x: nat)
    requires HistoryOk(cfg, w.store) && Enabled(cfg, w, step) && x !in w.actors && x in NextActors(cfg, w, step)
    ensures ActorOk(cfg, w.store, NextActors(cfg, w, step)[x])
  {
    DirectReadOk(cfg, w.store);
  }

  lemma NewCutsOk(cfg: Config, w: World, step: Step)
    requires Inv(cfg, w) && Enabled(cfg, w, step)
    ensures forall c | c in NewCuts(cfg, w, step) :: CutOk(cfg, w.store, c)
  {
    if step.Ensure? || step.Reap? || step.Act? {
      assert ActorOk(cfg, w.store, w.actors[step.a]);
    }
  }

  lemma NewRollsOk(cfg: Config, w: World, step: Step)
    requires Inv(cfg, w) && Enabled(cfg, w, step)
    ensures forall r | r in NewRolls(cfg, w, step) :: RollOk(cfg, w.store, r)
  {
    if step.Ensure? && NewRolls(cfg, w, step) != [] {
      assert ActorOk(cfg, w.store, w.actors[step.a]);
      RollIsJustified(cfg, w.store, w.actors[step.a], w.daemons[step.seen], step.hash, step.wedged);
    }
  }

  lemma StampExtends(first: Rollout.Stamp, holds: seq<Hold>, more: seq<Hold>, stamp: Rollout.Stamp, step: nat, step': nat)
    requires StampOk(first, holds, stamp, step) && step <= step'
    ensures StampOk(first, holds + more, stamp, step')
  {
    if stamp.At? && stamp != first {
      var i :| 0 <= i < |holds| && holds[i].now == stamp.time && holds[i].step < step;
      assert (holds + more)[i] == holds[i];
    }
  }

  /** A patch stores the stamp that was there, or one that a hold put there, or its own. */
  lemma PatchedStampOk(cfg: Config, w: World, step: Step)
    requires DaemonsOk(w) && Enabled(cfg, w, step) && step.Ensure? && step.patched
    ensures var ds := NextDaemons(cfg, w, step);
      StampOk(ds[0].held, w.holds + NewHolds(cfg, w, step), ds[|ds| - 1].held, w.store.step + 1)
  {
    var ds, more, first, now := NextDaemons(cfg, w, step), NewHolds(cfg, w, step), w.daemons[0].held, w.store.clock;
    var stamp, seen := ds[|ds| - 1].held, w.daemons[step.seen].held;
    var stored := w.daemons[|w.daemons| - 1].held;
    StampExtends(first, w.holds, more, seen, w.store.step, w.store.step + 1);
    StampExtends(first, w.holds, more, stored, w.store.step, w.store.step + 1);
    assert stamp == stored || stamp == seen || stamp == Rollout.Absent || (stamp == Rollout.At(now) && more != []);
    if stamp == Rollout.At(now) && more != [] {
      assert (w.holds + more)[|w.holds|] == Hold(w.store.step, now);
    }
  }

  lemma StepKeepsDaemons(cfg: Config, w: World, step: Step)
    requires DaemonsOk(w) && Enabled(cfg, w, step)
    ensures DaemonsOk(Do(cfg, w, step))
  {
    var w', first, more, now := Do(cfg, w, step), w.daemons[0].held, NewHolds(cfg, w, step), w.store.step;
    assert w'.daemons[0] == w.daemons[0];
    forall i | 0 <= i < |w'.daemons| ensures StampOk(first, w'.holds, w'.daemons[i].held, now + 1) {
      if i < |w.daemons| {
        StampExtends(first, w.holds, more, w.daemons[i].held, now, now + 1);
      } else {
        PatchedStampOk(cfg, w, step);
      }
    }
    forall i | 0 <= i < |w'.rolls| ensures StampOk(first, w'.holds, w'.rolls[i].held, w'.rolls[i].step) {
      if i < |w.rolls| {
        StampExtends(first, w.holds, more, w.rolls[i].held, w.rolls[i].step, w.rolls[i].step);
      } else {
        StampExtends(first, w.holds, more, w.daemons[step.seen].held, now, now);
      }
    }
  }

  lemma CutStays(cuts: seq<Cut>, more: seq<Cut>, kind: Takedown, step: nat)
    ensures CutAt(cuts, kind, step) ==> CutAt(cuts + more, kind, step)
    ensures |more| == 1 && more[0].kind == kind && more[0].step == step ==> CutAt(cuts + more, kind, step)
  {
    var all := cuts + more;
    assert forall i | 0 <= i < |cuts| :: all[i] == cuts[i];
    assert |more| == 1 ==> all[|cuts|] == more[0];
  }

  lemma RollStays(rolls: seq<Roll>, more: seq<Roll>, step: nat)
    ensures RollAt(rolls, step) ==> RollAt(rolls + more, step)
    ensures |more| == 1 && more[0].step == step ==> RollAt(rolls + more, step)
  {
    var all := rolls + more;
    assert forall i | 0 <= i < |rolls| :: all[i] == rolls[i];
    assert |more| == 1 ==> all[|rolls|] == more[0];
  }

  /** The patch of a pass takes the daemon to zero replicas only with a cut, and changes its template
      only with a roll, logged at its step. */
  lemma PatchIsLogged(cfg: Config, w: World, step: Step)
    requires Enabled(cfg, w, step) && step.Ensure? && step.patched
    ensures var last, next := w.daemons[|w.daemons| - 1], NextDaemons(cfg, w, step)[|w.daemons|];
      && (last.replicas != 0 && next.replicas == 0 ==>
            |NewCuts(cfg, w, step)| == 1 && NewCuts(cfg, w, step)[0].kind == ScaleToZero
            && NewCuts(cfg, w, step)[0].step == w.store.step)
      && (last.template != next.template ==>
            |NewRolls(cfg, w, step)| == 1 && NewRolls(cfg, w, step)[0].step == w.store.step)
  {
  }

  /** The patch of a pass that read the last version of the daemon leaves the replicas it wants: none when
      it was confirmed idle, and one, whether or not it withholds its template, whenever it knows of a
      build or its project is still wanted. */
  lemma PatchDrivesReplicas(cfg: Config, w: World, step: Step)
    requires Enabled(cfg, w, step) && step.Ensure? && step.patched && step.seen == |w.daemons| - 1
    ensures var a, next := w.actors[step.a], NextDaemons(cfg, w, step)[|w.daemons|];
      && (WantsZero(cfg, w.store, a) ==> next.replicas == 0)
      && (LiveUsed(a) != [] || CachedDesire(cfg, w.store, a) == 1 ==> next.replicas == 1)
      && (a.confirm.Some? && a.confirm.value.live != [] ==> next.replicas == 1 && RollList(a) == a.confirm.value.live)
  {
    var a := w.actors[step.a];
    if LiveUsed(a) != [] {
      assert a.live != [] ==> CachedDesire(cfg, w.store, a) == 1;
    }
  }

  /** The object is lost only to somebody else's delete, or with a cut logged at that step. */
  lemma LossIsLogged(cfg: Config, w: World, step: Step)
    requires Enabled(cfg, w, step) && w.store.present && !NextStore(cfg, w, step).present
    ensures NextStore(cfg, w, step).gone == w.store.step
    ensures var more := NewCuts(cfg, w, step);
      || step.Delete?
      || (|more| == 1 && (more[0].kind == ForkReap || more[0].kind == ClonePrune) && more[0].step == w.store.step)
  {
  }

  lemma PatchesStayLogged(w: World, w': World, moreCuts: seq<Cut>, moreRolls: seq<Roll>, i: nat)
    requires |w.daemons| == |w.patched| + 1 && |w'.daemons| == |w'.patched| + 1
    requires w.daemons <= w'.daemons && w.patched <= w'.patched && i < |w.patched|
    requires w'.cuts == w.cuts + moreCuts && w'.rolls == w.rolls + moreRolls && PatchLogged(w, i)
    ensures PatchLogged(w', i)
  {
    CutStays(w.cuts, moreCuts, ScaleToZero, w.patched[i]);
    RollStays(w.rolls, moreRolls, w.patched[i]);
  }

  lemma StepKeepsLogs(cfg: Config, w: World, step: Step)
    requires LogsOk(w) && Enabled(cfg, w, step)
    ensures LogsOk(Do(cfg, w, step))
  {
    var w', cuts, rolls := Do(cfg, w, step), NewCuts(cfg, w, step), NewRolls(cfg, w, step);
    forall i | 0 <= i < |w'.patched| ensures PatchLogged(w', i) {
      if i < |w.patched| {
        PatchesStayLogged(w, w', cuts, rolls, i);
      } else {
        PatchIsLogged(cfg, w, step);
        CutStays(w.cuts, cuts, ScaleToZero, w.store.step);
        RollStays(w.rolls, rolls, w.store.step);
      }
    }
    if !w'.store.present {
      LossStaysLogged(cfg, w, step);
    }
  }

  lemma LossStaysLogged(cfg: Config, w: World, step: Step)
    requires LogsOk(w) && Enabled(cfg, w, step) && !NextStore(cfg, w, step).present
    ensures var w' := Do(cfg, w, step);
      w'.store.gone in w'.deletes || CutAt(w'.cuts, ForkReap, w'.store.gone) || CutAt(w'.cuts, ClonePrune, w'.store.gone)
  {
    var gone := NextStore(cfg, w, step).gone;
    if w.store.present {
      LossIsLogged(cfg, w, step);
    } else {
      assert gone == w.store.gone;
    }
    CutStays(w.cuts, NewCuts(cfg, w, step), ForkReap, gone);
    CutStays(w.cuts, NewCuts(cfg, w, step), ClonePrune, gone);
  }

  /** Every step of every actor keeps the invariant, and only ever adds to the past. */
  lemma StepKeepsInv(cfg: Config, w: World, step: Step)
    requires Inv(cfg, w) && Enabled(cfg, w, step)
    ensures Inv(cfg, Do(cfg, w, step)) && Extends(w.store, Do(cfg, w, step).store)
  {
    var w' := Do(cfg, w, step);
    StepKeepsHistory(cfg, w, step);
    NewCutsOk(cfg, w, step);
    NewRollsOk(cfg, w, step);
    StepKeepsDaemons(cfg, w, step);
    StepKeepsLogs(cfg, w, step);
    forall x | x in w'.actors ensures ActorOk(cfg, w'.store, w'.actors[x]) {
      StepKeepsActor(cfg, w, step, x);
      ActorExtends(cfg, w.store, w'.store, w'.actors[x]);
    }
    CutsExtend(cfg, w.store, w'.store, w.cuts, NewCuts(cfg, w, step));
    RollsExtend(cfg, w.store, w'.store, w.rolls, NewRolls(cfg, w, step));
  }

  lemma CutsExtend(cfg: Config, s: Store, s': Store, cuts: seq<Cut>, more: seq<Cut>)
    requires HistoryOk(cfg, s) && Extends(s, s')
    requires (forall i | 0 <= i < |cuts| :: CutOk(cfg, s, cuts[i])) && (forall c | c in more :: CutOk(cfg, s, c))
    ensures forall i | 0 <= i < |cuts + more| :: CutOk(cfg, s', (cuts + more)[i])
  {
    forall i | 0 <= i < |cuts + more| ensures CutOk(cfg, s', (cuts + more)[i]) {
      var c := (cuts + more)[i];
      assert i < |cuts| || c in more;
      ReadExtends(cfg, s, s', c.read);
      assert c.idle.Some? ==> s'.history[c.idle.value.version] == s.history[c.idle.value.version];
    }
  }

  lemma RollsExtend(cfg: Config, s: Store, s': Store, rolls: seq<Roll>, more: seq<Roll>)
    requires HistoryOk(cfg, s) && Extends(s, s')
    requires (forall i | 0 <= i < |rolls| :: RollOk(cfg, s, rolls[i])) && (forall r | r in more :: RollOk(cfg, s, r))
    ensures forall i | 0 <= i < |rolls + more| :: RollOk(cfg, s', (rolls + more)[i])
  {
    forall i | 0 <= i < |rolls + more| ensures RollOk(cfg, s', (rolls + more)[i]) {
      var r := (rolls + more)[i];
      assert i < |rolls| || r in more;
      if r.read.Some? {
        ReadExtends(cfg, s, s', r.read.value);
      }
    }
  }

  // ------------------------------------------------------------------------- runs

  /** A run: an initial world, then one step after the other; w is the world it has come to. */
  datatype Run = Genesis(w: World) | Then(past: Run, step: Step, w: World)

  predicate IsRun(cfg: Config, r: Run) {
    match r
    case Genesis(w) => Init(w)
    case Then(past, step, w) => IsRun(cfg, past) && Enabled(cfg, past.w, step) && w == Do(cfg, past.w, step)
  }

  lemma InitIsOk(cfg: Config, w: World)
    requires Init(w)
    ensures Inv(cfg, w)
  {
  }

  lemma {:induction false} RunKeepsInv(cfg: Config, r: Run)
    requires IsRun(cfg, r)
    ensures Inv(cfg, r.w)
  {
    match r
    case Genesis(w) => InitIsOk(cfg, w);
    case Then(past, step, _) =>
      RunKeepsInv(cfg, past);
      StepKeepsInv(cfg, past.w, step);
  }

  /** r' goes on from where r ends. */
  predicate Continues(r: Run, r': Run) {
    r == r' || (r'.Then? && Continues(r, r'.past))
  }

  lemma {:induction false} ContinuesOn(r: Run, r': Run, r'': Run)
    requires Continues(r, r') && Continues(r', r'')
    ensures Continues(r, r'')
  {
    if r' != r'' {
      ContinuesOn(r, r', r''.past);
    }
  }

  lemma ExtendsOn(s: Store, s': Store, s'': Store)
    requires Extends(s, s') && Extends(s', s'')
    ensures Extends(s, s'')
  {
    assert forall k | |s.landed| <= k < |s'.landed| :: s''.landed[k] == s'.landed[k];
  }

  /** Nothing that was stored is ever lost from the past. */
  lemma {:induction false} RunExtends(cfg: Config, r: Run, r': Run)
    requires IsRun(cfg, r') && Continues(r, r')
    ensures Extends(r.w.store, r'.w.store)
  {
    if r != r' {
      RunExtends(cfg, r, r'.past);
      RunKeepsInv(cfg, r'.past);
      StepKeepsInv(cfg, r'.past.w, r'.step);
      ExtendsOn(r.w.store, r'.past.w.store, r'.w.store);
    }
  }

  /** Some run ends here. */
  ghost predicate Reached(cfg: Config, w: World) {
    exists r: Run :: IsRun(cfg, r) && r.w == w
  }

  lemma ReachedIsOk(cfg: Config, w: World)
    requires Reached(cfg, w)
    ensures Inv(cfg, w)
  {
    var r: Run :| IsRun(cfg, r) && r.w == w;
    RunKeepsInv(cfg, r);
  }

  lemma ReachedHistory(cfg: Config, w: World)
    requires Reached(cfg, w)
    ensures HistoryOk(cfg, w.store)
  {
    ReachedIsOk(cfg, w);
  }

  lemma ReachedCut(cfg: Config, w: World, c: nat)
    requires Reached(cfg, w) && c < |w.cuts|
    ensures HistoryOk(cfg, w.store) && CutOk(cfg, w.store, w.cuts[c])
  {
    ReachedIsOk(cfg, w);
  }

  lemma ReachedRoll(cfg: Config, w: World, i: nat)
    requires Reached(cfg, w) && i < |w.rolls|
    ensures RollOk(cfg, w.store, w.rolls[i])
    ensures w.daemons != [] && StampOk(w.daemons[0].held, w.holds, w.rolls[i].held, w.rolls[i].step)
  {
    ReachedIsOk(cfg, w);
  }

  lemma ReachedLogs(cfg: Config, w: World)
    requires Reached(cfg, w)
    ensures LogsOk(w)
  {
    ReachedIsOk(cfg, w);
  }
}
