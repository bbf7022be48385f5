/**
 The roll hold: withholding a changed pod template from a daemon that serves builds, for a bounded
 time (ensureStatefulSet and holdRoll in internal/controller/buildproject_controller.go).
 */
module Rollout {
  import opened Base
  import opened Inflight

  /** A forced roll waits until the youngest build is this old. */
  const MIN_BUILD_GRACE := HOUR

  /** The roll-held-since annotation: missing, present but unreadable, or an instant. */
  datatype Stamp = Absent | Unreadable | At(time: int)

  /** What the reconciler drives on the StatefulSet. */
  datatype Daemon = Daemon(replicas: int, template: string, held: Stamp)

  /** holdRoll: whether to withhold, and the annotation it leaves behind. */
  function HoldRoll(list: seq<Build>, held: Stamp, wedged: bool, now: int, maxAge: int): (bool, Stamp)
    requires list != []
  {
    if wedged then (false, held)
    else
      var since := if held.At? then held.time else now;
      if now - list[|list| - 1].since > MIN_BUILD_GRACE || now - since > maxAge
      then (false, Absent)
      else (true, At(since))
  }

  /** The list a roll decision uses: the pass's own, re-read from the API server only when empty. */
  function ListUsed(live: seq<Build>, reread: seq<Build>): seq<Build> {
    if live == [] then reread else live
  }

  /** One call of ensureStatefulSet: the new daemon and whether the roll was held. */
  function Converge(
    d: Daemon, hash: string, desired: int,
    live: seq<Build>, reread: seq<Build>, wedged: bool, now: int, maxAge: int): (Daemon, bool)
  {
    var list := ListUsed(live, reread);
    if d.template != hash && list != [] then
      var (held, stamp) := HoldRoll(list, d.held, wedged, now, maxAge);
      if held then (Daemon(desired, d.template, stamp), true)
      else (Daemon(desired, hash, Absent), false)
    else (Daemon(desired, hash, Absent), false)
  }

  /** A merge patch of the differences between the copy that was read and the wanted one, applied to
      whatever is stored by then: no version is checked, and a field that did not change is not sent. */
  function Merge(stored: Daemon, seen: Daemon, want: Daemon): Daemon {
    Daemon(
      if want.replicas != seen.replicas then want.replicas else stored.replicas,
      if want.template != seen.template then want.template else stored.template,
      if want.held != seen.held then want.held else stored.held)
  }

  /** The StatefulSet object, patched in place. */
  class StatefulSet {
    var replicas: int
    var template: string
    var held: Stamp

    function View(): Daemon
      reads this
    {
      Daemon(replicas, template, held)
    }

    constructor (d: Daemon)
      ensures View() == d
    {
      replicas, template, held := d.replicas, d.template, d.held;
    }

    method Patch(seen: Daemon, want: Daemon)
      modifies this
      ensures View() == Merge(old(View()), seen, want)
    {
      if want.replicas != seen.replicas {
        replicas := want.replicas;
      }
      if want.template != seen.template {
        template := want.template;
      }
      if want.held != seen.held {
        held := want.held;
      }
    }

    /** existing is the cached copy the call reads; reread is what a direct read of the in-flight set
        would return; patched says whether the API server took the patch. */
    method Ensure(
      existing: Daemon, hash: string, desired: int, live: seq<Build>, reread: seq<Build>,
      wedged: bool, now: int, maxAge: int, patched: bool) returns (rollHeld: bool)
      modifies this
      ensures rollHeld == Converge(existing, hash, desired, live, reread, wedged, now, maxAge).1
      ensures View() ==
        if patched
        then Merge(old(View()), existing, Converge(existing, hash, desired, live, reread, wedged, now, maxAge).0)
        else old(View())
    {
      var list := live;
      var templateChanged := existing.template != hash;
      var annotation := existing.held;
      rollHeld := false;
      if templateChanged {
        if |list| == 0 && |reread| > 0 {
          list := reread;
        }
        if |list| > 0 {
          var verdict := HoldRoll(list, annotation, wedged, now, maxAge);
          rollHeld, annotation := verdict.0, verdict.1;
          templateChanged := !rollHeld;
        }
      }
      if !rollHeld {
        annotation := Absent;
      }
      if existing.replicas == desired && !templateChanged && annotation == existing.held {
        return;
      }
      if patched {
        Patch(existing, Daemon(desired, if templateChanged then hash else existing.template, annotation));
      }
    }
  }

  // --------------------------------------------------------- when a roll happens

  /** The exact rule: a changed template is applied iff the daemon is wedged, or nothing is on the
      list used, or EVERY build on it (not only the last) has had its hour, or the hold has outlasted
      max-build-age. The step from the last entry to every entry is the chronological invariant. */
  lemma RollExactlyWhen(
    d: Daemon, hash: string, desired: int,
    live: seq<Build>, reread: seq<Build>, wedged: bool, now: int, maxAge: int)
    requires Chronological(live) && Chronological(reread) && maxAge >= 0
    requires d.template != hash
    ensures var (d', held) := Converge(d, hash, desired, live, reread, wedged, now, maxAge);
      && (held <==> d'.template != hash)
      && (!held <==>
            || wedged
            || (live == [] && reread == [])
            || (forall b | b in (if live == [] then reread else live) :: now - b.since > HOUR)
            || (d.held.At? && now - d.held.time > maxAge))
  {
    var list := ListUsed(live, reread);
    if list != [] {
      assert list[|list| - 1] in list;
      assert forall i | 0 <= i < |list| :: list[i].since <= list[|list| - 1].since;
    }
  }

  /** The floor of one hour is NOT unconditional: a healthy daemon is rolled under a build younger
      than the grace exactly when the hold has outlasted max-build-age. */
  lemma GraceYieldsOnlyToTheCap(
    d: Daemon, hash: string, desired: int,
    live: seq<Build>, reread: seq<Build>, now: int, maxAge: int, young: Build)
    requires Chronological(live) && Chronological(reread) && maxAge >= 0
    requires d.template != hash
    requires young in (if live == [] then reread else live) && now - young.since <= HOUR
    ensures !Converge(d, hash, desired, live, reread, false, now, maxAge).1
      <==> d.held.At? && now - d.held.time > maxAge
  {
    RollExactlyWhen(d, hash, desired, live, reread, false, now, maxAge);
  }

  /** A build routed one second ago is severed once the hold passes the cap. */
  lemma YoungBuildCanBeSevered()
    ensures
      var d := Daemon(1, "old", At(0));
      var now := 2 * HOUR + SECOND;
      Converge(d, "new", 1, [Build(Digest("t"), now - SECOND)], [], false, now, 2 * HOUR).0.template == "new"
  {
  }

  // ----------------------------------------------------------- the hold is bounded

  /** One reconcile pass: the version of the StatefulSet its cached read returned, the target template
      it aims at and whether its patch landed. */
  datatype Pass = Pass(
    seen: nat, hash: string, desired: int, live: seq<Build>, reread: seq<Build>, wedged: bool, now: int, patched: bool)

  function Verdict(d: Daemon, p: Pass, maxAge: int): (Daemon, bool) {
    Converge(d, p.hash, p.desired, p.live, p.reread, p.wedged, p.now, maxAge)
  }

  /** What is stored after a pass that read `seen`. */
  function After(stored: Daemon, seen: Daemon, p: Pass, maxAge: int): Daemon {
    if p.patched then Merge(stored, seen, Verdict(seen, p, maxAge).0) else stored
  }

  /** A pass drives the replicas whether or not it withholds its template: once its patch landed the
      stored count is the wanted one exactly when the copy it read had another, or it was so already. */
  lemma ReplicasAreDriven(stored: Daemon, seen: Daemon, p: Pass, maxAge: int)
    requires p.patched
    ensures After(stored, seen, p, maxAge).replicas == p.desired <==> seen.replicas != p.desired || stored.replicas == p.desired
    ensures seen == stored ==> After(stored, seen, p, maxAge).replicas == p.desired
  {
  }

  /** A held pass moves a standing stamp exactly when the copy it read carries none it can parse (and
      the clock has moved), and then to its own instant; it never touches the template. */
  lemma StampMovesExactlyWhen(stored: Daemon, seen: Daemon, p: Pass, maxAge: int)
    requires stored.held.At? && p.patched && Verdict(seen, p, maxAge).1
    ensures var d := After(stored, seen, p, maxAge);
      && (d.held != stored.held <==> !seen.held.At? && p.now != stored.held.time)
      && (d.held == stored.held || d.held == At(p.now))
      && d.template == stored.template
  {
  }

  /** A held pass whose patch landed leaves a stamp exactly when there was one already, or the copy it read
      carries none it can parse: then it sends its own. */
  lemma StampIsLeftExactlyWhen(stored: Daemon, seen: Daemon, p: Pass, maxAge: int)
    requires p.patched && Verdict(seen, p, maxAge).1
    ensures After(stored, seen, p, maxAge).held.At? <==> stored.held.At? || !seen.held.At?
  {
  }

  /** A pass that applies its template leaves a stamp behind exactly when the copy it read is older than
      that stamp: the removal is then not part of its patch. */
  lemma StampOutlivesARollExactlyWhen(stored: Daemon, seen: Daemon, p: Pass, maxAge: int)
    requires p.patched && !Verdict(seen, p, maxAge).1
    ensures After(stored, seen, p, maxAge).held != Absent <==> stored.held != Absent && seen.held == Absent
  {
  }

  /** One link of a series: version n + i is what pass i leaves of the version before, having read any
      version there was. */
  predicate Link(n: nat, ps: seq<Pass>, vs: seq<Daemon>, i: nat, maxAge: int)
    requires 0 < n && i < |ps| && |vs| == n + |ps|
  {
    ps[i].seen < n + i && vs[n + i] == After(vs[n + i - 1], vs[ps[i].seen], ps[i], maxAge)
  }

  /** vs are the stored versions: the first n came before the passes, the rest are one per pass. */
  predicate Series(n: nat, ps: seq<Pass>, vs: seq<Daemon>, maxAge: int) {
    0 < n && |vs| == n + |ps| && forall i | 0 <= i < |ps| :: Link(n, ps, vs, i, maxAge)
  }

  predicate HeldBy(ps: seq<Pass>, vs: seq<Daemon>, i: nat, maxAge: int) {
    i < |ps| && ps[i].seen < |vs| && Verdict(vs[ps[i].seen], ps[i], maxAge).1
  }

  predicate AllHeld(ps: seq<Pass>, vs: seq<Daemon>, maxAge: int) {
    forall i | 0 <= i < |ps| :: HeldBy(ps, vs, i, maxAge)
  }

  predicate Stamped(ps: seq<Pass>, vs: seq<Daemon>, i: nat) {
    i < |ps| && ps[i].seen < |vs| && vs[ps[i].seen].held.At?
  }

  /** While held the template stands, and the stamp never moves as long as every pass reads some
      stamped copy, however stale; whatever template each pass aims at and whichever patches are lost.
      No held pass lies more than max-build-age after the stamp it read. */
  lemma {:induction false} StampStandsWhileHeld(n: nat, ps: seq<Pass>, vs: seq<Daemon>, maxAge: int, k: nat)
    requires Series(n, ps, vs, maxAge) && AllHeld(ps, vs, maxAge) && k <= |ps|
    ensures vs[n - 1 + k].template == vs[n - 1].template
    ensures vs[n - 1].held.At? && (forall i | 0 <= i < k :: Stamped(ps, vs, i)) ==> vs[n - 1 + k].held == vs[n - 1].held
    ensures k < |ps| && Stamped(ps, vs, k) ==> ps[k].now - vs[ps[k].seen].held.time <= maxAge
  {
    if k < |ps| {
      assert HeldBy(ps, vs, k, maxAge);
    }
    if k > 0 {
      StampStandsWhileHeld(n, ps, vs, maxAge, k - 1);
      assert Link(n, ps, vs, k - 1, maxAge) && HeldBy(ps, vs, k - 1, maxAge);
      HeldLeaves(vs[n + k - 2], vs[ps[k - 1].seen], ps[k - 1], maxAge);
      assert (forall i | 0 <= i < k :: Stamped(ps, vs, i)) ==> Stamped(ps, vs, k - 1);
    }
  }

  /** What a held pass leaves, patched or not. */
  lemma HeldLeaves(stored: Daemon, seen: Daemon, p: Pass, maxAge: int)
    requires Verdict(seen, p, maxAge).1
    ensures var d := After(stored, seen, p, maxAge);
      && d.template == stored.template
      && (seen.held.At? ==> d.held == stored.held)
  {
  }

  /** The cache of the StatefulSet lags by at most lag: a pass reads no version older than one that was
      stored that long ago. */
  predicate Lags(n: nat, ps: seq<Pass>, lag: nat) {
    forall i, j | 0 <= j < i < |ps| && ps[j].now + lag <= ps[i].now :: n + j <= ps[i].seen
  }

  predicate StampedBy(d: Daemon, t: int) {
    d.held.At? ==> d.held.time <= t
  }

  lemma {:induction false} StampsAreEarly(n: nat, ps: seq<Pass>, vs: seq<Daemon>, maxAge: int, lag: nat, k: nat)
    requires Series(n, ps, vs, maxAge) && AllHeld(ps, vs, maxAge) && Lags(n, ps, lag) && k < |ps|
    requires vs[n].held.At? && forall j | 0 <= j < n :: StampedBy(vs[j], ps[0].now)
    ensures vs[n + k].held.At? && vs[n + k].held.time <= ps[0].now + Max(0, lag - 1)
  {
    assert Link(n, ps, vs, k, maxAge) && HeldBy(ps, vs, k, maxAge);
    if k == 0 {
      assert StampedBy(vs[n - 1], ps[0].now);
    } else {
      StampsAreEarly(n, ps, vs, maxAge, lag, k - 1);
      var seen := ps[k].seen;
      if seen >= n {
        StampsAreEarly(n, ps, vs, maxAge, lag, seen - n);
      }
    }
  }

  /** A withheld template is withheld for a bounded time: once a held pass has left a stamp, every later
      pass of an unbroken series of held ones lies within max-build-age, plus less than the lag of the
      cache, after it; with no lag, within max-build-age. */
  lemma HoldIsBounded(n: nat, ps: seq<Pass>, vs: seq<Daemon>, maxAge: int, lag: nat, k: nat)
    requires maxAge >= 0
    requires Series(n, ps, vs, maxAge) && AllHeld(ps, vs, maxAge) && Lags(n, ps, lag) && k < |ps|
    requires vs[n].held.At? && forall j | 0 <= j < n :: StampedBy(vs[j], ps[0].now)
    ensures ps[k].now - ps[0].now <= maxAge + Max(0, lag - 1)
  {
    assert Link(n, ps, vs, k, maxAge) && HeldBy(ps, vs, k, maxAge);
    var seen := ps[k].seen;
    if seen >= n {
      StampsAreEarly(n, ps, vs, maxAge, lag, seen - n);
    } else {
      assert StampedBy(vs[seen], ps[0].now);
    }
  }

  /** The bound is reached: a pass that still reads the unstamped copy restarts the clock just before the
      lag is over, and the next one holds for a whole max-build-age from there. */
  lemma BoundIsReached(maxAge: nat, lag: nat) returns (ps: seq<Pass>, vs: seq<Daemon>)
    requires lag >= 1
    ensures ps != [] && Series(1, ps, vs, maxAge) && AllHeld(ps, vs, maxAge) && Lags(1, ps, lag)
    ensures vs[0].held == Absent && vs[1].held.At?
    ensures ps[|ps| - 1].now - ps[0].now == maxAge + (lag - 1)
  {
    var young := (now: int) => [Build(Adopted(0), now)];
    var d := Daemon(1, "old", Absent);
    var restart, end := lag - 1, lag - 1 + maxAge;
    var p0 := Pass(0, "new", 1, young(0), [], false, 0, true);
    var p1 := Pass(0, "new", 1, young(restart), [], false, restart, true);
    var p2 := Pass(2, "new", 1, young(end), [], false, end, true);
    ps := [p0, p1, p2];
    vs := [d, d.(held := At(0)), d.(held := At(restart)), d.(held := At(restart))];
    assert Link(1, ps, vs, 0, maxAge) && Link(1, ps, vs, 1, maxAge) && Link(1, ps, vs, 2, maxAge);
    assert HeldBy(ps, vs, 0, maxAge) && HeldBy(ps, vs, 1, maxAge) && HeldBy(ps, vs, 2, maxAge);
  }

  /** Past the cap the very next pass applies whatever template it aims at. */
  lemma CapAlwaysApplies(d: Daemon, p: Pass, maxAge: int)
    requires d.held.At? && p.now - d.held.time > maxAge
    ensures Verdict(d, p, maxAge) == (Daemon(p.desired, p.hash, Absent), false)
  {
  }
}
