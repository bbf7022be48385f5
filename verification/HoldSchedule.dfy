/**
 The roll hold and the requeue together: a withheld template is not only held for a bounded time, it
 lands soon after (Reconcile, ensureStatefulSet and holdRoll in
 internal/controller/buildproject_controller.go).
 */
module HoldSchedule {
  import opened Base
  import opened Rollout
  import Requeue

  /** Pass i ends by asking for a requeue, the soonest of its deadlines, and the next pass is no later. */
  predicate Honoured(
    ps: seq<Pass>, vs: seq<Daemon>, tails: seq<Requeue.Tail>, requeues: seq<int>, i: nat, maxAge: int)
    requires i + 1 < |ps| == |tails| == |requeues|
  {
    && tails[i].recheck > 0
    && (tails[i].rollHeld <==> HeldBy(ps, vs, i, maxAge))
    && Requeue.IsSoonest(requeues[i], Requeue.Deadlines(tails[i]))
    && (requeues[i] > 0 ==> ps[i + 1].now <= ps[i].now + requeues[i])
  }

  predicate AllHonoured(ps: seq<Pass>, vs: seq<Daemon>, tails: seq<Requeue.Tail>, requeues: seq<int>, maxAge: int) {
    |ps| == |tails| == |requeues| && forall i | 0 <= i < |ps| - 1 :: Honoured(ps, vs, tails, requeues, i, maxAge)
  }

  /** A held pass is followed by the next within 30 seconds. */
  lemma HeldIsPolled(
    ps: seq<Pass>, vs: seq<Daemon>, tails: seq<Requeue.Tail>, requeues: seq<int>, i: nat, maxAge: int)
    requires AllHonoured(ps, vs, tails, requeues, maxAge) && i < |ps| - 1 && HeldBy(ps, vs, i, maxAge)
    ensures ps[i + 1].now <= ps[i].now + Requeue.DRAIN_RECHECK
  {
    assert Honoured(ps, vs, tails, requeues, i, maxAge);
    Requeue.PolledConditions(tails[i], requeues[i]);
  }

  lemma FirstOfSeries(n: nat, ps: seq<Pass>, vs: seq<Daemon>, maxAge: int, lag: nat, k: nat)
    requires Series(n, ps, vs, maxAge) && Lags(n, ps, lag) && k <= |ps|
    requires forall i | 0 <= i < k :: HeldBy(ps, vs, i, maxAge)
    ensures Series(n, ps[..k], vs[..n + k], maxAge) && Lags(n, ps[..k], lag) && AllHeld(ps[..k], vs[..n + k], maxAge)
  {
    var qs, us := ps[..k], vs[..n + k];
    forall i | 0 <= i < k ensures Link(n, qs, us, i, maxAge) && HeldBy(qs, us, i, maxAge) {
      assert Link(n, ps, vs, i, maxAge) && HeldBy(ps, vs, i, maxAge);
      assert us[ps[i].seen] == vs[ps[i].seen] && us[n + i - 1] == vs[n + i - 1] && us[n + i] == vs[n + i];
    }
  }

  /** How long a template can be withheld. */
  function Bound(maxAge: int, lag: nat): int { maxAge + Max(0, lag - 1) }

  /** The passes before k lie within the bound after the first. */
  lemma HeldWithinBound(n: nat, ps: seq<Pass>, vs: seq<Daemon>, maxAge: int, lag: nat, k: nat, j: nat)
    requires maxAge >= 0 && Series(n, ps, vs, maxAge) && Lags(n, ps, lag) && j < k <= |ps|
    requires vs[n].held.At? && forall i | 0 <= i < n :: StampedBy(vs[i], ps[0].now)
    requires forall i | 0 <= i < k :: HeldBy(ps, vs, i, maxAge)
    ensures ps[j].now - ps[0].now <= Bound(maxAge, lag)
  {
    FirstOfSeries(n, ps, vs, maxAge, lag, k);
    var us := vs[..n + k];
    assert forall i | 0 <= i <= n :: us[i] == vs[i];
    HoldIsBounded(n, ps[..k], us, maxAge, lag, j);
  }

  /** A pass that does not withhold its template wants it on the daemon, and stores it there if its patch
      lands and the copy it read carries another. */
  lemma NotHeldApplies(stored: Daemon, seen: Daemon, p: Pass, maxAge: int)
    requires !Verdict(seen, p, maxAge).1
    ensures Verdict(seen, p, maxAge).0.template == p.hash
    ensures p.patched && seen.template != p.hash ==> After(stored, seen, p, maxAge).template == p.hash
  {
  }

  /** Pass k applies its template, within 30 seconds of the bound after the first pass of the series. */
  predicate AppliesInTime(n: nat, ps: seq<Pass>, vs: seq<Daemon>, maxAge: int, lag: nat, k: nat)
    requires k < |ps| && |vs| == n + |ps| && ps[k].seen < |vs|
  {
    && ps[k].now - ps[0].now <= Bound(maxAge, lag) + Requeue.DRAIN_RECHECK
    && Verdict(vs[ps[k].seen], ps[k], maxAge).0.template == ps[k].hash
    && (ps[k].patched && vs[ps[k].seen].template != ps[k].hash ==> vs[n + k].template == ps[k].hash)
  }

  /** From the first pass that withheld a template and left a stamp, in any series of passes that honours
      the requeues: every pass that still withholds lies within max-build-age, plus less than the lag of
      the cache, after it; and the first that does not comes at most 30 seconds later than that, and
      applies its template. k is that pass, or the length of the series if it ends before. */
  lemma HeldTemplateLands(
    n: nat, ps: seq<Pass>, vs: seq<Daemon>, tails: seq<Requeue.Tail>, requeues: seq<int>, maxAge: int, lag: nat)
    returns (k: nat)
    requires maxAge >= 0 && ps != [] && Series(n, ps, vs, maxAge) && Lags(n, ps, lag)
    requires AllHonoured(ps, vs, tails, requeues, maxAge)
    requires forall i | 0 <= i < n :: StampedBy(vs[i], ps[0].now)
    requires HeldBy(ps, vs, 0, maxAge) && ps[0].patched && (vs[n - 1].held.At? || !vs[ps[0].seen].held.At?)
    ensures 1 <= k <= |ps|
    ensures forall j | 0 <= j < k :: HeldBy(ps, vs, j, maxAge) && ps[j].now - ps[0].now <= Bound(maxAge, lag)
    ensures k < |ps| ==>
      !HeldBy(ps, vs, k, maxAge) && ps[k].seen < |vs| && AppliesInTime(n, ps, vs, maxAge, lag, k)
  {
    assert Link(n, ps, vs, 0, maxAge);
    StampIsLeftExactlyWhen(vs[n - 1], vs[ps[0].seen], ps[0], maxAge);
    k := 1;
    while k < |ps| && HeldBy(ps, vs, k, maxAge)
      invariant 1 <= k <= |ps| && forall j | 0 <= j < k :: HeldBy(ps, vs, j, maxAge)
    {
      k := k + 1;
    }
    forall j | 0 <= j < k ensures ps[j].now - ps[0].now <= Bound(maxAge, lag) {
      HeldWithinBound(n, ps, vs, maxAge, lag, k, j);
    }
    if k < |ps| {
      assert Link(n, ps, vs, k, maxAge);
      HeldIsPolled(ps, vs, tails, requeues, k - 1, maxAge);
      NotHeldApplies(vs[n + k - 1], vs[ps[k].seen], ps[k], maxAge);
    }
  }
}
