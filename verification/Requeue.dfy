/**
 The requeue scheduler at the end of Reconcile: the soonest of several deadlines
 (internal/controller/buildproject_controller.go).
 */
module Requeue {
  import opened Base
  import opened Inflight

  const SCALING_RECHECK := 30 * SECOND

  const DRAIN_RECHECK := 30 * SECOND

  /** What the tail of a reconcile pass knows. recheck is idleRecheckInterval's answer. */
  datatype Tail = Tail(
    desired: int, hot: bool, ready: int, recheck: int, snapAfter: int,
    live: seq<Build>, now: int, maxAge: int, prunePending: bool, rollHeld: bool)

  /** Time until an entry expires. */
  function Until(b: Build, t: Tail): int {
    b.since + t.maxAge - t.now
  }

  /** Time until the first entry expires; zero when there is none. */
  function UntilFirst(t: Tail): int {
    if t.live == [] then 0 else Until(t.live[0], t)
  }

  function When(c: bool, d: int): seq<int> {
    if c then [d] else []
  }

  /** The deadlines the code takes into account: of the entries, only the first one's expiry. */
  function Deadlines(t: Tail): seq<int> {
    When(t.desired == 1 && !t.hot, t.recheck)
    + When(t.desired == 1 && t.ready < 1, SCALING_RECHECK)
    + When(t.snapAfter > 0, t.snapAfter)
    + When(UntilFirst(t) > 0, UntilFirst(t))
    + When(t.prunePending, DRAIN_RECHECK)
    + When(t.rollHeld, DRAIN_RECHECK)
  }

  /** Those that do not come from the in-flight set. */
  function OtherDeadlines(t: Tail): seq<int> {
    Deadlines(t.(live := []))
  }

  /** requeue is the least element of ds, or zero when there is none. */
  predicate IsSoonest(requeue: int, ds: seq<int>) {
    if ds == [] then requeue == 0 else requeue in ds && forall d | d in ds :: requeue <= d
  }

  predicate Positive(ds: seq<int>) {
    forall d | d in ds :: d > 0
  }

  /** Taking one more deadline into account, when its condition holds. */
  function Sooner(requeue: int, c: bool, d: int): int {
    if c && (requeue == 0 || d < requeue) then d else requeue
  }

  lemma SoonerIsSoonest(requeue: int, ds: seq<int>, c: bool, d: int)
    requires IsSoonest(requeue, ds) && Positive(ds) && (c ==> d > 0)
    ensures IsSoonest(Sooner(requeue, c, d), ds + When(c, d)) && Positive(ds + When(c, d))
  {
    if c {
      assert d in ds + [d];
    } else {
      assert ds + [] == ds;
    }
  }

  method RequeueAfter(t: Tail) returns (requeue: int)
    requires t.recheck > 0
    ensures IsSoonest(requeue, Deadlines(t))
  {
    requeue := 0;
    if t.desired == 1 && !t.hot {
      requeue := t.recheck;
    }
    ghost var seen := When(t.desired == 1 && !t.hot, t.recheck);
    SoonerIsSoonest(requeue, seen, t.desired == 1 && t.ready < 1, SCALING_RECHECK);
    requeue := Sooner(requeue, t.desired == 1 && t.ready < 1, SCALING_RECHECK);
    seen := seen + When(t.desired == 1 && t.ready < 1, SCALING_RECHECK);
    SoonerIsSoonest(requeue, seen, t.snapAfter > 0, t.snapAfter);
    requeue := Sooner(requeue, t.snapAfter > 0, t.snapAfter);
    seen := seen + When(t.snapAfter > 0, t.snapAfter);
    var d := if |t.live| > 0 then t.live[0].since + t.maxAge - t.now else 0;
    SoonerIsSoonest(requeue, seen, d > 0, d);
    requeue := Sooner(requeue, d > 0, d);
    seen := seen + When(d > 0, d);
    SoonerIsSoonest(requeue, seen, t.prunePending, DRAIN_RECHECK);
    requeue := Sooner(requeue, t.prunePending, DRAIN_RECHECK);
    seen := seen + When(t.prunePending, DRAIN_RECHECK);
    SoonerIsSoonest(requeue, seen, t.rollHeld, DRAIN_RECHECK);
    requeue := Sooner(requeue, t.rollHeld, DRAIN_RECHECK);
  }

  lemma DeadlinesPositive(t: Tail)
    requires t.recheck > 0
    ensures forall d | d in Deadlines(t) :: d > 0
  {
  }

  /** A held roll, a deferred prune and a daemon that is not ready are always polled within 30s; a
      due snapshot and the idle re-check are never overslept either. */
  lemma PolledConditions(t: Tail, requeue: int)
    requires t.recheck > 0 && IsSoonest(requeue, Deadlines(t))
    ensures t.rollHeld ==> 0 < requeue <= 30 * SECOND
    ensures t.prunePending ==> 0 < requeue <= 30 * SECOND
    ensures t.desired == 1 && t.ready < 1 ==> 0 < requeue <= 30 * SECOND
    ensures t.desired == 1 && !t.hot ==> 0 < requeue <= t.recheck
    ensures t.snapAfter > 0 ==> 0 < requeue <= t.snapAfter
    ensures requeue >= 0
  {
    DeadlinesPositive(t);
    assert t.rollHeld ==> DRAIN_RECHECK in Deadlines(t);
    assert t.prunePending ==> DRAIN_RECHECK in Deadlines(t);
    assert t.desired == 1 && t.ready < 1 ==> SCALING_RECHECK in Deadlines(t);
    assert t.desired == 1 && !t.hot ==> t.recheck in Deadlines(t);
    assert t.snapAfter > 0 ==> t.snapAfter in Deadlines(t);
  }

  /** No requeue is asked for exactly when there is nothing to come back for: zero replicas or a hot daemon
      that is ready, no snapshot due, no roll held, no prune deferred, and no first entry left to expire. */
  lemma NoRequeueExactlyWhen(t: Tail, requeue: int)
    requires t.recheck > 0 && IsSoonest(requeue, Deadlines(t))
    ensures requeue == 0 <==>
      && (t.desired != 1 || (t.hot && t.ready >= 1))
      && t.snapAfter <= 0 && !t.prunePending && !t.rollHeld
      && (t.live == [] || t.live[0].since + t.maxAge <= t.now)
  {
    DeadlinesPositive(t);
    assert t.desired == 1 && !t.hot ==> t.recheck in Deadlines(t);
    assert t.desired == 1 && t.ready < 1 ==> SCALING_RECHECK in Deadlines(t);
    assert t.snapAfter > 0 ==> t.snapAfter in Deadlines(t);
    assert UntilFirst(t) > 0 ==> UntilFirst(t) in Deadlines(t);
    assert t.rollHeld || t.prunePending ==> DRAIN_RECHECK in Deadlines(t);
  }

  /** A requeue is never sooner than something asks for it. */
  lemma RequeueHasReason(t: Tail, requeue: int)
    requires t.recheck > 0 && IsSoonest(requeue, Deadlines(t)) && requeue != 0
    ensures
      || (t.desired == 1 && !t.hot && requeue == t.recheck)
      || (t.desired == 1 && t.ready < 1 && requeue == 30 * SECOND)
      || (t.snapAfter > 0 && requeue == t.snapAfter)
      || (t.live != [] && requeue == t.live[0].since + t.maxAge - t.now)
      || ((t.prunePending || t.rollHeld) && requeue == 30 * SECOND)
  {
  }

  /** Every live entry whose expiry is strictly ahead is woken up for. */
  predicate WakesForExpiry(t: Tail, requeue: int) {
    forall b | b in t.live && Until(b, t) > 0 :: 0 < requeue <= Until(b, t)
  }

  /** Another deadline already covers every expiry strictly ahead. */
  predicate CoveredElsewhere(t: Tail) {
    forall b | b in t.live && Until(b, t) > 0 :: exists d :: d in OtherDeadlines(t) && d <= Until(b, t)
  }

  /** Reading index 0 alone wakes up for the earliest expiry over ALL live entries exactly when that
      entry's own expiry is still ahead, or the other deadlines cover the rest anyway. */
  lemma WakesForExpiryExactlyWhen(t: Tail, requeue: int)
    requires t.recheck > 0 && Chronological(t.live) && IsSoonest(requeue, Deadlines(t))
    ensures WakesForExpiry(t, requeue)
      <==> t.live == [] || Until(t.live[0], t) > 0 || CoveredElsewhere(t)
  {
    DeadlinesPositive(t);
    if t.live != [] {
      assert forall b | b in t.live :: Until(t.live[0], t) <= Until(b, t);
      if Until(t.live[0], t) > 0 {
        assert Until(t.live[0], t) in Deadlines(t);
      } else {
        assert Deadlines(t) == OtherDeadlines(t);
        if WakesForExpiry(t, requeue) {
          forall b | b in t.live && Until(b, t) > 0
            ensures exists d :: d in OtherDeadlines(t) && d <= Until(b, t)
          {
            assert requeue in OtherDeadlines(t);
          }
        }
      }
    }
  }

  /** The gap: the oldest entry is just past its expiry, a younger one is not, nothing else is
      scheduled, and the pass asks for no requeue at all. */
  lemma LostWakeup()
    ensures
      var live := [Build(Digest("a"), 0), Build(Digest("b"), 60 * SECOND)];
      var t := Tail(1, true, 1, 30 * SECOND, 0, live, 2 * HOUR, 2 * HOUR, false, false);
      && Chronological(live)
      && Live(live, t.now, t.maxAge) == live
      && IsSoonest(0, Deadlines(t))
      && !WakesForExpiry(t, 0)
  {
    var live := [Build(Digest("a"), 0), Build(Digest("b"), 60 * SECOND)];
    var t := Tail(1, true, 1, 30 * SECOND, 0, live, 2 * HOUR, 2 * HOUR, false, false);
    assert live[1] in live && Until(live[1], t) == 60 * SECOND;
    assert live[..1] == [live[0]] && live[..1][..0] == [] && live == live[..1] + [live[1]];
    assert Live(live[..1], t.now, t.maxAge) == [live[0]];
    assert Deadlines(t) == [];
  }
}
