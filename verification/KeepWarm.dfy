/**
 Adaptive keep-warm: the bounded cadence ring of build times (api/v1alpha1/adaptive.go)
 and the idle window it drives down to scale-to-zero
 (internal/controller/buildproject_controller.go).
 */
module KeepWarm {
  import opened Base
  import opened Inflight

  const ADAPTIVE_WINDOW := 24 * HOUR

  const RECENT_CAP := 30

  // -------------------------------------------------------------------- the ring

  /** The recorded times within ADAPTIVE_WINDOW of now, in order. */
  function Within(times: seq<int>, now: int): seq<int> {
    if times == [] then []
    else
      var front, last := Within(times[..|times| - 1], now), times[|times| - 1];
      if now - last <= ADAPTIVE_WINDOW then front + [last] else front
  }

  /** The newest RECENT_CAP entries. */
  function Capped(kept: seq<int>): seq<int> {
    if |kept| > RECENT_CAP then kept[|kept| - RECENT_CAP..] else kept
  }

  function Recorded(times: seq<int>, now: int): seq<int> {
    Capped(Within(times, now) + [now])
  }

  /** The ring after one build at each of the given times. */
  function RecordAll(ring: seq<int>, times: seq<int>): seq<int> {
    if times == [] then ring
    else Recorded(RecordAll(ring, times[..|times| - 1]), times[|times| - 1])
  }

  /** A ring as it is stored: ordered, and within the cap. */
  predicate IsRing(ring: seq<int>) {
    NonDecreasing(ring) && |ring| <= RECENT_CAP
  }

  method RecordBuildTime(times: seq<int>, now: int) returns (out: seq<int>)
    ensures out == Recorded(times, now)
  {
    out := [];
    for i := 0 to |times|
      invariant out == Within(times[..i], now)
    {
      assert times[..i + 1][..i] == times[..i];
      if now - times[i] <= ADAPTIVE_WINDOW {
        out := out + [times[i]];
      }
    }
    assert times[..|times|] == times;
    out := out + [now];
    if |out| > RECENT_CAP {
      out := out[|out| - RECENT_CAP..];
    }
  }

  method BuildsInWindow(times: seq<int>, now: int) returns (n: nat)
    ensures n == |Within(times, now)|
  {
    n := 0;
    for i := 0 to |times|
      invariant n == |Within(times[..i], now)|
    {
      assert times[..i + 1][..i] == times[..i];
      if now - times[i] <= ADAPTIVE_WINDOW {
        n := n + 1;
      }
    }
    assert times[..|times|] == times;
  }

  /** What is counted: each recorded time as often as it occurs, if it is at most 24 hours old. */
  lemma {:induction false} WithinCounts(times: seq<int>, now: int, t: int)
    ensures multiset(Within(times, now))[t] == if now - t <= 24 * HOUR then multiset(times)[t] else 0
  {
    if times != [] {
      var front, last := times[..|times| - 1], times[|times| - 1];
      WithinCounts(front, now, t);
      assert times == front + [last];
    }
  }

  lemma {:induction false} WithinIsSuffix(times: seq<int>, now: int)
    requires NonDecreasing(times)
    ensures |Within(times, now)| <= |times|
    ensures Within(times, now) == times[|times| - |Within(times, now)|..]
  {
    if times != [] {
      var front, last := times[..|times| - 1], times[|times| - 1];
      WithinIsSuffix(front, now);
      var n := |Within(front, now)|;
      if now - last <= ADAPTIVE_WINDOW {
        assert front[|front| - n..] + [last] == times[|front| - n..];
      } else {
        WithinNone(front, now);
      }
    }
  }

  lemma {:induction false} WithinNone(times: seq<int>, now: int)
    requires forall i | 0 <= i < |times| :: now - times[i] > ADAPTIVE_WINDOW
    ensures Within(times, now) == []
  {
    if times != [] {
      WithinNone(times[..|times| - 1], now);
    }
  }

  /** Counting a suffix of the history. */
  lemma {:induction false} WithinOfSuffix(times: seq<int>, j: nat, now: int)
    requires NonDecreasing(times) && j <= |times|
    ensures |Within(times[j..], now)| == Min(|Within(times, now)|, |times| - j)
  {
    WithinIsSuffix(times, now);
    if j < |times| {
      var front, last := times[..|times| - 1], times[|times| - 1];
      WithinOfSuffix(front, j, now);
      WithinIsSuffix(front, now);
      assert times[j..][..|times| - j - 1] == front[j..];
      if now - last > ADAPTIVE_WINDOW {
        WithinNone(times, now);
        WithinNone(times[j..], now);
      }
    }
  }

  /** Recording one more build turns a suffix of the history into a suffix of the longer history. */
  lemma RecordedSuffix(times: seq<int>, j: nat, now: int)
    requires NonDecreasing(times) && j <= |times|
    ensures var n := Min(RECENT_CAP, 1 + Min(|Within(times, now)|, |times| - j));
      1 <= n <= |times| + 1 && Recorded(times[j..], now) == (times + [now])[|times| + 1 - n..]
  {
    WithinOfSuffix(times, j, now);
    WithinIsSuffix(times[j..], now);
    var k := |Within(times[j..], now)|;
    TailOfTail(times, j, k);
    CappedSuffix(times, k, now);
  }

  lemma TailOfTail(times: seq<int>, j: nat, k: nat)
    requires j <= |times| && k <= |times| - j
    ensures times[j..][|times[j..]| - k..] == times[|times| - k..]
  {
  }

  lemma CappedSuffix(times: seq<int>, k: nat, now: int)
    requires k <= |times|
    ensures Capped(times[|times| - k..] + [now]) == (times + [now])[|times| + 1 - Min(RECENT_CAP, 1 + k)..]
  {
    var all, kept := times + [now], times[|times| - k..] + [now];
    assert kept == all[|all| - (k + 1)..];
    SuffixOfSuffix(all, k + 1, Min(RECENT_CAP, k + 1));
  }

  lemma SuffixOfSuffix(s: seq<int>, n: nat, m: nat)
    requires m <= n <= |s|
    ensures s[|s| - n..][n - m..] == s[|s| - m..]
  {
  }

  /** How many of the builds so far the ring holds: the recent ones, up to the cap. */
  function RingSize(times: seq<int>): nat {
    if times == [] then 0 else Min(RECENT_CAP, |Within(times, times[|times| - 1])|)
  }

  /** The ring is the part of the history that is recent and fits the cap. */
  predicate RingFits(all: seq<int>, ring: seq<int>) {
    RingSize(all) <= |all| && ring == all[|all| - RingSize(all)..]
  }

  /** Whatever ring the builds found, the ring they leave is the suffix of the full history that is
      recent and fits the cap. */
  lemma {:induction false} RingIsSuffix(ring: seq<int>, times: seq<int>)
    requires NonDecreasing(ring + times) && times != []
    ensures RingFits(ring + times, RecordAll(ring, times))
    decreases |times|
  {
    var front, now := times[..|times| - 1], times[|times| - 1];
    assert ring + times == ring + front + [now];
    InOrderFront(ring + front, now);
    if front == [] {
      assert ring + front == ring;
      RingBegins(ring, now);
    } else {
      RingIsSuffix(ring, front);
      RingGrows(ring + times, ring + front, RecordAll(ring, front), now);
    }
  }

  lemma InOrderFront(front: seq<int>, now: int)
    requires NonDecreasing(front + [now])
    ensures NonDecreasing(front) && (front != [] ==> front[|front| - 1] <= now)
  {
    var all := front + [now];
    assert forall i | 0 <= i < |front| :: all[i] == front[i];
    assert all[|front|] == now;
  }

  lemma RingBegins(ring: seq<int>, now: int)
    requires NonDecreasing(ring) && (ring != [] ==> ring[|ring| - 1] <= now)
    ensures RingFits(ring + [now], Recorded(ring, now))
  {
    WithinIsSuffix(ring, now);
    RingSizes(ring, now);
    RingStep(ring, 0, now);
    assert ring[0..] == ring;
  }

  lemma RingGrows(all: seq<int>, front: seq<int>, ring: seq<int>, now: int)
    requires all == front + [now]
    requires NonDecreasing(front) && (front != [] ==> front[|front| - 1] <= now)
    requires RingFits(front, ring)
    ensures RingFits(all, Recorded(ring, now))
  {
    RingSizes(front, now);
    RingStep(front, |front| - RingSize(front), now);
  }

  lemma RingSizes(front: seq<int>, now: int)
    requires front != [] ==> front[|front| - 1] <= now
    ensures Min(RECENT_CAP, |Within(front, now)|) <= RingSize(front)
    ensures RingSize(front + [now]) == Min(RECENT_CAP, |Within(front, now)| + 1)
  {
    assert (front + [now])[..|front|] == front;
    if front != [] {
      var last := front[|front| - 1];
      WithinShrinks(front, last, now);
    }
  }

  lemma RingStep(front: seq<int>, j: nat, now: int)
    requires NonDecreasing(front) && j <= |front|
    requires Min(RECENT_CAP, |Within(front, now)|) <= |front| - j
    ensures var n := Min(RECENT_CAP, |Within(front, now)| + 1);
      n <= |front| + 1 && Recorded(front[j..], now) == (front + [now])[|front| + 1 - n..]
  {
    RecordedSuffix(front, j, now);
    CapOfCap(|Within(front, now)|, |front| - j);
  }

  lemma CapOfCap(w: nat, l: int)
    requires Min(RECENT_CAP, w) <= l
    ensures Min(RECENT_CAP, 1 + Min(w, l)) == Min(RECENT_CAP, w + 1)
  {
  }

  /** The bounded ring agrees with the unbounded history: at any later time it counts the builds of
      the last 24 hours exactly, up to the cap, those already on the ring included. */
  lemma RingCountsLikeHistory(ring: seq<int>, times: seq<int>, now: int)
    requires IsRing(ring) && NonDecreasing(ring + times) && (times != [] ==> times[|times| - 1] <= now)
    ensures |Within(RecordAll(ring, times), now)| == Min(RECENT_CAP, |Within(ring + times, now)|)
  {
    if times == [] {
      assert ring + times == ring;
      WithinIsSuffix(ring, now);
    } else {
      RingIsSuffix(ring, times);
      SuffixCountsLikeHistory(ring + times, RecordAll(ring, times), now);
    }
  }

  lemma SuffixCountsLikeHistory(times: seq<int>, ring: seq<int>, now: int)
    requires NonDecreasing(times) && (times != [] ==> times[|times| - 1] <= now)
    requires RingFits(times, ring)
    ensures |Within(ring, now)| == Min(RECENT_CAP, |Within(times, now)|)
  {
    WithinOfSuffix(times, |times| - RingSize(times), now);
    if times != [] {
      WithinShrinks(times, times[|times| - 1], now);
    }
  }

  lemma {:induction false} WithinShrinks(times: seq<int>, t: int, t': int)
    requires t <= t'
    ensures |Within(times, t')| <= |Within(times, t)|
  {
    if times != [] {
      WithinShrinks(times[..|times| - 1], t, t');
    }
  }

  /** Recording keeps a ring a ring, with no entry later than the build recorded. */
  lemma RecordedIsRing(ring: seq<int>, now: int)
    requires NonDecreasing(ring) && (forall t | t in ring :: t <= now)
    ensures IsRing(Recorded(ring, now)) && (forall t | t in Recorded(ring, now) :: t <= now)
  {
    WithinIsSuffix(ring, now);
    var kept := Within(ring, now) + [now];
    assert forall i | 0 <= i < |ring| :: ring[i] in ring;
    assert NonDecreasing(kept) && forall i | 0 <= i < |kept| :: kept[i] <= now;
  }

  // ------------------------------------------------------------- the idle window

  /** What the elasticity decision reads of a project; idle is the spec window. */
  datatype Project = Project(hot: bool, fork: bool, idle: int, lastBuild: Option<int>, recent: seq<int>)

  function EffectiveIdle(base: int, fork: bool, builds: nat, adaptiveMax: int): int {
    if adaptiveMax <= 0 || base <= 0 || base >= adaptiveMax || fork || builds <= 1 then base
    else Min(base * builds, adaptiveMax)
  }

  function Window(p: Project, now: int, adaptiveMax: int): int {
    EffectiveIdle(p.idle, p.fork, |Within(p.recent, now)|, adaptiveMax)
  }

  function DesiredReplicas(p: Project, live: seq<Build>, now: int, adaptiveMax: int): int {
    if p.hot then 1
    else if |live| > 0 then 1
    else
      var idle := Window(p, now, adaptiveMax);
      if p.lastBuild.Some? && idle > 0 && now - p.lastBuild.value < idle then 1 else 0
  }

  /** idleRecheckInterval. */
  function Recheck(p: Project, now: int, adaptiveMax: int): (iv: int)
    ensures 30 * SECOND <= iv <= Max(30 * SECOND, Window(p, now, adaptiveMax) / 6)
  {
    var eff := Window(p, now, adaptiveMax);
    var sixth := eff / 6;
    var iv := if p.lastBuild.Some? then Min(sixth, eff - (now - p.lastBuild.value) + 5 * SECOND) else sixth;
    Max(iv, 30 * SECOND)
  }

  /** When a daemon is wanted: on the hot tier, while a build is in flight, or until the idle window after
      the last build is over. With n of its recorded builds in the last 24 hours that window is n times
      the spec's, as far as the adaptive cap allows and never less than the spec's own; a fork keeps the
      spec's. */
  lemma WantedExactlyWhen(p: Project, live: seq<Build>, now: int, adaptiveMax: int)
    ensures DesiredReplicas(p, live, now, adaptiveMax) in {0, 1}
    ensures DesiredReplicas(p, live, now, adaptiveMax) == 1 <==>
      || p.hot
      || live != []
      || (p.lastBuild.Some? && p.idle > 0 &&
          var quiet, n := now - p.lastBuild.value, |Within(p.recent, now)|;
          quiet < p.idle || (!p.fork && quiet < adaptiveMax && quiet < n * p.idle))
  {
    var n := |Within(p.recent, now)|;
    if p.idle > 0 {
      WindowExactly(p.idle, p.fork, n, adaptiveMax, if p.lastBuild.Some? then now - p.lastBuild.value else 0);
    }
  }

  lemma WindowExactly(base: int, fork: bool, n: nat, adaptiveMax: int, quiet: int)
    requires base > 0
    ensures quiet < EffectiveIdle(base, fork, n, adaptiveMax) <==>
      quiet < base || (!fork && quiet < adaptiveMax && quiet < n * base)
  {
    TimesMore(base, Min(n, 1), 1);
    if n >= 2 {
      TimesMore(base, 2, n);
    }
    assert n * base == base * n;
  }

  /** A pass asks to come back when the window it sees is over, five seconds late, or after a sixth of it;
      never sooner than in 30 seconds, and never later than the later of these. */
  lemma RecheckIsTight(p: Project, now: int, adaptiveMax: int)
    requires p.lastBuild.Some?
    ensures var iv, left := Recheck(p, now, adaptiveMax), p.lastBuild.value + Window(p, now, adaptiveMax) - now;
      && Min(Window(p, now, adaptiveMax) / 6, left + 5 * SECOND) <= iv
      && iv <= Max(30 * SECOND, left + 5 * SECOND)
  {
  }

  /** The cap of 30 entries loses nothing exactly when 30 windows already reach the adaptive cap (or
      the history is short, or adaptivity is off). */
  lemma RingWindowIsExact(base: int, fork: bool, ring: seq<int>, times: seq<int>, now: int, adaptiveMax: int)
    requires IsRing(ring) && NonDecreasing(ring + times) && (times != [] ==> times[|times| - 1] <= now)
    ensures
      EffectiveIdle(base, fork, |Within(RecordAll(ring, times), now)|, adaptiveMax)
        == EffectiveIdle(base, fork, |Within(ring + times, now)|, adaptiveMax)
      <==>
      || adaptiveMax <= 0 || base <= 0 || base >= adaptiveMax || fork
      || |Within(ring + times, now)| <= RECENT_CAP
      || RECENT_CAP * base >= adaptiveMax
  {
    RingCountsLikeHistory(ring, times, now);
    CapIsExact(base, fork, |Within(ring + times, now)|, adaptiveMax);
  }

  lemma CapIsExact(base: int, fork: bool, n: nat, adaptiveMax: int)
    ensures EffectiveIdle(base, fork, Min(RECENT_CAP, n), adaptiveMax) == EffectiveIdle(base, fork, n, adaptiveMax)
      <==>
      || adaptiveMax <= 0 || base <= 0 || base >= adaptiveMax || fork
      || n <= RECENT_CAP
      || RECENT_CAP * base >= adaptiveMax
  {
    if n > RECENT_CAP && base > 0 {
      MoreIsLonger(base, n);
    }
  }

  lemma MoreIsLonger(base: int, n: nat)
    requires base > 0 && n > RECENT_CAP
    ensures base * n > base * RECENT_CAP
  {
  }

  /** With no new build the effective window never grows. */
  lemma WindowNeverGrows(p: Project, t: int, t': int, adaptiveMax: int)
    requires t <= t'
    ensures Window(p, t', adaptiveMax) <= Window(p, t, adaptiveMax)
  {
    WithinShrinks(p.recent, t, t');
    FewerIsShorter(p.idle, p.fork, |Within(p.recent, t')|, |Within(p.recent, t)|, adaptiveMax);
  }

  lemma FewerIsShorter(base: int, fork: bool, n: nat, m: nat, adaptiveMax: int)
    requires n <= m
    ensures EffectiveIdle(base, fork, n, adaptiveMax) <= EffectiveIdle(base, fork, m, adaptiveMax)
  {
    if base > 0 {
      TimesMore(base, n, m);
      TimesMore(base, 1, Max(m, 1));
    }
  }

  lemma TimesMore(base: int, n: nat, m: nat)
    requires base > 0 && n <= m
    ensures base * n <= base * m
  {
  }

  /** So once the window has closed it stays closed. */
  lemma ClosedStaysClosed(p: Project, t: int, t': int, adaptiveMax: int)
    requires t <= t' && DesiredReplicas(p, [], t, adaptiveMax) == 0
    ensures DesiredReplicas(p, [], t', adaptiveMax) == 0
  {
    WindowNeverGrows(p, t, t', adaptiveMax);
  }

  /** How long the window can still stay open. */
  function Remaining(p: Project, t: int, adaptiveMax: int): nat {
    if p.lastBuild.None? then 0 else Max(0, p.lastBuild.value + Window(p, t, adaptiveMax) - t)
  }

  predicate Open(p: Project, t: int, adaptiveMax: int) {
    DesiredReplicas(p, [], t, adaptiveMax) == 1
  }

  /** A pass that finds the window open is followed by another, no later than it asked for. The requeue
      is the soonest of several deadlines, and an event may wake the project before that. */
  predicate Rechecked(p: Project, ts: seq<int>, i: nat, adaptiveMax: int)
    requires i < |ts| - 1
  {
    Open(p, ts[i], adaptiveMax) ==> ts[i] < ts[i + 1] <= ts[i] + Recheck(p, ts[i], adaptiveMax)
  }

  /** The instants of the passes over a project that nobody builds. */
  predicate OnSchedule(p: Project, ts: seq<int>, adaptiveMax: int) {
    forall i | 0 <= i < |ts| - 1 :: Rechecked(p, ts, i, adaptiveMax)
  }

  /** Passes that find the window open are at least gap apart from the next. */
  predicate Spaced(p: Project, ts: seq<int>, i: nat, gap: int, adaptiveMax: int)
    requires i < |ts| - 1
  {
    Open(p, ts[i], adaptiveMax) ==> ts[i + 1] - ts[i] >= gap
  }

  predicate AllOpen(p: Project, ts: seq<int>, n: nat, adaptiveMax: int)
    requires n <= |ts|
  {
    forall i | 0 <= i < n :: Open(p, ts[i], adaptiveMax)
  }

  /** A window found open later had that much left before. */
  lemma OpenUntil(p: Project, t: int, t': int, adaptiveMax: int)
    requires !p.hot && t <= t' && Open(p, t', adaptiveMax)
    ensures t' - t < Remaining(p, t, adaptiveMax)
  {
    WindowNeverGrows(p, t, t', adaptiveMax);
  }

  lemma {:induction false} GapsAddUp(p: Project, ts: seq<int>, gap: int, k: nat, adaptiveMax: int)
    requires k < |ts| && AllOpen(p, ts, |ts|, adaptiveMax)
    requires forall i | 0 <= i < |ts| - 1 :: Spaced(p, ts, i, gap, adaptiveMax)
    ensures k * gap <= ts[k] - ts[0]
  {
    if k > 0 {
      GapsAddUp(p, ts, gap, k - 1, adaptiveMax);
      assert Spaced(p, ts, k - 1, gap, adaptiveMax) && Open(p, ts[k - 1], adaptiveMax);
      assert k * gap == (k - 1) * gap + gap;
    }
  }

  /** Passes that all find the window open, any positive gap apart, are fewer than fit into what the
      window had left. */
  lemma PassesAreBounded(p: Project, ts: seq<int>, gap: int, adaptiveMax: int)
    requires !p.hot && ts != [] && gap > 0 && AllOpen(p, ts, |ts|, adaptiveMax)
    requires forall i | 0 <= i < |ts| - 1 :: Spaced(p, ts, i, gap, adaptiveMax)
    ensures (|ts| - 1) * gap < Remaining(p, ts[0], adaptiveMax)
  {
    var k := |ts| - 1;
    GapsAddUp(p, ts, gap, k, adaptiveMax);
    assert Open(p, ts[k], adaptiveMax);
    assert k * gap >= 0;
    OpenUntil(p, ts[0], ts[k], adaptiveMax);
  }

  /** With nothing in flight and no new build, every series of passes that is long enough reaches zero
      replicas; a gap of a nanosecond is all it needs. */
  lemma DrainsToZero(p: Project, ts: seq<int>, gap: int, adaptiveMax: int) returns (k: nat)
    requires !p.hot && ts != [] && gap > 0
    requires forall i | 0 <= i < |ts| - 1 :: Spaced(p, ts, i, gap, adaptiveMax)
    requires (|ts| - 1) * gap >= Remaining(p, ts[0], adaptiveMax)
    ensures k < |ts| && !Open(p, ts[k], adaptiveMax) && AllOpen(p, ts, k, adaptiveMax)
  {
    k := 0;
    while k < |ts| && Open(p, ts[k], adaptiveMax)
      invariant k <= |ts| && AllOpen(p, ts, k, adaptiveMax)
    {
      k := k + 1;
    }
    if k == |ts| {
      PassesAreBounded(p, ts, gap, adaptiveMax);
    }
  }

  /** The pass that scales to zero comes less than max(30s, window/6) after the moment the window
      closed, window being the one in force at the last pass that still saw it open. */
  lemma OvershootIsBounded(p: Project, ts: seq<int>, k: nat, adaptiveMax: int, closed: int)
    requires OnSchedule(p, ts, adaptiveMax)
    requires k < |ts| && !Open(p, ts[k], adaptiveMax) && AllOpen(p, ts, k, adaptiveMax)
    requires ts[0] <= closed && !Open(p, closed, adaptiveMax)
    ensures ts[k] <= closed || (k >= 1 && ts[k] - closed < Max(30 * SECOND, Window(p, ts[k - 1], adaptiveMax) / 6))
  {
    if k >= 1 {
      assert Rechecked(p, ts, k - 1, adaptiveMax) && Open(p, ts[k - 1], adaptiveMax);
      if closed <= ts[k - 1] {
        ClosedStaysClosed(p, closed, ts[k - 1], adaptiveMax);
      }
    }
  }
}
