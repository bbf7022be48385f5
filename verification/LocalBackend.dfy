/**
 The single-host backend (internal/provisioner/local/local.go): a mutex-guarded map of project states
 updated in place, and the routing handlers that register and release builds on it
 (cmd/buildd/route.go).
 */
module LocalBackend {
  import opened Base
  import opened Inflight
  import Keys

  datatype ProjectState = ProjectState(
    hot: bool, inflight: seq<Build>, lastBuild: Option<int>, lastSnapshot: Option<int>)

  const FRESH := ProjectState(false, [], None, None)

  datatype Config = Config(maxBuildSeconds: int, idleTimeout: int, snapshotEvery: int)

  /** The state of a key, minted bare on first touch. */
  function StateFor(projects: map<string, ProjectState>, key: string): ProjectState {
    if key in projects then projects[key] else FRESH
  }

  function Started(st: ProjectState, token: string, now: int): ProjectState {
    st.(inflight := Registered(st.inflight, token, now), lastBuild := Some(now))
  }

  function Ended(st: ProjectState, token: string, now: int): ProjectState {
    if ReleaseIndex(st.inflight, token, None) < 0 then st
    else st.(inflight := Released(st.inflight, token, None), lastBuild := Some(now))
  }

  function Expire(cfg: Config, st: ProjectState, now: int): ProjectState {
    if cfg.maxBuildSeconds > 0 then st.(inflight := Live(st.inflight, now, cfg.maxBuildSeconds * SECOND)) else st
  }

  /** A project the idle loop stops: warm, unpinned after expiry, and quiet past the timeout. */
  predicate IdleNow(cfg: Config, st: ProjectState, now: int) {
    && !st.hot && Expire(cfg, st, now).inflight == []
    && st.lastBuild.Some? && now - st.lastBuild.value > cfg.idleTimeout
  }

  /** A project whose cache the loop snapshots: canonical, built at least once, and not since the
      interval. A project without a snapshot yet is always past it. */
  predicate SnapshotDue(cfg: Config, key: string, st: ProjectState, now: int) {
    && cfg.snapshotEvery > 0 && !Keys.IsForkKey(key) && !st.hot && st.lastBuild.Some?
    && (st.lastSnapshot.Some? ==> now - st.lastSnapshot.value > cfg.snapshotEvery)
  }

  class Provisioner {
    const cfg: Config
    var projects: map<string, ProjectState>

    constructor (cfg: Config)
      ensures this.cfg == cfg && projects == map[]
    {
      this.cfg := cfg;
      projects := map[];
    }

    method StartInflight(key: string, token: string, now: int)
      modifies this
      ensures projects == old(projects)[key := Started(StateFor(old(projects), key), token, now)]
    {
      var st := StateFor(projects, key);
      st := st.(inflight := Registered(st.inflight, token, now));
      st := st.(lastBuild := Some(now));
      projects := projects[key := st];
    }

    method EndInflight(key: string, token: string, now: int) returns (released: bool)
      modifies this
      ensures projects == old(projects)[key := Ended(StateFor(old(projects), key), token, now)]
      ensures released <==> ReleaseIndex(StateFor(old(projects), key).inflight, token, None) >= 0
    {
      var st := StateFor(projects, key);
      var entries, found := Inflight.EndInflight(st.inflight, token, None);
      released := found;
      if found {
        st := st.(inflight := entries, lastBuild := Some(now));
      }
      projects := projects[key := st];
    }

    /** A prewarm keeps the project off the idle loop for a whole timeout, and counts no build: nothing
        in flight changes, here or for any other project. */
    method Touch(key: string, now: int)
      modifies this
      ensures key in projects && forall t | t - now <= cfg.idleTimeout :: !IdleNow(cfg, projects[key], t)
      ensures forall k :: StateFor(projects, k).(lastBuild := None) == StateFor(old(projects), k).(lastBuild := None)
      ensures forall k | k != key :: (k in projects <==> k in old(projects)) && StateFor(projects, k) == StateFor(old(projects), k)
      ensures projects[key].lastBuild == Some(now)
    {
      projects := projects[key := StateFor(projects, key).(lastBuild := Some(now))];
    }

    /** One lifecycle pass over the projects in some order: expire, then pick what to stop and what to
        snapshot. */
    method Reconcile(order: seq<string>, now: int) returns (idle: seq<string>, snap: seq<string>)
      requires projects.Keys == set k | k in order
      requires forall i, j | 0 <= i < j < |order| :: order[i] != order[j]
      modifies this
      ensures projects.Keys == old(projects.Keys)
      ensures forall k | k in projects :: projects[k] == Expire(cfg, old(projects)[k], now)
      ensures forall k :: k in idle <==> k in old(projects) && IdleNow(cfg, old(projects)[k], now)
      ensures forall k :: k in snap <==> k in old(projects) && SnapshotDue(cfg, k, old(projects)[k], now)
    {
      idle, snap := [], [];
      ghost var before := projects;
      for i := 0 to |order|
        invariant projects.Keys == before.Keys
        invariant forall k | k in projects ::
          projects[k] == if k in order[..i] then Expire(cfg, before[k], now) else before[k]
        invariant forall k :: k in idle <==> k in order[..i] && IdleNow(cfg, before[k], now)
        invariant forall k :: k in snap <==> k in order[..i] && SnapshotDue(cfg, k, before[k], now)
      {
        var key := order[i];
        assert key !in order[..i];
        assert forall k :: k in order[..i + 1] <==> k in order[..i] || k == key;
        var stop, take, st := Visit(key, projects[key], now);
        projects := projects[key := st];
        if stop {
          idle := idle + [key];
        }
        if take {
          snap := snap + [key];
        }
      }
      assert order[..|order|] == order;
    }

    /** The loop body, for one project. */
    method Visit(key: string, given: ProjectState, now: int) returns (stop: bool, take: bool, st: ProjectState)
      ensures st == Expire(cfg, given, now)
      ensures stop <==> IdleNow(cfg, given, now)
      ensures take <==> SnapshotDue(cfg, key, given, now)
    {
      st := given;
      if cfg.maxBuildSeconds > 0 {
        var live, _ := ExpireInflight(st.inflight, now, cfg.maxBuildSeconds * SECOND);
        st := st.(inflight := live);
      }
      var pinned := |st.inflight| > 0;
      stop := !st.hot && !pinned && st.lastBuild.Some? && now - st.lastBuild.value > cfg.idleTimeout;
      take := cfg.snapshotEvery > 0 && !Keys.IsForkKey(key) && !st.hot && st.lastBuild.Some?
        && (st.lastSnapshot.None? || now - st.lastSnapshot.value > cfg.snapshotEvery);
    }

    /** A snapshot that succeeded restarts the interval of a project that still exists. */
    method SnapshotTaken(key: string, now: int)
      modifies this
      ensures projects.Keys == old(projects).Keys
      ensures forall k | k in projects && k != key :: projects[k] == old(projects)[k]
      ensures key in projects ==>
        && projects[key] == old(projects)[key].(lastSnapshot := Some(now))
        && forall t | t - now <= cfg.snapshotEvery :: !SnapshotDue(cfg, key, projects[key], t)
    {
      if key in projects {
        projects := projects[key := projects[key].(lastSnapshot := Some(now))];
      }
    }
  }

  /** What a pass leaves in flight: exactly the entries that have not outlived the window, if there is one. */
  lemma ExpireExactly(cfg: Config, st: ProjectState, now: int, b: Build)
    ensures b in Expire(cfg, st, now).inflight <==>
      b in st.inflight && (cfg.maxBuildSeconds > 0 ==> now - b.since <= cfg.maxBuildSeconds * 1_000_000_000)
    ensures Expire(cfg, st, now) == st.(inflight := Expire(cfg, st, now).inflight)
  {
    LiveMembers(st.inflight, now, cfg.maxBuildSeconds * SECOND);
  }

  /** The idle loop picks a project exactly when it is not hot, was built once, has been quiet for longer
      than the timeout, and everything in flight has outlived the window. */
  lemma IdleExactlyWhen(cfg: Config, st: ProjectState, now: int)
    ensures IdleNow(cfg, st, now) <==>
      && !st.hot && st.lastBuild.Some? && now - st.lastBuild.value > cfg.idleTimeout
      && forall b | b in st.inflight :: cfg.maxBuildSeconds > 0 && now - b.since > cfg.maxBuildSeconds * 1_000_000_000
  {
    LiveMembers(st.inflight, now, cfg.maxBuildSeconds * SECOND);
    var left := Expire(cfg, st, now).inflight;
    assert left != [] ==> left[0] in left;
  }

  /** Forks, hot clones and projects never built are not snapshotted; a canonical project is as soon as
      the interval is over. */
  lemma SnapshotExactlyWhen(cfg: Config, role: Keys.Role, canonical: string, st: ProjectState, now: int)
    requires Keys.IsCanonical(canonical)
    ensures SnapshotDue(cfg, Keys.KeyOf(role, canonical), st, now) <==>
      && cfg.snapshotEvery > 0 && !role.Fork? && !st.hot && st.lastBuild.Some?
      && (st.lastSnapshot.None? || now - st.lastSnapshot.value > cfg.snapshotEvery)
  {
    Keys.KeysNeverCollide(role, canonical, role, canonical);
  }

  /** The idle loop never picks a project with a build still inside its window. */
  lemma IdleSparesLiveBuilds(cfg: Config, st: ProjectState, now: int, b: Build)
    requires b in st.inflight && (cfg.maxBuildSeconds > 0 ==> !Expired(b, now, cfg.maxBuildSeconds * SECOND))
    ensures !IdleNow(cfg, st, now)
  {
    LiveMembers(st.inflight, now, cfg.maxBuildSeconds * SECOND);
    assert b in Expire(cfg, st, now).inflight;
  }

  // ------------------------------------------------------------------ the route handler

  /** How far a /route request gets. */
  datatype Outcome = EnsureFails | Warm | ClientGone | NeverReady | ColdStart

  /** handleRoute: register, then release on every path that does not end in a response. */
  method HandleRoute(prov: Provisioner, key: string, token: string, outcome: Outcome, now: int, later: int)
    returns (routed: bool)
    requires token != ""
    modifies prov
    ensures routed <==> outcome == Warm || outcome == ColdStart
    ensures prov.projects ==
      if outcome == EnsureFails then old(prov.projects)
      else
        var st := Started(StateFor(old(prov.projects), key), token, now);
        old(prov.projects)[key := if routed then st else Ended(st, token, later)]
  {
    if outcome == EnsureFails {
      return false;
    }
    prov.StartInflight(key, token, now);
    routed := outcome == Warm;
    if !routed {
      routed := outcome == ColdStart;
    }
    if !routed {
      var _ := prov.EndInflight(key, token, later);
    }
  }

  /** A failed route leaves nothing: register then release gives back the set as it was, exactly when it
      was below the cap; at the cap its oldest entry is the price, whatever the token. */
  lemma FailedRouteLeavesNothing(st: ProjectState, token: string, now: int, later: int)
    requires token != "" && forall b | b in st.inflight :: b.id != Digest(token)
    ensures var after := Ended(Started(st, token, now), token, later).inflight;
      && (after == st.inflight <==> |st.inflight| < INFLIGHT_CAP)
      && (|st.inflight| == INFLIGHT_CAP ==> after == st.inflight[1..])
  {
    RegisterThenRelease(st.inflight, token, now);
  }

  lemma RegisterThenRelease(before: seq<Build>, token: string, now: int)
    requires token != "" && forall b | b in before :: b.id != Digest(token)
    ensures var es := Registered(before, token, now);
      && es != [] && ReleaseIndex(es, token, None) == |es| - 1
      && DropAt(es, |es| - 1) == if |before| < INFLIGHT_CAP then before else before[|before| + 1 - INFLIGHT_CAP..]
  {
    var es := Registered(before, token, now);
    RegisteredLast(before, token, now);
    LastIsReleased(es, token);
    assert DropAt(es, |es| - 1) == es[..|es| - 1];
  }

  /** What registering leaves: a suffix of the old entries, then the new one. */
  lemma RegisteredLast(before: seq<Build>, token: string, now: int)
    ensures var es := Registered(before, token, now);
      && 1 <= |es| <= |before| + 1 && es[|es| - 1] == Build(Digest(token), now)
      && es[..|es| - 1] == before[|before| + 1 - |es|..]
      && |es| == if |before| < INFLIGHT_CAP then |before| + 1 else INFLIGHT_CAP
  {
  }

  lemma LastIsReleased(es: seq<Build>, token: string)
    requires token != "" && es != [] && es[|es| - 1].id == Digest(token)
    requires forall b | b in es[..|es| - 1] :: b.id != Digest(token)
    ensures ReleaseIndex(es, token, None) == |es| - 1
  {
    assert forall k | 0 <= k < |es| - 1 :: es[k] == es[..|es| - 1][k];
  }

  // ----------------------------------------------------------------- token conservation

  /** What happens to one project. Routes that wait or succeed do nothing to the set until they fail,
      complete or expire. */
  datatype Event =
    | Route(token: string, now: int)
    | Fail(token: string, now: int)
    | Complete(token: string, now: int)
    | Sweep(now: int)

  function NextState(cfg: Config, st: ProjectState, e: Event): ProjectState {
    match e
    case Route(token, now) => Started(st, token, now)
    case Fail(token, now) => Ended(st, token, now)
    case Complete(token, now) => Ended(st, token, now)
    case Sweep(now) => Expire(cfg, st, now)
  }

  /** The books: which tokens are outstanding, and since when. */
  type Books = map<string, int>

  function NextBooks(cfg: Config, books: Books, e: Event): Books {
    match e
    case Route(token, now) => books[token := now]
    case Fail(token, _) => books - {token}
    case Complete(token, _) => books - {token}
    case Sweep(now) =>
      if cfg.maxBuildSeconds > 0 then map t | t in books && now - books[t] <= cfg.maxBuildSeconds * SECOND :: books[t]
      else books
  }

  /** Tokens are non-empty and never reused while outstanding, and at most 64 are outstanding. */
  predicate Legal(books: Books, e: Event) {
    match e
    case Route(token, _) => token != "" && token !in books && |books| < INFLIGHT_CAP
    case Fail(token, _) => token != ""
    case Complete(token, _) => token != ""
    case Sweep(_) => true
  }

  /** The set is exactly the outstanding tokens, each with its own date, once. */
  ghost predicate Balanced(es: seq<Build>, books: Books) {
    && DistinctIds(es) && |es| == |books|
    && (forall b | b in es :: b.id.Digest? && b.id.token in books && books[b.id.token] == b.since)
    && (forall t | t in books :: Build(Digest(t), books[t]) in es)
  }

  /** The tokens of a list of distinct entries, counted. */
  lemma {:induction false} DistinctTokensCount(es: seq<Build>, tokens: set<string>)
    requires DistinctIds(es) && forall b | b in es :: b.id.Digest?
    requires forall t :: t in tokens <==> exists b :: b in es && b.id == Digest(t)
    ensures |tokens| == |es|
  {
    if es == [] {
      assert tokens == {};
    } else {
      var front, last := es[..|es| - 1], es[|es| - 1];
      assert es == front + [last];
      OneTokenLess(front, last, tokens);
      DistinctTokensCount(front, tokens - {last.id.token});
    }
  }

  lemma OneTokenLess(front: seq<Build>, last: Build, tokens: set<string>)
    requires DistinctIds(front + [last]) && last.id.Digest?
    requires forall t :: t in tokens <==> exists b :: b in front + [last] && b.id == Digest(t)
    ensures last.id.token in tokens
    ensures forall t :: t in tokens - {last.id.token} <==> exists b :: b in front && b.id == Digest(t)
  {
    var es, t0 := front + [last], last.id.token;
    assert es[|front|] == last && last in es && last.id == Digest(t0);
    assert forall k | 0 <= k < |front| :: es[k] == front[k] && es[k].id != last.id;
    forall t ensures t in tokens - {t0} <==> exists b :: b in front && b.id == Digest(t) {
      if t in tokens - {t0} {
        var b :| b in es && b.id == Digest(t);
        assert b in front;
      }
      if exists b :: b in front && b.id == Digest(t) {
        var b :| b in front && b.id == Digest(t);
        assert b in es;
      }
    }
  }

  lemma BalancedByMembers(es: seq<Build>, books: Books)
    requires DistinctIds(es)
    requires forall b | b in es :: b.id.Digest? && b.id.token in books && books[b.id.token] == b.since
    requires forall t | t in books :: Build(Digest(t), books[t]) in es
    ensures Balanced(es, books)
  {
    forall t ensures t in books.Keys <==> exists b :: b in es && b.id == Digest(t) {
      if t in books {
        assert Build(Digest(t), books[t]) in es && Build(Digest(t), books[t]).id == Digest(t);
      }
    }
    DistinctTokensCount(es, books.Keys);
    assert |books.Keys| == |books|;
  }

  lemma ReleaseBalances(es: seq<Build>, books: Books, token: string)
    requires Balanced(es, books) && token != ""
    ensures Balanced(Released(es, token, None), books - {token})
    ensures token !in books ==> ReleaseIndex(es, token, None) == -1
  {
    NamedReleaseIsExact(es, token, None);
    var out := Released(es, token, None);
    assert forall b | b in es && b.id == Digest(token) :: token in books;
    assert token in books ==> Build(Digest(token), books[token]) in es && Build(Digest(token), books[token]).id == Digest(token);
    forall t | t in books - {token} ensures Build(Digest(t), (books - {token})[t]) in out {
      assert Build(Digest(t), books[t]) in es && Build(Digest(t), books[t]).id != Digest(token);
    }
    BalancedByMembers(out, books - {token});
  }

  lemma RegisterBalances(es: seq<Build>, books: Books, token: string, now: int)
    requires Balanced(es, books) && token !in books && |books| < INFLIGHT_CAP
    ensures Balanced(Registered(es, token, now), books[token := now])
  {
    var out := Registered(es, token, now);
    assert out == es + [Build(Digest(token), now)];
    assert forall k | 0 <= k < |es| :: es[k] in es;
    forall t | t in books[token := now] ensures Build(Digest(t), books[token := now][t]) in out {
      if t == token {
        assert out[|es|] == Build(Digest(t), now);
      }
    }
    BalancedByMembers(out, books[token := now]);
  }

  lemma SweepBalances(es: seq<Build>, books: Books, now: int, maxAge: int)
    requires Balanced(es, books)
    ensures Balanced(Live(es, now, maxAge), map t | t in books && now - books[t] <= maxAge :: books[t])
  {
    LiveMembers(es, now, maxAge);
    LiveKeepsDistinct(es, now, maxAge);
    BalancedByMembers(Live(es, now, maxAge), map t | t in books && now - books[t] <= maxAge :: books[t]);
  }

  lemma {:induction false} LiveKeepsDistinct(es: seq<Build>, now: int, maxAge: int)
    requires DistinctIds(es)
    ensures DistinctIds(Live(es, now, maxAge))
  {
    if es != [] {
      var front, last := es[..|es| - 1], es[|es| - 1];
      LiveKeepsDistinct(front, now, maxAge);
      LiveMembers(front, now, maxAge);
      var live := Live(front, now, maxAge);
      forall i | 0 <= i < |live| ensures live[i].id != last.id {
        assert live[i] in front;
        var k :| 0 <= k < |front| && front[k] == live[i];
        assert es[k].id != es[|es| - 1].id;
      }
    }
  }

  lemma EndedBalances(st: ProjectState, books: Books, token: string, now: int)
    requires Balanced(st.inflight, books) && token != ""
    ensures Balanced(Ended(st, token, now).inflight, books - {token})
    ensures token !in books ==> Ended(st, token, now) == st
    ensures token in books ==> Ended(st, token, now).lastBuild == Some(now)
  {
    ReleaseBalances(st.inflight, books, token);
    NamedReleaseIsExact(st.inflight, token, None);
    assert Ended(st, token, now).inflight == Released(st.inflight, token, None);
  }

  lemma EventBalances(cfg: Config, st: ProjectState, books: Books, e: Event)
    requires Balanced(st.inflight, books) && Legal(books, e)
    ensures Balanced(NextState(cfg, st, e).inflight, NextBooks(cfg, books, e))
    ensures (e.Complete? || e.Fail?) && e.token !in books ==> NextState(cfg, st, e) == st
  {
    match e
    case Route(token, now) => RegisterBalances(st.inflight, books, token, now);
    case Fail(token, now) => EndedBalances(st, books, token, now);
    case Complete(token, now) => EndedBalances(st, books, token, now);
    case Sweep(now) => SweepBalances(st.inflight, books, now, cfg.maxBuildSeconds * SECOND);
  }

  /** Routes and the releases that find their build stamp the last build, nothing else does. */
  lemma EventStamps(cfg: Config, st: ProjectState, books: Books, e: Event)
    requires Balanced(st.inflight, books) && Legal(books, e)
    ensures NextState(cfg, st, e).lastBuild
      == if e.Route? || ((e.Complete? || e.Fail?) && e.token in books) then Some(e.now) else st.lastBuild
  {
    if e.Complete? || e.Fail? {
      EndedBalances(st, books, e.token, e.now);
    }
  }

  function RunState(cfg: Config, st: ProjectState, es: seq<Event>): ProjectState
    decreases |es|
  {
    if es == [] then st else RunState(cfg, NextState(cfg, st, es[0]), es[1..])
  }

  function RunBooks(cfg: Config, books: Books, es: seq<Event>): Books
    decreases |es|
  {
    if es == [] then books else RunBooks(cfg, NextBooks(cfg, books, es[0]), es[1..])
  }

  predicate AllLegal(cfg: Config, books: Books, es: seq<Event>)
    decreases |es|
  {
    es == [] || (Legal(books, es[0]) && AllLegal(cfg, NextBooks(cfg, books, es[0]), es[1..]))
  }

  /** Token conservation: after any run of interleaved routes, failures, completions (duplicate or
      unknown ones included) and sweeps, the in-flight set is exactly the tokens of the routes still
      outstanding, each dated when it was routed. */
  lemma {:induction false} TokensAreConserved(cfg: Config, st: ProjectState, books: Books, es: seq<Event>)
    requires Balanced(st.inflight, books) && AllLegal(cfg, books, es)
    ensures Balanced(RunState(cfg, st, es).inflight, RunBooks(cfg, books, es))
    decreases |es|
  {
    if es != [] {
      EventBalances(cfg, st, books, es[0]);
      TokensAreConserved(cfg, NextState(cfg, st, es[0]), NextBooks(cfg, books, es[0]), es[1..]);
    }
  }
}
