/**
 The S3 export cadence: import always, export at most once per interval, decided by the status-based
 backend (internal/provisioner/k8s/k8s.go) and the in-memory one (internal/provisioner/local/local.go).
 The election across replicas is proved in module Safety.
 */
module S3Cadence {
  import opened Base

  /** s3CachePolicy after defaulting. Unlisted is any value the CRD enumeration would refuse. */
  datatype Policy = Cadence | Always | Never | Unlisted

  datatype Answer = Answer(imports: bool, exports: bool)

  /** The export window has elapsed since the last grant. */
  predicate Due(last: Option<int>, now: int, interval: int) {
    last.None? || now - last.value >= interval
  }

  /** An instant as the API server stores it: RFC 3339, whole seconds. */
  function Stored(now: int): int {
    now - now % SECOND
  }

  /** The status-based decision when every API call succeeds, with the new cadence clock. */
  function StatusDecision(policy: Policy, clock: Option<int>, interval: int, grant: bool, now: int): (Answer, Option<int>) {
    match policy
    case Never => (Answer(false, false), clock)
    case Always => (Answer(true, true), clock)
    case Unlisted => (Answer(true, interval <= 0 && grant), clock)
    case Cadence =>
      if !grant || interval <= 0 then (Answer(true, interval <= 0 && grant), clock)
      else if !Due(clock, now, interval) then (Answer(true, false), clock)
      else (Answer(true, true), Some(Stored(now)))
  }

  /** The in-memory decision for a project that exists. */
  function MemoryDecision(policy: Policy, clock: Option<int>, interval: int, grant: bool, now: int): (Answer, Option<int>) {
    match policy
    case Never => (Answer(false, false), clock)
    case Always => (Answer(true, true), clock)
    case _ =>
      if !grant then (Answer(true, false), clock)
      else if interval <= 0 then (Answer(true, true), clock)
      else if !Due(clock, now, interval) then (Answer(true, false), clock)
      else (Answer(true, true), Some(now))
  }

  /** One call. The policy may be edited between calls. */
  datatype Call = Call(policy: Policy, interval: int, grant: bool, now: int)

  function StatusRun(clock: Option<int>, calls: seq<Call>): (r: (seq<Answer>, Option<int>))
    ensures |r.0| == |calls|
  {
    if calls == [] then ([], clock)
    else
      var (answers, c) := StatusRun(clock, calls[..|calls| - 1]);
      var last := calls[|calls| - 1];
      var (answer, c') := StatusDecision(last.policy, c, last.interval, last.grant, last.now);
      (answers + [answer], c')
  }

  function MemoryRun(clock: Option<int>, calls: seq<Call>): (r: (seq<Answer>, Option<int>))
    ensures |r.0| == |calls|
  {
    if calls == [] then ([], clock)
    else
      var (answers, c) := MemoryRun(clock, calls[..|calls| - 1]);
      var last := calls[|calls| - 1];
      var (answer, c') := MemoryDecision(last.policy, c, last.interval, last.grant, last.now);
      (answers + [answer], c')
  }

  predicate Listed(calls: seq<Call>) {
    forall i | 0 <= i < |calls| :: !calls[i].policy.Unlisted?
  }

  // ------------------------------------------------------------------ what they answer

  /** This answer used up the cadence window. */
  predicate Granted(c: Call, a: Answer) {
    c.policy == Cadence && c.grant && c.interval > 0 && a.exports
  }

  /** The instant of the last granted export of a run, as the backend keeps it: exact in memory, whole
      seconds in the status; first is what was there before. */
  function LastGranted(seconds: bool, first: Option<int>, calls: seq<Call>, answers: seq<Answer>): Option<int>
    requires |calls| == |answers|
  {
    if calls == [] then first
    else
      var n := |calls| - 1;
      if Granted(calls[n], answers[n]) then Some(if seconds then calls[n].now / SECOND * SECOND else calls[n].now)
      else LastGranted(seconds, first, calls[..n], answers[..n])
  }

  /** What a call is answered: never neither imports nor exports, always does both; cadence imports, and
      exports iff the call may grant and the interval is switched off or has passed since the last grant. */
  predicate AnswersPolicy(c: Call, a: Answer, last: Option<int>) {
    && (a.imports <==> c.policy != Never)
    && (c.policy == Never ==> !a.exports)
    && (c.policy == Always ==> a.exports)
    && (c.policy == Cadence ==>
          (a.exports <==> c.grant && (c.interval <= 0 || last.None? || c.now - last.value >= c.interval)))
  }

  lemma OneAnswer(c: Call, clock: Option<int>)
    requires !c.policy.Unlisted?
    ensures var (a, k) := StatusDecision(c.policy, clock, c.interval, c.grant, c.now);
      AnswersPolicy(c, a, clock) && k == if Granted(c, a) then Some(c.now / SECOND * SECOND) else clock
    ensures var (a, k) := MemoryDecision(c.policy, clock, c.interval, c.grant, c.now);
      AnswersPolicy(c, a, clock) && k == if Granted(c, a) then Some(c.now) else clock
  {
  }

  /** The cadence clock of a run is the instant of its last granted export: it moves on nothing else. */
  lemma {:induction false} ClockIsLastGrant(first: Option<int>, calls: seq<Call>)
    requires Listed(calls)
    ensures var (answers, clock) := StatusRun(first, calls); clock == LastGranted(true, first, calls, answers)
    ensures var (answers, clock) := MemoryRun(first, calls); clock == LastGranted(false, first, calls, answers)
  {
    if calls != [] {
      var n := |calls| - 1;
      ClockIsLastGrant(first, calls[..n]);
      OneAnswer(calls[n], StatusRun(first, calls[..n]).1);
      OneAnswer(calls[n], MemoryRun(first, calls[..n]).1);
      assert StatusRun(first, calls).0[..n] == StatusRun(first, calls[..n]).0;
      assert MemoryRun(first, calls).0[..n] == MemoryRun(first, calls[..n]).0;
    }
  }

  lemma {:induction false} EarlierAnswers(first: Option<int>, calls: seq<Call>, n: nat)
    requires n <= |calls|
    ensures StatusRun(first, calls).0[..n] == StatusRun(first, calls[..n]).0
    ensures MemoryRun(first, calls).0[..n] == MemoryRun(first, calls[..n]).0
    decreases |calls|
  {
    if n == |calls| {
      assert calls[..n] == calls;
    } else {
      var front := calls[..|calls| - 1];
      EarlierAnswers(first, front, n);
      assert front[..n] == calls[..n];
      assert StatusRun(first, calls).0[..|front|] == StatusRun(first, front).0;
      assert MemoryRun(first, calls).0[..|front|] == MemoryRun(first, front).0;
      assert StatusRun(first, calls).0[..n] == StatusRun(first, calls).0[..|front|][..n];
      assert MemoryRun(first, calls).0[..n] == MemoryRun(first, calls).0[..|front|][..n];
    }
  }

  /** Every answer of every run, of either backend. */
  lemma EveryAnswerFollowsPolicy(first: Option<int>, calls: seq<Call>, i: nat)
    requires Listed(calls) && i < |calls|
    ensures var answers := StatusRun(first, calls).0;
      AnswersPolicy(calls[i], answers[i], LastGranted(true, first, calls[..i], answers[..i]))
    ensures var answers := MemoryRun(first, calls).0;
      AnswersPolicy(calls[i], answers[i], LastGranted(false, first, calls[..i], answers[..i]))
  {
    var upTo := calls[..i + 1];
    assert upTo[..i] == calls[..i] && upTo[i] == calls[i];
    EarlierAnswers(first, calls, i);
    EarlierAnswers(first, calls, i + 1);
    assert StatusRun(first, calls).0[i] == StatusRun(first, calls).0[..i + 1][i];
    assert MemoryRun(first, calls).0[i] == MemoryRun(first, calls).0[..i + 1][i];
    ClockIsLastGrant(first, calls[..i]);
    OneAnswer(calls[i], StatusRun(first, calls[..i]).1);
    OneAnswer(calls[i], MemoryRun(first, calls[..i]).1);
  }

  // -------------------------------------------------------------------- how they compare

  function Truncated(calls: seq<Call>): seq<Call> {
    seq(|calls|, i requires 0 <= i < |calls| => calls[i].(now := Stored(calls[i].now)))
  }

  /** The status-based backend at arbitrary instants is the in-memory backend at the truncated ones,
      for whole-second intervals: same answers, same cadence clock. */
  lemma {:induction false} StatusIsMemoryOnStoredTime(clock: Option<int>, calls: seq<Call>)
    requires clock.Some? ==> clock.value % SECOND == 0
    requires Listed(calls) && forall i | 0 <= i < |calls| :: calls[i].interval % SECOND == 0
    ensures StatusRun(clock, calls) == MemoryRun(clock, Truncated(calls))
    ensures StatusRun(clock, calls).1.Some? ==> StatusRun(clock, calls).1.value % SECOND == 0
  {
    if calls != [] {
      var front, last := calls[..|calls| - 1], calls[|calls| - 1];
      StatusIsMemoryOnStoredTime(clock, front);
      assert Truncated(calls)[..|calls| - 1] == Truncated(front);
      var c := StatusRun(clock, front).1;
      if c.Some? {
        DueOnWholeSeconds(c.value, last.now, last.interval);
      }
    }
  }

  lemma DueOnWholeSeconds(g: int, now: int, interval: int)
    requires g % SECOND == 0 && interval % SECOND == 0
    ensures now - g >= interval <==> Stored(now) - g >= interval
  {
    var a, b, c := g / SECOND, interval / SECOND, now / SECOND;
    assert g == a * SECOND && interval == b * SECOND && Stored(now) == c * SECOND;
  }

  /** On a clock of whole seconds the two backends agree call by call, whatever the intervals. */
  lemma {:induction false} BackendsAgree(clock: Option<int>, calls: seq<Call>)
    requires Listed(calls) && forall i | 0 <= i < |calls| :: calls[i].now % SECOND == 0
    ensures StatusRun(clock, calls) == MemoryRun(clock, calls)
  {
    if calls != [] {
      BackendsAgree(clock, calls[..|calls| - 1]);
    }
  }

  function StoredClock(clock: Option<int>): Option<int> {
    match clock
    case None => None
    case Some(g) => Some(Stored(g))
  }

  /** A call that comes in the part of a second by which the stored stamp is too old. */
  predicate Torn(clock: Option<int>, c: Call) {
    && c.policy.Cadence? && c.grant && c.interval > 0
    && clock.Some? && Stored(clock.value) + c.interval <= c.now < clock.value + c.interval
  }

  lemma OneAnswerAgreesExactlyWhen(clock: Option<int>, c: Call)
    requires !c.policy.Unlisted?
    ensures var (s, k) := StatusDecision(c.policy, StoredClock(clock), c.interval, c.grant, c.now);
      var (m, k') := MemoryDecision(c.policy, clock, c.interval, c.grant, c.now);
      && (s == m <==> !Torn(clock, c))
      && (s == m ==> k == StoredClock(k'))
  {
  }

  /** No call of the run is torn, judged by the in-memory clock alone. */
  predicate Untorn(clock: Option<int>, calls: seq<Call>) {
    calls == [] ||
    var front := calls[..|calls| - 1];
    Untorn(clock, front) && !Torn(MemoryRun(clock, front).1, calls[|calls| - 1])
  }

  /** At arbitrary instants the two backends give the same answers exactly when no call is torn; and
      then the stored clock is the in-memory one, truncated. */
  lemma {:induction false} BackendsAgreeExactlyWhen(clock: Option<int>, calls: seq<Call>)
    requires Listed(calls)
    ensures StatusRun(StoredClock(clock), calls).0 == MemoryRun(clock, calls).0 <==> Untorn(clock, calls)
    ensures Untorn(clock, calls) ==> StatusRun(StoredClock(clock), calls).1 == StoredClock(MemoryRun(clock, calls).1)
  {
    if calls != [] {
      var n := |calls| - 1;
      var front := calls[..n];
      BackendsAgreeExactlyWhen(clock, front);
      OneAnswerAgreesExactlyWhen(MemoryRun(clock, front).1, calls[n]);
      var s, m := StatusRun(StoredClock(clock), calls).0, MemoryRun(clock, calls).0;
      assert s[..n] == StatusRun(StoredClock(clock), front).0 && m[..n] == MemoryRun(clock, front).0;
      assert s == m <==> s[..n] == m[..n] && s[n] == m[n] by {
        assert s == s[..n] + [s[n]] && m == m[..n] + [m[n]];
      }
    }
  }

  /** Off whole seconds they can differ: the stored stamp is up to a second older. */
  lemma BackendsDifferWithinASecond()
    ensures
      var half := SECOND / 2;
      var calls := [Call(Cadence, 2 * SECOND, true, half), Call(Cadence, 2 * SECOND, true, 2 * SECOND + half / 2)];
      StatusRun(None, calls).0 != MemoryRun(None, calls).0
  {
    var half := SECOND / 2;
    var c1, c2 := Call(Cadence, 2 * SECOND, true, half), Call(Cadence, 2 * SECOND, true, 2 * SECOND + half / 2);
    OneMore(None, [], c1);
    OneMore(None, [c1], c2);
    assert [] + [c1] == [c1] && [c1] + [c2] == [c1, c2];
    assert StatusRun(None, [c1, c2]).0[1] == Answer(true, true);
    assert MemoryRun(None, [c1, c2]).0[1] == Answer(true, false);
  }

  lemma OneMore(clock: Option<int>, calls: seq<Call>, c: Call)
    ensures var (answers, k) := StatusRun(clock, calls);
      var (a, k') := StatusDecision(c.policy, k, c.interval, c.grant, c.now);
      StatusRun(clock, calls + [c]) == (answers + [a], k')
    ensures var (answers, k) := MemoryRun(clock, calls);
      var (a, k') := MemoryDecision(c.policy, k, c.interval, c.grant, c.now);
      MemoryRun(clock, calls + [c]) == (answers + [a], k')
  {
    assert (calls + [c])[..|calls|] == calls;
  }

  /** The project as each backend keeps it, updated in place by its S3CacheDecision. */
  class StatusBackend {
    var policy: Policy
    var lastGrant: Option<int>

    method S3CacheDecision(interval: int, grant: bool, now: int) returns (imports: bool, exports: bool)
      modifies this`lastGrant
      ensures (Answer(imports, exports), lastGrant) == StatusDecision(policy, old(lastGrant), interval, grant, now)
    {
      if policy == Never {
        return false, false;
      } else if policy == Always {
        return true, true;
      }
      if !grant || interval <= 0 {
        return true, interval <= 0 && grant;
      }
      if policy != Cadence {
        return true, policy == Always;
      }
      if lastGrant.Some? && now - lastGrant.value < interval {
        return true, false;
      }
      lastGrant := Some(Stored(now));
      return true, true;
    }
  }

  class MemoryBackend {
    /** Whether the project has a state yet; without one the default policy, cadence, applies. */
    var known: bool
    var policy: Policy
    var lastCacheExport: Option<int>

    method S3CacheDecision(interval: int, grant: bool, now: int) returns (imports: bool, exports: bool)
      modifies this`lastCacheExport
      ensures known ==>
        (Answer(imports, exports), lastCacheExport) == MemoryDecision(policy, old(lastCacheExport), interval, grant, now)
      ensures !known ==> imports && (exports <==> grant && interval <= 0) && lastCacheExport == old(lastCacheExport)
    {
      if known && policy == Never {
        return false, false;
      } else if known && policy == Always {
        return true, true;
      }
      if !grant {
        return true, false;
      }
      if interval <= 0 {
        return true, true;
      }
      if !known {
        return true, false;
      }
      if lastCacheExport.Some? && now - lastCacheExport.value < interval {
        return true, false;
      }
      lastCacheExport := Some(now);
      return true, true;
    }
  }
}
