/**
 Bounded cache-volume auto-grow (internal/controller/autogrow.go): growth is automatic, unbounded
 growth is not, and nothing ever shrinks. Floating point is modelled by real numbers.
 */
module AutoGrow {
  import opened Base

  /** One Gi in bytes. */
  const GI: nat := 1_073_741_824

  function GiOf(bytes: nat): nat { bytes / GI }

  function Ceil(x: real): int { -((-x).Floor) }

  datatype Config = Config(thresholdPct: int, factor: real, maxGi: int)

  /** The growth step, 1.5 when unset. */
  function Factor(cfg: Config): real {
    if cfg.factor <= 1.0 then 1.5 else cfg.factor
  }

  /** autoGrowTarget: the new size, or 0 for no change. */
  function Target(currentGi: int, usedPct: real, thresholdPct: int, factor: real, maxGi: int): int {
    if thresholdPct <= 0 || maxGi <= 0 || currentGi <= 0 || currentGi >= maxGi then 0
    else if usedPct < thresholdPct as real then 0
    else if factor <= 1.0 then 0
    else
      var nf := Ceil(currentGi as real * factor);
      var next := if nf < maxGi then nf else maxGi;
      if next <= currentGi then 0 else next
  }

  lemma CeilIsLeast(x: real)
    ensures x <= Ceil(x) as real < x + 1.0
  {
  }

  lemma StepGrows(currentGi: int, factor: real)
    requires currentGi > 0 && factor > 1.0
    ensures Ceil(currentGi as real * factor) > currentGi
  {
    var c := currentGi as real;
    assert c * factor > c by {
      assert c * (factor - 1.0) > 0.0;
      assert c * factor == c * (factor - 1.0) + c;
    }
  }

  /** The decision is exact: it grows iff the volume is below quota and past the threshold, and then by
      at least one Gi, to at most the quota. The last guard of the code never fires. */
  lemma TargetExactly(currentGi: int, usedPct: real, thresholdPct: int, factor: real, maxGi: int)
    ensures var next := Target(currentGi, usedPct, thresholdPct, factor, maxGi);
      && (next != 0 <==> thresholdPct > 0 && 0 < currentGi < maxGi && usedPct >= thresholdPct as real && factor > 1.0)
      && (next != 0 ==> currentGi < next <= maxGi && next == Min(Ceil(currentGi as real * factor), maxGi))
  {
    if currentGi > 0 && factor > 1.0 {
      StepGrows(currentGi, factor);
    }
  }

  /** What one pass reads, possibly stale: the recorded size, the claim's request and capacity, and the
      usage probe (None when the pod, its address or the answer is missing). */
  datatype Seen = Seen(
    specGi: int, request: nat, capacity: nat, resizePending: bool, inflight: nat, ready: int,
    gateOpen: bool, usage: Option<(nat, nat)>)

  datatype Decision = Nothing | Record(gi: int) | Grow(gi: int)

  function SeenCurrent(seen: Seen): int { Max(seen.specGi, GiOf(seen.request)) }

  predicate ExpansionInFlight(seen: Seen) {
    GiOf(seen.capacity) > 0 && GiOf(seen.request) > GiOf(seen.capacity)
  }

  /** maybeAutoGrow after the bounce: what the pass decides to write. */
  function Decide(cfg: Config, seen: Seen): Decision {
    if cfg.thresholdPct <= 0 then Nothing
    else if seen.resizePending && seen.inflight == 0 && seen.ready >= 1 then Nothing
    else if ExpansionInFlight(seen) then Nothing
    else if seen.ready < 1 || !seen.gateOpen || seen.usage.None? || seen.usage.value.1 == 0 then Nothing
    else
      var usedPct := seen.usage.value.0 as real / seen.usage.value.1 as real * 100.0;
      var next := Target(SeenCurrent(seen), usedPct, cfg.thresholdPct, Factor(cfg), cfg.maxGi);
      if next == 0 then
        if GiOf(seen.request) > seen.specGi then Record(GiOf(seen.request)) else Nothing
      else if next <= GiOf(seen.request) then Nothing
      else Grow(next)
  }

  /** A grow that was decided is never swallowed by the guard against the current request, and stays
      within the quota; a pass that sees an expansion still in flight raises nothing. */
  lemma DecisionIsSound(cfg: Config, seen: Seen)
    ensures Decide(cfg, seen).Grow? ==> SeenCurrent(seen) < Decide(cfg, seen).gi <= cfg.maxGi
    ensures Decide(cfg, seen).Record? ==> seen.specGi < Decide(cfg, seen).gi == GiOf(seen.request)
    ensures ExpansionInFlight(seen) ==> Decide(cfg, seen) == Nothing
    ensures forall usedPct: real ::
      var next := Target(SeenCurrent(seen), usedPct, cfg.thresholdPct, Factor(cfg), cfg.maxGi);
      next != 0 ==> !(next <= GiOf(seen.request))
  {
    forall usedPct: real
      ensures var next := Target(SeenCurrent(seen), usedPct, cfg.thresholdPct, Factor(cfg), cfg.maxGi);
        next != 0 ==> SeenCurrent(seen) < next <= cfg.maxGi
    {
      TargetExactly(SeenCurrent(seen), usedPct, cfg.thresholdPct, Factor(cfg), cfg.maxGi);
    }
  }

  /** A percentage at or past the threshold, in whole numbers. */
  lemma PercentExactly(used: nat, total: nat, thresholdPct: int)
    requires total > 0
    ensures used as real / total as real * 100.0 >= thresholdPct as real <==> used * 100 >= thresholdPct * total
  {
    var u, t, p := used as real, total as real, thresholdPct as real;
    var q := u / t;
    assert q * t == u;
    assert (q * 100.0) * t == u * 100.0;
    if q * 100.0 >= p {
      assert (q * 100.0) * t >= p * t;
    } else {
      assert (q * 100.0) * t < p * t;
    }
    assert u * 100.0 == (used * 100) as real && p * t == (thresholdPct * total) as real;
  }

  /** The pass can decide at all: the daemon is ready and not about to be bounced, no expansion is in
      flight, a probe is due and answers. */
  predicate CanDecide(seen: Seen) {
    && seen.ready >= 1 && !(seen.resizePending && seen.inflight == 0)
    && !(seen.request / GI > seen.capacity / GI > 0)
    && seen.gateOpen && seen.usage.Some? && seen.usage.value.1 > 0
  }

  /** When a pass grows the volume, and to what; and when it only records a size grown by hand. */
  lemma DecisionExactly(cfg: Config, seen: Seen)
    ensures var d := Decide(cfg, seen);
      var current := Max(seen.specGi, seen.request / GI);
      var full := seen.usage.Some? && seen.usage.value.0 * 100 >= cfg.thresholdPct * seen.usage.value.1;
      var due := cfg.thresholdPct > 0 && CanDecide(seen);
      && (d.Grow? <==> due && full && 0 < current < cfg.maxGi)
      && (d.Grow? ==>
            d.gi == Min(Ceil(current as real * (if cfg.factor <= 1.0 then 1.5 else cfg.factor)), cfg.maxGi))
      && (d.Record? <==> due && !(full && 0 < current < cfg.maxGi) && seen.request / GI > seen.specGi)
      && (d.Record? ==> d.gi == seen.request / GI)
  {
    if CanDecide(seen) {
      var (used, total) := seen.usage.value;
      PercentExactly(used, total, cfg.thresholdPct);
      TargetExactly(
        SeenCurrent(seen), used as real / total as real * 100.0, cfg.thresholdPct, Factor(cfg), cfg.maxGi);
    }
  }

  /** The stored claim and the recorded size. */
  datatype Volume = Volume(request: nat, specGi: int)

  /** The conflict-retried writes: each re-reads its object and never lowers it; the recorded size is
      written only after the claim. */
  function Written(v: Volume, d: Decision, claimOk: bool, specOk: bool): Volume {
    match d
    case Nothing => v
    case Record(gi) => if specOk && v.specGi < gi then v.(specGi := gi) else v
    case Grow(gi) =>
      if !claimOk || gi < 0 then v
      else
        var v' := if GiOf(v.request) >= gi then v else v.(request := gi * GI);
        if specOk && v'.specGi < gi then v'.(specGi := gi) else v'
  }

  /** The claim and the BuildProject, written in place. */
  class CacheVolume {
    var request: nat
    var specGi: int

    function View(): Volume
      reads this
    {
      Volume(request, specGi)
    }

    method RecordSpecGi(gi: int, specOk: bool)
      modifies this`specGi
      ensures View() == Written(old(View()), Record(gi), true, specOk)
    {
      if specGi >= gi {
        return;
      }
      if specOk {
        specGi := gi;
      }
    }

    method MaybeAutoGrow(cfg: Config, seen: Seen, claimOk: bool, specOk: bool)
      modifies this
      ensures View() == Written(old(View()), Decide(cfg, seen), claimOk, specOk)
    {
      if cfg.thresholdPct <= 0 || (seen.resizePending && seen.inflight == 0 && seen.ready >= 1) {
        return;
      }
      var reqGi, capGi := GiOf(seen.request), GiOf(seen.capacity);
      if capGi > 0 && reqGi > capGi {
        return;
      }
      var currentGi := seen.specGi;
      if reqGi > currentGi {
        currentGi := reqGi;
      }
      if seen.ready < 1 || !seen.gateOpen || seen.usage.None? || seen.usage.value.1 == 0 {
        return;
      }
      var usedPct := seen.usage.value.0 as real / seen.usage.value.1 as real * 100.0;
      var next := Target(currentGi, usedPct, cfg.thresholdPct, Factor(cfg), cfg.maxGi);
      if next == 0 {
        if reqGi > seen.specGi {
          RecordSpecGi(reqGi, specOk);
        }
        return;
      }
      if next <= reqGi {
        return;
      }
      if !claimOk {
        return;
      }
      if GiOf(request) < next {
        request := next * GI;
      }
      RecordSpecGi(next, specOk);
    }
  }

  // --------------------------------------------------------------------------- runs

  datatype Event =
    | Pass(seen: Seen, claimOk: bool, specOk: bool)
    | HandGrowClaim(bytes: nat)
    | HandGrowSpec(gi: int)

  function Next(cfg: Config, v: Volume, e: Event): Volume {
    match e
    case Pass(seen, claimOk, specOk) => Written(v, Decide(cfg, seen), claimOk, specOk)
    case HandGrowClaim(bytes) => if bytes > v.request then v.(request := bytes) else v
    case HandGrowSpec(gi) => if gi > v.specGi then v.(specGi := gi) else v
  }

  function Run(cfg: Config, v: Volume, es: seq<Event>): Volume
    decreases |es|
  {
    if es == [] then v else Run(cfg, Next(cfg, v, es[0]), es[1..])
  }

  lemma GiIsMonotone(a: nat, b: nat)
    requires a <= b
    ensures GiOf(a) <= GiOf(b)
  {
  }

  /** One event never lowers the request or the recorded size, and an automatic request is within quota. */
  lemma EventNeverShrinks(cfg: Config, v: Volume, e: Event)
    ensures v.request <= Next(cfg, v, e).request && v.specGi <= Next(cfg, v, e).specGi
    ensures e.Pass? && Next(cfg, v, e).request != v.request ==>
      GiOf(v.request) < GiOf(Next(cfg, v, e).request) && Next(cfg, v, e).request <= cfg.maxGi * GI
    ensures e.Pass? && ExpansionInFlight(e.seen) ==> Next(cfg, v, e) == v
  {
    if e.Pass? {
      DecisionIsSound(cfg, e.seen);
      var d := Decide(cfg, e.seen);
      if d.Grow? && d.gi >= 0 {
        assert GiOf(d.gi * GI) == d.gi;
        if GiOf(v.request) < d.gi {
          assert v.request < d.gi * GI;
        }
      }
    }
  }

  /** A decision whose writes succeed is carried out: the claim asks for at least the new size, and for
      exactly that if it asked for less; the record follows. Without the claim the record stays. */
  lemma DecisionIsCarriedOut(cfg: Config, v: Volume, seen: Seen, claimOk: bool, specOk: bool)
    ensures var d, v' := Decide(cfg, seen), Next(cfg, v, Pass(seen, claimOk, specOk));
      && (d.Grow? && claimOk ==> v'.request == (if v.request / GI < d.gi then d.gi * GI else v.request))
      && (d.Grow? && claimOk && specOk ==> v'.specGi == Max(v.specGi, d.gi))
      && (d.Grow? && !claimOk ==> v' == v)
      && (d.Record? ==> v' == if specOk then v.(specGi := Max(v.specGi, d.gi)) else v)
      && (d.Nothing? ==> v' == v)
  {
    DecisionIsSound(cfg, seen);
    DecisionExactly(cfg, seen);
  }

  /** Over any run, with arbitrary readings, failures and hand growth, neither ever decreases. */
  lemma {:induction false} RunNeverShrinks(cfg: Config, v: Volume, es: seq<Event>)
    ensures v.request <= Run(cfg, v, es).request && v.specGi <= Run(cfg, v, es).specGi
    decreases |es|
  {
    if es != [] {
      EventNeverShrinks(cfg, v, es[0]);
      RunNeverShrinks(cfg, Next(cfg, v, es[0]), es[1..]);
    }
  }

  /** How many events of a run raised the request. */
  function Raises(cfg: Config, v: Volume, es: seq<Event>): nat
    decreases |es|
  {
    if es == [] then 0
    else
      var v' := Next(cfg, v, es[0]);
      (if v'.request > v.request then 1 else 0) + Raises(cfg, v', es[1..])
  }

  /** Without hand edits growth stops: at most quota minus start raises, ever. */
  lemma {:induction false} GrowthIsBounded(cfg: Config, v: Volume, es: seq<Event>)
    requires forall i | 0 <= i < |es| :: es[i].Pass?
    ensures Raises(cfg, v, es) <= Max(0, cfg.maxGi - GiOf(v.request))
    ensures GiOf(Run(cfg, v, es).request) <= Max(cfg.maxGi, GiOf(v.request))
    decreases |es|
  {
    if es != [] {
      var v' := Next(cfg, v, es[0]);
      EventNeverShrinks(cfg, v, es[0]);
      GrowthIsBounded(cfg, v', es[1..]);
      if v'.request > v.request {
        GiIsMonotone(v'.request, cfg.maxGi * GI);
        assert GiOf(cfg.maxGi * GI) == cfg.maxGi;
      }
    }
  }

  // ------------------------------------------------------------------------- the gate

  predicate Due(last: map<string, int>, key: string, now: int, interval: int) {
    key in last ==> now - last[key] >= interval
  }

  /** The gate's record after one call. */
  function Gated(last: map<string, int>, key: string, now: int, interval: int): map<string, int> {
    if Due(last, key, now, interval) then last[key := now] else last
  }

  /** Rate-limits an action per project key. */
  class ProbeGate {
    var last: map<string, int>

    method Allow(key: string, now: int, interval: int) returns (due: bool)
      modifies this
      ensures due <==> Due(old(last), key, now, interval)
      ensures last == Gated(old(last), key, now, interval)
    {
      if key in last && now - last[key] < interval {
        return false;
      }
      last := last[key := now];
      return true;
    }
  }

  datatype Call = Call(key: string, now: int)

  /** The gate's record after a series of calls for any keys. */
  function GatedAll(last: map<string, int>, calls: seq<Call>, interval: int): map<string, int> {
    if calls == [] then last
    else
      var c := calls[|calls| - 1];
      Gated(GatedAll(last, calls[..|calls| - 1], interval), c.key, c.now, interval)
  }

  /** The i-th call of the series is allowed. */
  predicate AllowedAt(last: map<string, int>, calls: seq<Call>, i: nat, interval: int)
    requires i < |calls|
  {
    Due(GatedAll(last, calls[..i], interval), calls[i].key, calls[i].now, interval)
  }

  /** After an allowed call the record of its key never falls back behind it, whatever keys are called. */
  lemma {:induction false} AllowedIsRemembered(last: map<string, int>, calls: seq<Call>, i: nat, n: nat, interval: int)
    requires interval >= 0 && i < n <= |calls| && AllowedAt(last, calls, i, interval)
    ensures var m := GatedAll(last, calls[..n], interval);
      calls[i].key in m && calls[i].now <= m[calls[i].key]
    decreases n
  {
    assert calls[..n][..n - 1] == calls[..n - 1];
    if i < n - 1 {
      AllowedIsRemembered(last, calls, i, n - 1, interval);
    }
  }

  /** Two allowed probes (or bounces) of one project are at least the interval apart, however the calls
      for other projects interleave. */
  lemma AllowedAreApart(last: map<string, int>, calls: seq<Call>, i: nat, j: nat, interval: int)
    requires interval >= 0 && i < j < |calls| && calls[i].key == calls[j].key
    requires AllowedAt(last, calls, i, interval) && AllowedAt(last, calls, j, interval)
    ensures calls[j].now - calls[i].now >= interval
  {
    AllowedIsRemembered(last, calls, i, j, interval);
  }
}
