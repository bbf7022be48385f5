/**
 The in-flight set of a project: the routed builds that have not been released
 yet, each ageing on its own clock (api/v1alpha1/inflight.go).
 */
module Inflight {
  import opened Base

  const INFLIGHT_CAP := 64

  /** The stored form of a build token. SHA-256 is modelled as a free constructor, so
      distinct tokens have distinct digests; adopted entries carry a name of their own. */
  datatype BuildId = Digest(token: string) | Adopted(index: nat)

  datatype Build = Build(id: BuildId, since: int)

  /** The status fields the protocol reads and writes. */
  datatype Status = Status(
    inflight: seq<Build>,
    inflightBuilds: int,
    lastBuild: Option<int>,
    recent: seq<int>,
    lastGrant: Option<int>)

  predicate Chronological(es: seq<Build>) {
    forall i, j | 0 <= i < j < |es| :: es[i].since <= es[j].since
  }

  predicate Expired(b: Build, now: int, maxAge: int) {
    now - b.since > maxAge
  }

  /** The entries that have not outlived maxAge, in order. */
  function Live(es: seq<Build>, now: int, maxAge: int): seq<Build> {
    if es == [] then []
    else
      var front := Live(es[..|es| - 1], now, maxAge);
      var last := es[|es| - 1];
      if Expired(last, now, maxAge) then front else front + [last]
  }

  /** capInflight: the newest INFLIGHT_CAP entries. */
  function Newest(es: seq<Build>): seq<Build> {
    if |es| > INFLIGHT_CAP then es[|es| - INFLIGHT_CAP..] else es
  }

  /** Registering a routed build under the digest of its token. */
  function Registered(es: seq<Build>, token: string, now: int): seq<Build> {
    Newest(es + [Build(Digest(token), now)])
  }

  function WithInflight(st: Status, es: seq<Build>): Status {
    st.(inflight := Newest(es), inflightBuilds := |Newest(es)|)
  }

  function AdoptedEntries(n: nat, since: int): seq<Build> {
    seq(n, i requires 0 <= i < n => Build(Adopted(i), since))
  }

  predicate Legacy(st: Status) {
    st.inflight == [] && st.inflightBuilds > 0 && st.lastBuild.Some?
  }

  /** A status that carries only the old bare count, turned into dated entries. */
  function Adopt(st: Status): Status {
    if Legacy(st)
    then WithInflight(st, AdoptedEntries(Min(st.inflightBuilds, INFLIGHT_CAP), st.lastBuild.value))
    else st
  }

  /** The first position whose entry satisfies p, or |es|. */
  function FirstWhere(es: seq<Build>, p: Build -> bool): (k: nat)
    ensures k <= |es|
    ensures k < |es| ==> p(es[k])
    ensures forall i | 0 <= i < k :: !p(es[i])
  {
    if es == [] || p(es[0]) then 0 else 1 + FirstWhere(es[1..], p)
  }

  /** The position a release removes, or -1 when it names nothing. */
  function ReleaseIndex(es: seq<Build>, token: string, cutoff: Option<int>): (i: int)
    ensures -1 <= i < |es|
    ensures token != "" && i >= 0 ==> es[i].id == Digest(token)
    ensures token == "" ==> (i >= 0 <==> es != [])
  {
    if es == [] then -1
    else if token == "" then
      if cutoff.None? then 0
      else
        var k := FirstWhere(es, (b: Build) => b.since < cutoff.value);
        if k == |es| then 0 else k
    else
      var k := FirstWhere(es, (b: Build) => b.id == Digest(token));
      if k == |es| then -1 else k
  }

  function DropAt(es: seq<Build>, i: nat): seq<Build>
    requires i < |es|
  {
    es[..i] + es[i + 1..]
  }

  /** The set after a release. */
  function Released(es: seq<Build>, token: string, cutoff: Option<int>): seq<Build> {
    var i := ReleaseIndex(es, token, cutoff);
    if i < 0 then es else DropAt(es, i)
  }

  // ---------------------------------------------------------------- the loops

  method ExpireInflight(inflight: seq<Build>, now: int, maxAge: int) returns (out: seq<Build>, expired: nat)
    ensures out == Live(inflight, now, maxAge)
    ensures expired == |inflight| - |out|
  {
    expired := 0;
    for i := 0 to |inflight|
      invariant expired == i - |Live(inflight[..i], now, maxAge)|
    {
      assert inflight[..i + 1][..i] == inflight[..i];
      if now - inflight[i].since > maxAge {
        expired := expired + 1;
      }
    }
    assert inflight[..|inflight|] == inflight;
    if expired == 0 {
      LiveAll(inflight, now, maxAge);
      return inflight, 0;
    }
    out := [];
    for i := 0 to |inflight|
      invariant out == Live(inflight[..i], now, maxAge)
    {
      assert inflight[..i + 1][..i] == inflight[..i];
      if now - inflight[i].since <= maxAge {
        out := out + [inflight[i]];
      }
    }
  }

  method EndInflight(inflight: seq<Build>, token: string, cutoff: Option<int>) returns (out: seq<Build>, found: bool)
    ensures found <==> ReleaseIndex(inflight, token, cutoff) >= 0
    ensures out == Released(inflight, token, cutoff)
  {
    if |inflight| == 0 {
      return inflight, false;
    }
    var drop := -1;
    if token == "" {
      drop := 0;
      if cutoff.Some? {
        drop := OldestBefore(inflight, cutoff.value);
      }
    } else {
      drop := IndexOfToken(inflight, token);
    }
    assert drop == ReleaseIndex(inflight, token, cutoff);
    if drop < 0 {
      return inflight, false;
    }
    out := inflight[..drop];
    out := out + inflight[drop + 1..];
    found := true;
  }

  /** The search of an unnamed release: the first entry before the cutoff, or the first of all. */
  method OldestBefore(inflight: seq<Build>, cutoff: int) returns (drop: nat)
    requires inflight != []
    ensures drop == ReleaseIndex(inflight, "", Some(cutoff))
  {
    ghost var before := (b: Build) => b.since < cutoff;
    ghost var first := FirstWhere(inflight, before);
    drop := 0;
    var i := 0;
    while i < |inflight|
      invariant 0 <= i <= |inflight| && i <= first && drop == 0
    {
      if inflight[i].since < cutoff {
        assert before(inflight[i]);
        return i;
      }
      assert !before(inflight[i]);
      i := i + 1;
    }
  }

  /** The search of a named release: the first entry under the token's digest, or -1. */
  method IndexOfToken(inflight: seq<Build>, token: string) returns (drop: int)
    requires inflight != [] && token != ""
    ensures forall cutoff :: drop == ReleaseIndex(inflight, token, cutoff)
  {
    ghost var named := (b: Build) => b.id == Digest(token);
    ghost var first := FirstWhere(inflight, named);
    drop := -1;
    var i := 0;
    while i < |inflight|
      invariant 0 <= i <= |inflight| && i <= first && drop == -1
    {
      if inflight[i].id == Digest(token) {
        assert named(inflight[i]);
        return i;
      }
      assert !named(inflight[i]);
      i := i + 1;
    }
  }

  /** The status object, updated in place by SetInflight and AdoptLegacyInflight. */
  class BuildProjectStatus {
    var inflight: seq<Build>
    var inflightBuilds: int
    var lastBuild: Option<int>
    var recent: seq<int>
    var lastGrant: Option<int>

    function View(): Status
      reads this
    {
      Status(inflight, inflightBuilds, lastBuild, recent, lastGrant)
    }

    constructor (st: Status)
      ensures View() == st
    {
      inflight, inflightBuilds := st.inflight, st.inflightBuilds;
      lastBuild, recent, lastGrant := st.lastBuild, st.recent, st.lastGrant;
    }

    method SetInflight(entries: seq<Build>)
      modifies this`inflight, this`inflightBuilds
      ensures View() == WithInflight(old(View()), entries)
    {
      inflight := Newest(entries);
      inflightBuilds := |inflight|;
    }

    method AdoptLegacyInflight() returns (adopted: bool)
      modifies this`inflight, this`inflightBuilds
      ensures View() == Adopt(old(View()))
      ensures adopted <==> Legacy(old(View()))
    {
      if |inflight| > 0 || inflightBuilds <= 0 || lastBuild.None? {
        return false;
      }
      var n := inflightBuilds;
      if n > INFLIGHT_CAP {
        n := INFLIGHT_CAP;
      }
      var entries: seq<Build> := [];
      for i := 0 to n
        invariant entries == AdoptedEntries(i, lastBuild.value)
        invariant View() == old(View())
      {
        entries := entries + [Build(Adopted(i), lastBuild.value)];
      }
      SetInflight(entries);
      adopted := true;
    }
  }

  // ------------------------------------------------------------- what adoption makes

  /** A bare count becomes that many entries, at most 64, all dated from the last build and each with a
      name of its own; any other status, and every other field, is left as it is. */
  lemma AdoptionIsExact(st: Status)
    ensures var st' := Adopt(st);
      if st.inflight == [] && st.inflightBuilds > 0 && st.lastBuild.Some?
      then
        && |st'.inflight| == st'.inflightBuilds == Min(st.inflightBuilds, 64)
        && (forall b | b in st'.inflight :: b.since == st.lastBuild.value)
        && DistinctIds(st'.inflight)
        && st' == st.(inflight := st'.inflight, inflightBuilds := st'.inflightBuilds)
      else st' == st
  {
  }

  // ---------------------------------------------------------- what expiry keeps

  lemma {:induction false} LiveAll(es: seq<Build>, now: int, maxAge: int)
    ensures |Live(es, now, maxAge)| <= |es|
    ensures |Live(es, now, maxAge)| == |es| ==> Live(es, now, maxAge) == es
  {
    if es != [] {
      LiveAll(es[..|es| - 1], now, maxAge);
      assert es == es[..|es| - 1] + [es[|es| - 1]];
    }
  }

  /** Expiry is per entry: exactly the entries past the window go, no sibling with them. */
  lemma {:induction false} LiveMembers(es: seq<Build>, now: int, maxAge: int)
    ensures forall b :: b in Live(es, now, maxAge) <==> b in es && !Expired(b, now, maxAge)
  {
    if es != [] {
      LiveMembers(es[..|es| - 1], now, maxAge);
      assert es == es[..|es| - 1] + [es[|es| - 1]];
    }
  }

  /** On a chronological set expiry only ever sheds a prefix: what is left is a suffix. */
  lemma {:induction false} LiveIsSuffix(es: seq<Build>, now: int, maxAge: int)
    requires Chronological(es)
    ensures |Live(es, now, maxAge)| <= |es|
    ensures Live(es, now, maxAge) == es[|es| - |Live(es, now, maxAge)|..]
    ensures Chronological(Live(es, now, maxAge))
  {
    if es != [] {
      var front, last := es[..|es| - 1], es[|es| - 1];
      LiveIsSuffix(front, now, maxAge);
      if Expired(last, now, maxAge) {
        LiveMembers(front, now, maxAge);
        assert forall i | 0 <= i < |front| :: Expired(front[i], now, maxAge);
        assert Live(front, now, maxAge) != [] ==> Live(front, now, maxAge)[0] in front;
      }
    }
  }

  /** A set with nothing live stays so as time passes. */
  lemma DeadStaysDead(es: seq<Build>, t: int, t': int, maxAge: int)
    requires t <= t' && Live(es, t, maxAge) == []
    ensures Live(es, t', maxAge) == []
  {
    LiveMembers(es, t, maxAge);
    LiveMembers(es, t', maxAge);
    assert forall b :: b in Live(es, t', maxAge) ==> b in Live(es, t, maxAge);
  }

  // -------------------------------------------------------- what a release drops

  /** Whatever cutoff the caller passes, an unnamed release on a chronological set drops the oldest
      entry: the preference for entries before the cutoff can never pick another one. */
  lemma UnnamedReleaseDropsOldest(es: seq<Build>, cutoff: Option<int>)
    requires Chronological(es) && es != []
    ensures ReleaseIndex(es, "", cutoff) == 0
    ensures DropAt(es, ReleaseIndex(es, "", cutoff)) == es[1..]
  {
    assert forall i | 0 <= i < |es| :: es[0].since <= es[i].since;
  }

  /** After expiry has run with the same window, no entry lies before the cutoff at all. */
  lemma CutoffNeverFires(es: seq<Build>, now: int, maxAge: int)
    ensures forall b | b in Live(es, now, maxAge) :: !(b.since < now - maxAge)
  {
    LiveMembers(es, now, maxAge);
  }

  predicate DistinctIds(es: seq<Build>) {
    forall i, j | 0 <= i < j < |es| :: es[i].id != es[j].id
  }

  /** A named release removes the entry of that token and no other, and a second one finds nothing. */
  lemma NamedReleaseIsExact(es: seq<Build>, token: string, cutoff: Option<int>)
    requires DistinctIds(es) && token != ""
    ensures var i := ReleaseIndex(es, token, cutoff);
      && (i >= 0 <==> exists b :: b in es && b.id == Digest(token))
      && (i >= 0 ==>
            var out := DropAt(es, i);
            && (forall b :: b in out <==> b in es && b.id != Digest(token))
            && DistinctIds(out)
            && ReleaseIndex(out, token, cutoff) == -1)
  {
    var i := ReleaseIndex(es, token, cutoff);
    if i >= 0 {
      assert es[i] in es;
      DropIsExact(es, i);
      assert forall k | 0 <= k < |DropAt(es, i)| :: DropAt(es, i)[k] in DropAt(es, i);
    }
  }

  lemma DropIsExact(es: seq<Build>, i: nat)
    requires DistinctIds(es) && i < |es|
    ensures DistinctIds(DropAt(es, i))
    ensures forall b :: b in DropAt(es, i) <==> b in es && b.id != es[i].id
  {
    var out := DropAt(es, i);
    forall b ensures b in out <==> b in es && b.id != es[i].id {
      if b in es && b.id != es[i].id {
        var k :| 0 <= k < |es| && es[k] == b;
        assert out[if k < i then k else k - 1] == b;
      }
    }
  }
}
