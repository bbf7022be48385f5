/**
 Cache identities and the names derived from them (internal/router/router.go), and the sweep of
 orphaned cache volumes that relies on them (internal/controller/pvc_sweeper.go).
 */
module Keys {
  import opened Base
  import opened Strings
  import opened Router

  const NUL: char := 0 as char

  /** What a request asks for, and the normalized identity it stands for. */
  datatype Request = Request(repo: string, name: string, target: string, arch: string)

  datatype Identity = Identity(repo: string, name: string, target: string, arch: string)

  function NormalizeName(name: string): string { TrimSpace(Lower(name)) }

  function NormalizeTarget(target: string): string {
    var t := TrimSpace(Lower(target));
    if t == "" then "default" else t
  }

  function NormalizeArch(arch: string): string {
    var a := TrimSpace(Lower(arch));
    if a == "x86_64" || a == "amd64" then "amd64"
    else if a == "aarch64" || a == "arm64" then "arm64"
    else a
  }

  function IdentityOf(r: Request): Identity {
    Identity(Normalized(r.repo), NormalizeName(r.name), NormalizeTarget(r.target), NormalizeArch(r.arch))
  }

  /** Text with nothing to trim and no upper-case letter. */
  predicate IsTidy(s: string) {
    && (s != "" ==> !IsSpace(s[0]) && !IsSpace(s[|s| - 1]))
    && forall i | 0 <= i < |s| :: !('A' <= s[i] <= 'Z')
  }

  /** Letter case and surrounding space mean nothing in a name, a target or an architecture. */
  lemma CaseAndSpaceMeanNothing(raw: string, pre: string, s: string, post: string)
    requires IsTidy(s) && (forall c | c in pre + post :: IsSpace(c)) && Recased(raw, pre + s + post)
    ensures TrimSpace(Lower(raw)) == s && NormalizeName(raw) == s
  {
    var all := pre + s + post;
    assert forall i | 0 <= i < |pre| :: pre[i] in pre + post;
    assert forall i | 0 <= i < |post| :: post[i] in pre + post;
    LowerOfRecased(raw, all);
    if s == "" {
      assert all == pre + post;
      TrimLeftOfSpace(all);
    } else {
      TrimSpaceOf(pre, s, post);
    }
  }

  predicate Either(x: string, a: string, b: string) { x == a || x == b }

  predicate SameTarget(x: string, y: string) {
    x == y || (Either(x, "", "default") && Either(y, "", "default"))
  }

  predicate SameArch(x: string, y: string) {
    || x == y
    || (Either(x, "x86_64", "amd64") && Either(y, "x86_64", "amd64"))
    || (Either(x, "aarch64", "arm64") && Either(y, "aarch64", "arm64"))
  }

  /** An empty target is the default one; other targets agree only with themselves. */
  lemma TargetsAgreeExactlyWhen(a: string, b: string)
    ensures NormalizeTarget(a) == NormalizeTarget(b) <==> SameTarget(TrimSpace(Lower(a)), TrimSpace(Lower(b)))
  {
  }

  /** The two names of an architecture agree, and no two architectures do. */
  lemma ArchesAgreeExactlyWhen(a: string, b: string)
    ensures NormalizeArch(a) == NormalizeArch(b) <==> SameArch(TrimSpace(Lower(a)), TrimSpace(Lower(b)))
  {
    ArchTable(TrimSpace(Lower(a)));
    ArchTable(TrimSpace(Lower(b)));
  }

  lemma ArchTable(x: string)
    ensures !(Either(x, "x86_64", "amd64") && Either(x, "aarch64", "arm64"))
    ensures "amd64" != "arm64"
  {
    assert "amd64"[1] != "arm64"[1] && "x86_64"[0] != "a"[0] && |"aarch64"| == 7;
  }

  /** The string that is hashed; the name segment is omitted when empty. */
  function Seed(id: Identity): string {
    id.repo + (if id.name == "" then "" else [NUL] + "n:" + id.name) + [NUL] + id.target + [NUL] + id.arch
  }

  predicate NulFree(s: string) {
    forall i | 0 <= i < |s| :: s[i] != NUL
  }

  predicate NulFreeRequest(r: Request) {
    NulFree(r.repo) && NulFree(r.name) && NulFree(r.target) && NulFree(r.arch)
  }

  predicate NulFreeIdentity(id: Identity) {
    NulFree(id.repo) && NulFree(id.name) && NulFree(id.target) && NulFree(id.arch)
  }

  lemma PartIsNulFree(r: string, s: string)
    requires Part(r, s) && NulFree(s)
    ensures NulFree(r)
  {
  }

  lemma TrimmedIsNulFree(s: string)
    requires NulFree(s)
    ensures NulFree(TrimSpace(Lower(s)))
  {
    TrimSpaceShortens(Lower(s));
    var t := TrimSpace(Lower(s));
    assert forall i | 0 <= i < |t| :: t[i] in t;
  }

  lemma RepoKeepsNulFree(repo: string)
    requires NulFree(repo)
    ensures NulFree(Normalized(repo))
  {
    TrimmedIsNulFree(repo);
    BareIsPart(repo);
    PartIsNulFree(Bare(repo), Trimmed(repo));
    PartIsNulFree(StripPort(Bare(repo)), Bare(repo));
    assert NulFree(Slashed(repo));
    NormalizedIsPart(repo);
    PartIsNulFree(TrimTail(Slashed(repo)), Slashed(repo));
    PartIsNulFree(Normalized(repo), TrimTail(Slashed(repo)));
  }

  /** Normalization never introduces a NUL. */
  lemma NormalizationKeepsNulFree(r: Request)
    requires NulFreeRequest(r)
    ensures NulFreeIdentity(IdentityOf(r))
  {
    RepoKeepsNulFree(r.repo);
    TrimmedIsNulFree(r.name);
    TargetKeepsNulFree(r.target);
    ArchKeepsNulFree(r.arch);
    assert IdentityOf(r).name == TrimSpace(Lower(r.name));
  }

  lemma TargetKeepsNulFree(target: string)
    requires NulFree(target)
    ensures NulFree(NormalizeTarget(target))
  {
    TrimmedIsNulFree(target);
  }

  lemma ArchKeepsNulFree(arch: string)
    requires NulFree(arch)
    ensures NulFree(NormalizeArch(arch))
  {
    TrimmedIsNulFree(arch);
  }

  /** NUL-free text up to the first NUL can be read back. */
  lemma SplitAtNul(a: string, x: string, b: string, y: string)
    requires NulFree(a) && NulFree(b) && a + [NUL] + x == b + [NUL] + y
    ensures a == b && x == y
  {
    var s := a + [NUL] + x;
    assert s[|a|] == NUL && s[|b|] == NUL;
    assert s[..|a|] == a && s[..|b|] == b;
    assert forall i | 0 <= i < |a| :: s[i] == a[i];
    assert forall i | 0 <= i < |b| :: s[i] == b[i];
    assert |a| == |b|;
    assert s[|a| + 1..] == x && s[|b| + 1..] == y;
  }

  /** The seed after the repository: its name segment, or none, then target and arch. */
  function SeedTail(id: Identity): string {
    if id.name == "" then id.target + [NUL] + id.arch
    else "n:" + id.name + [NUL] + (id.target + [NUL] + id.arch)
  }

  lemma SeedIs(id: Identity)
    ensures Seed(id) == id.repo + [NUL] + SeedTail(id)
  {
  }

  /** A request without a name keeps the seed it had before names existed. */
  lemma UnnamedSeedIsOld(r: Request)
    requires TrimSpace(Lower(r.name)) == ""
    ensures Seed(IdentityOf(r))
      == Normalized(r.repo) + [NUL] + NormalizeTarget(r.target) + [NUL] + NormalizeArch(r.arch)
  {
    var id := IdentityOf(r);
    assert id.repo + "" == id.repo;
  }

  /** Two requests with NUL-free fields have the same hash seed exactly when their normalized repo,
      name, target and arch agree. */
  lemma SeedsAgreeExactlyWhen(r: Request, r': Request)
    requires NulFreeRequest(r) && NulFreeRequest(r')
    ensures Seed(IdentityOf(r)) == Seed(IdentityOf(r')) <==> IdentityOf(r) == IdentityOf(r')
  {
    NormalizationKeepsNulFree(r);
    NormalizationKeepsNulFree(r');
    if Seed(IdentityOf(r)) == Seed(IdentityOf(r')) {
      SeedIsInjective(IdentityOf(r), IdentityOf(r'));
    }
  }

  lemma SeedIsInjective(id: Identity, id': Identity)
    requires NulFreeIdentity(id) && NulFreeIdentity(id') && Seed(id) == Seed(id')
    ensures id == id'
  {
    SeedIs(id);
    SeedIs(id');
    SplitAtNul(id.repo, SeedTail(id), id'.repo, SeedTail(id'));
    var rest, rest' := id.target + [NUL] + id.arch, id'.target + [NUL] + id'.arch;
    if (id.name == "") == (id'.name == "") {
      if id.name != "" {
        SplitAtNul("n:" + id.name, rest, "n:" + id'.name, rest');
        assert ("n:" + id.name)[2..] == id.name && ("n:" + id'.name)[2..] == id'.name;
      }
      SplitAtNul(id.target, id.arch, id'.target, id'.arch);
    } else if id.name == "" {
      SegmentsDiffer(id, id');
    } else {
      SegmentsDiffer(id', id);
    }
  }

  /** A seed with a name segment has one NUL more than a seed without. */
  lemma SegmentsDiffer(plain: Identity, named: Identity)
    requires NulFreeIdentity(plain) && NulFreeIdentity(named) && plain.name == "" && named.name != ""
    ensures SeedTail(plain) != SeedTail(named)
  {
    var rest := named.target + [NUL] + named.arch;
    assert !NulFree(rest) by {
      assert rest[|named.target|] == NUL;
    }
    if SeedTail(plain) == SeedTail(named) {
      SplitAtNul(plain.target, plain.arch, "n:" + named.name, rest);
      assert false;
    }
  }

  // -------------------------------------------------------------------------- keys

  /** The truncated hex digest, as a parameter. */
  type Hash = string -> string

  predicate IsHex(c: char) { '0' <= c <= '9' || 'a' <= c <= 'f' }

  ghost predicate HexHash(h: Hash) {
    forall s: string :: |h(s)| == 16 && forall i | 0 <= i < 16 :: IsHex(h(s)[i])
  }

  function ProjectKey(h: Hash, r: Request): string {
    "p" + h(Seed(IdentityOf(r)))
  }

  predicate IsCanonical(key: string) {
    |key| == 17 && key[0] == 'p' && forall i | 1 <= i < 17 :: IsHex(key[i])
  }

  /** Builds share a key exactly when they are of one project, as far as the digest does not collide. */
  lemma KeysAgreeExactlyWhen(h: Hash, r: Request, r': Request)
    requires HexHash(h) && NulFreeRequest(r) && NulFreeRequest(r')
    requires h(Seed(IdentityOf(r))) == h(Seed(IdentityOf(r'))) ==> Seed(IdentityOf(r)) == Seed(IdentityOf(r'))
    ensures IsCanonical(ProjectKey(h, r))
    ensures ProjectKey(h, r) == ProjectKey(h, r') <==> IdentityOf(r) == IdentityOf(r')
  {
    SeedsAgreeExactlyWhen(r, r');
    var k, k' := ProjectKey(h, r), ProjectKey(h, r');
    assert k[1..] == h(Seed(IdentityOf(r))) && k'[1..] == h(Seed(IdentityOf(r')));
  }

  /** In the requests' own terms: the same repository, the same name, the same or the default target, and
      the same architecture under either of its names. */
  predicate SameProject(r: Request, r': Request) {
    && Normalized(r.repo) == Normalized(r'.repo)
    && TrimSpace(Lower(r.name)) == TrimSpace(Lower(r'.name))
    && SameTarget(TrimSpace(Lower(r.target)), TrimSpace(Lower(r'.target)))
    && SameArch(TrimSpace(Lower(r.arch)), TrimSpace(Lower(r'.arch)))
  }

  lemma SameIdentityExactlyWhen(r: Request, r': Request)
    ensures IdentityOf(r) == IdentityOf(r') <==> SameProject(r, r')
  {
    TargetsAgreeExactlyWhen(r.target, r'.target);
    ArchesAgreeExactlyWhen(r.arch, r'.arch);
  }

  /** Two requests share a key, and with it a daemon and a cache, exactly when they are for the same
      project. */
  lemma SameKeyExactlyWhen(h: Hash, r: Request, r': Request)
    requires HexHash(h) && NulFreeRequest(r) && NulFreeRequest(r')
    requires h(Seed(IdentityOf(r))) == h(Seed(IdentityOf(r'))) ==> Seed(IdentityOf(r)) == Seed(IdentityOf(r'))
    ensures ProjectKey(h, r) == ProjectKey(h, r') <==> SameProject(r, r')
  {
    KeysAgreeExactlyWhen(h, r, r');
    SameIdentityExactlyWhen(r, r');
  }

  function Digit(n: nat): char
    requires n < 10
  {
    ('0' as int + n) as char
  }

  /** strconv.Itoa on natural numbers. */
  function Itoa(n: nat): (s: string)
    ensures s != "" && forall i | 0 <= i < |s| :: '0' <= s[i] <= '9'
  {
    if n < 10 then [Digit(n)] else Itoa(n / 10) + [Digit(n % 10)]
  }

  function Atoi(s: string): int {
    if s == "" then 0 else Atoi(s[..|s| - 1]) * 10 + (s[|s| - 1] as int - '0' as int)
  }

  lemma {:induction false} ItoaRoundTrip(n: nat)
    ensures Atoi(Itoa(n)) == n
  {
    if n >= 10 {
      ItoaRoundTrip(n / 10);
      assert Itoa(n)[..|Itoa(n)| - 1] == Itoa(n / 10);
    } else {
      assert Itoa(n)[..0] == "";
    }
  }

  function ForkKey(key: string): string { "fork" + key }

  predicate IsForkKey(key: string) { "fork" <= key }

  function CloneKey(key: string, i: nat): string { "c" + Itoa(i) + key }

  datatype Role = Canonical | Fork | Clone(index: nat)

  function KeyOf(role: Role, key: string): string {
    match role
    case Canonical => key
    case Fork => ForkKey(key)
    case Clone(i) => CloneKey(key, i)
  }

  /** Canonical, fork and clone keys never collide, across roles, projects or clone numbers, and only
      fork keys read as forks. */
  lemma KeysNeverCollide(role: Role, key: string, role': Role, key': string)
    requires IsCanonical(key) && IsCanonical(key')
    ensures KeyOf(role, key) == KeyOf(role', key') <==> role == role' && key == key'
    ensures IsForkKey(KeyOf(role, key)) <==> role.Fork?
  {
    var s, s' := KeyOf(role, key), KeyOf(role', key');
    assert s[|s| - 17..] == key && s'[|s'| - 17..] == key';
    assert s[0] == (match role case Canonical => 'p' case Fork => 'f' case Clone(_) => 'c');
    assert s'[0] == (match role' case Canonical => 'p' case Fork => 'f' case Clone(_) => 'c');
    assert role.Fork? ==> s[..4] == "fork";
    if s == s' && role.Clone? && role'.Clone? {
      assert s[1..|s| - 17] == Itoa(role.index) && s'[1..|s'| - 17] == Itoa(role'.index);
      ItoaRoundTrip(role.index);
      ItoaRoundTrip(role'.index);
    }
  }

  /** A key holds nothing that could end a DNS label or a path. */
  lemma KeysAreLabels(role: Role, key: string)
    requires IsCanonical(key)
    ensures forall c | c in KeyOf(role, key) :: '0' <= c <= '9' || 'a' <= c <= 'z'
  {
  }

  function DaemonName(key: string): string { "buildkitd-" + key }

  function CachePVCName(key: string): string { "cache-" + DaemonName(key) + "-0" }

  function ServiceFQDN(key: string, namespace: string): string { DaemonName(key) + "." + namespace + ".svc" }

  lemma CachePVCNameIsInjective(key: string, key': string)
    ensures CachePVCName(key) == CachePVCName(key') <==> key == key'
  {
    var n, n' := CachePVCName(key), CachePVCName(key');
    assert n[16..|n| - 2] == key && n'[16..|n'| - 2] == key';
  }

  // -------------------------------------------------------------------- the sweeper

  datatype Volume = Volume(terminating: bool, created: int)

  const CACHE_PVC_PREFIX := "cache-" + DaemonName("")

  /** A cache volume with no project behind it, not going already, and past the grace. */
  predicate Orphan(name: string, v: Volume, live: set<string>, now: int, grace: int) {
    CACHE_PVC_PREFIX <= name && name !in live && !v.terminating && now - v.created >= grace
  }

  function LiveNames(keys: seq<string>): set<string> {
    set i | 0 <= i < |keys| :: CachePVCName(keys[i])
  }

  /** A volume as the cached listing shows it. */
  datatype Listed = Listed(name: string, volume: Volume)

  /** The sweep asks for this listed volume to be deleted, and the API server agrees. */
  predicate Swept(item: Listed, live: set<string>, refused: set<string>, now: int, grace: int) {
    Orphan(item.name, item.volume, live, now, grace) && item.name !in refused
  }

  predicate SweptIn(name: string, listing: seq<Listed>, live: set<string>, refused: set<string>, now: int, grace: int) {
    exists i | 0 <= i < |listing| :: listing[i].name == name && Swept(listing[i], live, refused, now, grace)
  }

  function GraceOf(configured: int): int {
    if configured > 0 then configured else 600 * SECOND
  }

  /** The volumes of the builds namespace, deleted one by one. */
  class Namespace {
    var volumes: map<string, Volume>

    /** keys are the listed projects, listing the cached view of the volumes (one that is gone already is
        not found, and passed over), refused the names the API server will not delete. */
    method Sweep(keys: seq<string>, listing: seq<Listed>, refused: set<string>, now: int, configuredGrace: int)
      modifies this
      ensures forall n :: n in volumes <==>
        n in old(volumes) && !SweptIn(n, listing, LiveNames(keys), refused, now, GraceOf(configuredGrace))
      ensures forall n | n in volumes :: volumes[n] == old(volumes)[n]
    {
      var live := LiveVolumes(keys);
      var grace := GraceOf(configuredGrace);
      ghost var before := volumes;
      for i := 0 to |listing|
        invariant forall n :: n in volumes <==> n in before && !SweptIn(n, listing[..i], live, refused, now, grace)
        invariant forall n | n in volumes :: volumes[n] == before[n]
      {
        var item := listing[i];
        forall n ensures SweptIn(n, listing[..i + 1], live, refused, now, grace)
          <==> SweptIn(n, listing[..i], live, refused, now, grace) || (n == item.name && Swept(item, live, refused, now, grace))
        {
          OneMoreSwept(n, listing, i, live, refused, now, grace);
        }
        if CACHE_PVC_PREFIX <= item.name && item.name !in live && !item.volume.terminating
          && !(now - item.volume.created < grace) && item.name !in refused
        {
          volumes := volumes - {item.name};
        }
      }
      assert listing[..|listing|] == listing;
    }

    /** The set of volumes that should exist. */
    method LiveVolumes(keys: seq<string>) returns (live: set<string>)
      ensures live == LiveNames(keys)
    {
      live := {};
      for i := 0 to |keys|
        invariant live == LiveNames(keys[..i])
      {
        assert LiveNames(keys[..i + 1]) == LiveNames(keys[..i]) + {CachePVCName(keys[i])} by {
          assert forall j | 0 <= j < i :: keys[..i + 1][j] == keys[..i][j];
          assert keys[..i + 1][i] == keys[i];
        }
        live := live + {CachePVCName(keys[i])};
      }
      assert keys[..|keys|] == keys;
    }
  }

  lemma OneMoreSwept(name: string, listing: seq<Listed>, i: nat, live: set<string>, refused: set<string>, now: int, grace: int)
    requires i < |listing|
    ensures SweptIn(name, listing[..i + 1], live, refused, now, grace) <==>
      || SweptIn(name, listing[..i], live, refused, now, grace)
      || (name == listing[i].name && Swept(listing[i], live, refused, now, grace))
  {
    var more, less := listing[..i + 1], listing[..i];
    assert forall j | 0 <= j < i :: more[j] == less[j];
    assert more[i] == listing[i];
  }

  /** A project's volume is an orphan exactly when the project is not listed, the volume is not going
      already, and its grace is over; so the volume of a listed project, whatever its role, never is, and
      no other project's listing protects one by accident. */
  lemma OrphanExactlyWhen(keys: seq<string>, key: string, v: Volume, now: int, grace: int)
    ensures Orphan(CachePVCName(key), v, LiveNames(keys), now, grace)
      <==> key !in keys && !v.terminating && now - v.created >= grace
  {
    var name := CachePVCName(key);
    assert name[..16] == CACHE_PVC_PREFIX;
    if key in keys {
      var i :| 0 <= i < |keys| && keys[i] == key;
      assert CachePVCName(keys[i]) in LiveNames(keys);
    } else {
      forall i | 0 <= i < |keys| ensures CachePVCName(keys[i]) != name {
        CachePVCNameIsInjective(keys[i], key);
      }
    }
  }

  /** Nothing but a daemon's cache volume is ever swept, and nothing within the grace: ten minutes unless
      configured. */
  lemma OnlyCacheVolumesAreSwept(
    name: string, listing: seq<Listed>, keys: seq<string>, refused: set<string>, now: int, configured: int)
    requires SweptIn(name, listing, LiveNames(keys), refused, now, GraceOf(configured))
    ensures "cache-buildkitd-" <= name && name !in refused
    ensures exists i | 0 <= i < |listing| ::
      && listing[i].name == name && !listing[i].volume.terminating
      && now - listing[i].volume.created >= (if configured > 0 then configured else 600 * SECOND)
  {
    var i :| 0 <= i < |listing| && listing[i].name == name
      && Swept(listing[i], LiveNames(keys), refused, now, GraceOf(configured));
    assert CACHE_PVC_PREFIX == "cache-buildkitd-";
  }
}
