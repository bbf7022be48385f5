/**
 The shared SNI gateway (cmd/gateway/main.go) from the first byte of a connection to the in-cluster
 service it is piped to, and its agreement with the endpoint /route advertises
 (internal/provisioner/k8s/k8s.go).
 */
module Gateway {
  import opened Base
  import opened Strings
  import opened ClientHello
  import opened Keys

  /** A Go string of bytes, read as characters. */
  function Text(b: Bytes): string {
    seq(|b|, i requires 0 <= i < |b| => b[i] as char)
  }

  // ----------------------------------------------------------------------- backendFor

  datatype Config = Config(domains: seq<string>, namespace: string, port: nat)

  datatype Backend = Service(address: string) | NotADaemon | OutsideDomains | Unreadable(error: Error)

  function AddressOf(name: string, g: Config): string {
    name + "." + g.namespace + ".svc:" + Itoa(g.port)
  }

  /** strings.ContainsAny(name, "./"), negated, and the daemon prefix. */
  predicate IsDaemonName(name: string) {
    "buildkitd-" <= name && '.' !in name && '/' !in name
  }

  /** The first configured domain that ends the SNI, from position i on. */
  function FirstDomain(sni: string, domains: seq<string>): (k: nat)
    ensures k <= |domains|
    ensures k < |domains| ==> HasSuffix(sni, "." + domains[k])
    ensures forall i | 0 <= i < k :: !HasSuffix(sni, "." + domains[i])
  {
    if domains == [] || HasSuffix(sni, "." + domains[0]) then 0 else 1 + FirstDomain(sni, domains[1..])
  }

  function BackendOf(g: Config, sni: string): Backend {
    var k := FirstDomain(sni, g.domains);
    if k == |g.domains| then OutsideDomains
    else
      var name := TrimSuffix(sni, "." + g.domains[k]);
      if IsDaemonName(name) then Service(AddressOf(name, g)) else NotADaemon
  }

  method BackendFor(g: Config, sni: string) returns (b: Backend)
    ensures b == BackendOf(g, sni)
  {
    var i := 0;
    while i < |g.domains|
      invariant 0 <= i <= |g.domains|
      invariant forall k | 0 <= k < i :: !HasSuffix(sni, "." + g.domains[k])
    {
      var suffix := "." + g.domains[i];
      if HasSuffix(sni, suffix) {
        assert FirstDomain(sni, g.domains) == i;
        var name := TrimSuffix(sni, suffix);
        if !("buildkitd-" <= name) || '.' in name || '/' in name {
          return NotADaemon;
        }
        return Service(AddressOf(name, g));
      }
      i := i + 1;
    }
    assert FirstDomain(sni, g.domains) == |g.domains|;
    return OutsideDomains;
  }

  /** Whatever the SNI, an accepted connection goes to a daemon service of the gateway's own namespace. */
  lemma BackendStaysInNamespace(g: Config, sni: string) returns (name: string, d: string)
    requires BackendOf(g, sni).Service?
    ensures "buildkitd-" <= name && '.' !in name && '/' !in name
    ensures d in g.domains && sni == name + "." + d
    ensures BackendOf(g, sni).address == name + "." + g.namespace + ".svc:" + Itoa(g.port)
  {
    var k := FirstDomain(sni, g.domains);
    d := g.domains[k];
    name := TrimSuffix(sni, "." + d);
    SuffixGoesBack(sni, d);
  }

  lemma SuffixGoesBack(sni: string, d: string)
    requires HasSuffix(sni, "." + d)
    ensures sni == TrimSuffix(sni, "." + d) + "." + d
  {
    var suffix := "." + d;
    assert sni == sni[..|sni| - |suffix|] + suffix;
  }

  // ----------------------------------------------------------------- the advertised host

  function AdvertisedHost(key: string, gatewayHost: string): string {
    DaemonName(key) + "." + gatewayHost
  }

  /** Provisioner.Endpoint. */
  function Endpoint(key: string, namespace: string, port: nat, gatewayHost: string, gatewayPort: int): string {
    if gatewayHost != "" then
      "tcp://" + AdvertisedHost(key, gatewayHost) + ":" + Itoa(if gatewayPort > 0 then gatewayPort else port)
    else "tcp://" + ServiceFQDN(key, namespace) + ":" + Itoa(port)
  }

  /** The host a client dials: between the scheme and the port's colon. */
  function DialedHost(endpoint: string): string {
    var rest := TrimPrefix(endpoint, "tcp://");
    if ':' in rest then rest[..IndexOf(rest, ':')] else rest
  }

  lemma DialedHostIs(host: string, port: string)
    requires ':' !in host
    ensures DialedHost("tcp://" + host + ":" + port) == host
  {
    var rest := host + ":" + port;
    var e := "tcp://" + host + ":" + port;
    assert e == "tcp://" + rest;
    assert e[..6] == "tcp://" && e[6..] == rest;
    assert rest[..|host|] == host && rest[|host|] == ':';
    IndexOfIs(rest, ':', |host|);
  }

  lemma EndpointDialsAdvertisedHost(key: string, namespace: string, port: nat, gatewayHost: string, gatewayPort: int)
    requires IsLabel(key) && gatewayHost != "" && ':' !in gatewayHost
    ensures DialedHost(Endpoint(key, namespace, port, gatewayHost, gatewayPort)) == AdvertisedHost(key, gatewayHost)
  {
    DialedHostIs(AdvertisedHost(key, gatewayHost), Itoa(if gatewayPort > 0 then gatewayPort else port));
  }

  /** The port a client dials. */
  function DialedPort(endpoint: string): int {
    var rest := TrimPrefix(endpoint, "tcp://");
    Atoi(rest[IndexOf(rest, ':') + 1..])
  }

  lemma DialedPortIs(host: string, port: nat)
    requires ':' !in host
    ensures DialedPort("tcp://" + host + ":" + Itoa(port)) == port
  {
    var p := Itoa(port);
    var rest := host + ":" + p;
    var e := "tcp://" + host + ":" + p;
    assert e == "tcp://" + rest;
    assert e[..6] == "tcp://" && e[6..] == rest;
    assert rest[..|host|] == host && rest[|host|] == ':';
    IndexOfIs(rest, ':', |host|);
    assert rest[|host| + 1..] == p;
    ItoaRoundTrip(port);
  }

  /** The port advertised: the gateway's when one is configured, the daemon's otherwise. */
  lemma EndpointDialsPort(key: string, namespace: string, port: nat, gatewayHost: string, gatewayPort: int)
    requires IsLabel(key) && ':' !in gatewayHost && ':' !in namespace
    ensures DialedPort(Endpoint(key, namespace, port, gatewayHost, gatewayPort))
      == if gatewayHost != "" && gatewayPort > 0 then gatewayPort else port
  {
    if gatewayHost != "" {
      DialedPortIs(AdvertisedHost(key, gatewayHost), if gatewayPort > 0 then gatewayPort else port);
    } else {
      ServiceIsColonFree(key, namespace);
      DialedPortIs(ServiceFQDN(key, namespace), port);
    }
  }

  /** Without a gateway the daemon's own service is dialed. */
  lemma EndpointDialsService(key: string, namespace: string, port: nat, gatewayPort: int)
    requires IsLabel(key) && ':' !in namespace
    ensures DialedHost(Endpoint(key, namespace, port, "", gatewayPort)) == "buildkitd-" + key + "." + namespace + ".svc"
  {
    var host := ServiceFQDN(key, namespace);
    ServiceIsColonFree(key, namespace);
    DialedHostIs(host, Itoa(port));
  }

  lemma ServiceIsColonFree(key: string, namespace: string)
    requires IsLabel(key) && ':' !in namespace
    ensures ':' !in ServiceFQDN(key, namespace)
  {
  }

  predicate IsLabel(key: string) {
    forall c | c in key :: '0' <= c <= '9' || 'a' <= c <= 'z'
  }

  /** d ends host after a dot. */
  predicate ProperDotSuffix(d: string, host: string) {
    HasSuffix(host, "." + d)
  }

  /** On an advertised host a configured domain matches exactly when it is the gateway's own, or a
      proper dot-suffix of it. */
  lemma DomainMatches(key: string, gatewayHost: string, d: string)
    requires IsLabel(key)
    ensures HasSuffix(AdvertisedHost(key, gatewayHost), "." + d) <==> d == gatewayHost || ProperDotSuffix(d, gatewayHost)
  {
    var name := DaemonName(key);
    var host := name + "." + gatewayHost;
    assert forall i | 0 <= i < |key| :: key[i] in key;
    assert forall i | 0 <= i < |name| :: i >= 10 ==> name[i] == key[i - 10];
    if |d| <= |gatewayHost| {
      assert host[|host| - |gatewayHost|..] == gatewayHost;
      if |d| < |gatewayHost| {
        assert host[|host| - |d| - 1..] == gatewayHost[|gatewayHost| - |d| - 1..];
      } else {
        assert host[|host| - |d| - 1..] == "." + gatewayHost;
        assert ("." + d)[1..] == d && ("." + gatewayHost)[1..] == gatewayHost;
      }
    } else if |d| + 1 <= |host| {
      assert host[|host| - |d| - 1..][0] == name[|host| - |d| - 1];
    }
  }

  /** The gateway sends an advertised host to exactly that key's service if and only if no domain
      configured before the gateway's own is a proper dot-suffix of it. */
  lemma AdvertisedHostIsRoutedExactlyWhen(g: Config, key: string, j: nat)
    requires IsLabel(key) && j < |g.domains| && forall i | 0 <= i < j :: g.domains[i] != g.domains[j]
    ensures BackendOf(g, AdvertisedHost(key, g.domains[j])) == Service(ServiceFQDN(key, g.namespace) + ":" + Itoa(g.port))
      <==> forall i | 0 <= i < j :: !ProperDotSuffix(g.domains[i], g.domains[j])
  {
    var own := g.domains[j];
    var host, name := AdvertisedHost(key, own), DaemonName(key);
    var k := FirstDomain(host, g.domains);
    forall i | 0 <= i < |g.domains|
      ensures HasSuffix(host, "." + g.domains[i]) <==> g.domains[i] == own || ProperDotSuffix(g.domains[i], own)
    {
      DomainMatches(key, own, g.domains[i]);
    }
    assert k <= j;
    if k == j {
      assert host == name + ("." + own);
      assert TrimSuffix(host, "." + own) == name;
      DaemonNameIsDaemonName(key);
      assert AddressOf(name, g) == ServiceFQDN(key, g.namespace) + ":" + Itoa(g.port);
    } else {
      ShorterDomainIsRejected(key, own, g.domains[k]);
    }
  }

  lemma DaemonNameIsDaemonName(key: string)
    requires IsLabel(key)
    ensures IsDaemonName(DaemonName(key))
  {
  }

  /** Matched by a shorter domain, the name left over still holds a dot. */
  lemma ShorterDomainIsRejected(key: string, own: string, d: string)
    requires ProperDotSuffix(d, own)
    ensures !IsDaemonName(TrimSuffix(AdvertisedHost(key, own), "." + d))
  {
    var host, name := AdvertisedHost(key, own), DaemonName(key);
    assert host[|host| - |d| - 1..] == own[|own| - |d| - 1..];
    var left := host[..|host| - |d| - 1];
    assert left[|name|] == '.';
  }

  // ------------------------------------------------------------------------ a connection

  /** handle up to the pipe: peek, resolve, and what is replayed to the backend. */
  method Handle(g: Config, client: Reader) returns (backend: Backend, replayed: Bytes)
    modifies client
    ensures backend == match PeekSni(old(client.pending))
      case Err(e) => Unreadable(e)
      case Ok(sni) => BackendOf(g, Text(sni))
    ensures backend.Service? ==> replayed + client.pending == old(client.pending)
  {
    var sni, raw := PeekClientHelloSni(client);
    if sni.Err? {
      return Unreadable(sni.error), [];
    }
    backend := BackendFor(g, Text(sni.value));
    replayed := if backend.Service? then raw else [];
  }

  /** A well-formed ClientHello in one record yields its SNI, whatever follows on the stream. */
  lemma RecordRoundTrip(h: Hello, rest: Bytes)
    requires WellFormed(h) && |EncodeHello(h)| <= 18432
    ensures PeekSni(EncodeRecord(h) + rest) == match Sni(h.extensions) case Some(host) => Ok(host) case None => Err(NoSni)
  {
    var hello := EncodeHello(h);
    var len := Encode16(|hello|);
    RecordParts(len, hello, rest);
    HelloRoundTrip(h, []);
    assert hello + [] == hello;
    assert |hello| > 0;
  }

  lemma RecordParts(len: Bytes, hello: Bytes, rest: Bytes)
    requires |len| == 2
    ensures var s: Bytes := [0x16, 3, 1] + len + hello + rest;
      s[0] == 0x16 && Uint16(s[3..]) == Uint16(len) && s[5..5 + |hello|] == hello
  {
  }

  /** The bytes of a host name. */
  predicate Spells(b: Bytes, host: string) {
    |b| == |host| && forall i | 0 <= i < |b| :: b[i] == host[i] as int
  }

  /** End to end: dialing the endpoint /route advertises for any key, with any well-formed
      single-record ClientHello for that host, makes the gateway choose exactly that key's service. */
  lemma EndToEnd(
    g: Config, role: Role, canonical: string, j: nat, port: nat, gatewayPort: int, h: Hello, rest: Bytes)
    requires IsCanonical(canonical) && j < |g.domains| && g.domains[j] != "" && ':' !in g.domains[j]
    requires forall i | 0 <= i < j :: g.domains[i] != g.domains[j] && !ProperDotSuffix(g.domains[i], g.domains[j])
    requires WellFormed(h) && |EncodeHello(h)| <= 18432 && Sni(h.extensions).Some?
    requires Spells(
      Sni(h.extensions).value, DialedHost(Endpoint(KeyOf(role, canonical), g.namespace, port, g.domains[j], gatewayPort)))
    ensures var sni := PeekSni(EncodeRecord(h) + rest);
      && sni.Ok?
      && BackendOf(g, Text(sni.value)) == Service(ServiceFQDN(KeyOf(role, canonical), g.namespace) + ":" + Itoa(g.port))
  {
    KeysAreLabels(role, canonical);
    assert Text(Sni(h.extensions).value)
      == DialedHost(Endpoint(KeyOf(role, canonical), g.namespace, port, g.domains[j], gatewayPort));
    EndpointDialsAdvertisedHost(KeyOf(role, canonical), g.namespace, port, g.domains[j], gatewayPort);
    RecordRoundTrip(h, rest);
    AdvertisedHostIsRoutedExactlyWhen(g, KeyOf(role, canonical), j);
  }
}
