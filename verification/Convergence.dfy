/**
 Convergence of the repository normal form: all spellings of one repository collapse to one identity,
 so that all of its builds share one daemon (internal/router/router.go).
 */
module Convergence {
  import opened Strings
  import opened Router

  /** A lower-case character with no meaning to the normalization. */
  predicate Plain(c: char) {
    !('A' <= c <= 'Z') && c != ':' && c != '@' && c != '/' && !IsSpace(c)
  }

  predicate WellFormedHost(host: string) {
    host != "" && forall c | c in host :: Plain(c)
  }

  /** Non-empty segments joined by single slashes, without a .git of its own. */
  predicate WellFormedPath(path: string) {
    && path != "" && path[0] != '/' && path[|path| - 1] != '/'
    && (forall c | c in path :: Plain(c) || c == '/')
    && !HasDoubleSlash(path) && !HasSuffix(path, ".git")
  }

  function FirstSegment(path: string): string {
    if '/' in path then path[..IndexOf(path, '/')] else path
  }

  /** What stands between host and path: a slash, an explicit port, or scp's colon. */
  datatype Separator = Slash | Port(digits: string) | Scp

  /** A way to write a repository; scheme is "" or a listed one, user is none or one user@. */
  datatype Spelling = Spelling(scheme: string, user: seq<string>, separator: Separator, dotGit: bool, slash: bool)

  predicate IsScheme(s: string) {
    s == "https://" || s == "http://" || s == "git://" || s == "ssh://"
  }

  lemma SchemesAreListed(s: string)
    requires IsScheme(s)
    ensures s in SCHEMES
  {
    assert SCHEMES[0] in SCHEMES && SCHEMES[1] in SCHEMES && SCHEMES[2] in SCHEMES && SCHEMES[3] in SCHEMES;
  }

  predicate WellFormedSpelling(sp: Spelling, path: string) {
    && (sp.scheme == "" || IsScheme(sp.scheme))
    && |sp.user| <= 1
    && (sp.user != [] ==> forall c | c in sp.user[0] :: Plain(c) || c == ':')
    && (sp.separator.Port? ==> AllDigits(sp.separator.digits))
    && (sp.separator.Scp? ==> !AllDigits(FirstSegment(path)))
  }

  function Tail(sp: Spelling): string {
    (if sp.dotGit then ".git" else "") + (if sp.slash then "/" else "")
  }

  function Joined(sp: Spelling, host: string, path: string): string {
    match sp.separator
    case Slash => host + "/" + path
    case Port(digits) => host + ":" + digits + "/" + path
    case Scp => host + ":" + path
  }

  function UserPart(sp: Spelling): string {
    if sp.user == [] then "" else sp.user[0] + "@"
  }

  /** The spelling after its scheme. */
  function Located(sp: Spelling, host: string, path: string): string {
    UserPart(sp) + (Joined(sp, host, path) + Tail(sp))
  }

  function Render(sp: Spelling, host: string, path: string): string {
    sp.scheme + Located(sp, host, path)
  }

  // ------------------------------------------------------------------------ each step

  /** A colon followed by a slash: what every scheme contains, and nothing after it does. */
  predicate ColonSlashAt(s: string, i: int) {
    0 <= i < |s| - 1 && s[i] == ':' && s[i + 1] == '/'
  }

  predicate HasColonSlash(s: string) {
    exists i | 0 <= i < |s| :: ColonSlashAt(s, i)
  }

  lemma NotASchemePrefix(scheme: string, s: string)
    requires HasColonSlash(scheme) && !HasColonSlash(s)
    ensures !(scheme <= s)
  {
    var i :| 0 <= i < |scheme| && ColonSlashAt(scheme, i);
    assert i < |s| ==> !ColonSlashAt(s, i);
  }

  lemma SchemesHaveColonSlash()
    ensures forall i | 0 <= i < |SCHEMES| :: HasColonSlash(SCHEMES[i])
  {
    assert ColonSlashAt(SCHEMES[0], 5) && ColonSlashAt(SCHEMES[1], 4);
    assert ColonSlashAt(SCHEMES[2], 3) && ColonSlashAt(SCHEMES[3], 3);
  }

  lemma {:induction false} NoSchemeLeft(s: string, schemes: seq<string>)
    requires !HasColonSlash(s) && forall i | 0 <= i < |schemes| :: HasColonSlash(schemes[i])
    ensures StripSchemes(s, schemes) == s
    decreases |schemes|
  {
    if schemes != [] {
      NotASchemePrefix(schemes[0], s);
      NoSchemeLeft(s, schemes[1..]);
    }
  }

  /** Stripping the schemes in turn removes exactly the one that is there. */
  lemma {:induction false} SchemeGoes(scheme: string, s: string, schemes: seq<string>)
    requires !HasColonSlash(s) && scheme in schemes
    requires forall i | 0 <= i < |schemes| :: HasColonSlash(schemes[i])
    requires forall i, j | 0 <= i < j < |schemes| :: !(schemes[i] <= schemes[j] + s) && schemes[i] != schemes[j]
    ensures StripSchemes(scheme + s, schemes) == s
    decreases |schemes|
  {
    if scheme == schemes[0] {
      assert (scheme + s)[|scheme|..] == s;
      NoSchemeLeft(s, schemes[1..]);
    } else {
      var j :| 0 <= j < |schemes| && schemes[j] == scheme;
      assert !(schemes[0] <= schemes[j] + s);
      assert scheme == schemes[1..][j - 1];
      SchemeGoes(scheme, s, schemes[1..]);
    }
  }

  lemma SchemesDiffer(s: string)
    ensures forall i, j | 0 <= i < j < |SCHEMES| :: !(SCHEMES[i] <= SCHEMES[j] + s) && SCHEMES[i] != SCHEMES[j]
  {
    assert SCHEMES[0][4] == 's' && SCHEMES[1][4] == ':';
    assert SCHEMES[0][0] == 'h' && SCHEMES[1][0] == 'h' && SCHEMES[2][0] == 'g' && SCHEMES[3][0] == 's';
  }

  lemma SchemesGo(sp: Spelling, s: string)
    requires !HasColonSlash(s) && (sp.scheme == "" || sp.scheme in SCHEMES)
    ensures StripSchemes(sp.scheme + s, SCHEMES) == s
  {
    SchemesHaveColonSlash();
    if sp.scheme == "" {
      assert sp.scheme + s == s;
      NoSchemeLeft(s, SCHEMES);
    } else {
      SchemesDiffer(s);
      SchemeGoes(sp.scheme, s, SCHEMES);
    }
  }

  lemma UserGoes(sp: Spelling, rest: string)
    requires |sp.user| <= 1 && (sp.user != [] ==> forall c | c in sp.user[0] :: c != '@' && c != '/')
    requires '@' !in rest
    ensures StripUser(UserPart(sp) + rest) == rest
  {
    if sp.user == [] {
      assert UserPart(sp) + rest == rest;
    } else {
      var u, s := sp.user[0], UserPart(sp) + rest;
      assert s[..|u|] == u && s[|u|] == '@' && s[|u| + 1..] == rest;
      IndexOfIs(s, '@', |u|);
      var slash := IndexOf(s, '/');
      assert forall i | 0 <= i < |u| :: s[i] == u[i] && u[i] in u;
      assert forall i | 0 <= i <= |u| :: s[i] != '/';
    }
  }

  /** Everything that happens to the text after the host's colon depends on its first segment. */
  lemma StripPortOf(host: string, after: string)
    requires ':' !in host
    ensures StripPort(host + ":" + after)
      == if AllDigits(FirstSegment(after)) then host + after[|FirstSegment(after)|..] else host + ":" + after
  {
    var s := host + ":" + after;
    assert s[..|host|] == host && s[|host|] == ':' && s[|host| + 1..] == after;
    IndexOfIs(s, ':', |host|);
    assert PortOf(s) == FirstSegment(after);
  }

  lemma FirstSegmentOfDigits(digits: string, rest: string)
    requires AllDigits(digits)
    ensures FirstSegment(digits + "/" + rest) == digits
  {
    var s := digits + "/" + rest;
    assert s[..|digits|] == digits && s[|digits|] == '/';
    IndexOfIs(s, '/', |digits|);
  }

  lemma FirstSegmentGrows(path: string, tail: string)
    requires path != "" && path[0] != '/' && !AllDigits(FirstSegment(path))
    ensures !AllDigits(FirstSegment(path + tail))
  {
    var s, first := path + tail, FirstSegment(path);
    if '/' in path {
      var k := IndexOf(path, '/');
      assert s[..k] == path[..k] && s[k] == '/';
      IndexOfIs(s, '/', k);
    } else {
      assert forall i | 0 <= i < |path| :: s[i] == path[i] && path[i] in path;
      var grown := FirstSegment(s);
      assert forall i | 0 <= i < |path| :: grown[i] == path[i];
    }
  }

  predicate NoColon(s: string) {
    forall i | 0 <= i < |s| :: s[i] != ':'
  }

  lemma ColonsGone(a: string, b: string)
    requires NoColon(a) && NoColon(b)
    ensures ColonsToSlashes(a + "/" + b) == a + "/" + b == ColonsToSlashes(a + ":" + b)
  {
  }

  lemma PartsHaveNoColon(sp: Spelling, host: string, path: string)
    requires WellFormedHost(host) && WellFormedPath(path)
    ensures NoColon(host) && NoColon(path) && NoColon(Tail(sp)) && NoColon(path + Tail(sp))
  {
    assert forall i | 0 <= i < |host| :: host[i] in host;
    assert forall i | 0 <= i < |path| :: path[i] in path;
  }

  lemma DigitsGo(digits: string, rest: string)
    requires AllDigits(digits)
    ensures var after := digits + "/" + rest;
      FirstSegment(after) == digits && after[|digits|..] == "/" + rest
  {
    FirstSegmentOfDigits(digits, rest);
  }

  lemma Regroup(a: string, b: string, c: string, d: string, e: string)
    ensures a + b + c + d + e == a + b + (c + d + e)
    ensures a + (d + e) == a + d + e
  {
  }

  /** The separator becomes one slash. */
  lemma SeparatorGoes(sp: Spelling, host: string, path: string)
    requires WellFormedHost(host) && WellFormedPath(path) && WellFormedSpelling(sp, path)
    ensures ColonsToSlashes(StripPort(Joined(sp, host, path) + Tail(sp))) == host + "/" + path + Tail(sp)
  {
    var tail := Tail(sp);
    var rest := path + tail;
    PartsHaveNoColon(sp, host, path);
    ColonsGone(host, rest);
    assert host + "/" + path + tail == host + "/" + rest;
    match sp.separator
    case Slash =>
      assert NoColon(host + "/" + rest);
    case Port(digits) =>
      assert host + ":" + digits + "/" + path + tail == host + ":" + digits + "/" + rest;
      Regroup(host, ":", digits, "/", rest);
      StripPortOf(host, digits + "/" + rest);
      DigitsGo(digits, rest);
    case Scp =>
      assert host + ":" + path + tail == host + ":" + rest;
      StripPortOf(host, rest);
      FirstSegmentGrows(path, tail);
  }

  lemma SuffixComesOff(s: string, suffix: string)
    ensures TrimSuffix(s + suffix, suffix) == s
  {
    assert (s + suffix)[|s|..] == suffix && (s + suffix)[..|s|] == s;
  }

  lemma EndsInSlash(s: string)
    requires s != ""
    ensures HasSuffix(s, "/") <==> s[|s| - 1] == '/'
  {
    assert s[|s| - 1..] == [s[|s| - 1]];
  }

  /** An optional .git and an optional slash come off the end. */
  lemma TailGoes(sp: Spelling, host: string, path: string)
    requires WellFormedPath(path)
    ensures TrimTail(host + "/" + path + Tail(sp)) == host + "/" + path
  {
    var s := host + "/" + path;
    EndsInSlash(s);
    EndsInSlash(s + ".git");
    NoGitAcrossSlash(host, path);
    SuffixComesOff(s, ".git");
    SuffixComesOff(s, "/");
    SuffixComesOff(s + ".git", "/");
    var t := Tail(sp);
    if sp.dotGit && sp.slash {
      assert s + t == s + ".git" + "/";
    } else if sp.dotGit {
      assert t == ".git";
    } else if sp.slash {
      assert t == "/";
    } else {
      assert s + t == s;
    }
  }

  lemma NoGitAcrossSlash(host: string, path: string)
    requires !HasSuffix(path, ".git")
    ensures !HasSuffix(host + "/" + path, ".git")
  {
    var s := host + "/" + path;
    if |path| >= 4 {
      assert s[|s| - 4..] == path[|path| - 4..];
    } else if |s| >= 4 {
      assert s[|s| - 4..][4 - |path| - 1] == '/';
    }
  }

  lemma CanonicalHasNoDoubleSlash(host: string, path: string)
    requires WellFormedHost(host) && WellFormedPath(path)
    ensures !HasDoubleSlash(host + "/" + path)
  {
    var s := host + "/" + path;
    assert forall i | 0 <= i < |host| :: host[i] in host;
    forall i ensures !DoubleAt(s, i) {
      if 0 <= i < |s| - 1 && i > |host| {
        assert s[i] == path[i - |host| - 1] && s[i + 1] == path[i - |host| - 1 + 1];
        assert !DoubleAt(path, i - |host| - 1);
      }
    }
  }

  lemma ColonSlashOfConcat(a: string, b: string)
    requires !HasColonSlash(a) && !HasColonSlash(b)
    requires a == "" || b == "" || a[|a| - 1] != ':' || b[0] != '/'
    ensures !HasColonSlash(a + b)
  {
    assert forall i :: ColonSlashAt(a + b, i) ==> ColonSlashAt(a, i) || ColonSlashAt(b, i - |a|);
  }

  lemma NoColonNoColonSlash(s: string)
    requires NoColon(s) || '/' !in s
    ensures !HasColonSlash(s)
  {
  }

  lemma LocatedHasNoColonSlash(sp: Spelling, host: string, path: string)
    requires WellFormedHost(host) && WellFormedPath(path) && WellFormedSpelling(sp, path)
    ensures !HasColonSlash(Located(sp, host, path))
  {
    var u, j, t := UserPart(sp), Joined(sp, host, path), Tail(sp);
    PartsHaveNoColon(sp, host, path);
    NoColonNoColonSlash(u);
    NoColonNoColonSlash(t);
    match sp.separator {
      case Slash =>
        NoColonNoColonSlash(j);
      case Port(digits) =>
        NoColonNoColonSlash(host + ":" + digits);
        NoColonNoColonSlash("/" + path);
        ColonSlashOfConcat(host + ":" + digits, "/" + path);
        assert j == host + ":" + digits + ("/" + path);
      case Scp =>
        NoColonNoColonSlash(host + ":");
        NoColonNoColonSlash(path);
        ColonSlashOfConcat(host + ":", path);
    }
    assert j[|j| - 1] == path[|path| - 1] && path[|path| - 1] in path;
    ColonSlashOfConcat(j, t);
    assert u != "" ==> u[|u| - 1] == '@';
    ColonSlashOfConcat(u, j + t);
  }

  // ---------------------------------------------------------------------- convergence

  /** The pipeline, given what each stage makes of the one before. */
  lemma Pipeline(raw: string, trimmed: string, located: string, bare: string, slashed: string, canonical: string)
    requires TrimSpace(Lower(raw)) == trimmed
    requires StripSchemes(trimmed, SCHEMES) == located
    requires StripUser(located) == bare
    requires ColonsToSlashes(StripPort(bare)) == slashed
    requires TrimTail(slashed) == canonical
    requires SingleSlashes(canonical) == canonical
    ensures Normalized(raw) == canonical
  {
  }

  /** Every spelling of a repository, in any letter case and with any surrounding space, normalizes to
      the same host/path. */
  lemma SpellingsConverge(raw: string, pre: string, post: string, sp: Spelling, host: string, path: string)
    requires WellFormedHost(host) && WellFormedPath(path) && WellFormedSpelling(sp, path)
    requires forall c | c in pre + post :: IsSpace(c)
    requires Recased(raw, pre + Render(sp, host, path) + post)
    ensures Normalized(raw) == host + "/" + path
  {
    assert Lower(raw) == pre + Render(sp, host, path) + post by {
      SpellingIsLower(pre, post, sp, host, path);
      LowerOfRecased(raw, pre + Render(sp, host, path) + post);
    }
    if sp.scheme != "" {
      SchemesAreListed(sp.scheme);
    }
    var located, bare, canonical := Located(sp, host, path), Joined(sp, host, path) + Tail(sp), host + "/" + path;
    assert TrimSpace(Lower(raw)) == Render(sp, host, path) by {
      RenderIsTrimmed(sp, host, path);
      TrimSpaceOf(pre, Render(sp, host, path), post);
    }
    assert StripSchemes(Render(sp, host, path), SCHEMES) == located by {
      LocatedHasNoColonSlash(sp, host, path);
      SchemesGo(sp, located);
    }
    assert StripUser(located) == bare by {
      NoAtAfterUser(sp, host, path);
      UserGoes(sp, bare);
    }
    SeparatorGoes(sp, host, path);
    TailGoes(sp, host, path);
    assert SingleSlashes(canonical) == canonical by {
      CanonicalHasNoDoubleSlash(host, path);
      SingleIsSingle(canonical);
    }
    Pipeline(raw, Render(sp, host, path), located, bare, canonical + Tail(sp), canonical);
  }

  predicate NoUpper(s: string) {
    forall i | 0 <= i < |s| :: !('A' <= s[i] <= 'Z')
  }

  lemma NoUpperJoins(a: string, b: string)
    requires NoUpper(a) && NoUpper(b)
    ensures NoUpper(a + b)
  {
  }

  lemma JoinedIsLower(sp: Spelling, host: string, path: string)
    requires WellFormedHost(host) && WellFormedPath(path) && WellFormedSpelling(sp, path)
    ensures NoUpper(Joined(sp, host, path))
  {
    assert forall i | 0 <= i < |host| :: host[i] in host;
    assert forall i | 0 <= i < |path| :: path[i] in path;
  }

  lemma FrontIsLower(sp: Spelling, path: string)
    requires WellFormedSpelling(sp, path)
    ensures NoUpper(sp.scheme) && NoUpper(UserPart(sp)) && NoUpper(Tail(sp))
  {
    if sp.user != [] {
      assert forall i | 0 <= i < |sp.user[0]| :: sp.user[0][i] in sp.user[0];
    }
  }

  /** No spelling has an upper-case letter before its case is varied. */
  lemma SpellingIsLower(pre: string, post: string, sp: Spelling, host: string, path: string)
    requires WellFormedHost(host) && WellFormedPath(path) && WellFormedSpelling(sp, path)
    requires forall c | c in pre + post :: IsSpace(c)
    ensures NoUpper(pre + Render(sp, host, path) + post)
  {
    var j, t := Joined(sp, host, path), Tail(sp);
    JoinedIsLower(sp, host, path);
    FrontIsLower(sp, path);
    NoUpperJoins(j, t);
    NoUpperJoins(UserPart(sp), j + t);
    NoUpperJoins(sp.scheme, UserPart(sp) + (j + t));
    SpaceIsLower(pre, post);
    NoUpperJoins(pre, Render(sp, host, path));
    NoUpperJoins(pre + Render(sp, host, path), post);
  }

  lemma SpaceIsLower(pre: string, post: string)
    requires forall c | c in pre + post :: IsSpace(c)
    ensures NoUpper(pre) && NoUpper(post)
  {
    assert forall i | 0 <= i < |pre| :: pre[i] in pre + post;
    assert forall i | 0 <= i < |post| :: post[i] in pre + post;
  }

  lemma NoAtAfterUser(sp: Spelling, host: string, path: string)
    requires WellFormedHost(host) && WellFormedPath(path) && WellFormedSpelling(sp, path)
    ensures '@' !in Joined(sp, host, path) + Tail(sp)
  {
  }

  lemma FrontIsNotSpace(sp: Spelling)
    requires (sp.scheme == "" || IsScheme(sp.scheme)) && |sp.user| <= 1
    requires sp.user != [] ==> forall c | c in sp.user[0] :: Plain(c) || c == ':'
    ensures var front := sp.scheme + UserPart(sp); front != "" ==> !IsSpace(front[0])
  {
    if sp.scheme == "" && sp.user != [] && sp.user[0] != "" {
      assert sp.user[0][0] in sp.user[0] && (sp.scheme + UserPart(sp))[0] == sp.user[0][0];
    }
  }

  lemma RenderIsTrimmed(sp: Spelling, host: string, path: string)
    requires WellFormedHost(host) && WellFormedPath(path) && WellFormedSpelling(sp, path)
    ensures var s := Render(sp, host, path); s != "" && !IsSpace(s[0]) && !IsSpace(s[|s| - 1])
  {
    var front, j, t := sp.scheme + UserPart(sp), Joined(sp, host, path), Tail(sp);
    FrontIsNotSpace(sp);
    JoinedIsTrimmed(sp, host, path);
    TailIsNotSpace(sp);
    EndsAreNotSpace(front, j, t);
    Ungroup(sp.scheme, UserPart(sp), j, t);
  }

  lemma Ungroup(a: string, b: string, c: string, d: string)
    ensures a + (b + (c + d)) == a + b + c + d
  {
  }

  lemma TailIsNotSpace(sp: Spelling)
    ensures var t := Tail(sp); t != "" ==> !IsSpace(t[|t| - 1])
  {
  }

  lemma JoinedIsTrimmed(sp: Spelling, host: string, path: string)
    requires WellFormedHost(host) && WellFormedPath(path)
    ensures var j := Joined(sp, host, path); j != "" && !IsSpace(j[0]) && !IsSpace(j[|j| - 1])
  {
    var j := Joined(sp, host, path);
    assert host[0] in host && path[|path| - 1] in path;
    assert j[0] == host[0] && j[|j| - 1] == path[|path| - 1];
  }

  lemma EndsAreNotSpace(front: string, j: string, t: string)
    requires j != "" && !IsSpace(j[0]) && !IsSpace(j[|j| - 1])
    requires (front != "" ==> !IsSpace(front[0])) && (t != "" ==> !IsSpace(t[|t| - 1]))
    ensures var s := front + j + t; s != "" && !IsSpace(s[0]) && !IsSpace(s[|s| - 1])
  {
    var s := front + j + t;
    assert s[0] == if front != "" then front[0] else j[0];
    assert s[|s| - 1] == if t != "" then t[|t| - 1] else j[|j| - 1];
  }

  /** And host/path is itself a fixed point. */
  lemma CanonicalIsFixed(host: string, path: string)
    requires WellFormedHost(host) && WellFormedPath(path)
    ensures Normalized(host + "/" + path) == host + "/" + path
  {
    var s := host + "/" + path;
    var sp := Spelling("", [], Slash, false, false);
    assert Render(sp, host, path) == s && "" + s + "" == s;
    assert forall i | 0 <= i < |s| :: s[i] in host || s[i] in path || s[i] == '/';
    assert Recased(s, "" + Render(sp, host, path) + "");
    SpellingsConverge(s, "", "", sp, host, path);
  }

  /** So on every spelling of a well-formed repository a second round changes nothing. */
  lemma SpellingsAreIdempotent(raw: string, pre: string, post: string, sp: Spelling, host: string, path: string)
    requires WellFormedHost(host) && WellFormedPath(path) && WellFormedSpelling(sp, path)
    requires forall c | c in pre + post :: IsSpace(c)
    requires Recased(raw, pre + Render(sp, host, path) + post)
    ensures Normalized(Normalized(raw)) == Normalized(raw)
  {
    SpellingsConverge(raw, pre, post, sp, host, path);
    CanonicalIsFixed(host, path);
  }

  /** So two repositories share an identity exactly when host and path agree. */
  lemma CanonicalIsInjective(host: string, path: string, host': string, path': string)
    requires WellFormedHost(host) && WellFormedHost(host')
    requires host + "/" + path == host' + "/" + path'
    ensures host == host' && path == path'
  {
    var s := host + "/" + path;
    assert s[..|host|] == host && s[..|host'|] == host';
    assert forall i | 0 <= i < |host| :: host[i] in host;
    assert forall i | 0 <= i < |host'| :: host'[i] in host';
    assert s[|host|] == '/' && s[|host'|] == '/';
    assert |host| == |host'|;
    assert s[|host| + 1..] == path && s[|host'| + 1..] == path';
  }
}
