/**
 The repository normal form (NormalizeRepo in internal/router/router.go): every spelling of one
 repository collapses to the same host/path.
 */
module Router {
  import opened Strings

  const SCHEMES: seq<string> := ["https://", "http://", "git://", "ssh://"]

  predicate AllDigits(s: string) {
    s != "" && forall i | 0 <= i < |s| :: '0' <= s[i] <= '9'
  }

  function StripSchemes(s: string, schemes: seq<string>): string {
    if schemes == [] then s else StripSchemes(TrimPrefix(s, schemes[0]), schemes[1..])
  }

  /** A '@' before the first slash ends a user name. */
  predicate HasUser(s: string) {
    var at, slash := IndexOf(s, '@'), IndexOf(s, '/');
    at >= 0 && (slash < 0 || at < slash)
  }

  function StripUser(s: string): string {
    if HasUser(s) then s[IndexOf(s, '@') + 1..] else s
  }

  /** The text between the first colon and the next slash. */
  function PortOf(s: string): string
    requires ':' in s
  {
    var rest := s[IndexOf(s, ':') + 1..];
    var end := IndexOf(rest, '/');
    if end >= 0 then rest[..end] else rest
  }

  function StripPort(s: string): string {
    if ':' in s && AllDigits(PortOf(s)) then
      s[..IndexOf(s, ':')] + s[IndexOf(s, ':') + 1..][|PortOf(s)|..]
    else s
  }

  function ColonsToSlashes(s: string): string {
    seq(|s|, i requires 0 <= i < |s| => if s[i] == ':' then '/' else s[i])
  }

  function TrimTail(s: string): string {
    TrimSuffix(TrimSuffix(TrimSuffix(s, "/"), ".git"), "/")
  }

  function Normalized(repo: string): string {
    SingleSlashes(TrimTail(ColonsToSlashes(StripPort(StripUser(StripSchemes(TrimSpace(Lower(repo)), SCHEMES))))))
  }

  // --------------------------------------------------------------------- the rewriting

  method IsAllDigits(s: string) returns (digits: bool)
    ensures digits == AllDigits(s)
  {
    for i := 0 to |s|
      invariant forall k | 0 <= k < i :: '0' <= s[k] <= '9'
    {
      if s[i] < '0' || s[i] > '9' {
        return false;
      }
    }
    digits := s != "";
  }

  method NormalizeRepo(repo: string) returns (s: string)
    ensures s == Normalized(repo)
  {
    s := TrimSpace(Lower(repo));
    s := DropSchemes(s, SCHEMES);
    s := DropUser(s);
    s := DropPort(s);
    s := ColonsToSlashes(s);
    s := DropTail(s);
    s := CollapseSlashes(s);
  }

  method DropUser(given: string) returns (s: string)
    ensures s == StripUser(given)
  {
    s := given;
    var at := IndexOf(s, '@');
    if at >= 0 {
      var slash := IndexOf(s, '/');
      if slash < 0 || at < slash {
        s := s[at + 1..];
      }
    }
  }

  method DropTail(given: string) returns (s: string)
    ensures s == TrimTail(given)
  {
    s := TrimSuffix(given, "/");
    s := TrimSuffix(s, ".git");
    s := TrimSuffix(s, "/");
  }

  method DropSchemes(given: string, schemes: seq<string>) returns (s: string)
    ensures s == StripSchemes(given, schemes)
  {
    s := given;
    var i := 0;
    while i < |schemes|
      invariant 0 <= i <= |schemes|
      invariant StripSchemes(s, schemes[i..]) == StripSchemes(given, schemes)
    {
      assert schemes[i..][1..] == schemes[i + 1..];
      s := TrimPrefix(s, schemes[i]);
      i := i + 1;
    }
  }

  /** The collapse loop: repeated halving until no double slash is left, which reduces every run to one. */
  method CollapseSlashes(given: string) returns (s: string)
    ensures s == SingleSlashes(given)
  {
    s := given;
    while HasDoubleSlash(s)
      invariant SingleSlashes(s) == SingleSlashes(given)
      decreases |s|
    {
      HalvingShortens(s);
      HalvingKeepsSingle(s);
      s := HalveSlashes(s);
    }
    SingleIsSingle(s);
  }

  /** The port branch, with its two exits: a port followed by a path, and one that ends the string. */
  method DropPort(given: string) returns (s: string)
    ensures s == StripPort(given)
  {
    s := given;
    var i := IndexOf(s, ':');
    if i >= 0 {
      var rest := s[i + 1..];
      var end := IndexOf(rest, '/');
      var port := if end >= 0 then rest[..end] else rest;
      assert port == PortOf(given);
      var digits := IsAllDigits(port);
      if digits {
        PortIsStripped(given, i, rest, end);
        if end >= 0 {
          s := s[..i] + rest[end..];
        } else {
          s := s[..i];
        }
      }
    }
  }

  /** The two exits are one expression: what follows the port is empty when nothing does. */
  lemma PortIsStripped(s: string, i: nat, rest: string, end: int)
    requires ':' in s && i == IndexOf(s, ':') && rest == s[i + 1..] && end == IndexOf(rest, '/')
    requires AllDigits(PortOf(s))
    ensures StripPort(s) == if end >= 0 then s[..i] + rest[end..] else s[..i]
  {
    assert |PortOf(s)| == if end >= 0 then end else |rest|;
    EmptyTail(s[..i], rest);
  }

  lemma EmptyTail(front: string, rest: string)
    ensures front + rest[|rest|..] == front
  {
  }

  // --------------------------------------------------------- what every output looks like

  /** r keeps only characters of s, and is s itself unless it is shorter. */
  predicate Part(r: string, s: string) {
    |r| <= |s| && (|r| == |s| ==> r == s) && forall i | 0 <= i < |r| :: r[i] in s
  }

  lemma PartOfPart(r: string, s: string, t: string)
    requires Part(r, s) && Part(s, t)
    ensures Part(r, t)
  {
  }

  lemma TrimTailIsPart(s: string)
    ensures Part(TrimTail(s), s)
    ensures TrimTail(s) == s <==> !HasSuffix(s, "/") && !HasSuffix(s, ".git")
  {
  }

  lemma {:induction false} StripSchemesIsPart(s: string, schemes: seq<string>)
    ensures Part(StripSchemes(s, schemes), s)
    decreases |schemes|
  {
    if schemes != [] {
      var t := TrimPrefix(s, schemes[0]);
      StripSchemesIsPart(t, schemes[1..]);
      assert Part(t, s);
      PartOfPart(StripSchemes(t, schemes[1..]), t, s);
    }
  }

  lemma StripUserIsPart(s: string)
    ensures Part(StripUser(s), s)
    ensures StripUser(s) == s <==> !HasUser(s)
  {
  }

  lemma StripPortIsPart(s: string)
    ensures Part(StripPort(s), s)
  {
    if ':' in s && AllDigits(PortOf(s)) {
      var i := IndexOf(s, ':');
      var j := i + 1 + |PortOf(s)|;
      assert s[i + 1..][|PortOf(s)|..] == s[j..];
      CutIsPart(s, i, j);
    } else {
      assert forall i | 0 <= i < |s| :: s[i] in s;
    }
  }

  lemma CutIsPart(s: string, i: nat, j: nat)
    requires i <= j <= |s|
    ensures Part(s[..i] + s[j..], s)
  {
    var r := s[..i] + s[j..];
    assert forall k | 0 <= k < |r| :: r[k] == if k < i then s[k] else s[k - i + j];
  }

  predicate IsLower(s: string) {
    forall c | c in s :: !('A' <= c <= 'Z')
  }

  lemma LowerIsLower(s: string)
    ensures IsLower(Lower(s)) && |Lower(s)| == |s| && (IsLower(s) ==> Lower(s) == s)
  {
    assert forall i | 0 <= i < |s| :: s[i] in s;
  }

  lemma PartIsLower(r: string, s: string)
    requires Part(r, s) && IsLower(s)
    ensures IsLower(r)
  {
  }

  function Trimmed(repo: string): string { TrimSpace(Lower(repo)) }

  function Bare(repo: string): string { StripUser(StripSchemes(Trimmed(repo), SCHEMES)) }

  function Slashed(repo: string): string { ColonsToSlashes(StripPort(Bare(repo))) }

  /** Every step up to the port only ever takes characters away. */
  lemma BareIsPart(repo: string)
    ensures Part(Trimmed(repo), Lower(repo)) && Part(Bare(repo), Trimmed(repo)) && Part(StripPort(Bare(repo)), Bare(repo))
    ensures IsLower(StripPort(Bare(repo)))
  {
    TrimSpaceShortens(Lower(repo));
    var t := Trimmed(repo);
    assert forall i | 0 <= i < |t| :: t[i] in t;
    var u := StripSchemes(t, SCHEMES);
    StripSchemesIsPart(t, SCHEMES);
    StripUserIsPart(u);
    PartOfPart(Bare(repo), u, t);
    StripPortIsPart(Bare(repo));
    LowerIsLower(repo);
    PartIsLower(t, Lower(repo));
    PartIsLower(Bare(repo), t);
    PartIsLower(StripPort(Bare(repo)), Bare(repo));
  }

  lemma SlashedIsClean(s: string)
    requires IsLower(s)
    ensures ':' !in ColonsToSlashes(s) && IsLower(ColonsToSlashes(s)) && |ColonsToSlashes(s)| == |s|
  {
    assert forall i | 0 <= i < |s| :: s[i] in s;
  }

  lemma NormalizedIsPart(repo: string)
    ensures Normalized(repo) == SingleSlashes(TrimTail(Slashed(repo)))
    ensures Part(TrimTail(Slashed(repo)), Slashed(repo)) && Part(Normalized(repo), TrimTail(Slashed(repo)))
  {
    TrimTailIsPart(Slashed(repo));
    SingleIsSingle(TrimTail(Slashed(repo)));
    var r := Normalized(repo);
    assert forall i | 0 <= i < |r| :: r[i] in r;
  }

  /** On every input the result is lower case and holds neither a colon nor a double slash. */
  lemma OutputIsClean(repo: string)
    ensures var s := Normalized(repo); ':' !in s && !HasDoubleSlash(s) && IsLower(s)
  {
    BareIsPart(repo);
    SlashedIsClean(StripPort(Bare(repo)));
    NormalizedIsPart(repo);
    PartOfPart(Normalized(repo), TrimTail(Slashed(repo)), Slashed(repo));
    PartIsLower(Normalized(repo), Slashed(repo));
    SingleIsSingle(TrimTail(Slashed(repo)));
  }

  /** A string no step of the normalization touches. */
  predicate NormalForm(s: string) {
    && IsLower(s) && ':' !in s && !HasDoubleSlash(s) && TrimSpace(s) == s
    && !HasUser(s) && !HasSuffix(s, "/") && !HasSuffix(s, ".git")
  }

  lemma {:induction false} NoSchemeWithoutColon(s: string, schemes: seq<string>)
    requires ':' !in s && forall i | 0 <= i < |schemes| :: ':' in schemes[i]
    ensures StripSchemes(s, schemes) == s
    decreases |schemes|
  {
    if schemes != [] {
      assert forall i | 0 <= i < |s| :: s[i] != ':';
      NoSchemeWithoutColon(s, schemes[1..]);
    }
  }

  /** Lower-case text without colon, user or outer space only has its tail and its slashes rewritten. */
  lemma PlainNormalized(s: string)
    requires IsLower(s) && ':' !in s && !HasUser(s) && TrimSpace(s) == s
    ensures Normalized(s) == SingleSlashes(TrimTail(s))
  {
    LowerIsLower(s);
    NoSchemeWithoutColon(s, SCHEMES);
    assert ColonsToSlashes(s) == s;
  }

  /** The fixed points of the normalization are exactly the strings in normal form. */
  lemma FixedPointsAreNormalForms(s: string)
    ensures Normalized(s) == s <==> NormalForm(s)
  {
    if NormalForm(s) {
      PlainNormalized(s);
      TrimTailIsPart(s);
      SingleIsSingle(s);
    }
    if Normalized(s) == s {
      NoStepMoves(s);
    }
  }

  /** A string the whole normalization leaves alone is left alone by each of its steps. */
  lemma NoStepMoves(s: string)
    requires Normalized(s) == s
    ensures NormalForm(s)
  {
    OutputIsClean(s);
    NothingIsCut(s);
    NoUserLeft(s);
    TrimTailIsPart(s);
  }

  lemma NoUserLeft(s: string)
    requires ':' !in s && IsLower(s) && TrimSpace(s) == s && Bare(s) == s
    ensures !HasUser(s)
  {
    LowerIsLower(s);
    NoSchemeWithoutColon(s, SCHEMES);
    StripUserIsPart(s);
  }

  /** No step shortens it, and each step that does not shorten its text keeps it. */
  lemma NothingIsCut(s: string)
    requires Normalized(s) == s && ':' !in s && IsLower(s)
    ensures TrimSpace(s) == s && Bare(s) == s && TrimTail(s) == s
  {
    LowerIsLower(s);
    BareIsPart(s);
    SlashedIsClean(StripPort(Bare(s)));
    NormalizedIsPart(s);
    assert Trimmed(s) == s && Bare(s) == s;
    assert ColonsToSlashes(s) == s;
  }

  /** A second round changes nothing exactly when the first left no outer space, no user part, and no
      tail to trim. */
  lemma IdempotentExactlyWhen(repo: string)
    ensures var s := Normalized(repo);
      Normalized(s) == s <==> TrimSpace(s) == s && !HasUser(s) && !HasSuffix(s, "/") && !HasSuffix(s, ".git")
  {
    OutputIsClean(repo);
    FixedPointsAreNormalForms(Normalized(repo));
  }

  predicate Word(s: string) {
    && s != "" && !IsSpace(s[0])
    && forall i | 0 <= i < |s| :: s[i] != ':' && s[i] != '@' && s[i] != '/' && !('A' <= s[i] <= 'Z')
  }

  lemma WordIsPlain(t: string)
    requires Word(t) && !IsSpace(t[|t| - 1])
    ensures Normalized(t) == SingleSlashes(TrimTail(t))
  {
    TrimSpaceOf("", t, "");
    assert "" + t + "" == t;
    PlainNormalized(t);
  }

  lemma TailOfGit(s: string, t: string)
    requires t == s + ".git" && Word(s)
    ensures TrimTail(t) == s && !HasDoubleSlash(s)
  {
    assert t[|s|..] == ".git" && t[..|s|] == s && t[|t| - 1] == 't';
    assert HasSuffix(t, ".git") && !HasSuffix(t, "/") && !HasSuffix(s, "/");
  }

  lemma TrimsOneGit(s: string, t: string)
    requires t == s + ".git" && Word(s)
    ensures Word(t) && Normalized(t) == s
  {
    WordIsPlain(t);
    TailOfGit(s, t);
    SingleIsSingle(s);
  }

  /** A doubled suffix loses one layer per round, whatever plain word carries it. */
  lemma OneGitPerRound(s: string)
    requires Word(s)
    ensures Normalized(s + ".git" + ".git") == s + ".git" && Normalized(s + ".git") == s
  {
    TrimsOneGit(s, s + ".git");
    TrimsOneGit(s + ".git", s + ".git" + ".git");
  }

  /** So the normalization is not idempotent: "x.git.git" is a counterexample. */
  lemma NotIdempotent(repo: string)
    requires repo == ['x'] + ".git" + ".git"
    ensures Normalized(Normalized(repo)) != Normalized(repo)
  {
    OneGitPerRound(['x']);
  }
}
