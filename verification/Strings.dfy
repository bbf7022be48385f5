/** The string operations the router and the gateway use, on sequences of characters. */
module Strings {

  predicate HasSuffix(s: string, suffix: string) {
    |suffix| <= |s| && s[|s| - |suffix|..] == suffix
  }

  function TrimPrefix(s: string, prefix: string): string {
    if prefix <= s then s[|prefix|..] else s
  }

  function TrimSuffix(s: string, suffix: string): string {
    if HasSuffix(s, suffix) then s[..|s| - |suffix|] else s
  }

  /** The position of the first c, or -1. */
  function IndexOf(s: string, c: char): (i: int)
    ensures -1 <= i < |s|
    ensures i == -1 <==> c !in s
    ensures i >= 0 ==> s[i] == c && c !in s[..i]
  {
    if s == "" then -1
    else if s[0] == c then 0
    else
      var i := IndexOf(s[1..], c);
      if i == -1 then -1 else
        assert s[..i + 1] == [s[0]] + s[1..][..i];
        i + 1
  }

  /** IndexOf is the only position with that property. */
  lemma IndexOfIs(s: string, c: char, k: nat)
    requires k < |s| && s[k] == c && c !in s[..k]
    ensures IndexOf(s, c) == k
  {
    var i := IndexOf(s, c);
    assert forall j | 0 <= j < k :: s[j] in s[..k];
    assert forall j | 0 <= j < i :: s[j] in s[..i];
  }

  function LowerChar(c: char): char {
    if 'A' <= c <= 'Z' then (c as int + 32) as char else c
  }

  /** strings.ToLower, for ASCII letters. */
  function Lower(s: string): string {
    seq(|s|, i requires 0 <= i < |s| => LowerChar(s[i]))
  }

  /** raw is s in some letter case. */
  predicate Recased(raw: string, s: string) {
    |raw| == |s| && forall i | 0 <= i < |s| :: SameLetter(raw[i], s[i])
  }

  predicate SameLetter(raw: char, c: char) {
    raw == c || ('a' <= c <= 'z' && raw as int + 32 == c as int)
  }

  lemma LowerOfRecased(raw: string, s: string)
    requires Recased(raw, s) && forall i | 0 <= i < |s| :: !('A' <= s[i] <= 'Z')
    ensures Lower(raw) == s
  {
    forall i | 0 <= i < |s| ensures Lower(raw)[i] == s[i] {
      assert SameLetter(raw[i], s[i]);
    }
  }

  /** unicode.IsSpace. */
  predicate IsSpace(c: char) {
    || '\t' <= c <= '\r' || c == ' ' || c == 0x85 as char || c == 0xA0 as char || c == 0x1680 as char
    || 0x2000 as char <= c <= 0x200A as char || c == 0x2028 as char || c == 0x2029 as char
    || c == 0x202F as char || c == 0x205F as char || c == 0x3000 as char
  }

  /** Among ASCII characters: tab, line feed, vertical tab, form feed, carriage return and blank. */
  lemma AsciiSpaces(c: char)
    requires c as int < 128
    ensures IsSpace(c) <==> c as int in {9, 10, 11, 12, 13, 32}
  {
  }

  function TrimLeft(s: string): (r: string)
    ensures |r| <= |s|
  {
    if s != "" && IsSpace(s[0]) then TrimLeft(s[1..]) else s
  }

  function TrimRight(s: string): (r: string)
    ensures |r| <= |s|
  {
    if s != "" && IsSpace(s[|s| - 1]) then TrimRight(s[..|s| - 1]) else s
  }

  function TrimSpace(s: string): string {
    TrimRight(TrimLeft(s))
  }

  lemma {:induction false} TrimLeftOf(pre: string, s: string)
    requires (forall c | c in pre :: IsSpace(c)) && s != "" && !IsSpace(s[0])
    ensures TrimLeft(pre + s) == s
  {
    if pre == "" {
      assert pre + s == s;
    } else {
      assert (pre + s)[1..] == pre[1..] + s;
      TrimLeftOf(pre[1..], s);
    }
  }

  lemma {:induction false} TrimRightOf(s: string, post: string)
    requires (forall c | c in post :: IsSpace(c)) && s != "" && !IsSpace(s[|s| - 1])
    ensures TrimRight(s + post) == s
  {
    if post == "" {
      assert s + post == s;
    } else {
      assert (s + post)[..|s + post| - 1] == s + post[..|post| - 1];
      TrimRightOf(s, post[..|post| - 1]);
    }
  }

  /** Surrounding space goes, and nothing else. */
  lemma TrimSpaceOf(pre: string, s: string, post: string)
    requires forall c | c in pre + post :: IsSpace(c)
    requires s != "" && !IsSpace(s[0]) && !IsSpace(s[|s| - 1])
    ensures TrimSpace(pre + s + post) == s
  {
    assert pre + s + post == pre + (s + post);
    assert forall c | c in pre :: c in pre + post;
    assert forall c | c in post :: c in pre + post;
    TrimLeftOf(pre, s + post);
    TrimRightOf(s, post);
  }

  lemma {:induction false} TrimLeftOfSpace(s: string)
    requires forall i | 0 <= i < |s| :: IsSpace(s[i])
    ensures TrimLeft(s) == ""
  {
    if s != "" {
      TrimLeftOfSpace(s[1..]);
    }
  }

  lemma {:induction false} TrimLeftIsSuffix(s: string)
    ensures TrimLeft(s) == s[|s| - |TrimLeft(s)|..]
  {
    if s != "" && IsSpace(s[0]) {
      TrimLeftIsSuffix(s[1..]);
    }
  }

  lemma {:induction false} TrimRightIsPrefix(s: string)
    ensures TrimRight(s) == s[..|TrimRight(s)|]
  {
    if s != "" && IsSpace(s[|s| - 1]) {
      TrimRightIsPrefix(s[..|s| - 1]);
    }
  }

  /** Trimming keeps a contiguous piece, and changes nothing unless it shortens. */
  lemma TrimSpaceShortens(s: string)
    ensures |TrimSpace(s)| <= |s|
    ensures |TrimSpace(s)| == |s| ==> TrimSpace(s) == s
    ensures forall c | c in TrimSpace(s) :: c in s
  {
    TrimLeftIsSuffix(s);
    TrimRightIsPrefix(TrimLeft(s));
  }

  // ---------------------------------------------------------------------- slashes

  predicate DoubleAt(s: string, i: int) {
    0 <= i < |s| - 1 && s[i] == '/' && s[i + 1] == '/'
  }

  /** strings.Contains(s, "//"). */
  predicate HasDoubleSlash(s: string) {
    exists i | 0 <= i < |s| :: DoubleAt(s, i)
  }

  /** strings.ReplaceAll(s, "//", "/"): left to right, without overlap. */
  function HalveSlashes(s: string): (r: string)
    ensures |r| <= |s|
  {
    if |s| < 2 then s
    else if s[0] == '/' && s[1] == '/' then "/" + HalveSlashes(s[2..])
    else [s[0]] + HalveSlashes(s[1..])
  }

  /** Every run of slashes reduced to one. */
  function SingleSlashes(s: string): (r: string)
    ensures |r| <= |s| && (s != "" ==> r != "" && r[0] == s[0])
  {
    if |s| < 2 then s
    else if s[0] == '/' && s[1] == '/' then SingleSlashes(s[1..])
    else [s[0]] + SingleSlashes(s[1..])
  }

  /** One round of the rewrite does not change what the runs reduce to. */
  lemma {:induction false} HalvingKeepsRuns(c: char, t: string)
    ensures SingleSlashes([c] + HalveSlashes(t)) == SingleSlashes([c] + t)
    decreases |t|
  {
    if |t| >= 2 {
      if t[0] == '/' && t[1] == '/' {
        var u := t[2..];
        HalvingKeepsRuns('/', u);
        assert HalveSlashes(t) == ['/'] + HalveSlashes(u);
        assert ([c] + HalveSlashes(t))[1..] == ['/'] + HalveSlashes(u);
        assert t == ['/'] + t[1..] && t[1..] == ['/'] + u;
        assert SingleSlashes(t) == SingleSlashes(['/'] + u);
      } else {
        HalvingKeepsRuns(t[0], t[1..]);
        assert t == [t[0]] + t[1..];
        assert ([c] + HalveSlashes(t))[1..] == [t[0]] + HalveSlashes(t[1..]);
      }
      assert ([c] + t)[1..] == t;
    }
  }

  lemma HalvingKeepsSingle(s: string)
    ensures SingleSlashes(HalveSlashes(s)) == SingleSlashes(s)
  {
    if |s| >= 2 {
      if s[0] == '/' && s[1] == '/' {
        HalvingKeepsRuns('/', s[2..]);
        assert s[1..] == ['/'] + s[2..];
      } else {
        HalvingKeepsRuns(s[0], s[1..]);
        assert s == [s[0]] + s[1..];
      }
    }
  }

  lemma {:induction false} HalvingShortens(s: string)
    requires HasDoubleSlash(s)
    ensures |HalveSlashes(s)| < |s|
  {
    if !(s[0] == '/' && s[1] == '/') {
      var i :| 0 <= i < |s| && DoubleAt(s, i);
      assert DoubleAt(s[1..], i - 1);
      HalvingShortens(s[1..]);
    }
  }

  lemma {:induction false} SingleIsSingle(s: string)
    ensures !HasDoubleSlash(SingleSlashes(s))
    ensures !HasDoubleSlash(s) ==> SingleSlashes(s) == s
    ensures |SingleSlashes(s)| == |s| ==> SingleSlashes(s) == s
    ensures forall c | c in SingleSlashes(s) :: c in s
  {
    if |s| >= 2 {
      SingleIsSingle(s[1..]);
      var rest := SingleSlashes(s[1..]);
      if s[0] == '/' && s[1] == '/' {
        assert DoubleAt(s, 0);
      } else {
        var r := [s[0]] + rest;
        assert forall i :: DoubleAt(r, i) ==> DoubleAt(rest, i - 1);
        assert forall i :: DoubleAt(s[1..], i) ==> DoubleAt(s, i + 1);
      }
    }
  }
}
