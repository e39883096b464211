/** pattern_match: wildcard host names as RFC 2818, section 3.1, describes them. C strings are
    sequences without NUL; reading at the end of one gives NUL. */
module PatternMatch {

  function ToLower(c: char): char {
    if 'A' <= c <= 'Z' then c - 'A' + 'a' else c
  }

  /** Two characters are the same but for the case of a letter. */
  predicate SameLetter(c: char, d: char) {
    c == d || ('a' <= c <= 'z' && d as int == c as int - 32) || ('a' <= d <= 'z' && c as int == d as int - 32)
  }

  lemma {:induction false} LowerIgnoresCase(c: char, d: char)
    ensures ToLower(c) == ToLower(d) <==> SameLetter(c, d)
    ensures SameLetter(c, ToLower(c)) && !('A' <= ToLower(c) <= 'Z')
  {
  }

  predicate IsCString(s: string) {
    '\0' !in s
  }

  function At(s: string, i: nat): char
    requires i <= |s|
  {
    if i < |s| then s[i] else '\0'
  }

  // ---- The declarative match

  predicate DotFree(s: string) {
    '.' !in s
  }

  predicate EqualIgnoringCase(s: string, t: string) {
    |s| == |t| && forall i :: 0 <= i < |s| ==> ToLower(s[i]) == ToLower(t[i])
  }

  function Stars(p: string): nat {
    if p == "" then 0 else (if p[0] == '*' then 1 else 0) + Stars(p[1..])
  }

  /** The pattern with its asterisks replaced, from left to right, by the given runs. */
  function Filled(p: string, runs: seq<string>): string
    requires |runs| == Stars(p)
  {
    if p == "" then ""
    else if p[0] == '*' then runs[0] + Filled(p[1..], runs[1..])
    else [p[0]] + Filled(p[1..], runs)
  }

  predicate Fills(p: string, s: string, runs: seq<string>) {
    |runs| == Stars(p) && (forall r :: r in runs ==> DotFree(r)) && EqualIgnoringCase(Filled(p, runs), s)
  }

  /** `s` is the pattern with every asterisk standing for some run of characters other than dots. */
  ghost predicate Matches(p: string, s: string) {
    exists runs :: Fills(p, s, runs)
  }

  // ---- The match one character at a time

  predicate MatchesStepwise(p: string, s: string)
    decreases |p| + |s|
  {
    if p == "" then s == ""
    else if p[0] == '*' then
      MatchesStepwise(p[1..], s) || (s != "" && s[0] != '.' && MatchesStepwise(p, s[1..]))
    else s != "" && ToLower(p[0]) == ToLower(s[0]) && MatchesStepwise(p[1..], s[1..])
  }

  lemma {:induction false} StepwiseGivesRuns(p: string, s: string) returns (runs: seq<string>)
    requires MatchesStepwise(p, s)
    ensures Fills(p, s, runs)
    decreases |p| + |s|
  {
    if p == "" {
      runs := [];
    } else if p[0] == '*' {
      if MatchesStepwise(p[1..], s) {
        var rest := StepwiseGivesRuns(p[1..], s);
        runs := [""] + rest;
        assert Filled(p, runs) == Filled(p[1..], rest);
      } else {
        var rest := StepwiseGivesRuns(p, s[1..]);
        var first := [s[0]] + rest[0];
        runs := [first] + rest[1..];
        assert Filled(p, runs) == [s[0]] + Filled(p, rest);
        assert rest[0] in rest;
        forall r | r in runs
          ensures DotFree(r)
        {
          assert r == first || r in rest;
        }
      }
    } else {
      runs := StepwiseGivesRuns(p[1..], s[1..]);
    }
  }

  lemma {:induction false} RunsGiveStepwise(p: string, s: string, runs: seq<string>)
    requires Fills(p, s, runs)
    ensures MatchesStepwise(p, s)
    decreases |p| + |s|
  {
    if p == "" {
    } else if p[0] == '*' {
      var r := runs[0];
      assert r in runs;
      if r == "" {
        assert Filled(p, runs) == Filled(p[1..], runs[1..]);
        RunsGiveStepwise(p[1..], s, runs[1..]);
      } else {
        var shorter := [r[1..]] + runs[1..];
        assert Filled(p, runs) == [r[0]] + Filled(p, shorter);
        assert r[0] in r && ToLower(s[0]) == ToLower(r[0]);
        assert EqualIgnoringCase(Filled(p, shorter), s[1..]);
        RunsGiveStepwise(p, s[1..], shorter);
      }
    } else {
      assert Filled(p, runs)[1..] == Filled(p[1..], runs);
      RunsGiveStepwise(p[1..], s[1..], runs);
    }
  }

  lemma {:induction false} MatchesIsStepwise(p: string, s: string)
    ensures Matches(p, s) <==> MatchesStepwise(p, s)
  {
    if MatchesStepwise(p, s) {
      var runs := StepwiseGivesRuns(p, s);
    }
    if Matches(p, s) {
      var runs :| Fills(p, s, runs);
      RunsGiveStepwise(p, s, runs);
    }
  }

  /** A pattern without an asterisk matches by case-insensitive equality. */
  lemma {:induction false} PlainPatternIsEquality(p: string, s: string)
    requires '*' !in p
    ensures Matches(p, s) <==> EqualIgnoringCase(p, s)
  {
    NothingToFill(p);
    if EqualIgnoringCase(p, s) {
      assert Fills(p, s, []);
    }
  }

  lemma {:induction false} NothingToFill(p: string)
    requires '*' !in p
    ensures Stars(p) == 0 && Filled(p, []) == p
  {
    if p != "" {
      NothingToFill(p[1..]);
    }
  }

  // ---- pattern_match

  lemma {:induction false} RepeatedStars(p: string, s: string)
    ensures MatchesStepwise("**" + p, s) <==> MatchesStepwise("*" + p, s)
    decreases |s|
  {
    assert ("**" + p)[1..] == "*" + p;
    assert ("*" + p)[1..] == p;
    if s != "" {
      RepeatedStars(p, s[1..]);
    }
  }

  lemma {:induction false} StarStep(p: string, s: string)
    ensures MatchesStepwise("*" + p, s) <==>
            MatchesStepwise(p, s) || (s != "" && s[0] != '.' && MatchesStepwise("*" + p, s[1..]))
  {
    assert ("*" + p)[1..] == p;
  }

  method PatternMatch(pattern: string, str: string) returns (matched: bool)
    requires IsCString(pattern) && IsCString(str)
    ensures matched <==> Matches(pattern, str)
    decreases |pattern|
  {
    MatchesIsStepwise(pattern, str);
    var p, n := 0, 0;
    var c := ToLower(At(pattern, p));
    assert pattern[0..] == pattern && str[0..] == str;
    while c != '\0'
      invariant p <= |pattern| && n <= |str| && c == ToLower(At(pattern, p))
      invariant MatchesStepwise(pattern[p..], str[n..]) <==> Matches(pattern, str)
      decreases |pattern| - p
    {
      p := p + 1;
      if c == '*' {
        assert pattern[p - 1..] == "*" + pattern[p..];
        matched := MatchStar(pattern, p, str, n);
        return;
      } else {
        if c != ToLower(At(str, n)) {
          return false;
        }
      }
      n := n + 1;
      c := ToLower(At(pattern, p));
    }
    return At(str, n) == '\0';
  }

  /** The branch of the loop that is taken on an asterisk; `p` is the position after it. */
  method MatchStar(pattern: string, p0: nat, str: string, n0: nat) returns (matched: bool)
    requires IsCString(pattern) && IsCString(str)
    requires 0 < p0 <= |pattern| && n0 <= |str|
    ensures matched <==> MatchesStepwise("*" + pattern[p0..], str[n0..])
    decreases |pattern|, 0
  {
    ghost var target := MatchesStepwise("*" + pattern[p0..], str[n0..]);
    var p, n := p0, n0;
    var c := ToLower(At(pattern, p));
    while c == '*'
      invariant p0 <= p <= |pattern| && c == ToLower(At(pattern, p))
      invariant target <==> MatchesStepwise("*" + pattern[p..], str[n..])
      decreases |pattern| - p
    {
      assert "*" + pattern[p..] == "**" + pattern[p + 1..];
      RepeatedStars(pattern[p + 1..], str[n..]);
      p := p + 1;
      c := ToLower(At(pattern, p));
    }
    while At(str, n) != '\0'
      invariant n <= |str|
      invariant target <==> MatchesStepwise("*" + pattern[p..], str[n..])
      decreases |str| - n
    {
      StarStep(pattern[p..], str[n..]);
      var rest := false;
      if ToLower(At(str, n)) == c {
        rest := PatternMatch(pattern[p..], str[n..]);
        MatchesIsStepwise(pattern[p..], str[n..]);
      }
      if rest {
        return true;
      } else if At(str, n) == '.' {
        return false;
      }
      n := n + 1;
    }
    StarStep(pattern[p..], str[n..]);
    return c == '\0';
  }

  // ---- Components

  function Dots(s: string): nat {
    if s == "" then 0 else (if s[0] == '.' then 1 else 0) + Dots(s[1..])
  }

  /** A wildcard stays within one domain name component: a match has the dots of its pattern. */
  lemma {:induction false} MatchKeepsComponents(p: string, s: string)
    requires Matches(p, s)
    ensures Dots(p) == Dots(s)
  {
    MatchesIsStepwise(p, s);
    StepwiseKeepsDots(p, s);
  }

  lemma {:induction false} StepwiseKeepsDots(p: string, s: string)
    requires MatchesStepwise(p, s)
    ensures Dots(p) == Dots(s)
    decreases |p| + |s|
  {
    if p != "" {
      if p[0] == '*' && !MatchesStepwise(p[1..], s) {
        StepwiseKeepsDots(p, s[1..]);
      } else {
        StepwiseKeepsDots(p[1..], if p[0] == '*' then s else s[1..]);
      }
    }
  }
}
