/** Wildcard matching: the backtracking matcher against what a pattern means. */
module Glob {

  // ----- what a pattern means -----

  /** One pattern character against the part of the string it accounts for. */
  predicate Accounts(c: char, part: string) {
    if c == '*' then true else if c == '?' then |part| == 1 else part == [c]
  }

  function Concat(parts: seq<string>): string {
    if parts == [] then "" else parts[0] + Concat(parts[1..])
  }

  /** The string can be cut into consecutive parts, one for each character of the pattern. */
  ghost predicate Describes(pattern: string, parts: seq<string>, s: string) {
    && |parts| == |pattern|
    && (forall i :: 0 <= i < |pattern| ==> Accounts(pattern[i], parts[i]))
    && Concat(parts) == s
  }

  /** The same, by recursion on the pattern. */
  ghost predicate Matches(pattern: string, s: string)
    decreases |pattern|
  {
    if pattern == "" then s == ""
    else if pattern[0] == '*' then exists k :: 0 <= k <= |s| && Matches(pattern[1..], s[k..])
    else s != "" && Accounts(pattern[0], s[..1]) && Matches(pattern[1..], s[1..])
  }

  lemma {:induction false} MatchesHasParts(pattern: string, s: string) returns (parts: seq<string>)
    requires Matches(pattern, s)
    ensures Describes(pattern, parts, s)
    decreases |pattern|
  {
    if pattern == "" {
      parts := [];
    } else {
      var k :| 0 <= k <= |s| && Matches(pattern[1..], s[k..]) && Accounts(pattern[0], s[..k]);
      var rest := MatchesHasParts(pattern[1..], s[k..]);
      parts := [s[..k]] + rest;
      assert parts[1..] == rest;
      assert s == s[..k] + s[k..];
    }
  }

  lemma {:induction false} PartsMatch(pattern: string, parts: seq<string>, s: string)
    requires Describes(pattern, parts, s)
    ensures Matches(pattern, s)
    decreases |pattern|
  {
    if pattern != "" {
      var rest := Concat(parts[1..]);
      PartsMatch(pattern[1..], parts[1..], rest);
      assert Accounts(pattern[0], parts[0]);
      assert s[|parts[0]|..] == rest && s[..|parts[0]|] == parts[0];
    }
  }

  lemma MatchesIffDescribes(pattern: string, s: string)
    ensures Matches(pattern, s) <==> exists parts :: Describes(pattern, parts, s)
  {
    if Matches(pattern, s) {
      var parts := MatchesHasParts(pattern, s);
    }
    if parts :| Describes(pattern, parts, s) {
      PartsMatch(pattern, parts, s);
    }
  }

  // ----- the matcher -----

  lemma StarMatchesAnything(s: string)
    ensures Matches("*", s)
  {
    assert Matches("*"[1..], s[|s|..]);
  }

  /** A second star in a row adds nothing. */
  lemma DoubleStar(pattern: string, s: string)
    requires |pattern| >= 2 && pattern[0] == '*' && pattern[1] == '*'
    ensures Matches(pattern, s) <==> Matches(pattern[1..], s)
  {
    var one, two := pattern[1..], pattern[2..];
    assert one[1..] == two;
    if Matches(pattern, s) {
      var k :| 0 <= k <= |s| && Matches(one, s[k..]);
      var m :| 0 <= m <= |s[k..]| && Matches(two, s[k..][m..]);
      assert s[k..][m..] == s[k + m..];
    }
    if Matches(one, s) {
      assert s[0..] == s;
    }
  }

  lemma CharacterStep(pattern: string, p: nat, s: string, q: nat)
    requires p < |pattern| && q <= |s| && pattern[p] != '*'
    ensures Matches(pattern[p..], s[q..]) <==>
            q < |s| && (pattern[p] == '?' || s[q] == pattern[p]) && Matches(pattern[p + 1..], s[q + 1..])
  {
    assert pattern[p..][1..] == pattern[p + 1..];
    if q < |s| {
      assert s[q..][1..] == s[q + 1..] && s[q..][..1] == [s[q]];
    }
  }

  lemma StarStep(pattern: string, p: nat, s: string, q: nat)
    requires p < |pattern| && q <= |s| && pattern[p] == '*'
    ensures Matches(pattern[p..], s[q..]) <==> exists k :: q <= k <= |s| && Matches(pattern[p + 1..], s[k..])
  {
    var rest := pattern[p + 1..];
    assert pattern[p..][1..] == rest;
    forall k | 0 <= k <= |s[q..]| ensures s[q..][k..] == s[q + k..] {
    }
    if Matches(pattern[p..], s[q..]) {
      var k :| 0 <= k <= |s[q..]| && Matches(rest, s[q..][k..]);
      assert Matches(rest, s[q + k..]);
    }
    if k :| q <= k <= |s| && Matches(rest, s[k..]) {
      assert Matches(rest, s[q..][k - q..]);
    }
  }

  predicate IsPlain(pattern: string) {
    forall i :: 0 <= i < |pattern| ==> pattern[i] != '*' && pattern[i] != '?'
  }

  /** A pattern without wildcards matches itself only; with a star at its end, everything that starts with it. */
  lemma {:induction false} PlainPattern(pattern: string, s: string)
    requires IsPlain(pattern)
    ensures Matches(pattern, s) <==> s == pattern
    ensures Matches(pattern + "*", s) <==> pattern <= s
    decreases |pattern|
  {
    if pattern == "" {
      assert pattern + "*" == "*";
      StarMatchesAnything(s);
    } else {
      assert (pattern + "*")[1..] == pattern[1..] + "*" && (pattern + "*")[0] == pattern[0];
      if s != "" {
        PlainPattern(pattern[1..], s[1..]);
        assert s == [s[0]] + s[1..] && pattern == [pattern[0]] + pattern[1..];
        assert s[..1] == [s[0]];
      }
    }
  }

  /** Question marks match exactly the strings of their number of characters. */
  lemma {:induction false} QuestionMarks(pattern: string, s: string)
    requires forall i :: 0 <= i < |pattern| ==> pattern[i] == '?'
    ensures Matches(pattern, s) <==> |s| == |pattern|
    decreases |pattern|
  {
    if pattern != "" && s != "" {
      QuestionMarks(pattern[1..], s[1..]);
    }
  }

  /**
    * Why the end of the string need not be tried: the rest of the pattern starts with a character that must be
    * there.
    */
  lemma NothingLeft(pattern: string, s: string)
    ensures pattern == "" ==> (Matches(pattern, s) <==> s == "")
    ensures pattern != "" && pattern[0] != '*' && s == "" ==> !Matches(pattern, s)
  {
  }

  /** The matcher of the code, from position `patternStart` of the pattern and `strStart` of the string. */
  method WildcardPatternMatch(pattern: string, patternStart: nat, str: string, strStart: nat) returns (matched: bool)
    requires patternStart <= |pattern| && strStart <= |str|
    ensures matched <==> Matches(pattern[patternStart..], str[strStart..])
    decreases |pattern| - patternStart
  {
    hide Matches;
    var patternIt: nat, strIt: nat := patternStart, strStart;
    ghost var goal := Matches(pattern[patternStart..], str[strStart..]);
    while patternIt < |pattern|
      invariant patternStart <= patternIt <= |pattern| && strIt <= |str|
      invariant goal == Matches(pattern[patternIt..], str[strIt..])
    {
      if pattern[patternIt] == '?' {
        CharacterStep(pattern, patternIt, str, strIt);
        if strIt == |str| {
          return false;
        }
        strIt := strIt + 1;
      } else if pattern[patternIt] == '*' {
        while patternIt + 1 < |pattern| && pattern[patternIt + 1] == '*'
          invariant patternStart <= patternIt < |pattern| && pattern[patternIt] == '*'
          invariant goal == Matches(pattern[patternIt..], str[strIt..])
        {
          DoubleStar(pattern[patternIt..], str[strIt..]);
          assert pattern[patternIt..][1..] == pattern[patternIt + 1..];
          patternIt := patternIt + 1;
        }
        if patternIt + 1 == |pattern| {
          assert pattern[patternIt..] == "*";
          StarMatchesAnything(str[strIt..]);
          return true;
        }
        StarStep(pattern, patternIt, str, strIt);
        NothingLeft(pattern[patternIt + 1..], str[|str|..]);
        var i: nat := strIt;
        while i < |str|
          invariant strIt <= i <= |str|
          invariant forall j :: strIt <= j < i ==> !Matches(pattern[patternIt + 1..], str[j..])
        {
          var tail := WildcardPatternMatch(pattern, patternIt + 1, str, i);
          if tail {
            return true;
          }
          i := i + 1;
        }
        return false;
      } else {
        CharacterStep(pattern, patternIt, str, strIt);
        if strIt == |str| || str[strIt] != pattern[patternIt] {
          return false;
        }
        strIt := strIt + 1;
      }
      patternIt := patternIt + 1;
    }
    NothingLeft(pattern[patternIt..], str[strIt..]);
    matched := strIt == |str|;
  }

  /** An empty pattern matches everything; any other pattern matches exactly the strings it describes. */
  method WildcardMatch(pattern: string, str: string) returns (matched: bool)
    ensures pattern == "" ==> matched
    ensures pattern != "" ==> (matched <==> exists parts :: Describes(pattern, parts, str))
    decreases if pattern == "" then 1 else 0
  {
    if pattern == "" {
      StarMatchesAnything(str);
      MatchesIffDescribes("*", str);
      matched := WildcardMatch("*", str);
      return;
    }
    MatchesIffDescribes(pattern, str);
    assert pattern[0..] == pattern && str[0..] == str;
    matched := WildcardPatternMatch(pattern, 0, str, 0);
  }
}
