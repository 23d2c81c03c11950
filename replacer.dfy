/** re.compile(old[, re.IGNORECASE]).sub(new, name, count) for a pattern and
    a replacement that hold no regular-expression syntax: the leftmost match is
    replaced first, matches never overlap, and at most count are replaced
    (count 0 meaning all of them, a negative count none). */
module Replacer {
  import opened Results

  /** Characters that have a meaning of their own in a regular expression. */
  predicate IsMeta(c: char)
  {
    c == '.' || c == '^' || c == '$' || c == '*' || c == '+' || c == '?' || c == '{' || c == '}'
    || c == '[' || c == ']' || c == '\\' || c == '|' || c == '(' || c == ')'
  }

  predicate IsLiteralPattern(pat: string)
  {
    forall k :: 0 <= k < |pat| ==> !IsMeta(pat[k])
  }

  /** A replacement without backslashes is inserted as it is written. */
  predicate IsLiteralReplacement(repl: string)
  {
    forall k :: 0 <= k < |repl| ==> repl[k] != '\\'
  }

  /** ASCII lower case. */
  function Lower(c: char): char
  {
    if 'A' <= c <= 'Z' then (c as int + 32) as char else c
  }

  /** s folded to ASCII lower case: no capital letter is left, every capital
      becomes its small letter and every other character is kept. */
  function LowerAll(s: string): (r: string)
    ensures |r| == |s|
    ensures forall k :: 0 <= k < |r| ==> !('A' <= r[k] <= 'Z')
    ensures forall k :: 0 <= k < |s| && 'A' <= s[k] <= 'Z' ==> r[k] as int == s[k] as int + ('a' as int - 'A' as int)
    ensures forall k :: 0 <= k < |s| && !('A' <= s[k] <= 'Z') ==> r[k] == s[k]
  {
    seq(|s|, k requires 0 <= k < |s| => Lower(s[k]))
  }

  /** Folding twice is folding once. */
  lemma LowerAllIdempotent(s: string)
    ensures LowerAll(LowerAll(s)) == LowerAll(s)
  {
  }

  predicate SameChar(a: char, b: char, ignoreCase: bool)
  {
    if ignoreCase then Lower(a) == Lower(b) else a == b
  }

  /** pat matches s at position p. */
  predicate MatchesAt(s: string, p: nat, pat: string, ignoreCase: bool)
  {
    p + |pat| <= |s| && forall k :: 0 <= k < |pat| ==> SameChar(s[p + k], pat[k], ignoreCase)
  }

  /** The bound re.sub puts on the number of replacements: None for all. */
  function MaxReplacements(count: int): (r: Option<nat>)
    ensures r.None? <==> count == 0
    ensures r == Some(0) <==> count < 0
    ensures count > 0 ==> r == Some(count)
  {
    if count == 0 then None else if count < 0 then Some(0) else Some(count)
  }

  function Spend(limit: Option<nat>): Option<nat>
    requires limit != Some(0)
  {
    match limit
    case None => None
    case Some(n) => Some(n - 1)
  }

  /** Scan s from the left, replacing each match of pat by repl while the
      limit allows. An empty pat matches before every character and at the
      end. A spent limit, or a non-empty pat that occurs nowhere in s,
      leaves s as it is. */
  function SubLiteral(pat: string, repl: string, s: string, ignoreCase: bool, limit: Option<nat>): (r: string)
    ensures limit == Some(0) ==> r == s
    ensures pat != [] && (forall p: nat :: !MatchesAt(s, p, pat, ignoreCase)) ==> r == s
    decreases |s|
  {
    if limit == Some(0) then s
    else if pat == [] then
      if s == [] then repl else repl + [s[0]] + SubLiteral(pat, repl, s[1..], ignoreCase, Spend(limit))
    else if s == [] then []
    else if MatchesAt(s, 0, pat, ignoreCase) then repl + SubLiteral(pat, repl, s[|pat|..], ignoreCase, Spend(limit))
    else
      assert (forall p: nat :: !MatchesAt(s, p, pat, ignoreCase)) ==> forall p: nat :: !MatchesAt(s[1..], p, pat, ignoreCase) by {
        forall p: nat | !MatchesAt(s, p + 1, pat, ignoreCase) ensures !MatchesAt(s[1..], p, pat, ignoreCase) {
          MatchShift(s, p, pat, ignoreCase);
        }
      }
      assert s == [s[0]] + s[1..];
      [s[0]] + SubLiteral(pat, repl, s[1..], ignoreCase, limit)
  }

  /** A match in s one position to the right is a match in s[1..]. */
  lemma MatchShift(s: string, p: nat, pat: string, ignoreCase: bool)
    requires s != []
    ensures MatchesAt(s[1..], p, pat, ignoreCase) <==> MatchesAt(s, p + 1, pat, ignoreCase)
  {
    if MatchesAt(s, p + 1, pat, ignoreCase) {
      forall k | 0 <= k < |pat| ensures SameChar(s[1..][p + k], pat[k], ignoreCase) {
        assert s[1..][p + k] == s[p + 1 + k];
      }
    }
  }

  /** Case-sensitive matching is equality of the characters. */
  lemma CaseSensitiveMatchIsEquality(s: string, p: nat, pat: string)
    ensures MatchesAt(s, p, pat, false) <==> p + |pat| <= |s| && s[p..p + |pat|] == pat
  {
    if p + |pat| <= |s| && s[p..p + |pat|] == pat {
      forall k | 0 <= k < |pat| ensures s[p + k] == pat[k] {
        assert s[p..p + |pat|][k] == s[p + k];
      }
    }
  }

  /** Case-insensitive matching is equality after folding both sides to
      lower case; the text itself is not folded. */
  lemma IgnoreCaseMatchIsFoldedEquality(s: string, p: nat, pat: string)
    ensures MatchesAt(s, p, pat, true) <==> p + |pat| <= |s| && LowerAll(s[p..p + |pat|]) == LowerAll(pat)
  {
    if p + |pat| <= |s| && LowerAll(s[p..p + |pat|]) == LowerAll(pat) {
      forall k | 0 <= k < |pat| ensures Lower(s[p + k]) == Lower(pat[k]) {
        assert LowerAll(s[p..p + |pat|])[k] == Lower(s[p + k]);
      }
    }
  }

  /** One step of the scan where pat does not match at the start. */
  lemma SubSkip(pat: string, repl: string, s: string, ignoreCase: bool, limit: Option<nat>)
    requires pat != [] && limit != Some(0) && s != [] && !MatchesAt(s, 0, pat, ignoreCase)
    ensures SubLiteral(pat, repl, s, ignoreCase, limit) == [s[0]] + SubLiteral(pat, repl, s[1..], ignoreCase, limit)
  {
  }

  /** One step of the scan where pat matches at the start. */
  lemma SubHere(pat: string, repl: string, s: string, ignoreCase: bool, limit: Option<nat>)
    requires pat != [] && limit != Some(0) && MatchesAt(s, 0, pat, ignoreCase)
    ensures SubLiteral(pat, repl, s, ignoreCase, limit) == repl + SubLiteral(pat, repl, s[|pat|..], ignoreCase, Spend(limit))
  {
  }

  /** A match at position i of s is a match at the start of s[i..]. */
  lemma MatchSuffix(s: string, i: nat, pat: string, ignoreCase: bool)
    requires i <= |s|
    ensures MatchesAt(s[i..], 0, pat, ignoreCase) <==> MatchesAt(s, i, pat, ignoreCase)
  {
    if MatchesAt(s, i, pat, ignoreCase) {
      forall k | 0 <= k < |pat| ensures SameChar(s[i..][k], pat[k], ignoreCase) {
        assert s[i..][k] == s[i + k];
      }
    }
  }

  /** Scanning s from position j where pat does not match there keeps s[j]. */
  lemma SkipAt(pat: string, repl: string, s: string, ignoreCase: bool, limit: Option<nat>, j: nat)
    requires pat != [] && limit != Some(0) && j < |s| && !MatchesAt(s, j, pat, ignoreCase)
    ensures SubLiteral(pat, repl, s[j..], ignoreCase, limit) == [s[j]] + SubLiteral(pat, repl, s[j + 1..], ignoreCase, limit)
  {
    MatchSuffix(s, j, pat, ignoreCase);
    SubSkip(pat, repl, s[j..], ignoreCase, limit);
    assert s[j..][1..] == s[j + 1..];
  }

  /** Scanning s from a match at position p replaces it and spends one. */
  lemma ReplaceAt(pat: string, repl: string, s: string, ignoreCase: bool, limit: Option<nat>, p: nat)
    requires pat != [] && limit != Some(0) && MatchesAt(s, p, pat, ignoreCase)
    ensures SubLiteral(pat, repl, s[p..], ignoreCase, limit)
            == repl + SubLiteral(pat, repl, s[p + |pat|..], ignoreCase, Spend(limit))
  {
    MatchSuffix(s, p, pat, ignoreCase);
    SubHere(pat, repl, s[p..], ignoreCase, limit);
    assert s[p..][|pat|..] == s[p + |pat|..];
  }

  /** Text in front of the first i positions, none of which starts a match,
      is kept as it is. */
  lemma {:induction false} KeepsPrefix(pat: string, repl: string, s: string, ignoreCase: bool, limit: Option<nat>, i: nat)
    requires pat != [] && limit != Some(0) && i <= |s|
    requires forall q :: 0 <= q < i ==> !MatchesAt(s, q, pat, ignoreCase)
    ensures SubLiteral(pat, repl, s, ignoreCase, limit) == s[..i] + SubLiteral(pat, repl, s[i..], ignoreCase, limit)
    decreases i
  {
    if i == 0 {
      assert s[..i] == [] && s[i..] == s;
    } else {
      KeepsPrefix(pat, repl, s, ignoreCase, limit, i - 1);
      SkipAt(pat, repl, s, ignoreCase, limit, i - 1);
      GrowPrefix(s, i, SubLiteral(pat, repl, s, ignoreCase, limit),
                 SubLiteral(pat, repl, s[i - 1..], ignoreCase, limit), SubLiteral(pat, repl, s[i..], ignoreCase, limit));
    }
  }

  /** Moving one more character of s into the kept prefix. */
  lemma GrowPrefix(s: string, i: nat, whole: string, fromPrev: string, fromHere: string)
    requires 0 < i <= |s|
    requires whole == s[..i - 1] + fromPrev && fromPrev == [s[i - 1]] + fromHere
    ensures whole == s[..i] + fromHere
  {
    assert s[..i - 1] + [s[i - 1]] == s[..i];
  }

  /** While the limit allows, the leftmost match is replaced and the scan
      goes on after it with one replacement fewer; the text before the
      match is kept as it was, including its case. */
  lemma ReplacesLeftmostFirst(pat: string, repl: string, s: string, ignoreCase: bool, limit: Option<nat>, p: nat)
    requires pat != [] && limit != Some(0) && FirstMatch(s, pat, ignoreCase) == Some(p)
    ensures p + |pat| <= |s|
    ensures SubLiteral(pat, repl, s, ignoreCase, limit)
            == s[..p] + repl + SubLiteral(pat, repl, s[p + |pat|..], ignoreCase, Spend(limit))
  {
    assert MatchesAt(s, p, pat, ignoreCase);
    KeepsPrefix(pat, repl, s, ignoreCase, limit, p);
    ReplaceAt(pat, repl, s, ignoreCase, limit, p);
    Splice(SubLiteral(pat, repl, s, ignoreCase, limit), s[..p], SubLiteral(pat, repl, s[p..], ignoreCase, limit),
           repl, SubLiteral(pat, repl, s[p + |pat|..], ignoreCase, Spend(limit)));
  }

  /** Text kept, then a replacement, then the rest, in that order. */
  lemma Splice(whole: string, kept: string, fromMatch: string, repl: string, rest: string)
    requires whole == kept + fromMatch && fromMatch == repl + rest
    ensures whole == kept + repl + rest
  {
    assert kept + (repl + rest) == kept + repl + rest;
  }

  /** With count 1 only the leftmost match is replaced; the text before and
      after it is kept as it was, including its case. */
  lemma ReplacesLeftmostOnly(pat: string, repl: string, s: string, ignoreCase: bool)
    requires pat != [] && FirstMatch(s, pat, ignoreCase).Some?
    ensures var p := FirstMatch(s, pat, ignoreCase).value;
            SubLiteral(pat, repl, s, ignoreCase, Some(1)) == s[..p] + repl + s[p + |pat|..]
  {
    var p := FirstMatch(s, pat, ignoreCase).value;
    ReplacesLeftmostFirst(pat, repl, s, ignoreCase, Some(1), p);
    assert Spend(Some(1)) == Some(0);
    assert SubLiteral(pat, repl, s[p + |pat|..], ignoreCase, Some(0)) == s[p + |pat|..];
  }

  /** The leftmost position where pat matches s, found by scanning from the left. */
  function FirstMatch(s: string, pat: string, ignoreCase: bool): (r: Option<nat>)
    ensures r.Some? ==> MatchesAt(s, r.value, pat, ignoreCase)
    ensures r.Some? ==> forall q :: 0 <= q < r.value ==> !MatchesAt(s, q, pat, ignoreCase)
    ensures r.None? ==> forall p: nat :: !MatchesAt(s, p, pat, ignoreCase)
    decreases |s|
  {
    if MatchesAt(s, 0, pat, ignoreCase) then Some(0)
    else if s == [] then None
    else
      var rest := FirstMatch(s[1..], pat, ignoreCase);
      if rest.None? then
        assert forall p: nat :: !MatchesAt(s, p, pat, ignoreCase) by {
          forall p: nat ensures !MatchesAt(s, p, pat, ignoreCase) {
            if p > 0 { MatchShift(s, p - 1, pat, ignoreCase); }
          }
        }
        None
      else
        assert forall q :: 0 <= q < rest.value + 1 ==> !MatchesAt(s, q, pat, ignoreCase) by {
          forall q | 0 <= q < rest.value + 1 ensures !MatchesAt(s, q, pat, ignoreCase) {
            if q > 0 { MatchShift(s, q - 1, pat, ignoreCase); }
          }
        }
        MatchShift(s, rest.value, pat, ignoreCase);
        Some(rest.value + 1)
  }

  /** Replacing a pattern by itself, case-sensitively, leaves every name as it was. */
  lemma {:induction false} ReplaceBySelfIsIdentity(pat: string, s: string, limit: Option<nat>)
    ensures SubLiteral(pat, pat, s, false, limit) == s
    decreases |s|
  {
    if limit != Some(0) && s != [] {
      if pat == [] {
        ReplaceBySelfIsIdentity(pat, s[1..], Spend(limit));
        assert s == [s[0]] + s[1..];
      } else if MatchesAt(s, 0, pat, false) {
        CaseSensitiveMatchIsEquality(s, 0, pat);
        ReplaceBySelfIsIdentity(pat, s[|pat|..], Spend(limit));
        assert s == s[..|pat|] + s[|pat|..];
      } else {
        ReplaceBySelfIsIdentity(pat, s[1..], limit);
        assert s == [s[0]] + s[1..];
      }
    }
  }

  /** An empty pattern with count 1 inserts repl in front of the name. */
  lemma EmptyPatternPrepends(repl: string, s: string, ignoreCase: bool)
    ensures SubLiteral([], repl, s, ignoreCase, Some(1)) == repl + s
  {
    if s != [] {
      assert SubLiteral([], repl, s, ignoreCase, Some(1)) == repl + [s[0]] + s[1..];
    }
  }

  /** pattern.sub(repl, name, count), the substitution replace() applies to
      one name: a name in which pat does not occur comes back unchanged; with
      count 1 only the leftmost match is replaced and the text around it is
      kept as written; an empty pat with count 1 puts repl in front. */
  function PatternSub(pat: string, repl: string, name: string, matchCase: bool, count: int): (r: string)
    requires IsLiteralPattern(pat) && IsLiteralReplacement(repl)
    ensures pat != [] && FirstMatch(name, pat, !matchCase).None? ==> r == name
    ensures pat != [] && count == 1 && FirstMatch(name, pat, !matchCase).Some? ==>
              var p := FirstMatch(name, pat, !matchCase).value;
              r == name[..p] + repl + name[p + |pat|..]
    ensures pat == [] && count == 1 ==> r == repl + name
    ensures count < 0 ==> r == name
  {
    SubstitutesOnce(pat, repl, name, !matchCase);
    SubLiteral(pat, repl, name, !matchCase, MaxReplacements(count))
  }

  /** With a limit of 1, a pattern that occurs is replaced at its leftmost
      match only, and an empty pattern puts the replacement in front. */
  lemma SubstitutesOnce(pat: string, repl: string, s: string, ignoreCase: bool)
    ensures pat != [] && FirstMatch(s, pat, ignoreCase).Some? ==>
              var p := FirstMatch(s, pat, ignoreCase).value;
              SubLiteral(pat, repl, s, ignoreCase, Some(1)) == s[..p] + repl + s[p + |pat|..]
    ensures pat == [] ==> SubLiteral(pat, repl, s, ignoreCase, Some(1)) == repl + s
  {
    if pat != [] && FirstMatch(s, pat, ignoreCase).Some? {
      ReplacesLeftmostOnly(pat, repl, s, ignoreCase);
    } else if pat == [] {
      EmptyPatternPrepends(repl, s, ignoreCase);
    }
  }

  /** The count rule of pattern.sub(repl, name, count) once pat occurs in
      name: count 0 replaces the leftmost match and then every match after
      it; a count k above 1 the leftmost and then k - 1 more after it. */
  lemma PatternSubCount(pat: string, repl: string, name: string, matchCase: bool, count: int, p: nat)
    requires IsLiteralPattern(pat) && IsLiteralReplacement(repl)
    requires pat != [] && count >= 0 && count != 1 && FirstMatch(name, pat, !matchCase) == Some(p)
    ensures PatternSub(pat, repl, name, matchCase, count)
            == name[..p] + repl + PatternSub(pat, repl, name[p + |pat|..], matchCase, if count == 0 then 0 else count - 1)
  {
    var next := if count == 0 then 0 else count - 1;
    var limit := MaxReplacements(count);
    var rest := name[p + |pat|..];
    assert MaxReplacements(next) == Spend(limit);
    ReplacesLeftmostFirst(pat, repl, name, !matchCase, limit, p);
    assert SubLiteral(pat, repl, name, !matchCase, limit)
           == name[..p] + repl + SubLiteral(pat, repl, rest, !matchCase, MaxReplacements(next));
    PatternSubScans(pat, repl, name, matchCase, count);
    PatternSubScans(pat, repl, rest, matchCase, next);
  }

  /** An empty pat matches before each character and at the end: count 0
      puts repl around and between all characters, a count k above 1 before
      the first k characters. */
  lemma EmptyPatternCount(repl: string, name: string, matchCase: bool, count: int)
    requires IsLiteralReplacement(repl) && count >= 0 && count != 1
    ensures name == [] ==> PatternSub([], repl, name, matchCase, count) == repl
    ensures name != [] ==>
              (PatternSub([], repl, name, matchCase, count)
               == repl + [name[0]] + PatternSub([], repl, name[1..], matchCase, if count == 0 then 0 else count - 1))
  {
    var next := if count == 0 then 0 else count - 1;
    assert MaxReplacements(next) == Spend(MaxReplacements(count));
    PatternSubScans([], repl, name, matchCase, count);
    if name != [] {
      PatternSubScans([], repl, name[1..], matchCase, next);
    }
  }

  /** pattern.sub is the scan with the bound the count sets. */
  lemma PatternSubScans(pat: string, repl: string, name: string, matchCase: bool, count: int)
    requires IsLiteralPattern(pat) && IsLiteralReplacement(repl)
    ensures PatternSub(pat, repl, name, matchCase, count) == SubLiteral(pat, repl, name, !matchCase, MaxReplacements(count))
  {
  }
}
