// The meaning of the name patterns a physical match uses (util/models.go,
// Glob2RE). Glob2RE quotes every regular-expression metacharacter, turns
// the quoted `*` into `.*` and the quoted `?` into `.`, and anchors the
// result at both ends. Its meaning is stated here directly, as a recursive
// match over pattern and candidate. Go's `.` never matches a newline, so
// neither wildcard consumes one.
module Glob {

  /** True iff the whole of `s` matches the glob `p`. */
  predicate Matches(p: string, s: string)
    decreases |p| + |s|
  {
    if p == [] then s == []
    else if p[0] == '*' then
      Matches(p[1..], s) || (s != [] && s[0] != '\n' && Matches(p, s[1..]))
    else if s == [] then false
    else if p[0] == '?' then s[0] != '\n' && Matches(p[1..], s[1..])
    else p[0] == s[0] && Matches(p[1..], s[1..])
  }

  predicate IsWildcard(c: char) {
    c == '*' || c == '?'
  }

  /** No `*` and no `?`: every character stands for itself. */
  predicate Literal(p: string) {
    forall i :: 0 <= i < |p| ==> !IsWildcard(p[i])
  }

  predicate NoNewline(s: string) {
    forall i :: 0 <= i < |s| ==> s[i] != '\n'
  }

  /** A pattern without wildcards matches exactly the string it spells:
    * every other character, regular-expression metacharacters such as `.`
    * and `+` included, is literal, and the match is anchored. */
  lemma {:induction false} LiteralMatchesItselfOnly(p: string, s: string)
    requires Literal(p)
    ensures Matches(p, s) <==> s == p
    decreases |p|
  {
    if p != [] && s != [] {
      LiteralMatchesItselfOnly(p[1..], s[1..]);
      assert p == [p[0]] + p[1..] && s == [s[0]] + s[1..];
    }
  }

  /** `*` followed by `rest` matches `s` iff some newline-free prefix of `s`
    * can be skipped so that `rest` matches what is left: a star matches any,
    * possibly empty, run of characters. */
  lemma {:induction false} StarMatchesAnyRun(rest: string, s: string)
    ensures Matches(['*'] + rest, s) <==>
      exists k :: 0 <= k <= |s| && NoNewline(s[..k]) && Matches(rest, s[k..])
    decreases |s|
  {
    var p := ['*'] + rest;
    assert p[1..] == rest;
    if Matches(p, s) {
      if Matches(rest, s) {
        assert s[0..] == s && NoNewline(s[..0]);
      } else {
        StarMatchesAnyRun(rest, s[1..]);
        var k :| 0 <= k <= |s[1..]| && NoNewline(s[1..][..k]) && Matches(rest, s[1..][k..]);
        assert s[1..][k..] == s[k + 1..];
        var run, tail := s[..k + 1], s[1..][..k];
        forall i | 1 <= i < |run| ensures run[i] != '\n' {
          assert run[i] == tail[i - 1];
        }
      }
    }
    if exists k :: 0 <= k <= |s| && NoNewline(s[..k]) && Matches(rest, s[k..]) {
      var k :| 0 <= k <= |s| && NoNewline(s[..k]) && Matches(rest, s[k..]);
      if k == 0 {
        assert s[0..] == s;
      } else {
        assert s[..k][0] == s[0];
        assert s[1..][k - 1..] == s[k..];
        var run, tail := s[..k], s[1..][..k - 1];
        forall i | 0 <= i < |tail| ensures tail[i] != '\n' {
          assert tail[i] == run[i + 1];
        }
        StarMatchesAnyRun(rest, s[1..]);
      }
    }
  }

  /** `?` followed by `rest` matches `s` iff `s` starts with exactly one
    * non-newline character and `rest` matches everything after it. */
  lemma QuestionMatchesOneChar(rest: string, s: string)
    ensures Matches(['?'] + rest, s) <==> |s| >= 1 && s[0] != '\n' && Matches(rest, s[1..])
  {
    assert (['?'] + rest)[1..] == rest;
  }

  /** Patterns compose: if `p1` matches `s1` and `p2` matches `s2` then
    * `p1 + p2` matches `s1 + s2`. */
  lemma {:induction false} MatchesConcat(p1: string, s1: string, p2: string, s2: string)
    requires Matches(p1, s1) && Matches(p2, s2)
    ensures Matches(p1 + p2, s1 + s2)
    decreases |p1| + |s1|
  {
    if p1 == [] {
      assert p1 + p2 == p2 && s1 + s2 == s2;
    } else if p1[0] == '*' {
      assert (p1 + p2)[1..] == p1[1..] + p2;
      if Matches(p1[1..], s1) {
        MatchesConcat(p1[1..], s1, p2, s2);
      } else {
        MatchesConcat(p1, s1[1..], p2, s2);
        assert (s1 + s2)[1..] == s1[1..] + s2;
      }
    } else {
      assert (p1 + p2)[1..] == p1[1..] + p2;
      assert (s1 + s2)[1..] == s1[1..] + s2;
      MatchesConcat(p1[1..], s1[1..], p2, s2);
    }
  }

  /** The count of characters of `p` that are not `*`. */
  function FixedLength(p: string): nat
    decreases |p|
  {
    if p == [] then 0 else (if p[0] == '*' then 0 else 1) + FixedLength(p[1..])
  }

  /** Anchoring: every character of `p` other than `*` consumes exactly one
    * character of the candidate, so a pattern never matches a candidate
    * shorter than that count, and a star-free pattern only one of exactly
    * its length. */
  lemma {:induction false} MatchLength(p: string, s: string)
    requires Matches(p, s)
    ensures |s| >= FixedLength(p)
    ensures (forall i :: 0 <= i < |p| ==> p[i] != '*') ==> |s| == |p|
    decreases |p| + |s|
  {
    if p != [] {
      if p[0] == '*' {
        if Matches(p[1..], s) {
          MatchLength(p[1..], s);
        } else {
          MatchLength(p, s[1..]);
        }
      } else {
        MatchLength(p[1..], s[1..]);
        assert forall i :: 0 <= i < |p[1..]| ==> p[1..][i] == p[i + 1];
      }
    }
  }
}
