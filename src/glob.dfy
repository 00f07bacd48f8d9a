/**
 * `fnmatch.fnmatch(name, pattern)` on a POSIX host, where `normcase` is the
 * identity: the whole name must match, `*` matches any run of characters
 * (the path separator '/' included), `?` matches exactly one character,
 * every other character matches itself.  Bracket classes (`[...]`) are not
 * part of this model, so patterns containing '[' are excluded.
 */
module Glob {

  predicate GlobSafe(pattern: string)
  {
    '[' !in pattern
  }

  function GlobMatch(pattern: string, name: string): bool
    requires GlobSafe(pattern)
    decreases |pattern| + |name|
  {
    if pattern == [] then name == []
    else if pattern[0] == '*' then
      GlobMatch(pattern[1..], name) || (name != [] && GlobMatch(pattern, name[1..]))
    else if pattern[0] == '?' then
      name != [] && GlobMatch(pattern[1..], name[1..])
    else
      name != [] && name[0] == pattern[0] && GlobMatch(pattern[1..], name[1..])
  }

  /** A pattern without `*` or `?` matches exactly the name equal to it. */
  lemma {:induction false} LiteralPatternMatchesOnlyItself(pattern: string, name: string)
    requires GlobSafe(pattern) && '*' !in pattern && '?' !in pattern
    ensures GlobMatch(pattern, name) <==> pattern == name
    decreases |pattern|
  {
    if pattern != [] && name != [] {
      LiteralPatternMatchesOnlyItself(pattern[1..], name[1..]);
      assert pattern == [pattern[0]] + pattern[1..];
      assert name == [name[0]] + name[1..];
    }
  }

  /** `*` alone matches every name, separators included. */
  lemma {:induction false} StarMatchesEverything(name: string)
    ensures GlobMatch("*", name)
    decreases |name|
  {
    if name != [] {
      StarMatchesEverything(name[1..]);
    }
  }

  /**
   * A pattern matches every name of its length that agrees with it outside
   * the positions holding `*` or `?`; in particular every pattern matches
   * its own text.
   */
  lemma {:induction false} PointwiseMatch(pattern: string, name: string)
    requires GlobSafe(pattern) && |pattern| == |name|
    requires forall i :: 0 <= i < |pattern| ==>
               pattern[i] == name[i] || pattern[i] == '*' || pattern[i] == '?'
    ensures GlobMatch(pattern, name)
    decreases |pattern|
  {
    if pattern != [] {
      PointwiseMatch(pattern[1..], name[1..]);
      if pattern[0] == '*' {
        assert GlobMatch(pattern, name[1..]);
      }
    }
  }

  /** A literal prefix of the pattern must be a prefix of the name. */
  lemma {:induction false} LiteralPrefix(literal: string, rest: string, name: string)
    requires '*' !in literal && '?' !in literal && GlobSafe(literal) && GlobSafe(rest)
    ensures GlobSafe(literal + rest)
    ensures GlobMatch(literal + rest, name) <==>
              |literal| <= |name| && name[..|literal|] == literal && GlobMatch(rest, name[|literal|..])
    decreases |literal|
  {
    var p := literal + rest;
    if literal == [] {
      assert p == rest && name[..0] == [] && name[0..] == name;
    } else {
      assert p[0] == literal[0] && p[1..] == literal[1..] + rest;
      if name != [] {
        LiteralPrefix(literal[1..], rest, name[1..]);
        if |literal| <= |name| {
          assert name[..|literal|] == [name[0]] + name[1..][..|literal| - 1];
          assert literal == [literal[0]] + literal[1..];
          assert name[|literal|..] == name[1..][|literal| - 1..];
        }
      }
    }
  }

  /** A leading `*` lets the rest of the pattern match any suffix of the name. */
  lemma {:induction false} LeadingStar(rest: string, name: string)
    requires GlobSafe(rest)
    ensures GlobSafe("*" + rest)
    ensures GlobMatch("*" + rest, name) <==> exists i :: 0 <= i <= |name| && GlobMatch(rest, name[i..])
    decreases |name|
  {
    var p := "*" + rest;
    assert p[0] == '*' && p[1..] == rest;
    assert name[0..] == name;
    if name != [] {
      LeadingStar(rest, name[1..]);
      if GlobMatch(p, name[1..]) {
        var i :| 0 <= i <= |name[1..]| && GlobMatch(rest, name[1..][i..]);
        assert name[1..][i..] == name[i + 1..];
      }
      if i :| 0 <= i <= |name| && GlobMatch(rest, name[i..]) {
        if i > 0 {
          assert name[1..][i - 1..] == name[i..];
        }
      }
    }
  }

  /** Matches compose: a match of each half is a match of the concatenation. */
  lemma {:induction false} MatchConcat(p1: string, n1: string, p2: string, n2: string)
    requires GlobSafe(p1) && GlobSafe(p2)
    requires GlobMatch(p1, n1) && GlobMatch(p2, n2)
    ensures GlobSafe(p1 + p2) && GlobMatch(p1 + p2, n1 + n2)
    decreases |p1| + |n1|
  {
    var p, n := p1 + p2, n1 + n2;
    if p1 == [] {
      assert p == p2 && n1 == [] && n == n2;
    } else if p1[0] == '*' {
      assert p[0] == '*' && p[1..] == p1[1..] + p2;
      if GlobMatch(p1[1..], n1) {
        MatchConcat(p1[1..], n1, p2, n2);
      } else {
        assert n1 != [] && GlobMatch(p1, n1[1..]);
        MatchConcat(p1, n1[1..], p2, n2);
        assert n[1..] == n1[1..] + n2;
      }
    } else {
      assert n1 != [];
      MatchConcat(p1[1..], n1[1..], p2, n2);
      assert p[1..] == p1[1..] + p2;
      assert n[1..] == n1[1..] + n2;
    }
  }
}
