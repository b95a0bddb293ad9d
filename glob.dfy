/**
 Matching a file name against a shell-style pattern, as `Path.rglob` does for
 each entry it visits. Only the two kinds of pattern character the copy plan
 uses are modelled: `*`, which matches any run of characters (leading dots
 included, as in pathlib), and a literal character, which matches itself.
 */
module Glob {

  /** Does the whole of `s` match `pattern`? */
  function Matches(pattern: string, s: string): bool
    decreases |pattern| + |s|
  {
    if pattern == [] then s == []
    else if pattern[0] == '*' then Matches(pattern[1..], s) || (s != [] && Matches(pattern, s[1..]))
    else s != [] && s[0] == pattern[0] && Matches(pattern[1..], s[1..])
  }

  /** A pattern without `*` matches only the name spelled exactly like it, letter case included. */
  lemma {:induction false} LiteralMatchesItself(pattern: string, s: string)
    requires '*' !in pattern
    ensures Matches(pattern, s) <==> s == pattern
  {
    if pattern != [] && s != [] {
      assert '*' !in pattern[1..];
      LiteralMatchesItself(pattern[1..], s[1..]);
      assert s == pattern <==> s[0] == pattern[0] && s[1..] == pattern[1..];
    }
  }

  /** A lone `*` matches every name. */
  lemma {:induction false} StarMatchesAll(s: string)
    ensures Matches("*", s)
  {
    if s != [] {
      StarMatchesAll(s[1..]);
    }
  }

  /** `.*` matches exactly the names that start with a dot. */
  lemma DotStar(s: string)
    ensures Matches(".*", s) <==> s != [] && s[0] == '.'
  {
    assert ".*"[1..] == "*";
    if s != [] {
      StarMatchesAll(s[1..]);
    }
  }

  /** The pattern `*.*` matches exactly the names that contain a dot somewhere. */
  lemma {:induction false} StarDotStar(s: string)
    ensures Matches("*.*", s) <==> '.' in s
  {
    assert "*.*"[1..] == ".*";
    DotStar(s);
    if s != [] {
      StarDotStar(s[1..]);
      assert '.' in s <==> s[0] == '.' || '.' in s[1..];
    }
  }
}
