/** The path matcher of the audit rules (the filter list carries an identical copy): '*' matches
    any run of characters, recursion is cut off at depth 16, and a star that is followed by more
    pattern only tries suffixes that are not empty. */
module AuditGlob {

  const GLOB_MAX_DEPTH: nat := 16

  /** The matcher as a function of the remaining path and pattern. */
  function GlobDepth(path: string, pattern: string, depth: nat): (r: bool)
    decreases |pattern|, 1
  {
    depth < GLOB_MAX_DEPTH && Scan(path, pattern, depth)
  }

  function Scan(path: string, pattern: string, depth: nat): (r: bool)
    decreases |pattern|, 0
  {
    if pattern == "" then path == ""
    else if pattern[0] == '*' then
      pattern[1..] == "" || exists i :: 0 <= i < |path| && GlobDepth(path[i..], pattern[1..], depth + 1)
    else path != "" && pattern[0] == path[0] && Scan(path[1..], pattern[1..], depth)
  }

  method Glob(path: string, pattern: string, depth: nat) returns (r: bool)
    ensures r == GlobDepth(path, pattern, depth)
    decreases |pattern|
  {
    if depth >= GLOB_MAX_DEPTH { return false; }
    var s, p := 0, 0;
    while p < |pattern|
      invariant 0 <= p <= |pattern| && 0 <= s <= |path|
      invariant Scan(path[s..], pattern[p..], depth) == Scan(path, pattern, depth)
    {
      if pattern[p] == '*' {
        p := p + 1;
        if p >= |pattern| { return true; }
        ghost var from := path[s..];
        ghost var rest := pattern[p..];
        ghost var s0 := s;
        while s < |path|
          invariant s0 <= s <= |path|
          invariant forall i :: 0 <= i < s - s0 ==> !GlobDepth(from[i..], rest, depth + 1)
        {
          var hit := Glob(path[s..], pattern[p..], depth + 1);
          assert path[s..] == from[s - s0..];
          if hit { return true; }
          s := s + 1;
        }
        return false;
      } else if s < |path| && pattern[p] == path[s] {
        p := p + 1;
        s := s + 1;
      } else {
        return false;
      }
    }
    return s >= |path|;
  }

  // ---------------------------------------------------------------- the textbook relation

  /** '*' stands for any, possibly empty, run of characters; anything else for itself. */
  ghost predicate Matches(text: string, pattern: string)
    decreases |pattern|
  {
    if pattern == "" then text == ""
    else if pattern[0] == '*' then exists i :: 0 <= i <= |text| && Matches(text[i..], pattern[1..])
    else text != "" && pattern[0] == text[0] && Matches(text[1..], pattern[1..])
  }

  /** The same, except that what follows a star, if anything, must be matched by a nonempty rest. */
  ghost predicate Strict(text: string, pattern: string)
    decreases |pattern|
  {
    if pattern == "" then text == ""
    else if pattern[0] == '*' then
      pattern[1..] == "" || exists i :: 0 <= i < |text| && Strict(text[i..], pattern[1..])
    else text != "" && pattern[0] == text[0] && Strict(text[1..], pattern[1..])
  }

  /** Stars that are followed by more pattern. */
  function InnerStars(pattern: string): nat {
    if |pattern| <= 1 then 0 else (if pattern[0] == '*' then 1 else 0) + InnerStars(pattern[1..])
  }

  function Literals(pattern: string): string {
    if pattern == "" then ""
    else if pattern[0] == '*' then Literals(pattern[1..])
    else [pattern[0]] + Literals(pattern[1..])
  }

  predicate EndsInTwoStars(pattern: string) {
    |pattern| >= 2 && pattern[|pattern| - 1] == '*' && pattern[|pattern| - 2] == '*'
  }

  /** The depth limit is a limit on inner stars and on nothing else. */
  lemma {:induction false} DepthExactly(text: string, pattern: string, depth: nat)
    ensures GlobDepth(text, pattern, depth) <==> Strict(text, pattern) && depth + InnerStars(pattern) < GLOB_MAX_DEPTH
    decreases |pattern|
  {
    if pattern != "" {
      var rest := pattern[1..];
      if pattern[0] == '*' {
        if rest != "" {
          forall i | 0 <= i < |text|
            ensures GlobDepth(text[i..], rest, depth + 1)
                <==> Strict(text[i..], rest) && depth + InnerStars(pattern) < GLOB_MAX_DEPTH
          {
            DepthExactly(text[i..], rest, depth + 1);
          }
        }
      } else if text != "" {
        DepthExactly(text[1..], rest, depth);
      }
    }
  }

  /** Sound for every pattern. */
  lemma {:induction false} StrictSound(text: string, pattern: string)
    requires Strict(text, pattern)
    ensures Matches(text, pattern)
    decreases |pattern|
  {
    if pattern != "" {
      if pattern[0] == '*' {
        if pattern[1..] == "" {
          assert Matches(text[|text|..], pattern[1..]);
        } else {
          var i :| 0 <= i < |text| && Strict(text[i..], pattern[1..]);
          StrictSound(text[i..], pattern[1..]);
        }
      } else {
        StrictSound(text[1..], pattern[1..]);
      }
    }
  }

  lemma {:induction false} EmptyMatchesStars(pattern: string)
    requires Matches("", pattern)
    ensures forall k :: 0 <= k < |pattern| ==> pattern[k] == '*'
    decreases |pattern|
  {
    if pattern != "" {
      var i :| 0 <= i <= |""| && Matches(""[i..], pattern[1..]);
      assert ""[i..] == "";
      EmptyMatchesStars(pattern[1..]);
    }
  }

  /** Complete unless the pattern ends in two stars. */
  lemma {:induction false} StrictComplete(text: string, pattern: string)
    requires Matches(text, pattern) && !EndsInTwoStars(pattern)
    ensures Strict(text, pattern)
    decreases |pattern|
  {
    if pattern != "" {
      var rest := pattern[1..];
      assert EndsInTwoStars(rest) ==> EndsInTwoStars(pattern);
      if pattern[0] == '*' {
        if rest != "" {
          var i :| 0 <= i <= |text| && Matches(text[i..], rest);
          if i == |text| {
            assert text[i..] == "";
            EmptyMatchesStars(rest);
            assert false;
          }
          StrictComplete(text[i..], rest);
        }
      } else {
        StrictComplete(text[1..], rest);
      }
    }
  }

  /** A strict match needs room for the literals, and for one more character under a double star. */
  lemma {:induction false} StrictLength(text: string, pattern: string)
    requires Strict(text, pattern)
    ensures |text| >= |Literals(pattern)| + (if EndsInTwoStars(pattern) then 1 else 0)
    decreases |pattern|
  {
    if pattern != "" {
      var rest := pattern[1..];
      if pattern[0] == '*' {
        if rest != "" {
          var i :| 0 <= i < |text| && Strict(text[i..], rest);
          StrictLength(text[i..], rest);
          if EndsInTwoStars(pattern) && !EndsInTwoStars(rest) {
            assert |rest| == 1 && Literals(rest) == "";
          }
        }
      } else {
        StrictLength(text[1..], rest);
        assert EndsInTwoStars(pattern) ==> EndsInTwoStars(rest);
      }
    }
  }

  /** Dropping the stars from a pattern gives a text it stands for. */
  lemma {:induction false} LiteralsMatch(pattern: string)
    ensures Matches(Literals(pattern), pattern)
  {
    if pattern != "" {
      LiteralsMatch(pattern[1..]);
      var t := Literals(pattern);
      if pattern[0] == '*' {
        assert t[0..] == t;
      } else {
        assert t[1..] == Literals(pattern[1..]);
      }
    }
  }

  /** The matcher never accepts a text the pattern does not stand for. */
  lemma GlobSound(text: string, pattern: string)
    requires GlobDepth(text, pattern, 0)
    ensures Matches(text, pattern)
  {
    DepthExactly(text, pattern, 0);
    StrictSound(text, pattern);
  }

  /** It decides the textbook relation, for all texts, exactly for the patterns with at most 15
      inner stars that do not end in two stars. */
  lemma GlobCompleteExactly(pattern: string)
    ensures (forall text :: GlobDepth(text, pattern, 0) <==> Matches(text, pattern))
            <==> InnerStars(pattern) <= 15 && !EndsInTwoStars(pattern)
  {
    if InnerStars(pattern) <= 15 && !EndsInTwoStars(pattern) {
      forall text ensures GlobDepth(text, pattern, 0) <==> Matches(text, pattern) {
        DepthExactly(text, pattern, 0);
        if Matches(text, pattern) { StrictComplete(text, pattern); }
        if Strict(text, pattern) { StrictSound(text, pattern); }
      }
    } else {
      var t := Literals(pattern);
      LiteralsMatch(pattern);
      DepthExactly(t, pattern, 0);
      if Strict(t, pattern) { StrictLength(t, pattern); }
      assert Matches(t, pattern) && !GlobDepth(t, pattern, 0);
    }
  }
}
