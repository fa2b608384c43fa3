/** What lies below a directory rule: everything inside the directories the rule hits, and when that holds. */
module DirectoryRules {
  import opened Glob
  import opened GlobLoops

  /** Some directory on the way to the path is hit itself. */
  predicate InsideHit(rule: Rule, path: string) {
    exists m | 0 <= m < |path| && path[m] == '/' :: Itself(rule, path[..m])
  }

  /** The rule hits, besides directories, exactly what is inside one of them. */
  ghost predicate HidesContents(rule: Rule) {
    forall path: string :: Below(rule, path) <==> InsideHit(rule, path)
  }

  // ---------------------------------------------------------- unanchored rules

  /** A final `**` takes any end. */
  lemma {:induction false} DeepTakesAnEnd(ts: seq<Token>, v: string)
    ensures Matches(ts + [Deep], v) <==> exists n | 0 <= n <= |v| :: Matches(ts, v[..n])
    decreases |v|
  {
    MatchesFromEnd(ts, Deep, v);
    assert v[..|v|] == v;
    if v != [] {
      var w := v[..|v| - 1];
      DeepTakesAnEnd(ts, w);
      forall n | 0 <= n < |v| ensures w[..n] == v[..n] {}
    }
  }

  /** What is below a match: the match, a separator and anything. */
  lemma BelowSplits(ts: seq<Token>, v: string)
    ensures Matches(ts + [Literal('/'), Deep], v) <==>
            exists m | 0 <= m < |v| && v[m] == '/' :: Matches(ts, v[..m])
  {
    var before := ts + [Literal('/')];
    assert ts + [Literal('/'), Deep] == before + [Deep];
    DeepTakesAnEnd(before, v);
    forall n | 0 <= n <= |v|
      ensures Matches(before, v[..n]) <==> n > 0 && v[n - 1] == '/' && Matches(ts, v[..n - 1])
    {
      MatchesFromEnd(ts, Literal('/'), v[..n]);
      if n > 0 {
        assert v[..n][..n - 1] == v[..n - 1];
      }
    }
    if Matches(ts + [Literal('/'), Deep], v) {
      var n :| 0 <= n <= |v| && Matches(before, v[..n]);
      assert v[n - 1] == '/' && Matches(ts, v[..n - 1]);
    }
    forall m | 0 <= m < |v| && v[m] == '/' && Matches(ts, v[..m])
      ensures Matches(ts + [Literal('/'), Deep], v)
    {
      var n := m + 1;
      assert n - 1 == m;
      assert Matches(before, v[..n]);
    }
  }

  lemma CutComponent(path: string, k: nat, m: nat)
    requires k <= m <= |path|
    ensures Component(path, k) <==> Component(path[..m], k)
    ensures path[..m][k..] == path[k..m] && path[k..][..m - k] == path[k..m]
  {
  }

  /** A match below at some component is a directory on the way that matches at the same component. */
  lemma BelowAtComponent(ts: seq<Token>, path: string)
    ensures MeansAtComponent(ts + [Literal('/'), Deep], path) <==>
            exists m | 0 <= m < |path| && path[m] == '/' :: MeansAtComponent(ts, path[..m])
  {
    if MeansAtComponent(ts + [Literal('/'), Deep], path) {
      var k: nat :| k <= |path| && Component(path, k) && Matches(ts + [Literal('/'), Deep], path[k..]);
      BelowSplits(ts, path[k..]);
      var n :| 0 <= n < |path[k..]| && path[k..][n] == '/' && Matches(ts, path[k..][..n]);
      CutComponent(path, k, k + n);
      assert MeansAtComponent(ts, path[..k + n]);
    }
    forall m | 0 <= m < |path| && path[m] == '/' && MeansAtComponent(ts, path[..m])
      ensures MeansAtComponent(ts + [Literal('/'), Deep], path)
    {
      var k: nat :| k <= m && Component(path[..m], k) && Matches(ts, path[..m][k..]);
      CutComponent(path, k, m);
      assert path[k..][m - k] == '/';
      BelowSplits(ts, path[k..]);
    }
  }

  /** A rule without an anchor whose pattern is good hits exactly what is inside the directories it hits. */
  lemma UnanchoredHidesContents(rule: Rule)
    requires !rule.anchored && Good(Tokens(rule.pattern), false)
    ensures HidesContents(rule)
  {
    forall path: string ensures Below(rule, path) <==> InsideHit(rule, path) {
      UnanchoredRuleIsExact(rule, path);
      BelowAtComponent(Tokens(rule.pattern), path);
      forall m | 0 <= m < |path| ensures Itself(rule, path[..m]) <==>
      MeansAtComponent(Tokens(rule.pattern), path[..m]) {
        UnanchoredRuleIsExact(rule, path[..m]);
      }
    }
  }

  // ------------------------------------------------------------ anchored rules

  predicate Wild(pattern: string) { '*' in pattern || '?' in pattern }

  /** An anchored rule hits what lies below its pattern read letter by letter. */
  lemma AnchoredIsLiteralBelow(rule: Rule, path: string)
    requires rule.anchored
    ensures Below(rule, path) <==> exists rest: string :: path == rule.pattern + "/" + rest
  {
    var prefix := rule.pattern + "/";
    if prefix <= path {
      assert path == prefix + path[|prefix|..];
    }
  }

  /** The matcher takes the shortest value of any pattern. */
  lemma {:induction false} ShortestIsTaken(ts: seq<Token>, r: Resume)
    requires r.Behind? ==> |ts| <= |r.tokens| && |Shortest(ts)| <= |r.rest|
    ensures Greedy(ts, Shortest(ts), r)
    decreases |ts|
  {
    if ts == [] {
    } else if IsStar(ts[0]) {
      ShortestIsTaken(ts[1..], Behind(ts[1..], Shortest(ts), ts[0]));
      assert ts == [ts[0]] + ts[1..];
    } else {
      ShortestIsTaken(ts[1..], r);
      assert Shortest(ts)[1..] == Shortest(ts[1..]);
    }
  }

  /** Where the pattern has its first wildcard, its shortest value has another letter, or ends. */
  lemma {:induction false} ShortestDiffers(pattern: string, rest: string)
    requires Wild(pattern)
    ensures !(pattern + "/" <= Shortest(Tokens(pattern)) + "/" + rest)
  {
    var value := Shortest(Tokens(pattern)) + "/" + rest;
    if pattern[0] == '*' {
      NoStarInShortest(pattern);
      assert (pattern + "/")[0] == '*';
      assert value[0] != '*';
    } else if pattern[0] == '?' {
      assert (pattern + "/")[0] == '?' && value[0] == 'x';
    } else {
      assert Wild(pattern[1..]) by {
        assert pattern == [pattern[0]] + pattern[1..];
      }
      ShortestDiffers(pattern[1..], rest);
      assert value[1..] == Shortest(Tokens(pattern[1..])) + "/" + rest;
      assert (pattern + "/")[1..] == pattern[1..] + "/";
    }
  }

  lemma {:induction false} NoStarInShortest(pattern: string)
    ensures '*' !in Shortest(Tokens(pattern))
  {
    if pattern == [] {
    } else if pattern[0] == '*' && |pattern| > 1 && pattern[1] == '*' {
      NoStarInShortest(pattern[2..]);
    } else {
      NoStarInShortest(pattern[1..]);
    }
  }

  /** A pattern without wildcards matches itself alone. */
  lemma {:induction false} TameMeansItself(pattern: string, value: string)
    requires !Wild(pattern)
    ensures Means(pattern, value) <==> value == pattern
    ensures Good(Tokens(pattern), false)
  {
    if pattern == [] {
    } else {
      assert !Wild(pattern[1..]) by {
        assert pattern == [pattern[0]] + pattern[1..];
      }
      assert Tokens(pattern)[1..] == Tokens(pattern[1..]);
      TameMeansItself(pattern[1..], if value == [] then [] else value[1..]);
      assert value != [] ==> value == [value[0]] + value[1..];
      assert pattern == [pattern[0]] + pattern[1..];
    }
  }

  /** An anchored rule hits exactly what is inside the directories it hits when its pattern has no wildcard. */
  lemma AnchoredHidesContentsExactlyWhen(rule: Rule)
    requires rule.anchored
    ensures HidesContents(rule) <==> !Wild(rule.pattern)
  {
    if Wild(rule.pattern) {
      var directory := Shortest(Tokens(rule.pattern));
      var path := directory + "/";
      ShortestIsTaken(Tokens(rule.pattern), Nowhere);
      ShortestDiffers(rule.pattern, []);
      assert path + [] == path;
      assert path[..|directory|] == directory && path[|directory|] == '/';
      assert InsideHit(rule, path) && !Below(rule, path);
    } else {
      forall path: string ensures Below(rule, path) <==> InsideHit(rule, path) {
        TameHidesContents(rule, path);
      }
    }
  }

  lemma TameHidesContents(rule: Rule, path: string)
    requires rule.anchored && !Wild(rule.pattern)
    ensures Below(rule, path) <==> InsideHit(rule, path)
  {
    var n := |rule.pattern|;
    forall m | 0 <= m < |path| ensures Itself(rule, path[..m]) <==> path[..m] == rule.pattern {
      TameMeansItself(rule.pattern, path[..m]);
      ExactOnGoodPatterns(rule.pattern);
      assert Accepts(rule.pattern, path[..m]) <==> Means(rule.pattern, path[..m]);
    }
    if rule.pattern + "/" <= path {
      assert path[..n] == (rule.pattern + "/")[..n] == rule.pattern;
      assert path[n] == (rule.pattern + "/")[n] == '/';
    }
    forall m | 0 <= m < |path| && path[m] == '/' && path[..m] == rule.pattern ensures rule.pattern + "/" <= path {
      assert path[..m + 1] == rule.pattern + "/";
    }
  }

  // --------------------------------------------------------- both kinds of rule

  /** A directory on the way, or the path itself when it is one. */
  predicate DirectoryOf(path: string, directory: bool, m: nat) {
    (m < |path| && path[m] == '/') || (m == |path| && directory)
  }

  /** So a rule for directories hits a path exactly when it hits a directory on the way or the path as one. */
  lemma DirectoryRuleHitsExactlyWhen(rule: Rule, path: string, directory: bool)
    requires rule.directoryOnly && HidesContents(rule)
    ensures Hits(rule, path, directory) <==>
            exists m | 0 <= m <= |path| && DirectoryOf(path, directory, m) :: Itself(rule, path[..m])
  {
    assert path[..|path|] == path;
    if InsideHit(rule, path) {
      var m :| 0 <= m < |path| && path[m] == '/' && Itself(rule, path[..m]);
      assert DirectoryOf(path, directory, m);
    }
    if directory {
      assert DirectoryOf(path, directory, |path|);
    }
  }

  /** Whatever lies below a path hit as a directory is hit too, so a walk need not go down there. */
  lemma HitIsInherited(rule: Rule, path: string, rest: string, directory: bool)
    requires rule.directoryOnly && HidesContents(rule) && Hits(rule, path, true)
    ensures Hits(rule, path + "/" + rest, directory)
  {
    var below := path + "/" + rest;
    DirectoryRuleHitsExactlyWhen(rule, path, true);
    var m :| 0 <= m <= |path| && DirectoryOf(path, true, m) && Itself(rule, path[..m]);
    assert below[..m] == path[..m] && below[m] == '/';
    assert InsideHit(rule, below);
  }
}
