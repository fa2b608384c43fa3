/** The two wildcard matchers and the ignore rules as the loops that run. */
module GlobLoops {
  import opened Options
  import opened Glob

  // ------------------------------------------------------- the greedy matcher

  lemma AllStarsCons(t: Token, ts: seq<Token>)
    ensures AllStars([t] + ts) <==> IsStar(t) && AllStars(ts)
  {
    assert ([t] + ts)[0] == t && forall i | 0 <= i < |ts| :: ([t] + ts)[i + 1] == ts[i];
  }

  predicate OnlyStars(p: string) { forall i | 0 <= i < |p| :: p[i] == '*' }

  lemma {:induction false} StarsOnly(p: string)
    ensures AllStars(Tokens(p)) <==> OnlyStars(p)
  {
    if p == [] {
    } else {
      if p[0] == '*' && |p| > 1 && p[1] == '*' {
        StarsOnly(p[2..]);
        AllStarsCons(Deep, Tokens(p[2..]));
        assert forall i | 2 <= i < |p| :: p[i] == p[2..][i - 2];
      } else {
        StarsOnly(p[1..]);
        AllStarsCons(Tokens(p)[0], Tokens(p[1..]));
        assert forall i | 1 <= i < |p| :: p[i] == p[1..][i - 1];
      }
    }
  }

  lemma SuffixStars(pattern: string, i: nat, k: nat)
    requires i <= k <= |pattern| && forall j | i <= j < k :: pattern[j] == '*'
    requires k == |pattern| || pattern[k] != '*'
    ensures k == |pattern| <==> AllStars(Tokens(pattern[i..]))
  {
    StarsOnly(pattern[i..]);
    assert k < |pattern| ==> pattern[i..][k - i] == pattern[k];
  }

  predicate DeepAt(pattern: string, i: nat) {
    i + 1 < |pattern| && pattern[i] == '*' && pattern[i + 1] == '*'
  }

  function TokenAt(pattern: string, i: nat): Token
    requires i < |pattern|
  {
    if pattern[i] == '*' then (if DeepAt(pattern, i) then Deep else Star)
    else if pattern[i] == '?' then One else Literal(pattern[i])
  }

  /** One token is taken off the pattern. */
  lemma TokenStep(pattern: string, i: nat)
    requires i < |pattern|
    ensures Tokens(pattern[i..]) == [TokenAt(pattern, i)] + Tokens(pattern[i + if DeepAt(pattern, i) then 2 else 1..])
  {
    var p := pattern[i..];
    assert p[1..] == pattern[i + 1..];
    if |p| > 1 {
      assert p[2..] == pattern[i + 2..];
    }
  }

  /** Where the loop stands. */
  datatype Place = Place(pi: nat, vi: nat, star: Option<nat>, at: nat, recursive: bool) {
    ghost predicate Valid(pattern: string, value: string) {
      && pi <= |pattern| && at <= vi <= |value| && (star.Some? ==> star.value <= pi)
      && (star.Some? ==> |Tokens(pattern[pi..])| <= |Tokens(pattern[star.value..])|)
    }

    function Resumption(pattern: string, value: string): Resume
      requires at <= |value| && (star.Some? ==> star.value <= |pattern|)
    {
      if star.None? then Nowhere
      else Behind(Tokens(pattern[star.value..]), value[at..], if recursive then Deep else Star)
    }

    /** What the matcher will answer from here. */
    ghost predicate Answer(pattern: string, value: string)
      requires Valid(pattern, value)
    {
      Greedy(Tokens(pattern[pi..]), value[vi..], Resumption(pattern, value))
    }
  }

  lemma TakeStep(pattern: string, value: string, p: Place)
    requires p.Valid(pattern, value) && p.pi < |pattern| && p.vi < |value|
    requires pattern[p.pi] != '*' && Takes(TokenAt(pattern, p.pi), value[p.vi])
    ensures var q := p.(pi := p.pi + 1, vi := p.vi + 1);
            q.Valid(pattern, value) && p.Answer(pattern, value) == q.Answer(pattern, value)
  {
    TokenStep(pattern, p.pi);
    assert value[p.vi..][1..] == value[p.vi + 1..];
  }

  lemma StarStep(pattern: string, value: string, p: Place)
    requires p.Valid(pattern, value) && p.pi < |pattern| && p.vi < |value| && pattern[p.pi] == '*'
    ensures var next := p.pi + if DeepAt(pattern, p.pi) then 2 else 1;
            var q := Place(next, p.vi, Some(next), p.vi, DeepAt(pattern, p.pi));
            q.Valid(pattern, value) && p.Answer(pattern, value) == q.Answer(pattern, value)
  {
    TokenStep(pattern, p.pi);
  }

  lemma BackStep(pattern: string, value: string, p: Place)
    requires p.Valid(pattern, value) && p.vi < |value|
    requires p.pi == |pattern| || (pattern[p.pi] != '*' && !Takes(TokenAt(pattern, p.pi), value[p.vi]))
    ensures p.star.Some? && (p.recursive || value[p.at] != '/') ==>
              var q := p.(pi := p.star.value, vi := p.at + 1, at := p.at + 1);
              q.Valid(pattern, value) && p.Answer(pattern, value) == q.Answer(pattern, value)
    ensures !(p.star.Some? && (p.recursive || value[p.at] != '/')) ==> !p.Answer(pattern, value)
  {
    if p.pi < |pattern| {
      TokenStep(pattern, p.pi);
    }
    assert value[p.at..][1..] == value[p.at + 1..];
  }

  lemma EndStep(pattern: string, value: string, p: Place)
    requires p.Valid(pattern, value) && p.vi == |value|
    ensures p.Answer(pattern, value) <==> AllStars(Tokens(pattern[p.pi..]))
  {
  }

  /** What makes every turn progress: the last star, then what it has taken, then the value. */
  predicate Progress(pattern: string, value: string, p: Place, q: Place) {
    var before := if p.star.None? then |pattern| + 1 else |pattern| - p.star.value;
    var after := if q.star.None? then |pattern| + 1 else |pattern| - q.star.value;
    0 <= after < before || (after == before && (q.at > p.at || (q.at == p.at && q.vi > p.vi)))
  }

  /** One turn of the loop; none when the matcher gives up. */
  method Turn(pattern: string, value: string, p: Place) returns (q: Option<Place>)
    requires p.Valid(pattern, value) && p.vi < |value|
    ensures q.None? ==> !p.Answer(pattern, value)
    ensures q.Some? ==> q.value.Valid(pattern, value) && p.Answer(pattern, value) == q.value.Answer(pattern, value)
    ensures q.Some? ==> Progress(pattern, value, p, q.value)
  {
    var here := p.pi < |pattern|;
    if here && pattern[p.pi] == '?' && value[p.vi] != '/' {
      TakeStep(pattern, value, p);
      return Some(p.(pi := p.pi + 1, vi := p.vi + 1));
    }
    if here && pattern[p.pi] == '*' {
      StarStep(pattern, value, p);
      var recursive := p.pi + 1 < |pattern| && pattern[p.pi + 1] == '*';
      var pi := p.pi + if recursive then 2 else 1;
      return Some(Place(pi, p.vi, Some(pi), p.vi, recursive));
    }
    if here && pattern[p.pi] == value[p.vi] {
      TakeStep(pattern, value, p);
      return Some(p.(pi := p.pi + 1, vi := p.vi + 1));
    }
    BackStep(pattern, value, p);
    if p.star.Some? && (p.recursive || value[p.at] != '/') {
      return Some(p.(pi := p.star.value, vi := p.at + 1, at := p.at + 1));
    }
    return None;
  }

  method SkipStars(pattern: string, from: nat) returns (to: nat)
    requires from <= |pattern|
    ensures from <= to <= |pattern|
    ensures to == |pattern| <==> AllStars(Tokens(pattern[from..]))
  {
    to := from;
    while to < |pattern| && pattern[to] == '*'
      invariant from <= to <= |pattern| && forall j | from <= j < to :: pattern[j] == '*'
    {
      to := to + 1;
    }
    SuffixStars(pattern, from, to);
  }

  method GlobMatch(pattern: string, value: string) returns (matched: bool)
    ensures matched <==> Accepts(pattern, value)
  {
    var place := Place(0, 0, None, 0, false);
    assert pattern[0..] == pattern && value[0..] == value;
    ghost var answer := Accepts(pattern, value);
    while place.vi < |value|
      invariant place.Valid(pattern, value) && place.Answer(pattern, value) == answer
      decreases if place.star.None? then |pattern| + 1 else |pattern| - place.star.value, |value| - place.at,
                |value| - place.vi
    {
      var next := Turn(pattern, value, place);
      if next.None? { return false; }
      place := next.value;
    }
    EndStep(pattern, value, place);
    var end := SkipStars(pattern, place.pi);
    return end == |pattern|;
  }

  // ------------------------------------------- the dynamic-programming matcher

  /** Every `*` on its own: the reading of build profiles. */
  function Singles(p: string): seq<Token> {
    seq(|p|, i requires 0 <= i < |p| => Single(p[i]))
  }

  function Single(c: char): Token { if c == '*' then Star else if c == '?' then One else Literal(c) }

  predicate MeansSingly(pattern: string, value: string) { Matches(Singles(pattern), value) }

  /** The meaning read from the other end. */
  lemma {:induction false} MatchesFromEnd(ts: seq<Token>, t: Token, v: string)
    ensures Matches(ts + [t], v) <==>
            if IsStar(t) then Matches(ts, v) || (v != [] && Takes(t, v[|v| - 1]) && Matches(ts + [t], v[..|v| - 1]))
            else v != [] && Takes(t, v[|v| - 1]) && Matches(ts, v[..|v| - 1])
    decreases |ts| + |v|
  {
    if ts == [] {
      assert ts + [t] == [t];
      assert [t][1..] == [];
      if v != [] && IsStar(t) {
        MatchesFromEnd(ts, t, v[1..]);
        assert v[1..] != [] ==> v[1..][..|v| - 2] == v[..|v| - 1][1..];
        AloneTail(t, v);
      }
    } else {
      assert (ts + [t])[1..] == ts[1..] + [t];
      if IsStar(ts[0]) {
        MatchesFromEnd(ts[1..], t, v);
      }
      if v != [] {
        assert |v| > 1 ==> v[1..][..|v| - 2] == v[..|v| - 1][1..];
        if IsStar(ts[0]) {
          MatchesFromEnd(ts, t, v[1..]);
        } else {
          MatchesFromEnd(ts[1..], t, v[1..]);
        }
      }
    }
  }

  lemma {:induction false} Alone(t: Token, v: string)
    requires IsStar(t)
    ensures Matches([t], v) <==> forall c <- v :: Takes(t, c)
  {
    assert [t][1..] == [];
    if v == [] {
    } else {
      Alone(t, v[1..]);
      assert v == [v[0]] + v[1..];
    }
  }

  lemma AloneTail(t: Token, v: string)
    requires IsStar(t) && v != []
    ensures Matches([t], v) <==> Takes(t, v[|v| - 1]) && Matches([t], v[..|v| - 1])
  {
    Alone(t, v);
    Alone(t, v[..|v| - 1]);
    assert v == v[..|v| - 1] + [v[|v| - 1]];
  }

  /** What the table says for a prefix of the pattern and a prefix of the value. */
  predicate Cell(pattern: string, value: string, i: nat, j: nat)
    requires i <= |pattern| && j <= |value|
  {
    Matches(Singles(pattern[..i]), value[..j])
  }

  lemma CellStep(pattern: string, value: string, i: nat, j: nat)
    requires i < |pattern| && j <= |value|
    ensures var t := Single(pattern[i]);
            Cell(pattern, value, i + 1, j) <==>
            if t == Star then Cell(pattern, value, i, j) ||
               (j > 0 && value[j - 1] != '/' && Cell(pattern, value, i + 1, j - 1))
            else j > 0 && Takes(t, value[j - 1]) && Cell(pattern, value, i, j - 1)
  {
    assert Singles(pattern[..i + 1]) == Singles(pattern[..i]) + [Single(pattern[i])];
    if j > 0 {
      assert value[..j][..j - 1] == value[..j - 1];
    }
    MatchesFromEnd(Singles(pattern[..i]), Single(pattern[i]), value[..j]);
  }

  method GlobMatches(pattern: string, value: string) returns (matched: bool)
    ensures matched <==> MeansSingly(pattern, value)
  {
    var previous, current := new bool[|value| + 1](_ => false), new bool[|value| + 1](_ => false);
    previous[0] := true;
    for i := 0 to |pattern|
      invariant previous != current && fresh(previous) && fresh(current)
      invariant previous.Length == current.Length == |value| + 1
      invariant forall j | 0 <= j <= |value| :: previous[j] == Cell(pattern, value, i, j)
    {
      var token := pattern[i];
      forall j | 0 <= j < current.Length {
        current[j] := false;
      }
      if token == '*' {
        current[0] := previous[0];
      }
      CellStep(pattern, value, i, 0);
      for index := 1 to |value| + 1
        invariant forall j | 0 <= j < index :: current[j] == Cell(pattern, value, i + 1, j)
        invariant forall j | index <= j <= |value| :: !current[j]
        invariant forall j | 0 <= j <= |value| :: previous[j] == Cell(pattern, value, i, j)
      {
        CellStep(pattern, value, i, index);
        if token == '*' {
          current[index] := previous[index] || (value[index - 1] != '/' && current[index - 1]);
        } else if token == '?' {
          current[index] := value[index - 1] != '/' && previous[index - 1];
        } else if token == value[index - 1] {
          current[index] := previous[index - 1];
        }
      }
      previous, current := current, previous;
    }
    assert pattern[..|pattern|] == pattern && value[..|value|] == value;
    return previous[|value|];
  }

  predicate AdjacentStars(p: string) { exists i | 0 <= i < |p| - 1 :: p[i] == '*' && p[i + 1] == '*' }

  lemma {:induction false} SinglesAreTokens(p: string)
    requires !AdjacentStars(p)
    ensures Tokens(p) == Singles(p) && Deep !in Tokens(p)
  {
    if p == [] {
    } else {
      assert !AdjacentStars(p[1..]) by {
        assert forall i | 0 <= i < |p| - 1 :: p[1..][i] == p[i + 1];
      }
      SinglesAreTokens(p[1..]);
      assert Singles(p) == [Single(p[0])] + Singles(p[1..]);
    }
  }

  /** On patterns without adjacent stars the two matchers agree, and both are exact. */
  lemma MatchersAgree(pattern: string, value: string)
    requires !AdjacentStars(pattern)
    ensures Accepts(pattern, value) <==> MeansSingly(pattern, value)
    ensures MeansSingly(pattern, value) <==> Means(pattern, value)
  {
    SinglesAreTokens(pattern);
    ExactOnOneKindOfStar(pattern, value);
  }

  // -------------------------------------------------------------- ignore rules

  /** A rule without an anchor is tried at every path component. */
  predicate Component(path: string, k: nat) { k <= |path| && (k == 0 || path[k - 1] == '/') }

  predicate Unanchored(pattern: string, path: string) {
    exists k: nat | k <= |path| :: Component(path, k) && Accepts(pattern, path[k..])
  }

  method FindSeparator(path: string, from: nat) returns (at: nat)
    requires from <= |path|
    ensures from <= at <= |path| && (forall i | from <= i < at :: path[i] != '/') && (at < |path| ==> path[at] == '/')
  {
    at := from;
    while at < |path| && path[at] != '/'
      invariant from <= at <= |path| && forall i | from <= i < at :: path[i] != '/'
    {
      at := at + 1;
    }
  }

  method MatchesUnanchored(pattern: string, path: string) returns (matched: bool)
    ensures matched <==> Unanchored(pattern, path)
  {
    assert path[0..] == path;
    matched := GlobMatch(pattern, path);
    if matched {
      assert Component(path, 0);
      return;
    }
    var start := 0;
    var separator := FindSeparator(path, 0);
    while separator < |path|
      invariant start <= separator <= |path| && (separator < |path| ==> path[separator] == '/')
      invariant forall i | start <= i < separator :: path[i] != '/'
      invariant forall k: nat | k <= start :: Component(path, k) ==> !Accepts(pattern, path[k..])
      decreases |path| - start
    {
      var next := separator + 1;
      matched := GlobMatch(pattern, path[next..]);
      assert Component(path, next);
      if matched { return; }
      start := next;
      separator := FindSeparator(path, next);
    }
    return false;
  }

  datatype Rule = Rule(anchored: bool, directoryOnly: bool, pattern: string)

  predicate Below(rule: Rule, path: string) {
    if rule.anchored then rule.pattern + "/" <= path else Unanchored(rule.pattern + "/" + "**", path)
  }

  predicate Itself(rule: Rule, path: string) {
    if rule.anchored then Accepts(rule.pattern, path) else Unanchored(rule.pattern, path)
  }

  /**
   A rule hits the path itself, unless it is for directories and the path is none, and what lies below a
   directory rule.
   */
  predicate Hits(rule: Rule, path: string, directory: bool) {
    (rule.directoryOnly && Below(rule, path)) || (!(rule.directoryOnly && !directory) && Itself(rule, path))
  }

  method MatchRule(pattern: string, path: string, anchored: bool) returns (matched: bool)
    ensures matched <==> if anchored then Accepts(pattern, path) else Unanchored(pattern, path)
  {
    if anchored {
      matched := GlobMatch(pattern, path);
    } else {
      matched := MatchesUnanchored(pattern, path);
    }
  }

  method MatchBelow(rule: Rule, path: string) returns (matched: bool)
    ensures matched <==> Below(rule, path)
  {
    var prefix := rule.pattern + "/";
    if rule.anchored {
      matched := prefix <= path;
    } else {
      matched := MatchesUnanchored(prefix + "**", path);
    }
  }

  /** `canonical` is the workspace's own check of the path, which throws when it fails. */
  method Ignores(rules: seq<Rule>, path: string, canonical: bool, directory: bool) returns (r: Option<bool>)
    ensures r.None? <==> !canonical
    ensures r.Some? ==> (r.value <==> exists i | 0 <= i < |rules| :: Hits(rules[i], path, directory))
  {
    if !canonical { return None; }
    for i := 0 to |rules|
      invariant forall k | 0 <= k < i :: !Hits(rules[k], path, directory)
    {
      var rule := rules[i];
      if rule.directoryOnly && !directory {
        var below := MatchBelow(rule, path);
        if below { return Some(true); }
      } else {
        var matched := MatchRule(rule.pattern, path, rule.anchored);
        if matched { return Some(true); }
        if rule.directoryOnly && directory {
          var below := MatchBelow(rule, path);
          if below { return Some(true); }
        }
      }
    }
    return Some(false);
  }

  // ------------------------------------------------------ rules on good patterns

  /** A declarative reading of the same rule. */
  predicate MeansAtComponent(ts: seq<Token>, path: string) {
    exists k: nat | k <= |path| :: Component(path, k) && Matches(ts, path[k..])
  }

  lemma {:induction false} TokensAppend(p: string)
    ensures Tokens(p + "/**") == Tokens(p) + [Literal('/'), Deep]
  {
    var all := p + "/**";
    if p == [] {
      assert all == "/**" && all[1..] == "**" && "**"[2..] == "";
      assert Tokens("**") == [Deep];
    } else if p[0] == '*' && |p| > 1 && p[1] == '*' {
      TokensAppend(p[2..]);
      assert all[2..] == p[2..] + "/**";
    } else {
      TokensAppend(p[1..]);
      assert all[1..] == p[1..] + "/**";
      assert |p| == 1 ==> all[1] == '/';
    }
  }

  lemma {:induction false} SettlesMore(ts: seq<Token>, more: seq<Token>)
    requires Settles(ts)
    ensures Settles(ts + more)
  {
    if ts[1] == Deep {
    } else {
      SettlesMore(ts[2..], more);
      assert (ts + more)[2..] == ts[2..] + more;
    }
  }

  lemma {:induction false} GoodMore(ts: seq<Token>, afterDeep: bool)
    requires Good(ts, afterDeep)
    ensures Good(ts + [Literal('/'), Deep], afterDeep)
  {
    var more := [Literal('/'), Deep];
    if ts == [] {
      assert ts + more == more;
      assert more[1..] == [Deep] && [Deep][1..] == [];
    } else {
      assert (ts + more)[1..] == ts[1..] + more;
      GoodMore(ts[1..], if ts[0] == Deep then true else if ts[0] == Star then false else afterDeep);
      if ts[0] == Star && afterDeep {
        SettlesMore(ts[1..], more);
      }
    }
  }

  /** On a good pattern an unanchored rule hits exactly what it means, itself and below. */
  lemma UnanchoredRuleIsExact(rule: Rule, path: string)
    requires !rule.anchored && Good(Tokens(rule.pattern), false)
    ensures Itself(rule, path) <==> MeansAtComponent(Tokens(rule.pattern), path)
    ensures Below(rule, path) <==> MeansAtComponent(Tokens(rule.pattern) + [Literal('/'), Deep], path)
  {
    ExactOnGoodPatterns(rule.pattern);
    assert rule.pattern + "/" + "**" == rule.pattern + "/**";
    TokensAppend(rule.pattern);
    GoodMore(Tokens(rule.pattern), false);
    ExactOnGoodPatterns(rule.pattern + "/**");
    forall k: nat | k <= |path|
      ensures Accepts(rule.pattern, path[k..]) <==> Matches(Tokens(rule.pattern), path[k..])
      ensures Accepts(rule.pattern + "/**", path[k..]) <==>
              Matches(Tokens(rule.pattern) + [Literal('/'), Deep], path[k..])
    {
      assert Accepts(rule.pattern, path[k..]) <==> Means(rule.pattern, path[k..]);
      assert Accepts(rule.pattern + "/**", path[k..]) <==> Means(rule.pattern + "/**", path[k..]);
    }
  }
}
