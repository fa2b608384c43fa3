/**
 Wildcard patterns: what they mean, what the greedy matcher with one resumption point makes of
 them, and the exact class of patterns on which the two agree.
 */
module Glob {
  import opened Options

  /** `One` is `?`, `Star` is `*`, `Deep` is `**`; only `Deep` crosses a separator. */
  datatype Token = Literal(c: char) | One | Star | Deep

  predicate IsStar(t: Token) { t == Star || t == Deep }

  /** Two stars in a row are one `**`. */
  function Tokens(p: string): seq<Token> {
    if p == [] then []
    else if p[0] == '*' then
      if |p| > 1 && p[1] == '*' then [Deep] + Tokens(p[2..]) else [Star] + Tokens(p[1..])
    else [if p[0] == '?' then One else Literal(p[0])] + Tokens(p[1..])
  }

  predicate Takes(t: Token, c: char) {
    match t
    case Literal(d) => c == d
    case One => c != '/'
    case Star => c != '/'
    case Deep => true
  }

  /** The declarative meaning: a star takes any number of characters it may take. */
  predicate Matches(ts: seq<Token>, v: string)
    decreases |ts| + |v|
  {
    if ts == [] then v == []
    else if IsStar(ts[0]) then Matches(ts[1..], v) || (v != [] && Takes(ts[0], v[0]) && Matches(ts, v[1..]))
    else v != [] && Takes(ts[0], v[0]) && Matches(ts[1..], v[1..])
  }

  // ---------------------------------------------------------------- the matcher

  /** Where the matcher resumes: behind its last star, with what that star had left to take. */
  datatype Resume = Nowhere | Behind(tokens: seq<Token>, rest: string, star: Token)

  predicate AllStars(ts: seq<Token>) { forall t <- ts :: IsStar(t) }

  function Greedy(ts: seq<Token>, v: string, r: Resume): bool
    requires r.Behind? ==> |ts| <= |r.tokens| && |v| <= |r.rest|
    decreases if r.Nowhere? then |ts| + 1 else |r.tokens|, if r.Nowhere? then 0 else |r.rest|, |v|
  {
    if v == [] then AllStars(ts)
    else if ts != [] && IsStar(ts[0]) then Greedy(ts[1..], v, Behind(ts[1..], v, ts[0]))
    else if ts != [] && Takes(ts[0], v[0]) then Greedy(ts[1..], v[1..], r)
    else if r.Behind? && Takes(r.star, r.rest[0]) then
      Greedy(r.tokens, r.rest[1..], r.(rest := r.rest[1..]))
    else false
  }

  // ---------------------------------------------------------------- soundness

  /** The last star taking at least one character more can still lead to a match. */
  predicate Later(r: Resume) {
    r.Behind? && r.rest != [] && Takes(r.star, r.rest[0]) && Matches([r.star] + r.tokens, r.rest[1..])
  }

  predicate Alive(ts: seq<Token>, v: string, r: Resume) { Matches(ts, v) || Later(r) }

  lemma StarMatches(star: Token, ts: seq<Token>, v: string)
    requires IsStar(star)
    ensures Matches([star] + ts, v) <==>
            Matches(ts, v) || (v != [] && Takes(star, v[0]) && Matches([star] + ts, v[1..]))
  {
    assert ([star] + ts)[1..] == ts;
  }

  lemma {:induction false} AllStarsMatchNothing(ts: seq<Token>)
    ensures AllStars(ts) <==> Matches(ts, [])
  {
    if ts == [] {
    } else {
      AllStarsMatchNothing(ts[1..]);
      assert ts == [ts[0]] + ts[1..];
    }
  }

  /** The matcher accepts only what is still possible. */
  lemma {:induction false} GreedyIsSound(ts: seq<Token>, v: string, r: Resume)
    requires r.Behind? ==> |ts| <= |r.tokens| && |v| <= |r.rest| && IsStar(r.star)
    requires Greedy(ts, v, r)
    ensures Alive(ts, v, r)
    decreases if r.Nowhere? then |ts| + 1 else |r.tokens|, if r.Nowhere? then 0 else |r.rest|, |v|
  {
    if v == [] {
      AllStarsMatchNothing(ts);
    } else if ts != [] && IsStar(ts[0]) {
      GreedyIsSound(ts[1..], v, Behind(ts[1..], v, ts[0]));
      assert [ts[0]] + ts[1..] == ts;
    } else if ts != [] && Takes(ts[0], v[0]) {
      GreedyIsSound(ts[1..], v[1..], r);
    } else {
      GreedyIsSound(r.tokens, r.rest[1..], r.(rest := r.rest[1..]));
      StarMatches(r.star, r.tokens, r.rest[1..]);
    }
  }

  lemma GreedyNeedsLife(ts: seq<Token>, v: string, r: Resume)
    requires r.Behind? ==> |ts| <= |r.tokens| && |v| <= |r.rest| && IsStar(r.star)
    ensures Greedy(ts, v, r) ==> Alive(ts, v, r)
  {
    if Greedy(ts, v, r) {
      GreedyIsSound(ts, v, r);
    }
  }

  // -------------------------------------------------------------- completeness

  /** Plain tokens matched one for one. */
  predicate Plain(xs: seq<Token>, w: string) {
    |xs| == |w| && forall i | 0 <= i < |xs| :: !IsStar(xs[i]) && Takes(xs[i], w[i])
  }

  lemma {:induction false} PlainPrefix(xs: seq<Token>, ts: seq<Token>, w: string, v: string)
    requires Plain(xs, w)
    ensures Matches(xs + ts, w + v) <==> Matches(ts, v)
  {
    if xs == [] {
      assert xs + ts == ts && w + v == v;
    } else {
      PlainPrefix(xs[1..], ts, w[1..], v);
      assert (xs + ts)[1..] == xs[1..] + ts && (w + v)[1..] == w[1..] + v;
    }
  }

  /** A match begins with as many characters as there are plain tokens in front. */
  lemma {:induction false} MatchSplits(xs: seq<Token>, ts: seq<Token>, v: string)
    requires (forall x <- xs :: !IsStar(x)) && Matches(xs + ts, v)
    ensures |xs| <= |v| && Plain(xs, v[..|xs|]) && Matches(ts, v[|xs|..])
  {
    if xs == [] {
      assert xs + ts == ts && v[0..] == v;
    } else {
      assert (xs + ts)[1..] == xs[1..] + ts;
      MatchSplits(xs[1..], ts, v[1..]);
      assert v[..|xs|] == [v[0]] + v[1..][..|xs| - 1];
    }
  }

  /** Characters a star may take can be prepended. */
  lemma {:induction false} StarTakesMore(star: Token, ts: seq<Token>, u: string, v: string)
    requires IsStar(star) && Matches([star] + ts, v) && forall c <- u :: Takes(star, c)
    ensures Matches([star] + ts, u + v)
  {
    if u == [] {
      assert u + v == v;
    } else {
      StarTakesMore(star, ts, u[1..], v);
      assert (u + v)[1..] == u[1..] + v;
      StarMatches(star, ts, u + v);
    }
  }

  /** A star that can still lead to a match does so after some number of characters. */
  lemma {:induction false} StarStops(star: Token, ts: seq<Token>, v: string) returns (k: nat)
    requires IsStar(star) && Matches([star] + ts, v)
    ensures k <= |v| && Matches(ts, v[k..]) && forall c <- v[..k] :: Takes(star, c)
  {
    StarMatches(star, ts, v);
    if Matches(ts, v) {
      k := 0;
      assert v[0..] == v;
    } else {
      var j := StarStops(star, ts, v[1..]);
      k := j + 1;
      assert v[1..][j..] == v[k..] && v[..k] == [v[0]] + v[1..][..j];
    }
  }

  /** After a `**`, what must follow a `*` for the matcher never to need the `**` again. */
  predicate Settles(ts: seq<Token>) {
    |ts| > 1 && ts[0] == Literal('/') && (ts[1] == Deep || (ts[1] == Star && Settles(ts[2..])))
  }

  /** Every `*` whose nearest star before it is a `**` is followed by something that settles it. */
  predicate Good(ts: seq<Token>, afterDeep: bool) {
    ts == [] ||
    (match ts[0]
     case Star => (afterDeep ==> Settles(ts[1..])) && Good(ts[1..], false)
     case Deep => Good(ts[1..], true)
     case _ => Good(ts[1..], afterDeep))
  }

  /** The first separator of a string that has one. */
  lemma {:induction false} FirstSeparator(v: string, at: nat) returns (k: nat)
    requires at < |v| && v[at] == '/'
    ensures k <= at && v[k] == '/' && forall c <- v[..k] :: c != '/'
  {
    if v[0] == '/' {
      k := 0;
    } else {
      var j := FirstSeparator(v[1..], at - 1);
      k := j + 1;
      assert v[..k] == [v[0]] + v[1..][..j];
    }
  }

  /** A `*` that settles matches a string whenever it matches an end of it. */
  lemma {:induction false} SettledExtends(ts: seq<Token>, u: string, v: string)
    requires Settles(ts) && Matches([Star] + ts, v)
    ensures Matches([Star] + ts, u + v)
    decreases |ts|
  {
    var k := StarStops(Star, ts, v);
    var w := u + v;
    var at := |u| + k;
    assert v[k] == '/' && w[at] == '/';
    assert v[k..][1..] == v[k + 1..];
    var i := FirstSeparator(w, at);
    var skipped, tail := w[i + 1..at + 1], v[k + 1..];
    assert w[i + 1..] == skipped + tail;
    assert ts[1..] == [ts[1]] + ts[2..];
    if ts[1] == Deep {
      StarTakesMore(Deep, ts[2..], skipped, tail);
    } else {
      SettledExtends(ts[2..], skipped, tail);
    }
    assert w[i..][1..] == w[i + 1..];
    assert Matches(ts, w[i..]);
    StarMatches(Star, ts, w[i..]);
    StarTakesMore(Star, ts, w[..i], w[i..]);
    assert w[..i] + w[i..] == w;
  }

  /** A separator among plain matches repeats at the shift of two overlapping occurrences. */
  lemma {:induction false} NoSeparatorTaken(xs: seq<Token>, w: string, j: nat, q: nat)
    requires j >= 1 && j + |xs| <= |w| && Plain(xs, w[..|xs|]) && Plain(xs, w[j..j + |xs|])
    requires (forall c <- w[..j] :: c != '/') && q < j + |xs|
    ensures w[q] != '/'
    decreases q
  {
    if q < j {
      assert w[q] in w[..j];
    } else {
      NoSeparatorTaken(xs, w, j, q - j);
      var x := xs[q - j];
      assert w[..|xs|][q - j] == w[q - j] && w[j..j + |xs|][q - j] == w[q];
      assert Takes(x, w[q - j]) && Takes(x, w[q]);
    }
  }

  /** What the matcher has behind it: the star's tokens up to here, matched one for one. */
  predicate Behindhand(ts: seq<Token>, v: string, r: Resume) {
    r.Behind? ==>
      && IsStar(r.star) && |ts| <= |r.tokens| && |v| <= |r.rest|
      && |r.tokens| - |ts| == |r.rest| - |v|
      && var n := |r.tokens| - |ts|;
         r.tokens[n..] == ts && r.rest[n..] == v && Plain(r.tokens[..n], r.rest[..n])
  }

  /** A later match: the star takes `j` characters, the plain tokens match again, and the rest matches from there. */
  ghost predicate Again(ts: seq<Token>, r: Resume, n: nat, j: nat)
    requires r.Behind?
  {
    && 1 <= j && j + n <= |r.rest| && n <= |r.tokens|
    && (forall c <- r.rest[..j] :: Takes(r.star, c))
    && Plain(r.tokens[..n], r.rest[j..j + n]) && Matches(ts, r.rest[j + n..])
  }

  lemma LaterIsAgain(ts: seq<Token>, v: string, r: Resume, n: nat) returns (j: nat)
    requires r.Behind? && Behindhand(ts, v, r) && Later(r) && n == |r.tokens| - |ts|
    ensures Again(ts, r, n, j)
  {
    var k := StarStops(r.star, r.tokens, r.rest[1..]);
    j := k + 1;
    assert r.rest[1..][k..] == r.rest[j..];
    assert r.rest[..j] == [r.rest[0]] + r.rest[1..][..k];
    assert r.tokens == r.tokens[..n] + ts;
    PlainAgain(r.tokens[..n], ts, r.rest, j);
  }

  lemma PlainAgain(xs: seq<Token>, ts: seq<Token>, w: string, j: nat)
    requires j <= |w| && (forall x <- xs :: !IsStar(x)) && Matches(xs + ts, w[j..])
    ensures j + |xs| <= |w| && Plain(xs, w[j..j + |xs|]) && Matches(ts, w[j + |xs|..])
  {
    MatchSplits(xs, ts, w[j..]);
    assert w[j..][..|xs|] == w[j..j + |xs|] && w[j..][|xs|..] == w[j + |xs|..];
  }

  /** What the new star would have to take is free of separators when the old star could not cross them. */
  lemma TakenHasNoSeparator(ts: seq<Token>, v: string, r: Resume, n: nat, j: nat, taken: string)
    requires r.Behind? && Behindhand(ts, v, r) && n == |r.tokens| - |ts| && Again(ts, r, n, j) && r.star == Star
    requires taken == r.rest[n..j + n]
    ensures forall c <- taken :: c != '/'
  {
    forall c | c in taken ensures c != '/' {
      var i :| 0 <= i < j && taken[i] == c;
      NoSeparatorTaken(r.tokens[..n], r.rest, j, n + i);
    }
  }

  /** At a new star the old one is no longer needed. */
  lemma NewStarSuffices(ts: seq<Token>, v: string, r: Resume)
    requires ts != [] && IsStar(ts[0]) && Behindhand(ts, v, r) && Later(r)
    requires Good(ts, r.star == Deep)
    ensures Matches(ts, v)
  {
    var n := |r.tokens| - |ts|;
    var j := LaterIsAgain(ts, v, r, n);
    var taken, tail := r.rest[n..j + n], r.rest[j + n..];
    assert v == taken + tail;
    assert ts == [ts[0]] + ts[1..];
    if ts[0] == Star && r.star == Deep {
      SettledExtends(ts[1..], taken, tail);
    } else {
      if ts[0] == Star {
        TakenHasNoSeparator(ts, v, r, n, j, taken);
      }
      StarTakesMore(ts[0], ts[1..], taken, tail);
    }
  }

  lemma MismatchNeedsLater(ts: seq<Token>, v: string)
    requires v != [] && (ts == [] || (!IsStar(ts[0]) && !Takes(ts[0], v[0])))
    ensures !Matches(ts, v)
  {
  }

  /** A star that takes more still needs room for the plain tokens behind it. */
  lemma LaterNeedsRoom(r: Resume, n: nat)
    requires Later(r) && IsStar(r.star) && n <= |r.tokens| && forall x <- r.tokens[..n] :: !IsStar(x)
    ensures |r.rest| > n
  {
    var k := StarStops(r.star, r.tokens, r.rest[1..]);
    assert r.tokens == r.tokens[..n] + r.tokens[n..];
    MatchSplits(r.tokens[..n], r.tokens[n..], r.rest[1..][k..]);
  }

  lemma NothingLater(ts: seq<Token>, r: Resume)
    requires Behindhand(ts, [], r)
    ensures !Later(r)
  {
    if Later(r) {
      var n := |r.tokens| - |ts|;
      assert forall x <- r.tokens[..n] :: !IsStar(x);
      LaterNeedsRoom(r, n);
    }
  }

  /** On a good pattern the matcher accepts everything that is still possible. */
  lemma {:induction false} GreedyIsComplete(ts: seq<Token>, v: string, r: Resume)
    requires Behindhand(ts, v, r) && Good(ts, r.Behind? && r.star == Deep)
    requires r.Behind? ==> Good(r.tokens, r.star == Deep)
    requires Alive(ts, v, r)
    ensures Greedy(ts, v, r)
    decreases if r.Nowhere? then |ts| + 1 else |r.tokens|, if r.Nowhere? then 0 else |r.rest|, |v|
  {
    if v == [] {
      NothingLater(ts, r);
      AllStarsMatchNothing(ts);
    } else if ts != [] && IsStar(ts[0]) {
      if Later(r) {
        NewStarSuffices(ts, v, r);
      }
      assert ts == [ts[0]] + ts[1..];
      GreedyIsComplete(ts[1..], v, Behind(ts[1..], v, ts[0]));
    } else if ts != [] && Takes(ts[0], v[0]) {
      StepKeepsBehindhand(ts, v, r);
      GreedyIsComplete(ts[1..], v[1..], r);
    } else {
      MismatchNeedsLater(ts, v);
      StarMatches(r.star, r.tokens, r.rest[1..]);
      GreedyIsComplete(r.tokens, r.rest[1..], r.(rest := r.rest[1..]));
    }
  }

  lemma StepKeepsBehindhand(ts: seq<Token>, v: string, r: Resume)
    requires Behindhand(ts, v, r) && ts != [] && v != [] && !IsStar(ts[0]) && Takes(ts[0], v[0])
    ensures Behindhand(ts[1..], v[1..], r)
  {
    if r.Behind? {
      var n := |r.tokens| - |ts|;
      assert r.tokens[n + 1..] == ts[1..] && r.rest[n + 1..] == v[1..];
      assert r.tokens[..n + 1] == r.tokens[..n] + [ts[0]] && r.rest[..n + 1] == r.rest[..n] + [v[0]];
    }
  }

  // ------------------------------------------------------------ counterexamples

  /** A star is never followed directly by another in what `Tokens` makes of a pattern. */
  predicate Canonical(ts: seq<Token>) {
    forall i | 0 <= i < |ts| - 1 :: ts[i] == Star ==> !IsStar(ts[i + 1])
  }

  lemma {:induction false} TokensAreCanonical(p: string)
    ensures Canonical(Tokens(p))
    ensures p != [] && p[0] != '*' ==> Tokens(p) != [] && !IsStar(Tokens(p)[0])
  {
    if p == [] {
    } else {
      if p[0] == '*' && |p| > 1 && p[1] == '*' {
        TokensAreCanonical(p[2..]);
      } else {
        TokensAreCanonical(p[1..]);
      }
    }
  }

  /** The shortest string a pattern matches: stars take nothing. */
  function Shortest(ts: seq<Token>): string {
    if ts == [] then []
    else
      match ts[0]
      case Literal(c) => [c] + Shortest(ts[1..])
      case One => ['x'] + Shortest(ts[1..])
      case _ => Shortest(ts[1..])
  }

  lemma {:induction false} ShortestMatches(ts: seq<Token>)
    requires forall t <- ts :: t != Literal('*')
    ensures Matches(ts, Shortest(ts))
  {
    if ts == [] {
    } else {
      assert forall t <- ts[1..] :: t in ts;
      ShortestMatches(ts[1..]);
      if !IsStar(ts[0]) {
        assert Shortest(ts)[1..] == Shortest(ts[1..]);
      }
    }
  }

  /** A beginning that a `*` before these tokens cannot get past. */
  function Blocker(ts: seq<Token>): (f: string)
    ensures f != []
  {
    if ts == [] || ts[0] != Literal('/') then "/"
    else if |ts| == 1 || ts[1] == Literal('/') then "/x"
    else if ts[1] == Star then "/" + Blocker(ts[2..])
    else "//"
  }

  lemma SeparatorBlocksStar(ts: seq<Token>, v: string)
    requires v != [] && v[0] == '/'
    ensures Matches([Star] + ts, v) <==> Matches(ts, v)
  {
    StarMatches(Star, ts, v);
  }

  lemma {:induction false} BlockerBlocks(ts: seq<Token>, u: string)
    requires Canonical([Star] + ts) && !Settles(ts)
    ensures !Matches([Star] + ts, Blocker(ts) + u)
    decreases |ts|
  {
    var v := Blocker(ts) + u;
    SeparatorBlocksStar(ts, v);
    assert ([Star] + ts)[0] == Star;
    assert ts != [] ==> ([Star] + ts)[1] == ts[0];
    if ts != [] && ts[0] == Literal('/') && |ts| > 1 && ts[1] == Star {
      assert Canonical(ts[1..]) by {
        assert forall i | 0 <= i < |ts[1..]| :: ts[1..][i] == ([Star] + ts)[i + 2];
      }
      assert ts[1..] == [Star] + ts[2..];
      BlockerBlocks(ts[2..], u);
      assert v[1..] == Blocker(ts[2..]) + u;
    } else if ts != [] && ts[0] == Literal('/') && |ts| > 1 {
      assert v[1..] != [];
    }
  }

  /**
   A string that a pattern with an unsettled `*` matches and the matcher refuses. `since` is what
   the tokens since the last star have taken, when that star was a `**`.
   */
  function Counterexample(ts: seq<Token>, since: Option<string>): (v: string)
    requires !Good(ts, since.Some?)
    ensures v != []
  {
    match ts[0]
    case Star =>
      if since.Some? && !Settles(ts[1..]) then Blocker(ts[1..]) + since.value + Shortest(ts[1..])
      else Counterexample(ts[1..], None)
    case Deep => Counterexample(ts[1..], Some([]))
    case Literal(c) => [c] + Counterexample(ts[1..], if since.Some? then Some(since.value + [c]) else None)
    case One => ['x'] + Counterexample(ts[1..], if since.Some? then Some(since.value + ['x']) else None)
  }

  predicate Writable(ts: seq<Token>) { Canonical(ts) && forall t <- ts :: t != Literal('*') }

  lemma WritableTail(ts: seq<Token>)
    requires Writable(ts) && ts != []
    ensures Writable(ts[1..])
  {
    assert forall i | 0 <= i < |ts| - 1 :: ts[1..][i] == ts[i + 1];
    assert forall t <- ts[1..] :: t in ts;
  }

  lemma {:induction false} CounterexampleRefused(ts: seq<Token>, since: Option<string>, r: Resume)
    requires Writable(ts) && !Good(ts, since.Some?)
    requires r.Behind? ==> |ts| <= |r.tokens| && |Counterexample(ts, since)| <= |r.rest| && IsStar(r.star)
    ensures !Greedy(ts, Counterexample(ts, since), r)
    decreases |ts|
  {
    var v := Counterexample(ts, since);
    WritableTail(ts);
    if ts[0] == Star && since.Some? && !Settles(ts[1..]) {
      assert [Star] + ts[1..] == ts;
      BlockerBlocks(ts[1..], since.value + Shortest(ts[1..]));
      assert v == Blocker(ts[1..]) + (since.value + Shortest(ts[1..]));
      GreedyNeedsLife(ts[1..], v, Behind(ts[1..], v, Star));
      StarMatches(Star, ts[1..], v);
    } else if IsStar(ts[0]) {
      CounterexampleRefused(ts[1..], if ts[0] == Deep then Some([]) else None, Behind(ts[1..], v, ts[0]));
    } else {
      var c := if ts[0] == One then 'x' else ts[0].c;
      CounterexampleRefused(ts[1..], if since.Some? then Some(since.value + [c]) else None, r);
      assert v[1..] == Counterexample(ts[1..], if since.Some? then Some(since.value + [c]) else None);
    }
  }

  lemma DeepTakesMore(ts: seq<Token>, u: string, v: string)
    requires Matches(ts, v)
    ensures Matches([Deep] + ts, u + v)
  {
    StarMatches(Deep, ts, v);
    StarTakesMore(Deep, ts, u, v);
  }

  /** Without a `**` in sight. */
  lemma {:induction false} CounterexampleMatches(ts: seq<Token>)
    requires Writable(ts) && !Good(ts, false)
    ensures Matches(ts, Counterexample(ts, None))
    decreases |ts|, 0
  {
    WritableTail(ts);
    if ts[0] == Deep {
      CounterexampleMatchesSince(ts[1..], [], []);
      assert [Deep] + [] + ts[1..] == ts && [] + Counterexample(ts[1..], Some([])) == Counterexample(ts[1..], Some([]));
    } else if ts[0] == Star {
      CounterexampleMatches(ts[1..]);
    } else {
      CounterexampleMatches(ts[1..]);
      assert Counterexample(ts, None)[1..] == Counterexample(ts[1..], None);
    }
  }

  /** What matches the rest matches behind a `**` and plain tokens that have taken `w`. */
  lemma MatchesBehindDeep(ts: seq<Token>, xs: seq<Token>, more: string, w: string, v: string)
    requires Plain(xs, w) && Matches(ts, v)
    ensures Matches([Deep] + xs + ts, more + (w + v))
  {
    PlainPrefix(xs, ts, w, v);
    DeepTakesMore(xs + ts, more, w + v);
    assert [Deep] + (xs + ts) == [Deep] + xs + ts;
  }

  /** The `**` takes everything up to a second occurrence of what the plain tokens took. */
  lemma BlockedMatches(ts: seq<Token>, xs: seq<Token>, w: string)
    requires Writable(ts) && ts != [] && ts[0] == Star && Plain(xs, w)
    ensures Matches([Deep] + xs + ts, w + (Blocker(ts[1..]) + w + Shortest(ts[1..])))
  {
    WritableTail(ts);
    ShortestMatches(ts[1..]);
    MatchesBehindDeep(ts, xs, w + Blocker(ts[1..]), w, Shortest(ts[1..]));
    assert w + Blocker(ts[1..]) + (w + Shortest(ts[1..])) == w + (Blocker(ts[1..]) + w + Shortest(ts[1..]));
  }

  /** Behind a `**` and the plain tokens `xs` that have taken `w`. */
  lemma {:induction false} CounterexampleMatchesSince(ts: seq<Token>, xs: seq<Token>, w: string)
    requires Writable(ts) && !Good(ts, true) && Plain(xs, w)
    ensures Matches([Deep] + xs + ts, w + Counterexample(ts, Some(w)))
    decreases |ts|, 1
  {
    var v := Counterexample(ts, Some(w));
    WritableTail(ts);
    if ts[0] == Star && !Settles(ts[1..]) {
      BlockedMatches(ts, xs, w);
    } else if IsStar(ts[0]) {
      if ts[0] == Star {
        CounterexampleMatches(ts[1..]);
      } else {
        CounterexampleMatchesSince(ts[1..], [], []);
        assert [Deep] + [] + ts[1..] == ts && [] + v == v;
      }
      MatchesBehindDeep(ts, xs, [], w, v);
      assert [] + (w + v) == w + v;
    } else {
      PlainStep(ts, xs, w, if ts[0] == One then 'x' else ts[0].c);
    }
  }

  lemma PlainStep(ts: seq<Token>, xs: seq<Token>, w: string, c: char)
    requires Writable(ts) && !Good(ts, true) && Plain(xs, w) && !IsStar(ts[0]) &&
             c == if ts[0] == One then 'x' else ts[0].c
    ensures Matches([Deep] + xs + ts, w + Counterexample(ts, Some(w)))
    decreases |ts|, 0
  {
    WritableTail(ts);
    CounterexampleMatchesSince(ts[1..], xs + [ts[0]], w + [c]);
    assert [Deep] + (xs + [ts[0]]) + ts[1..] == [Deep] + xs + ts;
    assert w + [c] + Counterexample(ts[1..], Some(w + [c])) == w + Counterexample(ts, Some(w));
  }

  // -------------------------------------------------------------------- theorems

  /** What a pattern means, and what the matcher makes of it. */
  predicate Means(pattern: string, value: string) { Matches(Tokens(pattern), value) }
  predicate Accepts(pattern: string, value: string) { Greedy(Tokens(pattern), value, Nowhere) }

  lemma {:induction false} TokensAreWritable(p: string)
    ensures Writable(Tokens(p))
  {
    TokensAreCanonical(p);
    if p == [] {
    } else {
      if p[0] == '*' && |p| > 1 && p[1] == '*' {
        TokensAreWritable(p[2..]);
      } else {
        TokensAreWritable(p[1..]);
      }
    }
  }

  /** The matcher never accepts what a pattern does not mean. */
  lemma AcceptsOnlyMatches(pattern: string, value: string)
    ensures Accepts(pattern, value) ==> Means(pattern, value)
  {
    if Accepts(pattern, value) {
      GreedyIsSound(Tokens(pattern), value, Nowhere);
    }
  }

  /** The matcher is exact on every value if and only if the pattern is good. */
  lemma ExactOnGoodPatterns(pattern: string)
    ensures (forall value :: Accepts(pattern, value) <==> Means(pattern, value)) <==> Good(Tokens(pattern), false)
  {
    var ts := Tokens(pattern);
    if Good(ts, false) {
      forall value ensures Accepts(pattern, value) <==> Means(pattern, value) {
        AcceptsOnlyMatches(pattern, value);
        if Means(pattern, value) {
          GreedyIsComplete(ts, value, Nowhere);
        }
      }
    } else {
      TokensAreWritable(pattern);
      var value := Counterexample(ts, None);
      CounterexampleMatches(ts);
      CounterexampleRefused(ts, None, Nowhere);
      assert Means(pattern, value) && !Accepts(pattern, value);
    }
  }

  lemma {:induction false} NoStarGood(ts: seq<Token>, afterDeep: bool)
    requires Star !in ts || (!afterDeep && Deep !in ts)
    ensures Good(ts, afterDeep)
  {
    if ts == [] {
    } else {
      NoStarGood(ts[1..], if ts[0] == Deep then true else if ts[0] == Star then false else afterDeep);
    }
  }

  /** In particular it is exact when the pattern has only one kind of star. */
  lemma ExactOnOneKindOfStar(pattern: string, value: string)
    requires Star !in Tokens(pattern) || Deep !in Tokens(pattern)
    ensures Accepts(pattern, value) <==> Means(pattern, value)
  {
    NoStarGood(Tokens(pattern), false);
    ExactOnGoodPatterns(pattern);
  }
}
