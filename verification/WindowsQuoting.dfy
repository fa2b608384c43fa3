/**
 Quoting one argument of a Windows command line, against the rules by which the Microsoft C
 runtime splits the line into arguments again.
 */
module WindowsQuoting {
  import opened Options

  function Slashes(n: nat): (s: string)
    ensures |s| == n
  {
    seq(n, _ => '\\')
  }

  /** What the quoting loop has still to write, with some backslashes held back. */
  function Quoting(value: string, held: nat): string {
    if value == [] then Slashes(2 * held) + "\""
    else if value[0] == '\\' then Quoting(value[1..], held + 1)
    else if value[0] == '"' then Slashes(2 * held + 1) + "\"" + Quoting(value[1..], 0)
    else Slashes(held) + [value[0]] + Quoting(value[1..], 0)
  }

  function Quoted(value: string): string { "\"" + Quoting(value, 0) }

  method QuoteArgument(value: string) returns (result: string)
    ensures result == Quoted(value)
  {
    result := "\"";
    var backslashes: nat := 0;
    assert value[0..] == value;
    for i := 0 to |value|
      invariant result + Quoting(value[i..], backslashes) == Quoted(value)
    {
      var character := value[i];
      ghost var rest := value[i + 1..];
      assert value[i..][1..] == rest;
      if character == '\\' {
        backslashes := backslashes + 1;
      } else if character == '"' {
        assert result + (Slashes(2 * backslashes + 1) + "\"" + Quoting(rest, 0)) ==
               result + Slashes(2 * backslashes + 1) + "\"" + Quoting(rest, 0);
        result := result + Slashes(backslashes * 2 + 1) + "\"";
        backslashes := 0;
      } else {
        assert result + (Slashes(backslashes) + [character] + Quoting(rest, 0)) ==
               result + Slashes(backslashes) + [character] + Quoting(rest, 0);
        result := result + Slashes(backslashes) + [character];
        backslashes := 0;
      }
    }
    assert value[|value|..] == [];
    assert result + (Slashes(2 * backslashes) + "\"") == result + Slashes(backslashes * 2) + "\"";
    result := result + Slashes(backslashes * 2) + "\"";
  }

  // --------------------------------------------------------- the runtime's rules

  predicate IsBlank(c: char) { c == ' ' || c == '\t' }

  function LeadingSlashes(s: string): (n: nat)
    ensures n <= |s| && (n < |s| ==> s[n] != '\\')
  {
    if s == [] || s[0] != '\\' then 0 else 1 + LeadingSlashes(s[1..])
  }

  datatype Parsed = Parsed(argument: string, rest: string)

  function Emit(prefix: string, p: Parsed): Parsed { p.(argument := prefix + p.argument) }

  /** What a run of backslashes and the character behind it contribute, and where parsing goes on. */
  datatype Step = End(out: string, rest: string) | Continue(out: string, rest: string, quoted: bool)

  /**
   Backslashes are literal unless a quote follows them: then half of them remain, and the quote is
   literal when their number is odd, or when it is the first of two inside quotes.
   */
  function OneStep(s: string, quoted: bool): (step: Step)
    ensures step.Continue? ==> |step.rest| < |s|
  {
    var n := LeadingSlashes(s);
    var t := s[n..];
    if t != [] && t[0] == '"' then
      if n % 2 == 1 then Continue(Slashes(n / 2) + "\"", t[1..], quoted)
      else if quoted && |t| > 1 && t[1] == '"' then Continue(Slashes(n / 2) + "\"", t[2..], quoted)
      else Continue(Slashes(n / 2), t[1..], !quoted)
    else if t == [] || (!quoted && IsBlank(t[0])) then End(Slashes(n), t)
    else Continue(Slashes(n) + [t[0]], t[1..], quoted)
  }

  function ParseArgument(s: string, quoted: bool): Parsed
    decreases |s|
  {
    match OneStep(s, quoted)
    case End(out, rest) => Parsed(out, rest)
    case Continue(out, rest, next) => Emit(out, ParseArgument(rest, next))
  }

  function SkipBlanks(s: string): (r: string)
    ensures |r| <= |s|
  {
    if s != [] && IsBlank(s[0]) then SkipBlanks(s[1..]) else s
  }

  /** The arguments behind the program name. */
  function ParseArguments(s: string): seq<string>
    decreases |s|
  {
    var t := SkipBlanks(s);
    if t == [] then []
    else
      var p := ParseArgument(t, false);
      if |p.rest| >= |t| then [p.argument] else [p.argument] + ParseArguments(p.rest)
  }

  lemma {:induction false} CountSlashes(n: nat, c: char, rest: string)
    requires c != '\\'
    ensures var s := Slashes(n) + [c] + rest; LeadingSlashes(s) == n && s[n..] == [c] + rest
  {
    var s := Slashes(n) + [c] + rest;
    if n == 0 {
    } else {
      CountSlashes(n - 1, c, rest);
      assert s[1..] == Slashes(n - 1) + [c] + rest;
    }
    assert s[n..] == [c] + rest;
  }

  /** The argument ends here. */
  predicate EndsArgument(rest: string) { rest == [] || IsBlank(rest[0]) }

  lemma EscapedQuote(held: nat, tail: string)
    ensures OneStep(Slashes(2 * held + 1) + ['"'] + tail, true) == Continue(Slashes(held) + "\"", tail, true)
  {
    CountSlashes(2 * held + 1, '"', tail);
    assert (['"'] + tail)[1..] == tail;
  }

  lemma OtherCharacter(held: nat, c: char, tail: string)
    requires c != '"' && c != '\\'
    ensures OneStep(Slashes(held) + [c] + tail, true) == Continue(Slashes(held) + [c], tail, true)
  {
    CountSlashes(held, c, tail);
    assert ([c] + tail)[1..] == tail;
  }

  lemma ClosingQuote(held: nat, rest: string)
    requires EndsArgument(rest)
    ensures OneStep(Slashes(2 * held) + ['"'] + rest, true) == Continue(Slashes(held), rest, false)
    ensures OneStep(rest, false) == End([], rest)
  {
    CountSlashes(2 * held, '"', rest);
    assert (['"'] + rest)[1..] == rest;
    assert rest[0..] == rest;
  }

  lemma QuotingSplits(value: string, held: nat, rest: string)
    requires value != [] && value[0] != '\\'
    ensures Quoting(value, held) + rest ==
            Slashes(if value[0] == '"' then 2 * held + 1 else held) + [value[0]] + (Quoting(value[1..], 0) + rest)
  {
  }

  lemma EmitMore(s: string, out: string, tail: string, value: string, rest: string)
    requires OneStep(s, true) == Continue(out, tail, true) && ParseArgument(tail, true) == Parsed(value, rest)
    ensures ParseArgument(s, true) == Parsed(out + value, rest)
  {
  }

  lemma QuotingStep(value: string, held: nat, rest: string)
    requires value != [] && value[0] != '\\'
    ensures OneStep(Quoting(value, held) + rest, true) ==
            Continue(Slashes(held) + [value[0]], Quoting(value[1..], 0) + rest, true)
  {
    QuotingSplits(value, held, rest);
    if value[0] == '"' {
      EscapedQuote(held, Quoting(value[1..], 0) + rest);
    } else {
      OtherCharacter(held, value[0], Quoting(value[1..], 0) + rest);
    }
  }

  lemma ClosedArgument(held: nat, rest: string)
    requires EndsArgument(rest)
    ensures ParseArgument(Quoting([], held) + rest, true) == Parsed(Slashes(held), rest)
  {
    ClosingQuote(held, rest);
    assert Quoting([], held) + rest == Slashes(2 * held) + ['"'] + rest;
    assert Slashes(held) + [] == Slashes(held);
  }

  lemma NoSlashes(value: string)
    ensures Slashes(0) + value == value
  {
  }

  lemma PutBack(value: string, held: nat)
    requires value != []
    ensures Slashes(held) + [value[0]] + value[1..] == Slashes(held) + value
  {
    assert [value[0]] + value[1..] == value;
  }

  lemma HoldOne(value: string, held: nat)
    requires value != [] && value[0] == '\\'
    ensures Quoting(value, held) == Quoting(value[1..], held + 1) &&
            Slashes(held + 1) + value[1..] == Slashes(held) + value
  {
  }

  lemma {:induction false} QuotingIsParsed(value: string, held: nat, rest: string)
    requires EndsArgument(rest)
    ensures ParseArgument(Quoting(value, held) + rest, true) == Parsed(Slashes(held) + value, rest)
    decreases |value|
  {
    if value == [] {
      ClosedArgument(held, rest);
      assert Slashes(held) + value == Slashes(held);
    } else if value[0] == '\\' {
      QuotingIsParsed(value[1..], held + 1, rest);
      HoldOne(value, held);
    } else {
      QuotingIsParsed(value[1..], 0, rest);
      NoSlashes(value[1..]);
      QuotingStep(value, held, rest);
      EmitMore(Quoting(value, held) + rest, Slashes(held) + [value[0]], Quoting(value[1..], 0) + rest, value[1..],
               rest);
      PutBack(value, held);
    }
  }

  /** A quoted argument is parsed as itself, whatever backslashes and quotes it holds. */
  lemma QuotedIsParsed(value: string, rest: string)
    requires EndsArgument(rest)
    ensures ParseArgument(Quoted(value) + rest, false) == Parsed(value, rest)
  {
    var tail := Quoting(value, 0) + rest;
    CountSlashes(0, '"', tail);
    assert Quoted(value) + rest == Slashes(0) + ['"'] + tail;
    assert (['"'] + tail)[1..] == tail;
    QuotingIsParsed(value, 0, rest);
    assert Slashes(0) + value == value;
  }

  // ------------------------------------------------------- the line that is built

  /** A word appended as it is, or a value that is quoted first. */
  datatype Token = Bare(word: string) | Quote(value: string) {
    function Written(): string { if Bare? then word else Quoted(value) }
    function Meant(): string { if Bare? then word else value }
  }

  /** A word the runtime's rules leave alone. */
  predicate PlainCharacter(c: char) { !IsBlank(c) && c != '"' && c != '\\' }
  predicate PlainText(w: string) { forall i | 0 <= i < |w| :: PlainCharacter(w[i]) }
  predicate PlainWord(w: string) { w != [] && PlainText(w) }

  /** Tokens, each behind a blank. */
  function Line(tokens: seq<Token>): string {
    if tokens == [] then "" else " " + tokens[0].Written() + Line(tokens[1..])
  }

  function Meanings(tokens: seq<Token>): seq<string> {
    if tokens == [] then [] else [tokens[0].Meant()] + Meanings(tokens[1..])
  }

  lemma PlainStep(c: char, tail: string)
    requires PlainCharacter(c)
    ensures OneStep([c] + tail, false) == Continue([c], tail, false)
  {
    assert [c] + tail == Slashes(0) + [c] + tail && Slashes(0) + [c] == [c];
    CountSlashes(0, c, tail);
    assert ([c] + tail)[1..] == tail;
  }

  lemma PlainMore(c: char, tail: string, value: string, rest: string)
    requires PlainCharacter(c) && ParseArgument(tail, false) == Parsed(value, rest)
    ensures ParseArgument([c] + tail, false) == Parsed([c] + value, rest)
  {
    PlainStep(c, tail);
  }

  lemma {:induction false} WordIsParsed(word: string, rest: string)
    requires EndsArgument(rest) && PlainText(word)
    ensures ParseArgument(word + rest, false) == Parsed(word, rest)
    decreases |word|
  {
    if word == [] {
      assert word + rest == rest;
      ClosingQuote(0, rest);
    } else {
      var c, more := word[0], word[1..];
      WordIsParsed(more, rest);
      PlainMore(c, more + rest, more, rest);
      assert [c] + (more + rest) == word + rest && [c] + more == word;
    }
  }

  lemma TokenIsParsed(t: Token, rest: string)
    requires EndsArgument(rest) && (t.Bare? ==> PlainWord(t.word))
    ensures ParseArgument(t.Written() + rest, false) == Parsed(t.Meant(), rest)
    ensures t.Written() != [] && !IsBlank(t.Written()[0])
  {
    if t.Bare? {
      WordIsParsed(t.word, rest);
    } else {
      QuotedIsParsed(t.value, rest);
    }
  }

  /** A line of plain words and quoted values has exactly these arguments. */
  lemma {:induction false} LineIsParsed(tokens: seq<Token>)
    requires forall t <- tokens :: t.Bare? ==> PlainWord(t.word)
    ensures ParseArguments(Line(tokens)) == Meanings(tokens)
    decreases |tokens|
  {
    if tokens == [] {
    } else {
      var rest := Line(tokens[1..]);
      var written := tokens[0].Written() + rest;
      TokenIsParsed(tokens[0], rest);
      assert Line(tokens) == [' '] + written && Line(tokens)[1..] == written;
      assert SkipBlanks(Line(tokens)) == written;
      LineIsParsed(tokens[1..]);
    }
  }

  // ------------------------------------------------------------- the program name

  /** The name of the program is split off by rules of its own: quotes group and nothing escapes them. */
  function ParseProgram(s: string, quoted: bool): Parsed
    decreases |s|
  {
    if s == [] then Parsed([], [])
    else if s[0] == '"' then ParseProgram(s[1..], !quoted)
    else if !quoted && IsBlank(s[0]) then Parsed([], s)
    else Emit([s[0]], ParseProgram(s[1..], quoted))
  }

  lemma {:induction false} ProgramHasNoQuote(s: string, quoted: bool)
    ensures '"' !in ParseProgram(s, quoted).argument
    decreases |s|
  {
    if s == [] {
    } else {
      ProgramHasNoQuote(s[1..], if s[0] == '"' then !quoted else quoted);
    }
  }

  /** The backslashes a value ends in, with some before it. */
  function LastSlashes(value: string, held: nat): nat {
    if value == [] then held
    else if value[0] == '\\' then LastSlashes(value[1..], held + 1)
    else LastSlashes(value[1..], 0)
  }

  lemma {:induction false} EndsInSlash(value: string, held: nat)
    ensures LastSlashes(value, held) == 0 <==> if value == [] then held == 0 else value[|value| - 1] != '\\'
    decreases |value|
  {
    if value == [] {
    } else {
      EndsInSlash(value[1..], if value[0] == '\\' then held + 1 else 0);
    }
  }

  lemma {:induction false} SlashesAreKept(n: nat, s: string)
    ensures ParseProgram(Slashes(n) + s, true) == Emit(Slashes(n), ParseProgram(s, true))
    decreases n
  {
    if n == 0 {
      assert Slashes(0) + s == s;
      NoSlashes(ParseProgram(s, true).argument);
    } else {
      assert (Slashes(n) + s)[1..] == Slashes(n - 1) + s;
      SlashesAreKept(n - 1, s);
      var p := ParseProgram(s, true).argument;
      assert ['\\'] + (Slashes(n - 1) + p) == Slashes(n) + p;
    }
  }

  /** Read as a program's name, a quoted value keeps the backslashes that were doubled at its end. */
  lemma {:induction false} QuotingIsNamed(value: string, held: nat, rest: string)
    requires '"' !in value && EndsArgument(rest)
    ensures ParseProgram(Quoting(value, held) + rest, true) ==
            Parsed(Slashes(held) + value + Slashes(LastSlashes(value, held)), rest)
    decreases |value|
  {
    if value == [] {
      NameEnds(held, rest);
      assert Slashes(held) + value == Slashes(held);
    } else if value[0] == '\\' {
      QuotingIsNamed(value[1..], held + 1, rest);
      HoldOne(value, held);
    } else {
      var last := Slashes(LastSlashes(value[1..], 0));
      QuotingIsNamed(value[1..], 0, rest);
      QuotingSplits(value, held, rest);
      NameGoesOn(held, value[0], Quoting(value[1..], 0) + rest, Slashes(0) + value[1..] + last, rest);
      assert Slashes(held) + [value[0]] + (Slashes(0) + value[1..] + last) == Slashes(held) + value + last;
    }
  }

  lemma NameEnds(held: nat, rest: string)
    requires EndsArgument(rest)
    ensures ParseProgram(Quoting([], held) + rest, true) == Parsed(Slashes(held) + Slashes(held), rest)
  {
    assert Quoting([], held) + rest == Slashes(2 * held) + (['"'] + rest);
    SlashesAreKept(2 * held, ['"'] + rest);
    assert (['"'] + rest)[1..] == rest;
    assert Slashes(2 * held) + [] == Slashes(held) + Slashes(held);
  }

  lemma NameGoesOn(held: nat, c: char, tail: string, name: string, rest: string)
    requires c != '"' && ParseProgram(tail, true) == Parsed(name, rest)
    ensures ParseProgram(Slashes(held) + [c] + tail, true) == Parsed(Slashes(held) + [c] + name, rest)
  {
    assert Slashes(held) + [c] + tail == Slashes(held) + ([c] + tail);
    SlashesAreKept(held, [c] + tail);
    assert ([c] + tail)[1..] == tail;
    assert Slashes(held) + ([c] + name) == Slashes(held) + [c] + name;
  }

  predicate NameIsKept(program: string) {
    '"' !in program && (program == [] || program[|program| - 1] != '\\')
  }

  /**
   The quoted program is taken for its own name if and only if it holds no quote and does not end in
   a backslash, which no path of an executable does.
   */
  lemma ProgramIsNamedExactlyWhen(program: string, rest: string)
    requires EndsArgument(rest)
    ensures ParseProgram(Quoted(program) + rest, false).argument == program <==> NameIsKept(program)
    ensures NameIsKept(program) ==> ParseProgram(Quoted(program) + rest, false) == Parsed(program, rest)
  {
    var tail := Quoting(program, 0) + rest;
    assert Quoted(program) + rest == ['"'] + tail && (['"'] + tail)[1..] == tail;
    if '"' in program {
      ProgramHasNoQuote(Quoted(program) + rest, false);
    } else {
      QuotingIsNamed(program, 0, rest);
      EndsInSlash(program, 0);
      var n := LastSlashes(program, 0);
      assert |Slashes(0) + program + Slashes(n)| == |program| + n;
      assert n == 0 ==> Slashes(0) + program + Slashes(n) == program;
    }
  }

  const SSH_SWITCHES := ["-T", "-o", "BatchMode=yes", "-o", "IdentitiesOnly=yes",
                         "-o", "StrictHostKeyChecking=yes", "-o", "ConnectTimeout=10", "-i"]

  function Bares(words: seq<string>): seq<Token> { seq(|words|, i requires 0 <= i < |words| => Bare(words[i])) }

  /** The program and the identity are quoted; the switches, the host and what it is to run are not. */
  function SshCommand(program: string, identity: string, words: seq<string>): string {
    Quoted(program) + Line(Bares(SSH_SWITCHES) + [Quote(identity)] + Bares(words))
  }

  lemma {:induction false} MeaningsConcat(xs: seq<Token>, ys: seq<Token>)
    ensures Meanings(xs + ys) == Meanings(xs) + Meanings(ys)
    decreases |xs|
  {
    if xs == [] {
      assert xs + ys == ys;
    } else {
      assert (xs + ys)[1..] == xs[1..] + ys;
      MeaningsConcat(xs[1..], ys);
    }
  }

  lemma {:induction false} BaresMean(words: seq<string>)
    ensures Meanings(Bares(words)) == words
    decreases |words|
  {
    if words == [] {
    } else {
      assert Bares(words)[1..] == Bares(words[1..]);
      BaresMean(words[1..]);
    }
  }

  /** The child sees the program, the switches, the identity whatever it holds, and the words. */
  lemma SshCommandIsParsed(program: string, identity: string, words: seq<string>)
    requires NameIsKept(program) && forall w <- words :: PlainWord(w)
    ensures var p := ParseProgram(SshCommand(program, identity, words), false);
            p.argument == program && ParseArguments(p.rest) == SSH_SWITCHES + [identity] + words
  {
    var tokens := Bares(SSH_SWITCHES) + [Quote(identity)] + Bares(words);
    ProgramIsNamedExactlyWhen(program, Line(tokens));
    forall t | t in tokens && t.Bare? ensures PlainWord(t.word) {
      SwitchesArePlain();
    }
    LineIsParsed(tokens);
    MeaningsConcat(Bares(SSH_SWITCHES) + [Quote(identity)], Bares(words));
    MeaningsConcat(Bares(SSH_SWITCHES), [Quote(identity)]);
    BaresMean(SSH_SWITCHES);
    BaresMean(words);
    assert Meanings([Quote(identity)]) == [identity];
  }

  lemma SwitchesArePlain()
    ensures forall w <- SSH_SWITCHES :: PlainWord(w)
  {
  }
}
