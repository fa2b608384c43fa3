/** The canonical bytes a build's evidence digest is taken of, and a parser that inverts them. */
module BuildEvidence {
  import opened BigEndian
  import opened Options

  type Text = seq<Byte>

  const TWO_TO_THE_32 := 0x1_0000_0000

  /** `environment` lists the variables in the order of their names, as the map holding them does. */
  datatype Command = Command(argv: seq<Text>, workingDirectory: Text, timeout: int, environment: seq<Variable>)

  datatype Request = Request(id: Text, workspace: Text, revision: nat, profile: Text, command: Command)

  datatype Variable = Variable(name: Text, value: Text)

  datatype Evidence = Evidence(
    exitCode: int, elapsed: int, timedOut: bool, cancelled: bool,
    stdoutTruncated: bool, stderrTruncated: bool, stdoutLog: Text, stderrLog: Text)

  predicate FitsText(t: Text) { |t| < TWO_TO_THE_64 }

  predicate FitsCommand(c: Command) {
    && |c.argv| < TWO_TO_THE_64 && (forall a <- c.argv :: FitsText(a)) && FitsText(c.workingDirectory)
    && -TWO_TO_THE_64 / 2 <= c.timeout < TWO_TO_THE_64 / 2
    && |c.environment| < TWO_TO_THE_64 && (forall v <- c.environment :: FitsText(v.name) && FitsText(v.value))
  }

  /** The widths of the fields: sizes and counts of 64 bits, a 32 bit exit code. */
  predicate Fits(r: Request, e: Evidence) {
    && FitsText(r.id) && FitsText(r.workspace) && r.revision < TWO_TO_THE_64 && FitsText(r.profile)
    && FitsCommand(r.command)
    && FitsEvidence(e)
  }

  predicate FitsEvidence(e: Evidence) {
    && -TWO_TO_THE_32 / 2 <= e.exitCode < TWO_TO_THE_32 / 2 && -TWO_TO_THE_64 / 2 <= e.elapsed < TWO_TO_THE_64 / 2
    && FitsText(e.stdoutLog) && FitsText(e.stderrLog)
  }

  /** Letters, digits, hyphens and underscores. */
  predicate IdCharacter(b: Byte) {
    0x30 <= b <= 0x39 || 0x41 <= b <= 0x5a || 0x61 <= b <= 0x7a || b == 0x2d || b == 0x5f
  }

  predicate ValidId(t: Text) { 0 < |t| <= 64 && forall b <- t :: IdCharacter(b) }

  /** What the code checks before it encodes anything. */
  predicate Identified(r: Request, e: Evidence) {
    ValidId(r.id) && ValidId(r.workspace) && r.revision != 0 && ValidId(r.profile) && e.elapsed >= 0
  }

  function Ascii(s: string): Text { seq(|s|, i requires 0 <= i < |s| => (s[i] as int) % 256) }

  function MagicText(): Text { Ascii("rwn-build-evidence-v1") }

  // --------------------------------------------------------------------- writing

  function U64(n: nat): Text { NumberBytes(n, 8) }
  function Sized(t: Text): Text { U64(|t|) + t }
  function Flag(b: bool): Text { [if b then 1 else 0] }

  function Arguments(argv: seq<Text>): Text {
    if argv == [] then [] else Sized(argv[0]) + Arguments(argv[1..])
  }

  function Variables(environment: seq<Variable>): Text {
    if environment == [] then []
    else Sized(environment[0].name) + (Sized(environment[0].value) + Variables(environment[1..]))
  }

  /** A negative number is written as the unsigned number of its width. */
  function Unsigned(n: int, modulus: nat): nat
    requires 0 - modulus <= n < modulus
  {
    if n < 0 then n + modulus else n
  }

  function EncodeEvidence(e: Evidence): Text
    requires FitsEvidence(e)
  {
    U64(Unsigned(e.exitCode, TWO_TO_THE_32)) +
    (U64(Unsigned(e.elapsed, TWO_TO_THE_64)) + (Flag(e.timedOut) + (Flag(e.cancelled) +
    (Flag(e.stdoutTruncated) + (Flag(e.stderrTruncated) + (Sized(e.stdoutLog) + Sized(e.stderrLog)))))))
  }

  function EncodeCommand(c: Command, rest: Text): Text
    requires FitsCommand(c)
  {
    U64(|c.argv|) + (Arguments(c.argv) + (Sized(c.workingDirectory) + (U64(Unsigned(c.timeout, TWO_TO_THE_64)) +
    (U64(|c.environment|) + (Variables(c.environment) + rest)))))
  }

  function EncodeRequest(r: Request, rest: Text): Text
    requires FitsCommand(r.command)
  {
    Sized(r.id) + (Sized(r.workspace) + (U64(r.revision) + (Sized(r.profile) + EncodeCommand(r.command, rest))))
  }

  function Canonical(r: Request, e: Evidence): Text
    requires Fits(r, e)
  {
    Sized(MagicText()) + EncodeRequest(r, EncodeEvidence(e))
  }

  // --------------------------------------------------------------------- parsing

  datatype Parsed<T> = Parsed(value: T, rest: Text)

  function ParseU64(bs: Text): Option<Parsed<nat>> {
    if |bs| < 8 then None else Some(Parsed(NumberOf(bs[..8]), bs[8..]))
  }

  function ParseSized(bs: Text): Option<Parsed<Text>> {
    var n := ParseU64(bs);
    if n.None? || n.value.value > |n.value.rest| then None
    else Some(Parsed(n.value.rest[..n.value.value], n.value.rest[n.value.value..]))
  }

  function ParseFlag(bs: Text): Option<Parsed<bool>> {
    if bs == [] || bs[0] > 1 then None else Some(Parsed(bs[0] == 1, bs[1..]))
  }

  function ParseArguments(n: nat, bs: Text): Option<Parsed<seq<Text>>> {
    if n == 0 then Some(Parsed([], bs))
    else
      var one := ParseSized(bs);
      if one.None? then None
      else
        var more := ParseArguments(n - 1, one.value.rest);
        if more.None? then None else Some(Parsed([one.value.value] + more.value.value, more.value.rest))
  }

  function ParseVariable(bs: Text): Option<Parsed<Variable>> {
    var name := ParseSized(bs);
    if name.None? then None
    else
      var value := ParseSized(name.value.rest);
      if value.None? then None else Some(Parsed(Variable(name.value.value, value.value.value), value.value.rest))
  }

  function ParseVariables(n: nat, bs: Text): Option<Parsed<seq<Variable>>> {
    if n == 0 then Some(Parsed([], bs))
    else
      var one := ParseVariable(bs);
      if one.None? then None
      else
        var more := ParseVariables(n - 1, one.value.rest);
        if more.None? then None else Some(Parsed([one.value.value] + more.value.value, more.value.rest))
  }

  function Signed(n: nat, modulus: nat): int { if n >= modulus / 2 then n - modulus else n }

  // ------------------------------------------------------------- field by field

  lemma U64RoundTrip(n: nat, rest: Text)
    requires n < TWO_TO_THE_64
    ensures ParseU64(U64(n) + rest) == Some(Parsed(n, rest))
  {
    TwoToThe64();
    NumberRoundTrip(n, 8);
    assert (U64(n) + rest)[..8] == U64(n) && (U64(n) + rest)[8..] == rest;
  }

  lemma SizedRoundTrip(t: Text, rest: Text)
    requires FitsText(t)
    ensures ParseSized(Sized(t) + rest) == Some(Parsed(t, rest))
  {
    U64RoundTrip(|t|, t + rest);
    assert Sized(t) + rest == U64(|t|) + (t + rest);
    assert (t + rest)[..|t|] == t && (t + rest)[|t|..] == rest;
  }

  lemma OneArgumentMore(n: nat, bs: Text, a: Text, tail: Text, more: seq<Text>, rest: Text)
    requires ParseSized(bs) == Some(Parsed(a, tail)) && ParseArguments(n, tail) == Some(Parsed(more, rest))
    ensures ParseArguments(n + 1, bs) == Some(Parsed([a] + more, rest))
  {
  }

  lemma OneVariableMore(n: nat, bs: Text, v: Variable, tail: Text, more: seq<Variable>, rest: Text)
    requires ParseVariable(bs) == Some(Parsed(v, tail)) && ParseVariables(n, tail) == Some(Parsed(more, rest))
    ensures ParseVariables(n + 1, bs) == Some(Parsed([v] + more, rest))
  {
  }

  lemma ArgumentsHead(a: Text, more: seq<Text>, rest: Text) returns (bs: Text)
    ensures bs == Arguments([a] + more) + rest && bs == Sized(a) + (Arguments(more) + rest)
  {
    assert ([a] + more)[1..] == more;
    bs := Sized(a) + (Arguments(more) + rest);
    assert bs == Sized(a) + Arguments(more) + rest;
  }

  lemma {:induction false} ArgumentsRoundTrip(argv: seq<Text>, rest: Text)
    requires forall a <- argv :: FitsText(a)
    ensures ParseArguments(|argv|, Arguments(argv) + rest) == Some(Parsed(argv, rest))
    decreases |argv|
  {
    if argv == [] {
      assert Arguments(argv) + rest == rest;
    } else {
      var a, more := argv[0], argv[1..];
      var tail := Arguments(more) + rest;
      assert forall x <- more :: x in argv;
      assert [a] + more == argv;
      var bs := ArgumentsHead(a, more, rest);
      SizedRoundTrip(a, tail);
      ArgumentsRoundTrip(more, rest);
      OneArgumentMore(|more|, bs, a, tail, more, rest);
    }
  }

  lemma VariableRoundTrip(v: Variable, rest: Text)
    requires FitsText(v.name) && FitsText(v.value)
    ensures ParseVariable(Sized(v.name) + (Sized(v.value) + rest)) == Some(Parsed(v, rest))
  {
    SizedRoundTrip(v.name, Sized(v.value) + rest);
    SizedRoundTrip(v.value, rest);
  }

  lemma VariablesHead(v: Variable, more: seq<Variable>, rest: Text) returns (bs: Text)
    ensures bs == Variables([v] + more) + rest && bs == Sized(v.name) + (Sized(v.value) + (Variables(more) + rest))
  {
    assert ([v] + more)[1..] == more;
    bs := Sized(v.name) + (Sized(v.value) + (Variables(more) + rest));
    assert bs == Sized(v.name) + (Sized(v.value) + Variables(more)) + rest;
  }

  lemma {:induction false} VariablesRoundTrip(environment: seq<Variable>, rest: Text)
    requires forall v <- environment :: FitsText(v.name) && FitsText(v.value)
    ensures ParseVariables(|environment|, Variables(environment) + rest) == Some(Parsed(environment, rest))
    decreases |environment|
  {
    if environment == [] {
      assert Variables(environment) + rest == rest;
    } else {
      var v, more := environment[0], environment[1..];
      assert v in environment && forall w <- more :: w in environment;
      var tail := Variables(more) + rest;
      assert [v] + more == environment;
      var bs := VariablesHead(v, more, rest);
      VariableRoundTrip(v, tail);
      VariablesRoundTrip(more, rest);
      OneVariableMore(|more|, bs, v, tail, more, rest);
    }
  }

  // -------------------------------------------------------------- the whole record

  function ParseEvidence(bs: Text): Option<Parsed<Evidence>> {
    var exitCode := ParseU64(bs);
    if exitCode.None? then None else
    var elapsed := ParseU64(exitCode.value.rest);
    if elapsed.None? then None else
    var timedOut := ParseFlag(elapsed.value.rest);
    if timedOut.None? then None else
    var cancelled := ParseFlag(timedOut.value.rest);
    if cancelled.None? then None else
    var stdoutTruncated := ParseFlag(cancelled.value.rest);
    if stdoutTruncated.None? then None else
    var stderrTruncated := ParseFlag(stdoutTruncated.value.rest);
    if stderrTruncated.None? then None else
    var stdoutLog := ParseSized(stderrTruncated.value.rest);
    if stdoutLog.None? then None else
    var stderrLog := ParseSized(stdoutLog.value.rest);
    if stderrLog.None? then None else
    Some(Parsed(Evidence(Signed(exitCode.value.value, TWO_TO_THE_32), Signed(elapsed.value.value, TWO_TO_THE_64),
                         timedOut.value.value,
                         cancelled.value.value, stdoutTruncated.value.value, stderrTruncated.value.value,
                         stdoutLog.value.value, stderrLog.value.value),
                stderrLog.value.rest))
  }

  function ParseArgv(bs: Text): Option<Parsed<seq<Text>>> {
    var argc := ParseU64(bs);
    if argc.None? then None else ParseArguments(argc.value.value, argc.value.rest)
  }

  function ParseEnvironment(bs: Text): Option<Parsed<seq<Variable>>> {
    var count := ParseU64(bs);
    if count.None? then None else ParseVariables(count.value.value, count.value.rest)
  }

  function ParseCommand(bs: Text): Option<Parsed<Command>> {
    var argv := ParseArgv(bs);
    if argv.None? then None else
    var directory := ParseSized(argv.value.rest);
    if directory.None? then None else
    var timeout := ParseU64(directory.value.rest);
    if timeout.None? then None else
    var environment := ParseEnvironment(timeout.value.rest);
    if environment.None? then None else
    Some(Parsed(Command(argv.value.value, directory.value.value, Signed(timeout.value.value, TWO_TO_THE_64),
                        environment.value.value),
                environment.value.rest))
  }

  function ParseRequest(bs: Text): Option<Parsed<Request>> {
    var id := ParseSized(bs);
    if id.None? then None else
    var workspace := ParseSized(id.value.rest);
    if workspace.None? then None else
    var revision := ParseU64(workspace.value.rest);
    if revision.None? then None else
    var profile := ParseSized(revision.value.rest);
    if profile.None? then None else
    var command := ParseCommand(profile.value.rest);
    if command.None? then None else
    Some(Parsed(Request(id.value.value, workspace.value.value, revision.value.value, profile.value.value,
                        command.value.value),
                command.value.rest))
  }

  datatype Record = Record(request: Request, evidence: Evidence)

  function ParseCanonical(bs: Text): Option<Record> {
    var magic := ParseSized(bs);
    if magic.None? || magic.value.value != MagicText() then None else
    var request := ParseRequest(magic.value.rest);
    if request.None? then None else
    var evidence := ParseEvidence(request.value.rest);
    if evidence.None? || evidence.value.rest != [] then None else
    Some(Record(request.value.value, evidence.value.value))
  }

  lemma FlagRoundTrip(b: bool, rest: Text)
    ensures ParseFlag(Flag(b) + rest) == Some(Parsed(b, rest))
  {
  }

  lemma SignedRoundTrip(n: int, modulus: nat)
    requires modulus % 2 == 0 && 0 - modulus / 2 <= n < modulus / 2
    ensures Signed(Unsigned(n, modulus), modulus) == n && Unsigned(n, modulus) < modulus
  {
  }

  lemma EvidenceRoundTrip(e: Evidence)
    requires FitsEvidence(e)
    ensures ParseEvidence(EncodeEvidence(e)) == Some(Parsed(e, []))
  {
    var code, elapsed := Unsigned(e.exitCode, TWO_TO_THE_32), Unsigned(e.elapsed, TWO_TO_THE_64);
    var s8: Text := [];
    assert Sized(e.stderrLog) + s8 == Sized(e.stderrLog);
    var s7 := Sized(e.stderrLog);
    var s6 := Sized(e.stdoutLog) + s7;
    var s5 := Flag(e.stderrTruncated) + s6;
    var s4 := Flag(e.stdoutTruncated) + s5;
    var s3 := Flag(e.cancelled) + s4;
    var s2 := Flag(e.timedOut) + s3;
    var s1 := U64(elapsed) + s2;
    SignedRoundTrip(e.exitCode, TWO_TO_THE_32);
    SignedRoundTrip(e.elapsed, TWO_TO_THE_64);
    U64RoundTrip(code, s1);
    U64RoundTrip(elapsed, s2);
    FlagRoundTrip(e.timedOut, s3);
    FlagRoundTrip(e.cancelled, s4);
    FlagRoundTrip(e.stdoutTruncated, s5);
    FlagRoundTrip(e.stderrTruncated, s6);
    SizedRoundTrip(e.stdoutLog, s7);
    SizedRoundTrip(e.stderrLog, s8);
  }

  lemma ArgvRoundTrip(argv: seq<Text>, rest: Text)
    requires |argv| < TWO_TO_THE_64 && forall a <- argv :: FitsText(a)
    ensures ParseArgv(U64(|argv|) + (Arguments(argv) + rest)) == Some(Parsed(argv, rest))
  {
    U64RoundTrip(|argv|, Arguments(argv) + rest);
    ArgumentsRoundTrip(argv, rest);
  }

  lemma EnvironmentRoundTrip(environment: seq<Variable>, rest: Text)
    requires |environment| < TWO_TO_THE_64 && forall v <- environment :: FitsText(v.name) && FitsText(v.value)
    ensures ParseEnvironment(U64(|environment|) + (Variables(environment) + rest)) == Some(Parsed(environment, rest))
  {
    U64RoundTrip(|environment|, Variables(environment) + rest);
    VariablesRoundTrip(environment, rest);
  }

  lemma CommandRoundTrip(c: Command, rest: Text)
    requires FitsCommand(c)
    ensures ParseCommand(EncodeCommand(c, rest)) == Some(Parsed(c, rest))
  {
    var timeout := Unsigned(c.timeout, TWO_TO_THE_64);
    var s4 := U64(|c.environment|) + (Variables(c.environment) + rest);
    var s3 := U64(timeout) + s4;
    var s2 := Sized(c.workingDirectory) + s3;
    ArgvRoundTrip(c.argv, s2);
    SizedRoundTrip(c.workingDirectory, s3);
    SignedRoundTrip(c.timeout, TWO_TO_THE_64);
    U64RoundTrip(timeout, s4);
    EnvironmentRoundTrip(c.environment, rest);
  }

  lemma RequestRoundTrip(r: Request, e: Evidence, rest: Text)
    requires Fits(r, e)
    ensures ParseRequest(EncodeRequest(r, rest)) == Some(Parsed(r, rest))
  {
    var s5 := EncodeCommand(r.command, rest);
    var s4 := Sized(r.profile) + s5;
    var s3 := U64(r.revision) + s4;
    var s2 := Sized(r.workspace) + s3;
    SizedRoundTrip(r.id, s2);
    SizedRoundTrip(r.workspace, s3);
    U64RoundTrip(r.revision, s4);
    SizedRoundTrip(r.profile, s5);
    CommandRoundTrip(r.command, rest);
  }

  /** Parsing the canonical bytes gives back the request and the evidence. */
  lemma CanonicalRoundTrip(r: Request, e: Evidence)
    requires Fits(r, e)
    ensures ParseCanonical(Canonical(r, e)) == Some(Record(r, e))
  {
    assert |MagicText()| == 21;
    SizedRoundTrip(MagicText(), EncodeRequest(r, EncodeEvidence(e)));
    RequestRoundTrip(r, e, EncodeEvidence(e));
    EvidenceRoundTrip(e);
  }

  /** Equal bytes mean equal request and equal evidence; so do equal digests without a collision. */
  lemma CanonicalIsInjective(r: Request, e: Evidence, q: Request, d: Evidence)
    requires Fits(r, e) && Fits(q, d) && Canonical(r, e) == Canonical(q, d)
    ensures r == q && e == d
  {
    CanonicalRoundTrip(r, e);
    CanonicalRoundTrip(q, d);
  }

  // ------------------------------------------------------------- the appending code

  method AppendU64(output: Text, value: nat) returns (more: Text)
    requires value < TWO_TO_THE_64
    ensures more == output + U64(value)
  {
    more := output;
    assert NumberBytes(value, 8) == NumberBytes(value, 8)[..8];
    for k := 0 to 8
      invariant more == output + U64(value)[..k]
    {
      ByteAt(value, 8, k);
      more := more + [(value / Pow256(7 - k)) % 256];
    }
  }

  method AppendString(output: Text, value: Text) returns (more: Text)
    requires FitsText(value)
    ensures more == output + Sized(value)
  {
    more := AppendU64(output, |value|);
    more := more + value;
  }

  method AppendArguments(output: Text, argv: seq<Text>) returns (more: Text)
    requires forall a <- argv :: FitsText(a)
    ensures more == output + Arguments(argv)
  {
    more := output;
    for i := 0 to |argv|
      invariant more + Arguments(argv[i..]) == output + Arguments(argv)
    {
      assert argv[i..][1..] == argv[i + 1..];
      assert more + (Sized(argv[i]) + Arguments(argv[i + 1..])) == more + Sized(argv[i]) + Arguments(argv[i + 1..]);
      more := AppendString(more, argv[i]);
    }
  }

  method AppendVariables(output: Text, environment: seq<Variable>) returns (more: Text)
    requires forall v <- environment :: FitsText(v.name) && FitsText(v.value)
    ensures more == output + Variables(environment)
  {
    more := output;
    for i := 0 to |environment|
      invariant more + Variables(environment[i..]) == output + Variables(environment)
    {
      var v := environment[i];
      assert environment[i..][1..] == environment[i + 1..];
      assert more + (Sized(v.name) + (Sized(v.value) + Variables(environment[i + 1..]))) ==
             more + Sized(v.name) + Sized(v.value) + Variables(environment[i + 1..]);
      more := AppendString(more, v.name);
      more := AppendString(more, v.value);
    }
  }

  method AppendCommand(output: Text, c: Command) returns (more: Text)
    requires FitsCommand(c)
    ensures more == output + EncodeCommand(c, [])
  {
    more := AppendU64(output, |c.argv|);
    more := AppendArguments(more, c.argv);
    more := AppendString(more, c.workingDirectory);
    more := AppendU64(more, Unsigned(c.timeout, TWO_TO_THE_64));
    more := AppendU64(more, |c.environment|);
    more := AppendVariables(more, c.environment);
    var x1, x2, x3, x4, x5, x6 := U64(|c.argv|), Arguments(c.argv), Sized(c.workingDirectory),
                                  U64(Unsigned(c.timeout, TWO_TO_THE_64)), U64(|c.environment|),
                                  Variables(c.environment);
    SixParts(output, x1, x2, x3, x4, x5, x6);
  }

  lemma SixParts(o: Text, a: Text, b: Text, c: Text, d: Text, e: Text, f: Text)
    ensures o + a + b + c + d + e + f == o + (a + (b + (c + (d + (e + (f + []))))))
  {
    assert f + [] == f;
  }

  method IsValidId(value: Text) returns (valid: bool)
    ensures valid <==> ValidId(value)
  {
    if value == [] || |value| > 64 { return false; }
    for i := 0 to |value|
      invariant forall k | 0 <= k < i :: IdCharacter(value[k])
    {
      if !IdCharacter(value[i]) { return false; }
    }
    valid := true;
  }

  /** Refuses a request that is not identified, or a negative duration, by throwing. */
  method CanonicalBytes(r: Request, e: Evidence) returns (canonical: Option<Text>)
    requires Fits(r, e)
    ensures canonical.None? <==> !Identified(r, e)
    ensures canonical.Some? ==> canonical.value == Canonical(r, e)
  {
    var idValid := IsValidId(r.id);
    var workspaceValid := IsValidId(r.workspace);
    var profileValid := IsValidId(r.profile);
    if !idValid || !workspaceValid || r.revision == 0 || !profileValid || e.elapsed < 0 { return None; }
    var bytes := AppendString([], MagicText());
    bytes := AppendString(bytes, r.id);
    bytes := AppendString(bytes, r.workspace);
    bytes := AppendU64(bytes, r.revision);
    bytes := AppendString(bytes, r.profile);
    bytes := AppendCommand(bytes, r.command);
    bytes := AppendEvidence(bytes, e);
    canonical := Some(bytes);
    CommandRest(r.command, EncodeEvidence(e));
    WholeRecord(Sized(MagicText()), Sized(r.id), Sized(r.workspace), U64(r.revision), Sized(r.profile),
                EncodeCommand(r.command, []), EncodeEvidence(e));
  }

  lemma CommandRest(c: Command, rest: Text)
    requires FitsCommand(c)
    ensures EncodeCommand(c, rest) == EncodeCommand(c, []) + rest
  {
    assert Variables(c.environment) + [] + rest == Variables(c.environment) + rest;
  }

  lemma WholeRecord(m: Text, a: Text, b: Text, c: Text, d: Text, e: Text, f: Text)
    ensures [] + m + a + b + c + d + e + f == m + (a + (b + (c + (d + (e + f)))))
  {
  }

  method AppendEvidence(output: Text, e: Evidence) returns (more: Text)
    requires FitsEvidence(e)
    ensures more == output + EncodeEvidence(e)
  {
    more := AppendU64(output, Unsigned(e.exitCode, TWO_TO_THE_32));
    more := AppendU64(more, Unsigned(e.elapsed, TWO_TO_THE_64));
    more := more + Flag(e.timedOut);
    more := more + Flag(e.cancelled);
    more := more + Flag(e.stdoutTruncated);
    more := more + Flag(e.stderrTruncated);
    more := AppendString(more, e.stdoutLog);
    more := AppendString(more, e.stderrLog);
    EightParts(output, U64(Unsigned(e.exitCode, TWO_TO_THE_32)), U64(Unsigned(e.elapsed, TWO_TO_THE_64)),
               Flag(e.timedOut), Flag(e.cancelled), Flag(e.stdoutTruncated), Flag(e.stderrTruncated),
               Sized(e.stdoutLog), Sized(e.stderrLog));
  }

  lemma EightParts(o: Text, a: Text, b: Text, c: Text, d: Text, e: Text, f: Text, g: Text, h: Text)
    ensures o + a + b + c + d + e + f + g + h == o + (a + (b + (c + (d + (e + (f + (g + h)))))))
  {
  }
}
