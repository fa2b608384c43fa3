/**
 Deploying an artifact over the active file, with compensation when a step fails. File moves either
 happen or throw and change nothing; which of them throw, and which commands succeed, is up to the
 environment.
 */
module Deployments {
  import opened Options

  type Id = nat
  type Content = nat

  /** Where a file can be. */
  datatype Place = ActiveFile | Previous(id: Id) | Quarantine(id: Id)

  /** The files of one runtime; `parts` are staging copies left behind. */
  datatype Files = Files(at: map<Place, Content>, parts: set<Id>)

  /**
   What the environment makes of one attempt; a false flag is an exception or a failed command, and
   `throws` tells whether a command that does not succeed throws or exits with a failure.
   */
  datatype Env = Env(
    stops: bool, stageMoves: bool, verified: bool, copies: bool, leavesPart: bool, copyVerified: bool,
    installMoves: bool,
    starts: bool, healthy: bool,
    stopsAgain: bool, quarantineMoves: bool, restoreMoves: bool, startsAgain: bool, healthyAgain: bool,
    throws: bool)

  datatype Moved = Moved(files: Files, ok: bool)

  /** A file moves to a place where none is. */
  function Move(f: Files, from: Place, to: Place): Files
    requires from in f.at && to !in f.at
  {
    f.(at := (f.at - {from})[to := f.at[from]])
  }

  function StagePrevious(f: Files, id: Id, moves: bool): Moved {
    if ActiveFile !in f.at || Previous(id) in f.at || !moves then Moved(f, false)
    else Moved(Move(f, ActiveFile, Previous(id)), true)
  }

  function Install(f: Files, id: Id, artifact: Content, env: Env): Moved {
    if !env.verified || id in f.parts then Moved(f, false)
    else if !env.copies then Moved(if env.leavesPart then f.(parts := f.parts + {id}) else f, false)
    else if !env.copyVerified || !env.installMoves then Moved(f.(parts := f.parts + {id}), false)
    else Moved(f.(at := f.at[ActiveFile := artifact]), true)
  }

  function RestorePrevious(f: Files, id: Id, quarantineMoves: bool, restoreMoves: bool): Moved {
    if Previous(id) !in f.at then Moved(f, false)
    else if ActiveFile in f.at && (Quarantine(id) in f.at || !quarantineMoves) then Moved(f, false)
    else
      var aside := if ActiveFile in f.at then Move(f, ActiveFile, Quarantine(id)) else f;
      if !restoreMoves then Moved(aside, false) else Moved(Move(aside, Previous(id), ActiveFile), true)
  }

  // ------------------------------------------------------------------ the pipeline

  datatype Step =
    | Stop | Stage | Installing | Start | Health
    | RollbackStop | RollbackRestore | RollbackStart | RollbackHealth

  datatype Evidence = Evidence(step: Step, succeeded: bool)

  datatype Status = Active | RolledBack | Failed

  datatype Outcome = Outcome(files: Files, status: Status, evidence: seq<Evidence>, reason: Option<Step>)

  function Ran(step: Step, ok: bool): seq<Evidence> { [Evidence(step, ok)] }

  /** The compensation: stop, put the previous file back, start, check. */
  function Compensate(f: Files, id: Id, env: Env): Outcome {
    if !env.stopsAgain then Outcome(f, Failed, Ran(RollbackStop, false), None)
    else
      var restored := RestorePrevious(f, id, env.quarantineMoves, env.restoreMoves);
      var e2 := Ran(RollbackStop, true) + Ran(RollbackRestore, restored.ok);
      if !restored.ok then Outcome(restored.files, Failed, e2, None)
      else if !env.startsAgain then Outcome(restored.files, Failed, e2 + Ran(RollbackStart, false), None)
      else
        Outcome(restored.files, if env.healthyAgain then RolledBack else Failed,
                e2 + Ran(RollbackStart, true) + Ran(RollbackHealth, env.healthyAgain), None)
  }

  /** How far the five forward steps come. */
  datatype Forward = Forward(files: Files, evidence: seq<Evidence>, failed: Option<Step>)

  function RunForward(f: Files, id: Id, artifact: Content, env: Env): Forward {
    if !env.stops then Forward(f, Ran(Stop, false), Some(Stop))
    else
      var staged := StagePrevious(f, id, env.stageMoves);
      var e2 := Ran(Stop, true) + Ran(Stage, staged.ok);
      if !staged.ok then Forward(staged.files, e2, Some(Stage))
      else
        var installed := Install(staged.files, id, artifact, env);
        var e3 := e2 + Ran(Installing, installed.ok);
        if !installed.ok then Forward(installed.files, e3, Some(Installing))
        else if !env.starts then Forward(installed.files, e3 + Ran(Start, false), Some(Start))
        else
          Forward(installed.files, e3 + Ran(Start, true) + Ran(Health, env.healthy),
                  if env.healthy then None else Some(Health))
  }

  function Deploy(f: Files, id: Id, artifact: Content, env: Env): Outcome {
    var forward := RunForward(f, id, artifact, env);
    if forward.failed.None? then Outcome(forward.files, Active, forward.evidence, None)
    else
      var back := Compensate(forward.files, id, env);
      Outcome(back.files, back.status, forward.evidence + back.evidence, forward.failed)
  }

  // ------------------------------------------------------------------ conservation

  /** The contents found at some places. */
  ghost function Held(at: map<Place, Content>, places: set<Place>): multiset<Content>
    requires places <= at.Keys
    decreases |places|
  {
    if places == {} then multiset{}
    else
      var p :| p in places;
      multiset{at[p]} + Held(at, places - {p})
  }

  ghost function Contents(f: Files): multiset<Content> { Held(f.at, f.at.Keys) }

  /** It does not matter which place is counted first. */
  lemma {:induction false} HeldPick(at: map<Place, Content>, places: set<Place>, q: Place)
    requires places <= at.Keys && q in places
    ensures Held(at, places) == multiset{at[q]} + Held(at, places - {q})
    decreases |places|
  {
    var p :| p in places && Held(at, places) == multiset{at[p]} + Held(at, places - {p});
    if p == q {
    } else {
      HeldPick(at, places - {p}, q);
      HeldPick(at, places - {q}, p);
      assert places - {p} - {q} == places - {q} - {p};
    }
  }

  lemma {:induction false} HeldSame(a: map<Place, Content>, b: map<Place, Content>, places: set<Place>)
    requires places <= a.Keys && places <= b.Keys && forall p <- places :: a[p] == b[p]
    ensures Held(a, places) == Held(b, places)
    decreases |places|
  {
    if places == {} {
    } else {
      var p :| p in places;
      HeldPick(a, places, p);
      HeldPick(b, places, p);
      HeldSame(a, b, places - {p});
    }
  }

  lemma ContentsAdd(at: map<Place, Content>, p: Place, c: Content)
    requires p !in at
    ensures Held(at[p := c], at[p := c].Keys) == Held(at, at.Keys) + multiset{c}
  {
    var more := at[p := c];
    HeldPick(more, more.Keys, p);
    assert more.Keys - {p} == at.Keys;
    HeldSame(more, at, at.Keys);
  }

  lemma ContentsDrop(at: map<Place, Content>, p: Place)
    requires p in at
    ensures Held(at, at.Keys) == Held(at - {p}, (at - {p}).Keys) + multiset{at[p]}
  {
    HeldPick(at, at.Keys, p);
    assert (at - {p}).Keys == at.Keys - {p};
    HeldSame(at, at - {p}, at.Keys - {p});
  }

  lemma MoveConserves(f: Files, from: Place, to: Place)
    requires from in f.at && to !in f.at
    ensures Contents(Move(f, from, to)) == Contents(f)
  {
    ContentsDrop(f.at, from);
    ContentsAdd(f.at - {from}, to, f.at[from]);
  }

  /** The artifacts an evidence list says were installed. */
  function Installs(evidence: seq<Evidence>, artifact: Content): multiset<Content> {
    if Evidence(Installing, true) in evidence then multiset{artifact} else multiset{}
  }

  lemma RestoreConserves(f: Files, id: Id, quarantineMoves: bool, restoreMoves: bool)
    ensures Contents(RestorePrevious(f, id, quarantineMoves, restoreMoves).files) == Contents(f)
  {
    if Previous(id) in f.at && !(ActiveFile in f.at && (Quarantine(id) in f.at || !quarantineMoves)) {
      var aside := if ActiveFile in f.at then Move(f, ActiveFile, Quarantine(id)) else f;
      if ActiveFile in f.at {
        MoveConserves(f, ActiveFile, Quarantine(id));
      }
      if restoreMoves {
        MoveConserves(aside, Previous(id), ActiveFile);
      }
    }
  }

  lemma StageConserves(f: Files, id: Id, moves: bool)
    ensures var staged := StagePrevious(f, id, moves);
            Contents(staged.files) == Contents(f) && (staged.ok ==> ActiveFile !in staged.files.at)
  {
    if StagePrevious(f, id, moves).ok {
      MoveConserves(f, ActiveFile, Previous(id));
    }
  }

  lemma InstallAdds(f: Files, id: Id, artifact: Content, env: Env)
    requires ActiveFile !in f.at
    ensures var installed := Install(f, id, artifact, env);
            Contents(installed.files) == Contents(f) + if installed.ok then multiset{artifact} else multiset{}
  {
    if Install(f, id, artifact, env).ok {
      ContentsAdd(f.at, ActiveFile, artifact);
    }
  }

  lemma InstallRecorded(f: Files, id: Id, artifact: Content, env: Env)
    ensures var staged := StagePrevious(f, id, env.stageMoves);
            Evidence(Installing, true) in RunForward(f, id, artifact, env).evidence <==>
            env.stops && staged.ok && Install(staged.files, id, artifact, env).ok
  {
    var staged := StagePrevious(f, id, env.stageMoves);
    if env.stops && staged.ok && Install(staged.files, id, artifact, env).ok {
      assert RunForward(f, id, artifact, env).evidence[2] == Evidence(Installing, true);
    }
  }

  lemma ForwardConserves(f: Files, id: Id, artifact: Content, env: Env)
    ensures var forward := RunForward(f, id, artifact, env);
            Contents(forward.files) == Contents(f) + Installs(forward.evidence, artifact)
  {
    var staged := StagePrevious(f, id, env.stageMoves);
    StageConserves(f, id, env.stageMoves);
    InstallRecorded(f, id, artifact, env);
    if staged.ok {
      InstallAdds(staged.files, id, artifact, env);
    }
  }

  /** A deployment loses no file, and adds the artifact exactly when its install step succeeded. */
  lemma DeployConserves(f: Files, id: Id, artifact: Content, env: Env)
    ensures var out := Deploy(f, id, artifact, env);
            Contents(out.files) == Contents(f) + Installs(out.evidence, artifact)
  {
    var forward := RunForward(f, id, artifact, env);
    ForwardConserves(f, id, artifact, env);
    if forward.failed.Some? {
      CompensateConserves(forward.files, id, env);
      CompensateInstallsNothing(forward.files, id, env);
      InstallsOnce(forward.evidence, Compensate(forward.files, id, env).evidence, artifact);
    }
  }

  lemma CompensateConserves(f: Files, id: Id, env: Env)
    ensures Contents(Compensate(f, id, env).files) == Contents(f)
  {
    RestoreConserves(f, id, env.quarantineMoves, env.restoreMoves);
  }

  lemma CompensateInstallsNothing(f: Files, id: Id, env: Env)
    ensures Evidence(Installing, true) !in Compensate(f, id, env).evidence
  {
  }

  lemma InstallsOnce(evidence: seq<Evidence>, more: seq<Evidence>, artifact: Content)
    requires Evidence(Installing, true) !in more
    ensures Installs(evidence + more, artifact) == Installs(evidence, artifact)
  {
  }

  // ------------------------------------------------------- what a rollback restores

  function ActiveOf(f: Files): Option<Content> { if ActiveFile in f.at then Some(f.at[ActiveFile]) else None }

  /**
   A rolled back deployment leaves the file in place that was active before it, provided its
   rollback slot was free; with a slot left over from earlier it puts the leftover there.
   */
  lemma RolledBackRestores(f: Files, id: Id, artifact: Content, env: Env)
    requires Deploy(f, id, artifact, env).status == RolledBack
    ensures ActiveOf(Deploy(f, id, artifact, env).files) ==
            if Previous(id) in f.at then Some(f.at[Previous(id)]) else ActiveOf(f)
    ensures Previous(id) !in f.at ==> ActiveFile in f.at
  {
  }

  /** So restoring is right exactly when the slot was free or held the same content. */
  lemma RolledBackIsRightExactlyWhen(f: Files, id: Id, artifact: Content, env: Env)
    requires Deploy(f, id, artifact, env).status == RolledBack
    ensures ActiveOf(Deploy(f, id, artifact, env).files) == ActiveOf(f) <==>
            (Previous(id) !in f.at || ActiveOf(f) == Some(f.at[Previous(id)]))
  {
    RolledBackRestores(f, id, artifact, env);
  }

  const CALM := Env(true, true, true, true, false, true, true, true, true, true, true, true, true, true, false)

  /** A leftover slot does get restored: staging refuses, and the compensation succeeds. */
  lemma LeftoverSlotIsRestored(old_: Content, leftover: Content, artifact: Content)
    requires old_ != leftover
    ensures var f := Files(map[ActiveFile := old_, Previous(1) := leftover], {});
            var out := Deploy(f, 1, artifact, CALM);
            out.status == RolledBack && ActiveOf(out.files) == Some(leftover) && out.reason == Some(Stage)
  {
  }

  const FORWARD := [Stop, Stage, Installing, Start, Health]
  const BACKWARD := [RollbackStop, RollbackRestore, RollbackStart, RollbackHealth]

  /** A phase runs through its steps in order up to the first that does not succeed. */
  predicate Phase(evidence: seq<Evidence>, steps: seq<Step>) {
    && 0 < |evidence| <= |steps|
    && (forall i | 0 <= i < |evidence| :: evidence[i].step == steps[i])
    && (forall i | 0 <= i < |evidence| - 1 :: evidence[i].succeeded)
    && (evidence[|evidence| - 1].succeeded ==> |evidence| == |steps|)
  }

  predicate Succeeds(evidence: seq<Evidence>) { evidence != [] && evidence[|evidence| - 1].succeeded }

  lemma ForwardPhase(f: Files, id: Id, artifact: Content, env: Env)
    ensures var forward := RunForward(f, id, artifact, env);
            && Phase(forward.evidence, FORWARD) && (Succeeds(forward.evidence) <==> forward.failed.None?)
            && (forward.failed.Some? ==> forward.failed.value == forward.evidence[|forward.evidence| - 1].step)
  {
  }

  lemma BackwardPhase(f: Files, id: Id, env: Env)
    ensures var back := Compensate(f, id, env);
            Phase(back.evidence, BACKWARD) && (Succeeds(back.evidence) <==> back.status == RolledBack) &&
            back.status != Active
  {
  }

  /**
   The record tells the story, whatever the outcome: the forward steps in order up to the first that
   fails, which is the reason given, and only then the compensating steps in order up to the first
   that fails. The deployment is active when all of the former succeeded and rolled back when all of
   the latter did.
   */
  lemma EvidenceTellsStatus(f: Files, id: Id, artifact: Content, env: Env) returns (n: nat)
    ensures var out := Deploy(f, id, artifact, env);
            && n <= |out.evidence| && Phase(out.evidence[..n], FORWARD)
            && (out.status == Active <==> Succeeds(out.evidence[..n]))
            && (out.status == Active ==> out.evidence[n..] == [] && out.reason.None?)
            && (out.status != Active ==> Phase(out.evidence[n..], BACKWARD) &&
                                         out.reason == Some(out.evidence[n - 1].step))
            && (out.status == RolledBack <==> Succeeds(out.evidence[n..]))
  {
    var out, forward := Deploy(f, id, artifact, env), RunForward(f, id, artifact, env);
    n := |forward.evidence|;
    ForwardPhase(f, id, artifact, env);
    assert out.evidence[..n] == forward.evidence;
    if forward.failed.Some? {
      BackwardPhase(forward.files, id, env);
      assert out.evidence[n..] == Compensate(forward.files, id, env).evidence;
    }
  }

  // -------------------------------------------------------------------- the service

  datatype Record = Record(artifact: Content, status: Status, evidence: seq<Evidence>)

  datatype Service = Service(files: Files, records: map<Id, Record>)

  /** A deployment is refused when its identifier has been used or its authority does not reach. */
  function DeployOn(s: Service, id: Id, artifact: Content, allowed: bool, env: Env): Option<Service> {
    if id in s.records || !allowed then None
    else
      var out := Deploy(s.files, id, artifact, env);
      Some(Service(out.files, s.records[id := Record(artifact, out.status, out.evidence)]))
  }

  /** A command of a manual rollback that throws leaves no evidence. */
  function Exited(step: Step, ok: bool, throws: bool): seq<Evidence> { if !ok && throws then [] else Ran(step, ok) }

  /** The evidence of a manual rollback; a restore that throws leaves none either. */
  function RollbackEvidence(f: Files, id: Id, env: Env): seq<Evidence> {
    if !env.stopsAgain then Exited(RollbackStop, false, env.throws)
    else if !RestorePrevious(f, id, env.quarantineMoves, env.restoreMoves).ok then Ran(RollbackStop, true)
    else
      var e2 := Ran(RollbackStop, true) + Ran(RollbackRestore, true);
      if !env.startsAgain then e2 + Exited(RollbackStart, false, env.throws)
      else e2 + Ran(RollbackStart, true) + Exited(RollbackHealth, env.healthyAgain, env.throws)
  }

  /**
   A manual rollback records what the compensation of a deployment would, except that a step that
   throws is missing: the steps recorded are complete exactly when it succeeds.
   */
  lemma RollbackEvidenceTellsStatus(f: Files, id: Id, env: Env)
    ensures var back, evidence := Compensate(f, id, env), RollbackEvidence(f, id, env);
            && (evidence == back.evidence ||
                (back.status == Failed && evidence == back.evidence[..|back.evidence| - 1]))
            && (back.status == RolledBack <==> |evidence| == |BACKWARD| && Succeeds(evidence))
  {
    BackwardPhase(f, id, env);
    var all := Compensate(f, id, env).evidence;
    assert all[..|all| - 1] + [all[|all| - 1]] == all;
  }

  // ---------------------------------------------------------- what decides the outcome

  /** The active file can be moved aside, after the service has stopped. */
  predicate Staged(f: Files, id: Id, env: Env) {
    env.stops && ActiveFile in f.at && Previous(id) !in f.at && env.stageMoves
  }

  /** And the verified artifact takes its place, by way of a staging copy that was not there before. */
  predicate InPlace(f: Files, id: Id, env: Env) {
    Staged(f, id, env) && env.verified && id !in f.parts && env.copies && env.copyVerified && env.installMoves
  }

  /** A deployment stays active exactly when every command and every move of it succeeds. */
  lemma ActiveExactlyWhen(f: Files, id: Id, artifact: Content, env: Env)
    ensures var out := Deploy(f, id, artifact, env);
            && (out.status == Active <==> InPlace(f, id, env) && env.starts && env.healthy)
            && (out.status == Active ==>
                  out.files == Files(f.at[Previous(id) := f.at[ActiveFile]][ActiveFile := artifact], f.parts))
  {
    if Deploy(f, id, artifact, env).status == Active {
      var at := f.at[Previous(id) := f.at[ActiveFile]][ActiveFile := artifact];
      assert (f.at - {ActiveFile})[Previous(id) := f.at[ActiveFile]][ActiveFile := artifact] == at;
    }
  }

  /** The previous file can be put back, with whatever is active moved to quarantine first. */
  predicate PutsBack(f: Files, id: Id, env: Env) {
    && env.stopsAgain && Previous(id) in f.at
    && (ActiveFile in f.at ==> Quarantine(id) !in f.at && env.quarantineMoves)
    && env.restoreMoves
  }

  /** What putting back makes of the places. */
  function PutBack(f: Files, id: Id): map<Place, Content>
    requires Previous(id) in f.at
  {
    (if ActiveFile in f.at then f.at[Quarantine(id) := f.at[ActiveFile]] else f.at)[ActiveFile := f.at[Previous(id)]] -
    {Previous(id)}
  }

  /** A rollback succeeds exactly when every command and every move of it does. */
  lemma RollbackSucceedsExactlyWhen(f: Files, id: Id, env: Env)
    ensures var back := Compensate(f, id, env);
            && back.status == (if PutsBack(f, id, env) && env.startsAgain && env.healthyAgain then RolledBack
                               else Failed)
            && (back.status == RolledBack ==> back.files == Files(PutBack(f, id), f.parts))
  {
    if PutsBack(f, id, env) {
      var aside := if ActiveFile in f.at then Move(f, ActiveFile, Quarantine(id)) else f;
      assert Move(aside, Previous(id), ActiveFile).at == PutBack(f, id);
    }
  }

  /**
   A deployment is rolled back exactly when a step of it fails and every step of the compensation succeeds:
   a slot must be there, left over or staged, and an active file must find a free quarantine.
   */
  lemma RolledBackExactlyWhen(f: Files, id: Id, artifact: Content, env: Env)
    ensures var active := InPlace(f, id, env) || (!Staged(f, id, env) && ActiveFile in f.at);
            Deploy(f, id, artifact, env).status == RolledBack <==>
              && !(InPlace(f, id, env) && env.starts && env.healthy)
              && env.stopsAgain && (Previous(id) in f.at || Staged(f, id, env))
              && (active ==> Quarantine(id) !in f.at && env.quarantineMoves)
              && env.restoreMoves && env.startsAgain && env.healthyAgain
  {
    ForwardPlaces(f, id, artifact, env);
    RollbackSucceedsExactlyWhen(RunForward(f, id, artifact, env).files, id, env);
  }

  /** Where the forward steps leave slot, active file and quarantine. */
  lemma ForwardPlaces(f: Files, id: Id, artifact: Content, env: Env)
    ensures var forward := RunForward(f, id, artifact, env);
            && (forward.failed.None? <==> InPlace(f, id, env) && env.starts && env.healthy)
            && (Previous(id) in forward.files.at <==> Previous(id) in f.at || Staged(f, id, env))
            && (ActiveFile in forward.files.at <==>
                  InPlace(f, id, env) || (!Staged(f, id, env) && ActiveFile in f.at))
            && (Quarantine(id) in forward.files.at <==> Quarantine(id) in f.at)
  {
  }

  /** What a step's recorded success is about. */
  predicate Told(f: Files, id: Id, env: Env, e: Evidence) {
    e.succeeded ==
    match e.step
    case Stop => env.stops
    case Stage => Staged(f, id, env)
    case Installing => InPlace(f, id, env)
    case Start => env.starts
    case Health => env.healthy
    case _ => e.succeeded
  }

  predicate ToldBack(f: Files, id: Id, env: Env, e: Evidence) {
    e.succeeded ==
    match e.step
    case RollbackStop => env.stopsAgain
    case RollbackRestore => PutsBack(f, id, env)
    case RollbackStart => env.startsAgain
    case RollbackHealth => env.healthyAgain
    case _ => e.succeeded
  }

  lemma ForwardIsTold(f: Files, id: Id, artifact: Content, env: Env)
    ensures forall e <- RunForward(f, id, artifact, env).evidence :: Told(f, id, env, e) && e.step in FORWARD
  {
  }

  lemma BackwardIsTold(f: Files, id: Id, env: Env)
    ensures forall e <- Compensate(f, id, env).evidence :: ToldBack(f, id, env, e) && e.step in BACKWARD
  {
  }

  lemma ManualIsCompensation(f: Files, id: Id, env: Env)
    ensures forall e <- RollbackEvidence(f, id, env) :: e in Compensate(f, id, env).evidence
  {
    RollbackEvidenceTellsStatus(f, id, env);
  }

  /** Steps of one phase say nothing about the other. */
  lemma OtherPhase(f: Files, id: Id, env: Env, e: Evidence)
    ensures e.step in FORWARD ==> ToldBack(f, id, env, e)
    ensures e.step in BACKWARD ==> Told(f, id, env, e)
  {
  }

  lemma EitherPhase(f: Files, id: Id, artifact: Content, env: Env, e: Evidence)
    requires e in Deploy(f, id, artifact, env).evidence
    ensures var forward := RunForward(f, id, artifact, env);
            e in forward.evidence || e in Compensate(forward.files, id, env).evidence
  {
  }

  /**
   Every recorded step succeeded exactly when its command or its move did: of a deployment, and of its
   compensation, which finds the files as the forward steps left them.
   */
  lemma EvidenceIsTheCommands(f: Files, id: Id, artifact: Content, env: Env, e: Evidence)
    requires e in Deploy(f, id, artifact, env).evidence
    ensures Told(f, id, env, e) && ToldBack(RunForward(f, id, artifact, env).files, id, env, e)
  {
    var left := RunForward(f, id, artifact, env).files;
    ForwardIsTold(f, id, artifact, env);
    BackwardIsTold(left, id, env);
    EitherPhase(f, id, artifact, env, e);
    OtherPhase(f, id, env, e);
    OtherPhase(left, id, env, e);
  }

  /** The same of a manual rollback. */
  lemma RollbackEvidenceIsTheCommands(f: Files, id: Id, env: Env, e: Evidence)
    requires e in RollbackEvidence(f, id, env)
    ensures ToldBack(f, id, env, e)
  {
    ManualIsCompensation(f, id, env);
    BackwardIsTold(f, id, env);
  }

  // ------------------------------------------------------------------ runs of the service

  /** Only an active deployment can be rolled back; whatever happens its record is closed. */
  function RollbackOn(s: Service, id: Id, allowed: bool, env: Env): Option<Service> {
    if id !in s.records || s.records[id].status != Active || !allowed then None
    else
      var back := Compensate(s.files, id, env);
      Some(Service(back.files, s.records[id := s.records[id].(status := back.status,
        evidence := s.records[id].evidence + RollbackEvidence(s.files, id, env))]))
  }

  datatype Action =
    | DoDeploy(id: Id, artifact: Content, allowed: bool, env: Env)
    | DoRollback(id: Id, allowed: bool, env: Env)

  function Next(s: Service, a: Action): Service {
    match a
    case DoDeploy(id, artifact, allowed, env) => DeployOn(s, id, artifact, allowed, env).GetOr(s)
    case DoRollback(id, allowed, env) => RollbackOn(s, id, allowed, env).GetOr(s)
  }

  function Run(start: Files, actions: seq<Action>): Service {
    if actions == [] then Service(start, map[]) else Next(Run(start, actions[..|actions| - 1]), actions[|actions| - 1])
  }

  /** The artifacts one action puts in place. */
  function InstalledBy(s: Service, a: Action): multiset<Content> {
    if a.DoDeploy? && a.allowed && a.id !in s.records
    then Installs(Deploy(s.files, a.id, a.artifact, a.env).evidence, a.artifact) else multiset{}
  }

  /** Every artifact some install step of the run has put in place. */
  function Installed(start: Files, actions: seq<Action>): multiset<Content> {
    if actions == [] then multiset{}
    else
      var init, a := actions[..|actions| - 1], actions[|actions| - 1];
      Installed(start, init) + InstalledBy(Run(start, init), a)
  }

  lemma NextConserves(s: Service, a: Action)
    ensures Contents(Next(s, a).files) == Contents(s.files) + InstalledBy(s, a)
  {
    match a
    case DoDeploy(id, artifact, allowed, env) => DeployConserves(s.files, id, artifact, env);
    case DoRollback(id, allowed, env) => CompensateConserves(s.files, id, env);
  }

  /** Over any run no content is lost, and each completed install adds exactly one artifact. */
  lemma {:induction false} RunConserves(start: Files, actions: seq<Action>)
    ensures Contents(Run(start, actions).files) == Contents(start) + Installed(start, actions)
  {
    if actions == [] {
    } else {
      var init, a := actions[..|actions| - 1], actions[|actions| - 1];
      RunConserves(start, init);
      NextConserves(Run(start, init), a);
    }
  }

  /** Whether an action names a deployment and has the authority for it. */
  predicate Deploys(a: Action, id: Id) { a.DoDeploy? && a.id == id && a.allowed }

  /** What an action does to one record: only an authorised rollback of an active deployment changes it. */
  lemma RecordChangesExactlyWhen(s: Service, a: Action, id: Id)
    requires id in s.records
    ensures id in Next(s, a).records
    ensures var before, after := s.records[id], Next(s, a).records[id];
            if a.DoRollback? && a.id == id && a.allowed && before.status == Active then
              after.status == if PutsBack(s.files, id, a.env) && a.env.startsAgain && a.env.healthyAgain
                              then RolledBack else Failed
            else after == before
  {
    if a.DoRollback? {
      RollbackSucceedsExactlyWhen(s.files, a.id, a.env);
    }
  }

  /** A deployment has a record exactly when it has once been asked for with authority; a second request is refused. */
  lemma {:induction false} RecordedExactlyWhen(start: Files, actions: seq<Action>, id: Id)
    ensures id in Run(start, actions).records <==> exists i | 0 <= i < |actions| :: Deploys(actions[i], id)
  {
    if actions == [] {
    } else {
      var init, a := actions[..|actions| - 1], actions[|actions| - 1];
      var s := Run(start, init);
      RecordedExactlyWhen(start, init, id);
      if id in s.records {
        RecordChangesExactlyWhen(s, a, id);
        var i :| 0 <= i < |init| && Deploys(init[i], id);
        assert Deploys(actions[i], id);
      } else {
        assert forall j | 0 <= j < |init| :: actions[j] == init[j] && !Deploys(init[j], id);
        assert (exists j | 0 <= j < |actions| :: Deploys(actions[j], id)) <==> Deploys(actions[|init|], id);
      }
    }
  }

  /** Slots belong to identifiers that have been used. */
  predicate SlotsUsed(s: Service) {
    forall p <- s.files.at :: p.Previous? ==> p.id in s.records
  }

  lemma MoveSlots(f: Files, id: Id, artifact: Content, env: Env)
    ensures forall p <- Deploy(f, id, artifact, env).files.at :: p.Previous? ==> p in f.at || p.id == id
    ensures forall p <- Compensate(f, id, env).files.at :: p.Previous? ==> p in f.at
  {
  }

  lemma {:induction false} RunSlots(start: Files, actions: seq<Action>)
    requires forall p <- start.at :: !p.Previous?
    ensures SlotsUsed(Run(start, actions))
  {
    if actions == [] {
    } else {
      var init, a := actions[..|actions| - 1], actions[|actions| - 1];
      RunSlots(start, init);
      match a
      case DoDeploy(id, artifact, allowed, env) => MoveSlots(Run(start, init).files, id, artifact, env);
      case DoRollback(id, allowed, env) => MoveSlots(Run(start, init).files, id, 0, env);
    }
  }

  /** From a start without leftovers, a deployment that rolls back always restores what was active before it. */
  lemma EveryRolledBackRestores(start: Files, actions: seq<Action>, id: Id, artifact: Content, env: Env)
    requires forall p <- start.at :: !p.Previous?
    requires id !in Run(start, actions).records &&
             Deploy(Run(start, actions).files, id, artifact, env).status == RolledBack
    ensures ActiveOf(Deploy(Run(start, actions).files, id, artifact, env).files) == ActiveOf(Run(start, actions).files)
  {
    RunSlots(start, actions);
    RolledBackRestores(Run(start, actions).files, id, artifact, env);
  }

  // ------------------------------------------------------- rollbacks in reverse order

  /** One deployment that succeeds and the rollback that later undoes it. */
  datatype Plan = Plan(id: Id, artifact: Content, env: Env, backEnv: Env)

  /** Deploys in order, then rolls back in reverse order. */
  function There(s: Service, plans: seq<Plan>): Service
    decreases |plans|
  {
    if plans == [] then s
    else
      var p := plans[0];
      var deployed := DeployOn(s, p.id, p.artifact, true, p.env).GetOr(s);
      RollbackOn(There(deployed, plans[1..]), p.id, true, p.backEnv).GetOr(deployed)
  }

  predicate IsActive(s: Option<Service>, id: Id) {
    s.Some? && id in s.value.records && s.value.records[id].status == Active
  }
  predicate IsRolledBack(s: Option<Service>, id: Id) {
    s.Some? && id in s.value.records && s.value.records[id].status == RolledBack
  }

  /** Every deployment becomes active and every rollback succeeds. */
  predicate AllSucceed(s: Service, plans: seq<Plan>)
    decreases |plans|
  {
    plans == [] ||
    (var p := plans[0];
     var deployed := DeployOn(s, p.id, p.artifact, true, p.env);
     && IsActive(deployed, p.id)
     && AllSucceed(deployed.value, plans[1..])
     && IsRolledBack(RollbackOn(There(deployed.value, plans[1..]), p.id, true, p.backEnv), p.id))
  }

  /** The same active file and the same rollback slots. */
  predicate SameButQuarantine(f: Files, g: Files) {
    && ActiveOf(f) == ActiveOf(g)
    && (forall p <- f.at :: p.Previous? ==> p in g.at && g.at[p] == f.at[p])
    && (forall p <- g.at :: p.Previous? ==> p in f.at)
  }

  lemma ActiveDeploy(f: Files, id: Id, artifact: Content, env: Env)
    requires Deploy(f, id, artifact, env).status == Active
    ensures ActiveFile in f.at && Previous(id) !in f.at
    ensures Deploy(f, id, artifact, env).files.at ==
            (f.at - {ActiveFile})[Previous(id) := f.at[ActiveFile]][ActiveFile := artifact]
  {
  }

  lemma SuccessfulRollback(f: Files, id: Id, env: Env)
    requires Compensate(f, id, env).status == RolledBack
    ensures Previous(id) in f.at
    ensures var g := Compensate(f, id, env).files;
            && ActiveOf(g) == Some(f.at[Previous(id)]) && Previous(id) !in g.at
            && (forall p <- f.at :: p.Previous? && p.id != id ==> p in g.at && g.at[p] == f.at[p])
            && (forall p <- g.at :: p.Previous? ==> p in f.at)
  {
  }

  /** Undoing one deployment after something that changed neither the active file nor the slots. */
  lemma UndoOne(f: Files, id: Id, artifact: Content, env: Env, mid: Files, backEnv: Env)
    requires Deploy(f, id, artifact, env).status == Active && Compensate(mid, id, backEnv).status == RolledBack
    requires SameButQuarantine(Deploy(f, id, artifact, env).files, mid)
    ensures SameButQuarantine(f, Compensate(mid, id, backEnv).files)
  {
    ActiveDeploy(f, id, artifact, env);
    SuccessfulRollback(mid, id, backEnv);
    var deployed := Deploy(f, id, artifact, env).files;
    assert Previous(id) in deployed.at;
    assert mid.at[Previous(id)] == f.at[ActiveFile];
    var g := Compensate(mid, id, backEnv).files;
    forall p | p in f.at && p.Previous? ensures p in g.at && g.at[p] == f.at[p] {
      assert p in deployed.at && deployed.at[p] == f.at[p];
    }
    forall p | p in g.at && p.Previous? ensures p in f.at {
      assert p in mid.at && p in deployed.at;
    }
  }

  /** Successful rollbacks in reverse order restore the active file and every slot. */
  lemma {:induction false} ReverseRollbacksRestore(s: Service, plans: seq<Plan>)
    requires AllSucceed(s, plans)
    ensures SameButQuarantine(s.files, There(s, plans).files)
    decreases |plans|
  {
    if plans == [] {
    } else {
      var p := plans[0];
      var deployed := DeployOn(s, p.id, p.artifact, true, p.env).value;
      var mid := There(deployed, plans[1..]);
      ReverseRollbacksRestore(deployed, plans[1..]);
      UndoOne(s.files, p.id, p.artifact, p.env, mid.files, p.backEnv);
    }
  }

  // ------------------------------------------------------------------------ the code

  class DeploymentService {
    var files: Files
    var records: map<Id, Record>

    function Value(): Service
      reads this
    {
      Service(files, records)
    }

    constructor (start: Files)
      ensures Value() == Service(start, map[])
    {
      files, records := start, map[];
    }

    /** The forward steps, one after the other; the first that throws ends them. */
    method Forwards(id: Id, artifact: Content, env: Env) returns (evidence: seq<Evidence>, failed: Option<Step>)
      modifies this`files
      ensures Forward(files, evidence, failed) == RunForward(old(files), id, artifact, env)
    {
      evidence := [Evidence(Stop, env.stops)];
      if !env.stops { return evidence, Some(Stop); }
      var staged := StagePrevious(files, id, env.stageMoves);
      files := staged.files;
      evidence := evidence + [Evidence(Stage, staged.ok)];
      if !staged.ok { return evidence, Some(Stage); }
      var installed := Install(files, id, artifact, env);
      files := installed.files;
      evidence := evidence + [Evidence(Installing, installed.ok)];
      if !installed.ok { return evidence, Some(Installing); }
      evidence := evidence + [Evidence(Start, env.starts)];
      if !env.starts { return evidence, Some(Start); }
      evidence := evidence + [Evidence(Health, env.healthy)];
      return evidence, if env.healthy then None else Some(Health);
    }

    method Backwards(id: Id, env: Env) returns (evidence: seq<Evidence>, status: Status)
      modifies this`files
      ensures var back := Compensate(old(files), id, env);
              files == back.files && status == back.status && evidence == back.evidence
    {
      evidence, status := [Evidence(RollbackStop, env.stopsAgain)], Failed;
      if !env.stopsAgain { return; }
      var moved := RestorePrevious(files, id, env.quarantineMoves, env.restoreMoves);
      files := moved.files;
      evidence := evidence + [Evidence(RollbackRestore, moved.ok)];
      if !moved.ok { return; }
      evidence := evidence + [Evidence(RollbackStart, env.startsAgain)];
      if !env.startsAgain { return; }
      evidence := evidence + [Evidence(RollbackHealth, env.healthyAgain)];
      if env.healthyAgain {
        status := RolledBack;
      }
    }

    /** Deploys and, when a step fails, compensates; refused requests change nothing. */
    method DeployArtifact(id: Id, artifact: Content, allowed: bool, env: Env) returns (record: Option<Record>)
      modifies this
      ensures var next := DeployOn(old(Value()), id, artifact, allowed, env);
              && Value() == next.GetOr(old(Value()))
              && (record.Some? <==> next.Some?)
              && (record.Some? ==> record.value == next.value.records[id])
      ensures record.Some? <==> id !in old(records) && allowed
      ensures record.Some? ==>
                (record.value.status == Active <==> InPlace(old(files), id, env) && env.starts && env.healthy)
    {
      ActiveExactlyWhen(files, id, artifact, env);
      if id in records || !allowed { return None; }
      var evidence, failed := Forwards(id, artifact, env);
      var status := Active;
      if failed.Some? {
        var more, outcome := Backwards(id, env);
        evidence, status := evidence + more, outcome;
      }
      record := Some(Record(artifact, status, evidence));
      records := records[id := record.value];
    }

    /** The steps of a manual rollback; what throws is not recorded. */
    method Manually(id: Id, env: Env) returns (evidence: seq<Evidence>, status: Status)
      modifies this`files
      ensures var back := Compensate(old(files), id, env);
              files == back.files && status == back.status && evidence == RollbackEvidence(old(files), id, env)
    {
      evidence, status := Exited(RollbackStop, env.stopsAgain, env.throws), Failed;
      if !env.stopsAgain { return; }
      var moved := RestorePrevious(files, id, env.quarantineMoves, env.restoreMoves);
      files := moved.files;
      if !moved.ok { return; }
      evidence := evidence + [Evidence(RollbackRestore, true)] + Exited(RollbackStart, env.startsAgain, env.throws);
      if !env.startsAgain { return; }
      evidence := evidence + Exited(RollbackHealth, env.healthyAgain, env.throws);
      if env.healthyAgain {
        status := RolledBack;
      }
    }

    method RollbackDeployment(id: Id, allowed: bool, env: Env) returns (record: Option<Record>)
      modifies this
      ensures var next := RollbackOn(old(Value()), id, allowed, env);
              && Value() == next.GetOr(old(Value()))
              && (record.Some? <==> next.Some?)
              && (record.Some? ==> record.value == next.value.records[id])
      ensures record.Some? <==> id in old(records) && old(records)[id].status == Active && allowed
      ensures record.Some? ==>
                record.value.status == if PutsBack(old(files), id, env) && env.startsAgain && env.healthyAgain
                                       then RolledBack else Failed
    {
      RollbackSucceedsExactlyWhen(files, id, env);
      if id !in records || records[id].status != Active || !allowed { return None; }
      var evidence, outcome := Manually(id, env);
      record := Some(records[id].(status := outcome, evidence := records[id].evidence + evidence));
      records := records[id := record.value];
    }
  }
}
