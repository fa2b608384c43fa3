/**
 What becomes of an agent's job, told by the actions: which calls are recorded and with what outcome,
 which tools run, which state every action leads to, and when a job is created.
 */
module AgentOutcomes {
  import opened AgentRuntime

  /** What came of a recorded call. */
  datatype Outcome = Outcome(patch: bool, succeeded: bool)

  function Init<T>(s: seq<T>): seq<T> requires s != [] { s[..|s| - 1] }
  function Last<T>(s: seq<T>): T requires s != [] { s[|s| - 1] }

  /** A job that can still act at this time, which does not go back. */
  predicate Acts(r: Runtime, id: string, now: Time) {
    id in r.jobs && IsActive(r.jobs[id].state) && 0 < now && r.jobs[id].lastEvent <= now
  }

  /** And has not run out of time. */
  predicate InTime(r: Runtime, id: string, now: Time) {
    Acts(r, id, now) && now - r.jobs[id].started <= r.limits.timeout
  }

  predicate In(r: Runtime, id: string, now: Time, state: State) { InTime(r, id, now) && r.jobs[id].state == state }

  /** The recorded calls of a job: a call succeeded when it was permitted and its tool did. */
  function Outcomes(limits: Limits, actions: seq<Action>, id: string): seq<Outcome>
    decreases |actions|, 0
  {
    if actions == [] then []
    else
      var a := Last(actions);
      Outcomes(limits, Init(actions), id) +
      if Recorded(limits, Init(actions), a, id) then [Outcome(a.patch, a.permitted && a.succeeds)] else []
  }

  /** A call is recorded while the job runs and has calls left, unless it has to wait for a review. */
  predicate Recorded(limits: Limits, before: seq<Action>, a: Action, id: string)
    decreases |before|, 1
  {
    && a.DoExecute? && a.id == id && In(Run(limits, before), id, a.now, Running)
    && |Outcomes(limits, before, id)| < limits.toolCalls
    && (a.permitted && a.patch ==> Granted(limits, before, id))
  }

  /** A review's grant is there until a patch uses it. */
  predicate Granted(limits: Limits, actions: seq<Action>, id: string)
    decreases |actions|, 0
  {
    actions != [] &&
    var before, a := Init(actions), Last(actions);
    if a.DoApprove? && a.id == id && a.valid && In(Run(limits, before), id, a.now, WaitingReview) then true
    else Granted(limits, before, id) && !(Recorded(limits, before, a, id) && a.permitted && a.patch)
  }

  /** The tools that run: those of the recorded calls that were permitted. */
  function Tools(limits: Limits, actions: seq<Action>): seq<Tool> {
    if actions == [] then []
    else
      var a := Last(actions);
      Tools(limits, Init(actions)) +
      if a.DoExecute? && a.permitted && Recorded(limits, Init(actions), a, a.id) then [Tool(a.id, a.patch)] else []
  }

  // ------------------------------------------------------------ calls and their evidence

  /** What a job's record says of its calls. */
  ghost predicate Tells(r: Runtime, id: string, calls: seq<Outcome>, granted: bool) {
    if id !in r.jobs then calls == [] && !granted
    else
      var j := r.jobs[id];
      && j.granted == granted && j.toolCalls == |j.evidence| == |calls|
      && forall k | 0 <= k < |calls| ::
           j.evidence[k] in r.evidence &&
           r.evidence[j.evidence[k]] == Evidence(id, calls[k].patch, calls[k].succeeded)
  }

  /** The job's grant and evidence have not changed, and no evidence has been lost. */
  predicate SameCalls(r: Runtime, s: Runtime, id: string) {
    && (id in s.jobs <==> id in r.jobs)
    && (id in r.jobs ==>
          && s.jobs[id].granted == r.jobs[id].granted && s.jobs[id].toolCalls == r.jobs[id].toolCalls
          && s.jobs[id].evidence == r.jobs[id].evidence)
    && Extends(r.evidence, s.evidence)
  }

  lemma SameTells(r: Runtime, s: Runtime, id: string, calls: seq<Outcome>, granted: bool)
    requires Tells(r, id, calls, granted) && SameCalls(r, s, id)
    ensures Tells(s, id, calls, granted)
  {
  }

  lemma CreateTells(r: Runtime, a: Action, id: string, calls: seq<Outcome>, granted: bool)
    requires Tells(r, id, calls, granted) && a.DoCreate?
    ensures Tells(Next(r, a), id, calls, granted)
  {
    if id !in r.jobs && id in Next(r, a).jobs {
      assert Next(r, a).jobs[id] == NewJob(a.now);
    }
  }

  lemma TouchTells(r: Runtime, id: string, now: Time)
    ensures var t := Touch(r, id, now);
            && (t.ok <==> InTime(r, id, now)) && (t.ok ==> t.runtime == r)
            && forall other :: SameCalls(r, t.runtime, other)
  {
  }

  /** Completing, cancelling and giving up change neither grant nor evidence. */
  lemma EndingTells(r: Runtime, a: Action, id: string)
    requires a.DoComplete? || a.DoCancel?
    ensures SameCalls(r, Next(r, a), id)
  {
    TouchTells(r, a.id, a.now);
  }

  lemma ApproveTells(r: Runtime, a: Action, id: string, calls: seq<Outcome>, granted: bool)
    requires Tells(r, id, calls, granted) && a.DoApprove?
    ensures Tells(Next(r, a), id, calls, (a.id == id && a.valid && In(r, id, a.now, WaitingReview)) || granted)
  {
    TouchTells(r, a.id, a.now);
    if !(a.id == id && a.valid && In(r, id, a.now, WaitingReview)) {
      SameTells(r, Next(r, a), id, calls, granted);
    }
  }

  /** Evidence that is recorded is the outcome of the call. */
  lemma RecordTells(r: Runtime, id: string, j: Job, call: Outcome, calls: seq<Outcome>, key: string)
    requires id in r.jobs && Tells(r, id, calls, r.jobs[id].granted)
    requires j.evidence == r.jobs[id].evidence && j.toolCalls == r.jobs[id].toolCalls
    requires key == EvidenceId(id, j.toolCalls + 1) && key !in r.evidence
    ensures Tells(Record(r, id, j, Evidence(id, call.patch, call.succeeded)), id, calls + [call], j.granted)
  {
    var s := Record(r, id, j, Evidence(id, call.patch, call.succeeded));
    assert s.jobs[id].evidence == r.jobs[id].evidence + [key] &&
           s.evidence[key] == Evidence(id, call.patch, call.succeeded);
  }

  lemma CallTells(r: Runtime, id: string, j: Job, patch: bool, permitted: bool, succeeds: bool, calls: seq<Outcome>)
    requires id in r.jobs && Tells(r, id, calls, r.jobs[id].granted) && j == r.jobs[id].(lastEvent := j.lastEvent)
    requires EvidenceId(id, j.toolCalls + 1) !in r.evidence
    ensures var s := Call(r, id, j, patch, permitted, succeeds).runtime;
            var recorded := |calls| < r.limits.toolCalls && (permitted && patch ==> j.granted);
            && Tells(s, id, calls + if recorded then [Outcome(patch, permitted && succeeds)] else [],
                     j.granted && !(recorded && permitted && patch))
            && s.tools == r.tools + if recorded && permitted then [Tool(id, patch)] else []
  {
    var key := EvidenceId(id, j.toolCalls + 1);
    assert calls + [] == calls && r.tools + [] == r.tools;
    if j.toolCalls < r.limits.toolCalls {
      if !permitted {
        RecordTells(r, id, j, Outcome(patch, false), calls, key);
      } else if !patch || j.granted {
        var run := r.(tools := r.tools + [Tool(id, patch)]);
        RecordTells(run, id, if patch then j.(granted := false, attempts := j.attempts + 1) else j,
                    Outcome(patch, succeeds), calls, key);
      }
    }
  }

  /** A call of another job. */
  lemma CallElsewhere(r: Runtime, id: string, j: Job, patch: bool, permitted: bool, succeeds: bool, other: string)
    requires id in r.jobs && other != id
    ensures SameCalls(r, Call(r, id, j, patch, permitted, succeeds).runtime, other)
  {
  }

  lemma ExecuteTells(r: Runtime, a: Action, id: string, calls: seq<Outcome>, granted: bool)
    requires Ok(r) && Tells(r, id, calls, granted) && a.DoExecute?
    ensures var recorded := a.id == id && In(r, id, a.now, Running) && |calls| < r.limits.toolCalls &&
                            (a.permitted && a.patch ==> granted);
            Tells(Next(r, a), id, calls + if recorded then [Outcome(a.patch, a.permitted && a.succeeds)] else [],
                  granted && !(recorded && a.permitted && a.patch))
  {
    assert calls + [] == calls;
    TouchTells(r, a.id, a.now);
    if !In(r, a.id, a.now, Running) {
      SameTells(r, Next(r, a), id, calls, granted);
    } else {
      var j := r.jobs[a.id].(lastEvent := a.now);
      if a.id == id {
        NextIdIsNew(r, id);
        CallTells(r, id, j, a.patch, a.permitted, a.succeeds, calls);
      } else {
        CallElsewhere(r, a.id, j, a.patch, a.permitted, a.succeeds, id);
        SameTells(r, Next(r, a), id, calls, granted);
      }
    }
  }

  /** The tools an action runs. */
  lemma ToolsRun(r: Runtime, a: Action, calls: seq<Outcome>, granted: bool)
    requires Ok(r) && Tells(r, a.id, calls, granted)
    ensures Next(r, a).tools ==
            r.tools + if a.DoExecute? && a.permitted && In(r, a.id, a.now, Running) && |calls| < r.limits.toolCalls &&
                         (a.patch ==> granted)
                      then [Tool(a.id, a.patch)] else []
  {
    assert r.tools + [] == r.tools;
    if a.DoExecute? {
      TouchTells(r, a.id, a.now);
      if In(r, a.id, a.now, Running) {
        NextIdIsNew(r, a.id);
        CallTells(r, a.id, r.jobs[a.id].(lastEvent := a.now), a.patch, a.permitted, a.succeeds, calls);
      }
    }
  }

  lemma NextTells(limits: Limits, before: seq<Action>, a: Action, id: string)
    requires limits.Valid() && Tells(Run(limits, before), id, Outcomes(limits, before, id), Granted(limits, before, id))
    ensures var after := before + [a];
            Tells(Run(limits, after), id, Outcomes(limits, after, id), Granted(limits, after, id))
  {
    var r, calls, granted := Run(limits, before), Outcomes(limits, before, id), Granted(limits, before, id);
    assert Init(before + [a]) == before && calls + [] == calls;
    RunOk(limits, before);
    if a.DoCreate? {
      CreateTells(r, a, id, calls, granted);
    } else if a.DoApprove? {
      ApproveTells(r, a, id, calls, granted);
    } else if a.DoExecute? {
      ExecuteTells(r, a, id, calls, granted);
    } else {
      EndingTells(r, a, id);
      SameTells(r, Next(r, a), id, calls, granted);
    }
  }

  /**
   In every run the evidence of a job's k-th recorded call says whether that call was permitted and its tool
   succeeded.
   */
  lemma {:induction false} EvidenceTellsOutcomes(limits: Limits, actions: seq<Action>, id: string)
    requires limits.Valid()
    ensures Tells(Run(limits, actions), id, Outcomes(limits, actions, id), Granted(limits, actions, id))
  {
    if actions == [] {
    } else {
      EvidenceTellsOutcomes(limits, Init(actions), id);
      NextTells(limits, Init(actions), Last(actions), id);
      assert Init(actions) + [Last(actions)] == actions;
    }
  }

  /** A tool runs exactly for a recorded call that is permitted: without capability or a needed grant none does. */
  lemma {:induction false} ToolsRunExactlyWhen(limits: Limits, actions: seq<Action>)
    requires limits.Valid()
    ensures Run(limits, actions).tools == Tools(limits, actions)
  {
    if actions == [] {
    } else {
      var before, a := Init(actions), Last(actions);
      ToolsRunExactlyWhen(limits, before);
      RunOk(limits, before);
      EvidenceTellsOutcomes(limits, before, a.id);
      ToolsRun(Run(limits, before), a, Outcomes(limits, before, a.id), Granted(limits, before, a.id));
    }
  }

  // ------------------------------------------------------------------------- states

  predicate AllGood(calls: seq<Outcome>) { forall call <- calls :: call.succeeded }

  /** The state an action on a job leads to, given what came of its calls. */
  function StateAfter(r: Runtime, a: Action, calls: seq<Outcome>, granted: bool): State
    requires a.id in r.jobs
  {
    var state := r.jobs[a.id].state;
    if !Acts(r, a.id, a.now) then state
    else if !InTime(r, a.id, a.now) then TimedOut
    else
      match a
      case DoApprove(_, _, valid) => if state == WaitingReview && valid then Running else state
      case DoExecute(_, _, patch, permitted, _) =>
        if state == Running && |calls| < r.limits.toolCalls && permitted && patch && !granted then WaitingReview
        else state
      case DoComplete(_, _) =>
        if state != Running || calls == [] then state else if AllGood(calls) then Succeeded else Failed
      case DoCancel(_, _) => Cancelled
      case DoCreate(_, _, _, _, _) => state
  }

  lemma SuccessIsGood(r: Runtime, id: string, calls: seq<Outcome>, granted: bool)
    requires id in r.jobs && Tells(r, id, calls, granted)
    ensures AllSucceeded(r, r.jobs[id].evidence) <==> AllGood(calls)
  {
    var evidence := r.jobs[id].evidence;
    if AllSucceeded(r, evidence) {
      forall call | call in calls ensures call.succeeded {
        var k :| 0 <= k < |calls| && calls[k] == call;
        assert evidence[k] in evidence;
      }
    } else {
      var e :| e in evidence && !(e in r.evidence && r.evidence[e].succeeded);
      var k :| 0 <= k < |evidence| && evidence[k] == e;
      assert calls[k] in calls && !calls[k].succeeded;
    }
  }

  lemma NextState(r: Runtime, a: Action, calls: seq<Outcome>, granted: bool)
    requires a.id in r.jobs && Tells(r, a.id, calls, granted) && !a.DoCreate?
    ensures a.id in Next(r, a).jobs && Next(r, a).jobs[a.id].state == StateAfter(r, a, calls, granted)
  {
    SuccessIsGood(r, a.id, calls, granted);
  }

  /**
   Every action but a creation moves its job to the state that follows from its own calls: out of time it
   times out, a review comes and goes, and a completed job succeeded exactly when all its calls did.
   */
  lemma StateMovesExactly(limits: Limits, actions: seq<Action>, a: Action)
    requires limits.Valid() && a.id in Run(limits, actions).jobs && !a.DoCreate?
    ensures a.id in Run(limits, actions + [a]).jobs
    ensures Run(limits, actions + [a]).jobs[a.id].state ==
            StateAfter(Run(limits, actions), a, Outcomes(limits, actions, a.id), Granted(limits, actions, a.id))
  {
    assert (actions + [a])[..|actions|] == actions;
    EvidenceTellsOutcomes(limits, actions, a.id);
    NextState(Run(limits, actions), a, Outcomes(limits, actions, a.id), Granted(limits, actions, a.id));
  }

  predicate Completed(state: State) { state == Succeeded || state == Failed }

  lemma {:induction false} StateStays(r: Runtime, a: Action, id: string)
    requires id in r.jobs && (a.id != id || a.DoCreate?)
    ensures id in Next(r, a).jobs &&
            (Completed(Next(r, a).jobs[id].state) ==> Next(r, a).jobs[id].state == r.jobs[id].state)
  {
    match a
    case DoCreate(_, _, _, _, _) =>
    case DoApprove(_, _, _) =>
    case DoExecute(other, now, patch, permitted, succeeds) =>
      ExecuteElsewhere(r, other, now, patch, permitted, succeeds, id);
    case DoComplete(_, _) =>
    case DoCancel(_, _) =>
  }

  lemma ExecuteElsewhere(r: Runtime, other: string, now: Time, patch: bool, permitted: bool, succeeds: bool, id: string)
    requires id in r.jobs && id != other
    ensures var s := Execute(r, other, now, patch, permitted, succeeds).runtime;
            id in s.jobs && s.jobs[id] == r.jobs[id]
  {
  }

  /** A finished job's calls are over. */
  lemma CallsStay(limits: Limits, before: seq<Action>, a: Action, id: string)
    requires !a.DoExecute? || a.id != id || !In(Run(limits, before), id, a.now, Running)
    ensures Outcomes(limits, before + [a], id) == Outcomes(limits, before, id)
  {
    assert Init(before + [a]) == before;
  }

  /** In every run a completed job has calls, and succeeded exactly when all of them did. */
  lemma {:induction false} SuccessTellsOutcomes(limits: Limits, actions: seq<Action>, id: string)
    requires limits.Valid() && id in Run(limits, actions).jobs && Completed(Run(limits, actions).jobs[id].state)
    ensures var calls := Outcomes(limits, actions, id);
            calls != [] && (Run(limits, actions).jobs[id].state == Succeeded <==> AllGood(calls))
  {
    EvidenceTellsOutcomes(limits, actions, id);
    var before, a := Init(actions), Last(actions);
    var r := Run(limits, before);
    assert actions == before + [a];
    if id !in r.jobs {
      assert false;
    } else if a.id == id && !a.DoCreate? && InTime(r, id, a.now) {
      StateMovesExactly(limits, before, a);
      CallsStay(limits, before, a, id);
    } else {
      StateKept(limits, before, a, id);
      CallsStay(limits, before, a, id);
      SuccessTellsOutcomes(limits, before, id);
    }
  }

  lemma StateKept(limits: Limits, before: seq<Action>, a: Action, id: string)
    requires limits.Valid() && id in Run(limits, before).jobs && id in Run(limits, before + [a]).jobs
    requires Completed(Run(limits, before + [a]).jobs[id].state)
    requires a.id != id || a.DoCreate? || !InTime(Run(limits, before), id, a.now)
    ensures Run(limits, before).jobs[id].state == Run(limits, before + [a]).jobs[id].state
    ensures !(a.DoExecute? && a.id == id && In(Run(limits, before), id, a.now, Running))
  {
    assert (before + [a])[..|before|] == before;
    if a.id == id && !a.DoCreate? {
      StateMovesExactly(limits, before, a);
    } else {
      StateStays(Run(limits, before), a, id);
    }
  }

  // ----------------------------------------------------------------------- creation

  /** How many starts are not older than this. */
  function StartsSince(starts: seq<Time>, since: int): nat {
    if starts == [] then 0 else StartsSince(Init(starts), since) + if Last(starts) >= since then 1 else 0
  }

  lemma {:induction false} StartsConcat(xs: seq<Time>, ys: seq<Time>, since: int)
    ensures StartsSince(xs + ys, since) == StartsSince(xs, since) + StartsSince(ys, since)
  {
    if ys == [] {
      assert xs + ys == xs;
    } else {
      StartsConcat(xs, Init(ys), since);
      assert Init(xs + ys) == xs + Init(ys);
    }
  }

  lemma {:induction false} OldStarts(starts: seq<Time>, since: int)
    requires forall i | 0 <= i < |starts| :: starts[i] < since
    ensures StartsSince(starts, since) == 0
  {
    if starts == [] {
    } else {
      OldStarts(Init(starts), since);
    }
  }

  /** Pruning keeps exactly the starts that count. */
  lemma {:induction false} KeptCounts(starts: seq<Time>, since: int)
    ensures |Kept(starts, since)| == StartsSince(starts, since)
  {
    if starts == [] {
    } else {
      KeptCounts(starts[1..], since);
      StartsConcat([starts[0]], starts[1..], since);
      assert [starts[0]] + starts[1..] == starts && Init([starts[0]]) == [];
    }
  }

  /** The jobs that are active and not overdue. */
  function InTimeIds(r: Runtime, now: Time): set<string> {
    set id | id in r.jobs && IsActive(r.jobs[id].state) && now - r.jobs[id].started <= r.limits.timeout
  }

  /** Whether a job may be created now, given all the starts there have been. */
  predicate MayCreate(r: Runtime, a: Action)
    requires a.DoCreate?
  {
    && a.valid && a.allowed && a.now > 0 && a.id !in r.jobs
    && (forall id <- r.jobs :: IsActive(r.jobs[id].state) ==> r.jobs[id].lastEvent <= a.now)
    && |InTimeIds(r, a.now)| < r.limits.parallel
    && StartsSince(r.allStarts, a.now - r.limits.minute) < r.limits.perMinute
  }

  lemma {:induction false} CountedBehind(starts: seq<Time>, gone: nat, since: int)
    requires gone <= |starts| && forall i | 0 <= i < gone :: starts[i] < since
    ensures |Kept(starts[gone..], since)| == StartsSince(starts, since)
  {
    KeptCounts(starts[gone..], since);
    OldStarts(starts[..gone], since);
    StartsConcat(starts[..gone], starts[gone..], since);
    assert starts[..gone] + starts[gone..] == starts;
  }

  lemma CountedStarts(r: Runtime, clock: Time, now: Time)
    requires RateOk(r, clock) && clock <= now
    ensures |Kept(r.recent, r.limits.Since(now))| == StartsSince(r.allStarts, r.limits.Since(now))
  {
    CountedBehind(r.allStarts, |r.allStarts| - |r.recent|, r.limits.Since(now));
  }

  lemma ExpiredIds(r: Runtime, now: Time)
    ensures ActiveIds(ExpireAll(r, now, r.jobs.Keys)) == InTimeIds(r, now)
  {
  }

  lemma CreateReplies(r: Runtime, a: Action)
    requires a.DoCreate? && |Kept(r.recent, r.limits.Since(a.now))| == StartsSince(r.allStarts, r.limits.Since(a.now))
    ensures var reply := Create(r, a.id, a.now, a.valid, a.allowed, a.visited);
            && (reply.ok <==> MayCreate(r, a))
            && (reply.ok ==> a.id in reply.runtime.jobs && reply.runtime.jobs[a.id] == NewJob(a.now) &&
                             reply.runtime.allStarts == r.allStarts + [a.now])
            && (!reply.ok ==> reply.runtime.jobs.Keys == r.jobs.Keys && reply.runtime.allStarts == r.allStarts)
  {
    ExpiredIds(r, a.now);
  }

  lemma CreatedKeys(r: Runtime, a: Action)
    requires a.DoCreate?
    ensures Next(r, a).jobs.Keys == r.jobs.Keys || Next(r, a).jobs.Keys == r.jobs.Keys + {a.id}
  {
  }

  /** What a creation leaves, when the starts kept are those that count. */
  ghost predicate Creates(r: Runtime, a: Action, s: Runtime)
    requires a.DoCreate?
  {
    && s.jobs.Keys == r.jobs.Keys + (if MayCreate(r, a) then {a.id} else {})
    && s.allStarts == r.allStarts + (if MayCreate(r, a) then [a.now] else [])
    && (MayCreate(r, a) ==> a.id in s.jobs && s.jobs[a.id] == NewJob(a.now))
  }

  lemma NextCreates(r: Runtime, a: Action)
    requires a.DoCreate? && |Kept(r.recent, r.limits.Since(a.now))| == StartsSince(r.allStarts, r.limits.Since(a.now))
    ensures Creates(r, a, Next(r, a))
  {
    CreateReplies(r, a);
    CreatedKeys(r, a);
  }

  lemma RunCounts(limits: Limits, actions: seq<Action>, a: Action)
    requires TimesGrow(actions + [a])
    ensures var r := Run(limits, actions); var since := r.limits.Since(TimeOf(a));
            |Kept(r.recent, since)| == StartsSince(r.allStarts, since)
  {
    assert TimesGrow(actions) && Clock(actions) <= TimeOf(a) by {
      assert (actions + [a])[|actions|] == a && forall i | 0 <= i < |actions| :: (actions + [a])[i] == actions[i];
    }
    RunRate(limits, actions);
    CountedStarts(Run(limits, actions), Clock(actions), TimeOf(a));
  }

  /**
   In every run whose times do not go back a job is created exactly when the request is in order and new, no
   active job has a later event, and neither the jobs still in time nor the starts of the last minute have
   reached their limits.
   */
  lemma CreatedExactlyWhen(limits: Limits, actions: seq<Action>, a: Action)
    requires limits.Valid() && a.DoCreate? && TimesGrow(actions + [a])
    ensures var r, s := Run(limits, actions), Run(limits, actions + [a]);
            && s.jobs.Keys == r.jobs.Keys + (if MayCreate(r, a) then {a.id} else {})
            && s.allStarts == r.allStarts + (if MayCreate(r, a) then [a.now] else [])
            && (MayCreate(r, a) ==> s.jobs[a.id] == NewJob(a.now))
  {
    assert (actions + [a])[..|actions|] == actions;
    RunCounts(limits, actions, a);
    NextCreates(Run(limits, actions), a);
  }
}
