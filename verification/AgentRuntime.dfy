/**
 The runtime of agent jobs: how many may run and start, what a review grants, and what evidence a
 job's success rests on. Times are ticks of any clock; zero is no time.
 */
module AgentRuntime {
  import opened Options
  import opened Sets

  type Time = nat

  datatype State = Running | WaitingReview | Succeeded | Failed | Cancelled | TimedOut

  predicate IsActive(s: State) { s == Running || s == WaitingReview }

  /** `approvals` and `attempts` are history: grants given, and patches let through. */
  datatype Job = Job(
    state: State, started: Time, finished: Option<Time>, toolCalls: nat, granted: bool, evidence: seq<string>,
    lastEvent: Time, approvals: nat, attempts: nat)

  datatype Evidence = Evidence(job: string, patch: bool, succeeded: bool)

  /** `minute` is how many ticks of the clock a minute has. */
  datatype Limits = Limits(parallel: nat, perMinute: nat, toolCalls: nat, timeout: nat, minute: nat) {
    predicate Valid() {
      0 < parallel <= 32 && 0 < perMinute <= 1000 && 0 < toolCalls <= 1000 && timeout > 0 && minute > 0
    }

    /** Starts before this are no longer counted. */
    function Since(now: Time): int { now - minute }
  }

  /** A tool that has been run for a job. */
  datatype Tool = Tool(job: string, patch: bool)

  /** `recent` is what the rate limit still counts; `allStarts` and `tools` are history. */
  datatype Runtime = Runtime(
    limits: Limits, jobs: map<string, Job>, recent: seq<Time>, evidence: map<string, Evidence>, allStarts: seq<Time>,
    tools: seq<Tool>)

  function Fresh(limits: Limits): Runtime { Runtime(limits, map[], [], map[], [], []) }

  datatype Reply = Reply(runtime: Runtime, ok: bool)

  // ------------------------------------------------------------------ evidence ids

  function Decimal(n: nat): (s: string)
    ensures |s| > 0 && forall c <- s :: '0' <= c <= '9'
  {
    var digit := [('0' as int + n % 10) as char];
    if n < 10 then digit else Decimal(n / 10) + digit
  }

  function EvidenceId(job: string, call: nat): string { job + "-e" + Decimal(call) }

  lemma {:induction false} DecimalDetermines(m: nat, n: nat)
    requires Decimal(m) == Decimal(n)
    ensures m == n
    decreases m
  {
    var s, t := Decimal(m), Decimal(n);
    assert s[|s| - 1] == t[|t| - 1];
    assert m % 10 == n % 10;
    if m < 10 || n < 10 {
    } else {
      assert s[..|s| - 1] == Decimal(m / 10) && t[..|t| - 1] == Decimal(n / 10);
      DecimalDetermines(m / 10, n / 10);
    }
  }

  lemma NoLetterBehind(id: string, m: nat, k: nat)
    requires m <= k < |id| && forall c <- id[m..] :: c != 'e'
    ensures id[k] != 'e'
  {
    assert id[m..][k - m] == id[k] && id[k] in id[m..];
  }

  /** An identifier determines its job and call: the number is what stands behind the last 'e'. */
  lemma IdDetermines(job: string, call: nat, other: string, more: nat)
    requires EvidenceId(job, call) == EvidenceId(other, more)
    ensures job == other && call == more
  {
    var id := EvidenceId(job, call);
    var m, n := |id| - |Decimal(call)|, |id| - |Decimal(more)|;
    assert id[m - 1] == 'e' && id[n - 1] == 'e';
    assert id[m..] == Decimal(call) && id[n..] == Decimal(more);
    if m < n {
      NoLetterBehind(id, m, n - 1);
    } else if n < m {
      NoLetterBehind(id, n, m - 1);
    }
    DecimalDetermines(call, more);
    assert id[..m - 2] == job && id[..n - 2] == other;
  }

  // ------------------------------------------------------------------- operations

  /** A job that has run longer than allowed. */
  predicate Overdue(limits: Limits, j: Job, now: Time) { now - j.started > limits.timeout }

  function Expire(j: Job, now: Time): Job { j.(state := TimedOut, finished := Some(now), lastEvent := now) }

  /** Every active job that is overdue times out; `visited` limits it to the jobs looked at. */
  function ExpireAll(r: Runtime, now: Time, visited: set<string>): map<string, Job> {
    map id | id in r.jobs ::
      if id in visited && IsActive(r.jobs[id].state) && Overdue(r.limits, r.jobs[id], now) then Expire(r.jobs[id], now)
      else r.jobs[id]
  }

  function Kept(starts: seq<Time>, since: int): seq<Time> {
    if starts == [] then []
    else if starts[0] < since then Kept(starts[1..], since)
    else [starts[0]] + Kept(starts[1..], since)
  }

  function ActiveIds(jobs: map<string, Job>): set<string> {
    set id | id in jobs && IsActive(jobs[id].state)
  }

  /**
   Creating a job looks at every active job first; one with a later event ends that with an
   exception, and only the jobs `visited` before it have been expired.
   */
  function Create(r: Runtime, id: string, now: Time, valid: bool, allowed: bool, visited: set<string>): Reply {
    if !valid || now == 0 then Reply(r, false)
    else if exists k <- r.jobs :: IsActive(r.jobs[k].state) && now < r.jobs[k].lastEvent then
      Reply(r.(jobs := ExpireAll(r, now, visited)), false)
    else
      var r1 := r.(jobs := ExpireAll(r, now, r.jobs.Keys), recent := Kept(r.recent, r.limits.Since(now)));
      if |ActiveIds(r1.jobs)| >= r.limits.parallel || |r1.recent| >= r.limits.perMinute || id in r1.jobs || !allowed
      then Reply(r1, false)
      else
        Reply(r1.(jobs := r1.jobs[id := Job(Running, now, None, 0, false, [], now, 0, 0)],
                  recent := r1.recent + [now], allStarts := r1.allStarts + [now]), true)
  }

  function Update(r: Runtime, id: string, j: Job): Runtime { r.(jobs := r.jobs[id := j]) }

  /** The check in front of every other operation; finding the job overdue ends it. */
  function Touch(r: Runtime, id: string, now: Time): Reply {
    if id !in r.jobs || !IsActive(r.jobs[id].state) || now == 0 || now < r.jobs[id].lastEvent then Reply(r, false)
    else if Overdue(r.limits, r.jobs[id], now) then Reply(Update(r, id, Expire(r.jobs[id], now)), false)
    else Reply(r, true)
  }

  function Approve(r: Runtime, id: string, now: Time, valid: bool): Reply {
    var t := Touch(r, id, now);
    if !t.ok || r.jobs[id].state != WaitingReview || !valid then Reply(t.runtime, false)
    else
      var j := r.jobs[id];
      Reply(Update(r, id, j.(lastEvent := now, granted := true, state := Running, approvals := j.approvals + 1)), true)
  }

  /** Records evidence; a key already present would keep its old value. */
  function Record(r: Runtime, id: string, j: Job, e: Evidence): Runtime {
    var key := EvidenceId(id, j.toolCalls + 1);
    Update(r, id, j.(evidence := j.evidence + [key], toolCalls := j.toolCalls + 1)).
      (evidence := if key in r.evidence then r.evidence else r.evidence[key := e])
  }

  function Execute(r: Runtime, id: string, now: Time, patch: bool, permitted: bool, succeeds: bool): Reply {
    var t := Touch(r, id, now);
    if !t.ok || r.jobs[id].state != Running then Reply(t.runtime, false)
    else Call(r, id, r.jobs[id].(lastEvent := now), patch, permitted, succeeds)
  }

  /** The call of a job at work. */
  function Call(r: Runtime, id: string, j: Job, patch: bool, permitted: bool, succeeds: bool): Reply {
    if j.toolCalls >= r.limits.toolCalls then Reply(Update(r, id, j), false)
    else if !permitted then Reply(Record(r, id, j, Evidence(id, patch, false)), false)
    else if patch && !j.granted then Reply(Update(r, id, j.(state := WaitingReview)), false)
    else
      var j1 := if patch then j.(granted := false, attempts := j.attempts + 1) else j;
      Reply(Record(r.(tools := r.tools + [Tool(id, patch)]), id, j1, Evidence(id, patch, succeeds)), true)
  }

  predicate AllSucceeded(r: Runtime, ids: seq<string>) { forall e <- ids :: e in r.evidence && r.evidence[e].succeeded }

  function Complete(r: Runtime, id: string, now: Time): Reply {
    var t := Touch(r, id, now);
    if !t.ok || r.jobs[id].state != Running || r.jobs[id].evidence == [] then Reply(t.runtime, false)
    else
      var j := r.jobs[id];
      Reply(Update(r, id, j.(lastEvent := now, finished := Some(now),
                             state := if AllSucceeded(r, j.evidence) then Succeeded else Failed)), true)
  }

  function Cancel(r: Runtime, id: string, now: Time): Reply {
    var t := Touch(r, id, now);
    if !t.ok then Reply(t.runtime, false)
    else Reply(Update(r, id, r.jobs[id].(lastEvent := now, state := Cancelled, finished := Some(now))), true)
  }

  // ------------------------------------------------------------------------- runs

  datatype Action =
    | DoCreate(id: string, now: Time, valid: bool, allowed: bool, visited: set<string>)
    | DoApprove(id: string, now: Time, valid: bool)
    | DoExecute(id: string, now: Time, patch: bool, permitted: bool, succeeds: bool)
    | DoComplete(id: string, now: Time)
    | DoCancel(id: string, now: Time)

  function Next(r: Runtime, a: Action): Runtime {
    match a
    case DoCreate(id, now, valid, allowed, visited) => Create(r, id, now, valid, allowed, visited).runtime
    case DoApprove(id, now, valid) => Approve(r, id, now, valid).runtime
    case DoExecute(id, now, patch, permitted, succeeds) => Execute(r, id, now, patch, permitted, succeeds).runtime
    case DoComplete(id, now) => Complete(r, id, now).runtime
    case DoCancel(id, now) => Cancel(r, id, now).runtime
  }

  function Run(limits: Limits, actions: seq<Action>): Runtime {
    if actions == [] then Fresh(limits) else Next(Run(limits, actions[..|actions| - 1]), actions[|actions| - 1])
  }

  /** What every job keeps, whatever the times. */
  ghost predicate JobOk(limits: Limits, evidence: map<string, Evidence>, id: string, j: Job) {
    && j.toolCalls == |j.evidence| <= limits.toolCalls
    && j.approvals == j.attempts + (if j.granted then 1 else 0)
    && (j.state == WaitingReview ==> !j.granted)
    && (j.finished.Some? <==> !IsActive(j.state))
    && (forall i | 0 <= i < |j.evidence| ::
          j.evidence[i] == EvidenceId(id, i + 1) && j.evidence[i] in evidence && evidence[j.evidence[i]].job == id)
    && (j.state == Succeeded ==> j.evidence != [] && forall e <- j.evidence :: e in evidence && evidence[e].succeeded)
  }

  /** Every piece of evidence belongs to a call of a job. */
  ghost predicate Owned(jobs: map<string, Job>, key: string) {
    exists id, call: nat :: id in jobs && 1 <= call <= jobs[id].toolCalls && key == EvidenceId(id, call)
  }

  ghost predicate Ok(r: Runtime) {
    && r.limits.Valid()
    && (forall id <- r.jobs :: JobOk(r.limits, r.evidence, id, r.jobs[id]))
    && (forall key <- r.evidence :: Owned(r.jobs, key))
    && |ActiveIds(r.jobs)| <= r.limits.parallel
  }

  lemma ActiveSubset(a: map<string, Job>, b: map<string, Job>)
    requires forall id <- a :: IsActive(a[id].state) ==> id in b && IsActive(b[id].state)
    ensures |ActiveIds(a)| <= |ActiveIds(b)|
  {
    SubsetCount(ActiveIds(a), ActiveIds(b));
  }

  /** Evidence stays owned while no job loses calls. */
  lemma OwnedStays(jobs: map<string, Job>, later: map<string, Job>, key: string)
    requires Owned(jobs, key) && forall id <- jobs :: id in later && later[id].toolCalls >= jobs[id].toolCalls
    ensures Owned(later, key)
  {
    var id, call: nat :| id in jobs && 1 <= call <= jobs[id].toolCalls && key == EvidenceId(id, call);
    assert id in later && 1 <= call <= later[id].toolCalls && key == EvidenceId(id, call);
  }

  /** A job changes without new evidence. */
  lemma UpdateOk(r: Runtime, id: string, j: Job)
    requires Ok(r) && id in r.jobs && j.toolCalls == r.jobs[id].toolCalls && JobOk(r.limits, r.evidence, id, j)
    requires IsActive(j.state) ==> IsActive(r.jobs[id].state)
    ensures Ok(Update(r, id, j))
  {
    var later := Update(r, id, j);
    forall key | key in later.evidence ensures Owned(later.jobs, key) {
      OwnedStays(r.jobs, later.jobs, key);
    }
    ActiveSubset(later.jobs, r.jobs);
  }

  lemma ExpireAllOk(r: Runtime, now: Time, visited: set<string>)
    requires Ok(r)
    ensures Ok(r.(jobs := ExpireAll(r, now, visited)))
  {
    var later := r.(jobs := ExpireAll(r, now, visited));
    forall key | key in later.evidence ensures Owned(later.jobs, key) {
      OwnedStays(r.jobs, later.jobs, key);
    }
    ActiveSubset(later.jobs, r.jobs);
  }

  /** A job that has done nothing yet. */
  function NewJob(now: Time): Job { Job(Running, now, None, 0, false, [], now, 0, 0) }

  lemma AddJobOk(r: Runtime, id: string, now: Time)
    requires Ok(r) && id !in r.jobs && |ActiveIds(r.jobs)| < r.limits.parallel
    ensures Ok(Update(r, id, NewJob(now)))
  {
    var later := Update(r, id, NewJob(now));
    forall key | key in r.evidence ensures Owned(later.jobs, key) {
      OwnedStays(r.jobs, later.jobs, key);
    }
    assert ActiveIds(later.jobs) == ActiveIds(r.jobs) + {id};
  }

  /** The rate limit's list is nobody else's business. */
  lemma StartsElsewhere(r: Runtime, recent: seq<Time>, allStarts: seq<Time>)
    requires Ok(r)
    ensures Ok(r.(recent := recent, allStarts := allStarts))
  {
  }

  lemma CreateOk(r: Runtime, id: string, now: Time, valid: bool, allowed: bool, visited: set<string>)
    requires Ok(r)
    ensures Ok(Create(r, id, now, valid, allowed, visited).runtime)
  {
    ExpireAllOk(r, now, visited);
    ExpireAllOk(r, now, r.jobs.Keys);
    var r0 := r.(jobs := ExpireAll(r, now, r.jobs.Keys));
    StartsElsewhere(r0, Kept(r.recent, r.limits.Since(now)), r.allStarts);
    if |ActiveIds(r0.jobs)| < r.limits.parallel && id !in r0.jobs {
      AddJobOk(r0, id, now);
      StartsElsewhere(Update(r0, id, NewJob(now)), Kept(r.recent, r.limits.Since(now)) + [now], r.allStarts + [now]);
    }
  }

  /** The identifier of the next call is new, so recording never discards evidence. */
  lemma NextIdIsNew(r: Runtime, id: string)
    requires Ok(r) && id in r.jobs
    ensures EvidenceId(id, r.jobs[id].toolCalls + 1) !in r.evidence
  {
    var key := EvidenceId(id, r.jobs[id].toolCalls + 1);
    if key in r.evidence {
      assert Owned(r.jobs, key);
      var other, call: nat :| other in r.jobs && 1 <= call <= r.jobs[other].toolCalls && key == EvidenceId(other, call);
      IdDetermines(id, r.jobs[id].toolCalls + 1, other, call);
    }
  }

  predicate Extends(evidence: map<string, Evidence>, later: map<string, Evidence>) {
    forall key <- evidence :: key in later && later[key] == evidence[key]
  }

  lemma JobOkMore(limits: Limits, evidence: map<string, Evidence>, later: map<string, Evidence>, id: string, j: Job)
    requires JobOk(limits, evidence, id, j) && Extends(evidence, later)
    ensures JobOk(limits, later, id, j)
  {
  }

  lemma RecordedJobOk(r: Runtime, id: string, j: Job, e: Evidence, key: string)
    requires JobOk(r.limits, r.evidence, id, j) && IsActive(j.state) && j.toolCalls < r.limits.toolCalls && e.job == id
    requires key == EvidenceId(id, j.toolCalls + 1) && key !in r.evidence
    ensures JobOk(r.limits, r.evidence[key := e], id, j.(evidence := j.evidence + [key], toolCalls := j.toolCalls + 1))
  {
    JobOkMore(r.limits, r.evidence, r.evidence[key := e], id, j);
  }

  lemma RecordOk(r: Runtime, id: string, j: Job, e: Evidence)
    requires Ok(r) && id in r.jobs && IsActive(r.jobs[id].state) && e.job == id
    requires JobOk(r.limits, r.evidence, id, j) && j.evidence == r.jobs[id].evidence && IsActive(j.state)
    requires j.toolCalls < r.limits.toolCalls
    ensures Ok(Record(r, id, j, e))
  {
    NextIdIsNew(r, id);
    var key, later := EvidenceId(id, j.toolCalls + 1), Record(r, id, j, e);
    RecordedJobOk(r, id, j, e, key);
    forall k | k in later.evidence ensures Owned(later.jobs, k) {
      if k == key {
        assert id in later.jobs && 1 <= j.toolCalls + 1 <= later.jobs[id].toolCalls;
      } else {
        OwnedStays(r.jobs, later.jobs, k);
      }
    }
    ActiveSubset(later.jobs, r.jobs);
    forall other | other in later.jobs ensures JobOk(later.limits, later.evidence, other, later.jobs[other]) {
      if other != id {
        JobOkMore(r.limits, r.evidence, later.evidence, other, r.jobs[other]);
      }
    }
  }

  lemma TouchOk(r: Runtime, id: string, now: Time)
    requires Ok(r)
    ensures Ok(Touch(r, id, now).runtime)
    ensures Touch(r, id, now).ok ==> id in r.jobs && IsActive(r.jobs[id].state) && Touch(r, id, now).runtime == r
  {
    if id in r.jobs && IsActive(r.jobs[id].state) {
      UpdateOk(r, id, Expire(r.jobs[id], now));
    }
  }

  /** A job at work, with the time of its last event moved on. */
  ghost predicate AtWork(r: Runtime, id: string, j: Job) {
    && Ok(r) && id in r.jobs && r.jobs[id].state == Running && j == r.jobs[id].(lastEvent := j.lastEvent)
  }

  lemma AtWorkOk(r: Runtime, id: string, j: Job)
    requires AtWork(r, id, j)
    ensures Ok(Update(r, id, j)) && JobOk(r.limits, r.evidence, id, j)
  {
    UpdateOk(r, id, j);
  }

  /** Recording evidence of a job that keeps its grant. */
  lemma RecordedOk(r: Runtime, id: string, j: Job, e: Evidence)
    requires AtWork(r, id, j) && j.toolCalls < r.limits.toolCalls && e.job == id
    ensures Ok(Record(r, id, j, e))
  {
    AtWorkOk(r, id, j);
    RecordOk(r, id, j, e);
  }

  /** A patch without a grant asks for one. */
  lemma ReviewOk(r: Runtime, id: string, j: Job)
    requires AtWork(r, id, j) && !j.granted
    ensures Ok(Update(r, id, j.(state := WaitingReview)))
  {
    AtWorkOk(r, id, j);
    UpdateOk(r, id, j.(state := WaitingReview));
  }

  /** A patch uses its grant up. */
  lemma PatchedOk(r: Runtime, id: string, j: Job, e: Evidence)
    requires AtWork(r, id, j) && j.granted && j.toolCalls < r.limits.toolCalls && e.job == id
    ensures Ok(Record(r, id, j.(granted := false, attempts := j.attempts + 1), e))
  {
    AtWorkOk(r, id, j);
    RecordOk(r, id, j.(granted := false, attempts := j.attempts + 1), e);
  }

  /** What tools have run is nobody else's business. */
  lemma ToolsElsewhere(r: Runtime, tools: seq<Tool>)
    requires Ok(r)
    ensures Ok(r.(tools := tools))
  {
  }

  /** A call that gets as far as its tool. */
  lemma ToolOk(r: Runtime, id: string, j: Job, patch: bool, succeeds: bool)
    requires AtWork(r, id, j) && j.toolCalls < r.limits.toolCalls && (patch ==> j.granted)
    ensures Ok(Call(r, id, j, patch, true, succeeds).runtime)
  {
    var run := r.(tools := r.tools + [Tool(id, patch)]);
    ToolsElsewhere(r, run.tools);
    if patch {
      PatchedOk(run, id, j, Evidence(id, patch, succeeds));
    } else {
      RecordedOk(run, id, j, Evidence(id, patch, succeeds));
    }
  }

  /** A call that does not. */
  lemma ToollessOk(r: Runtime, id: string, j: Job, patch: bool, permitted: bool, succeeds: bool)
    requires AtWork(r, id, j) && (j.toolCalls >= r.limits.toolCalls || !permitted || (patch && !j.granted))
    ensures Ok(Call(r, id, j, patch, permitted, succeeds).runtime)
  {
    if j.toolCalls >= r.limits.toolCalls {
      AtWorkOk(r, id, j);
    } else if !permitted {
      RecordedOk(r, id, j, Evidence(id, patch, false));
    } else {
      ReviewOk(r, id, j);
    }
  }

  lemma CallOk(r: Runtime, id: string, j: Job, patch: bool, permitted: bool, succeeds: bool)
    requires AtWork(r, id, j)
    ensures Ok(Call(r, id, j, patch, permitted, succeeds).runtime)
  {
    if j.toolCalls >= r.limits.toolCalls || !permitted || (patch && !j.granted) {
      ToollessOk(r, id, j, patch, permitted, succeeds);
    } else {
      ToolOk(r, id, j, patch, succeeds);
    }
  }

  lemma ExecuteOk(r: Runtime, id: string, now: Time, patch: bool, permitted: bool, succeeds: bool)
    requires Ok(r)
    ensures Ok(Execute(r, id, now, patch, permitted, succeeds).runtime)
  {
    TouchOk(r, id, now);
    if Touch(r, id, now).ok && r.jobs[id].state == Running {
      CallOk(r, id, r.jobs[id].(lastEvent := now), patch, permitted, succeeds);
    }
  }

  lemma OthersOk(r: Runtime, id: string, now: Time, valid: bool)
    requires Ok(r)
    ensures Ok(Approve(r, id, now, valid).runtime) && Ok(Complete(r, id, now).runtime) && Ok(Cancel(r, id, now).runtime)
  {
    TouchOk(r, id, now);
    if Touch(r, id, now).ok {
      var j := r.jobs[id];
      UpdateOk(r, id, j.(lastEvent := now, state := Cancelled, finished := Some(now)));
      if j.state == WaitingReview {
        UpdateOk(r, id, j.(lastEvent := now, granted := true, state := Running, approvals := j.approvals + 1));
      } else if j.evidence != [] {
        UpdateOk(r, id, j.(lastEvent := now, finished := Some(now),
                           state := if AllSucceeded(r, j.evidence) then Succeeded else Failed));
      }
    }
  }

  lemma NextOk(r: Runtime, a: Action)
    requires Ok(r)
    ensures Ok(Next(r, a))
  {
    match a
    case DoCreate(id, now, valid, allowed, visited) => CreateOk(r, id, now, valid, allowed, visited);
    case DoApprove(id, now, valid) => OthersOk(r, id, now, valid);
    case DoExecute(id, now, patch, permitted, succeeds) => ExecuteOk(r, id, now, patch, permitted, succeeds);
    case DoComplete(id, now) => OthersOk(r, id, now, false);
    case DoCancel(id, now) => OthersOk(r, id, now, false);
  }

  lemma LimitsStay(r: Runtime, a: Action)
    ensures Next(r, a).limits == r.limits
  {
  }

  lemma {:induction false} RunOk(limits: Limits, actions: seq<Action>)
    requires limits.Valid()
    ensures Ok(Run(limits, actions)) && Run(limits, actions).limits == limits
  {
    if actions == [] {
    } else {
      var before, a := actions[..|actions| - 1], actions[|actions| - 1];
      RunOk(limits, before);
      NextOk(Run(limits, before), a);
      LimitsStay(Run(limits, before), a);
    }
  }

  // --------------------------------------------------------------------- theorems

  /** Every job of every run: grants are used once, calls are evidence, and success rests on it. */
  lemma JobAccounts(limits: Limits, actions: seq<Action>, id: string)
    requires limits.Valid() && id in Run(limits, actions).jobs
    ensures var r := Run(limits, actions); var j := r.jobs[id];
            && j.approvals == j.attempts + (if j.granted then 1 else 0)
            && j.toolCalls == |j.evidence| <= limits.toolCalls
            && (j.state == Succeeded ==> j.evidence != [] && AllSucceeded(r, j.evidence))
            && (forall i | 0 <= i < |j.evidence| :: j.evidence[i] in r.evidence && r.evidence[j.evidence[i]].job == id)
  {
    RunOk(limits, actions);
    assert JobOk(limits, Run(limits, actions).evidence, id, Run(limits, actions).jobs[id]);
  }

  lemma ParallelLimit(limits: Limits, actions: seq<Action>)
    requires limits.Valid()
    ensures |ActiveIds(Run(limits, actions).jobs)| <= limits.parallel
  {
    RunOk(limits, actions);
  }

  /** No identifier is used twice, by one job or by two, so no evidence is ever discarded. */
  lemma EvidenceIsNeverDiscarded(limits: Limits, actions: seq<Action>, id: string)
    requires limits.Valid() && id in Run(limits, actions).jobs
    ensures var r := Run(limits, actions); EvidenceId(id, r.jobs[id].toolCalls + 1) !in r.evidence
  {
    RunOk(limits, actions);
    NextIdIsNew(Run(limits, actions), id);
  }

  lemma CreateKeepsFinished(r: Runtime, id: string, other: string, now: Time, valid: bool, allowed: bool,
                            visited: set<string>)
    requires id in r.jobs && !IsActive(r.jobs[id].state)
    ensures var later := Create(r, other, now, valid, allowed, visited).runtime;
            id in later.jobs && later.jobs[id] == r.jobs[id] && later.evidence == r.evidence
  {
  }

  lemma ExecuteKeepsFinished(r: Runtime, id: string, other: string, now: Time, patch: bool, permitted: bool,
                             succeeds: bool)
    requires id in r.jobs && !IsActive(r.jobs[id].state)
    ensures var later := Execute(r, other, now, patch, permitted, succeeds).runtime;
            id in later.jobs && later.jobs[id] == r.jobs[id] && Extends(r.evidence, later.evidence)
  {
  }

  /** A finished job is never changed again, and evidence never changes at all. */
  lemma FinishedIsFinal(r: Runtime, a: Action, id: string)
    requires id in r.jobs && !IsActive(r.jobs[id].state)
    ensures id in Next(r, a).jobs && Next(r, a).jobs[id] == r.jobs[id] && Extends(r.evidence, Next(r, a).evidence)
  {
    match a
    case DoCreate(other, now, valid, allowed, visited) =>
      CreateKeepsFinished(r, id, other, now, valid, allowed, visited);
    case DoExecute(other, now, patch, permitted, succeeds) =>
      ExecuteKeepsFinished(r, id, other, now, patch, permitted, succeeds);
    case DoApprove(other, now, valid) =>
    case DoComplete(other, now) =>
    case DoCancel(other, now) =>
  }

  // -------------------------------------------------------------------- the rate limit

  function TimeOf(a: Action): Time { a.now }

  /** The times of a run never go back. */
  predicate TimesGrow(actions: seq<Action>) {
    forall i, j | 0 <= i < j < |actions| :: TimeOf(actions[i]) <= TimeOf(actions[j])
  }

  function Clock(actions: seq<Action>): Time { if actions == [] then 0 else TimeOf(actions[|actions| - 1]) }

  predicate Sorted(starts: seq<Time>) { forall i, j | 0 <= i < j < |starts| :: starts[i] <= starts[j] }

  /** Starts within a minute of each other number at most the limit. */
  predicate RateHolds(starts: seq<Time>, limits: Limits) {
    forall i, j | 0 <= i <= j < |starts| && starts[j] - starts[i] <= limits.minute :: j - i < limits.perMinute
  }

  ghost predicate RateOk(r: Runtime, clock: Time) {
    var gone := |r.allStarts| - |r.recent|;
    && 0 <= gone && r.recent == r.allStarts[gone..]
    && Sorted(r.allStarts) && (forall i | 0 <= i < |r.allStarts| :: r.allStarts[i] <= clock)
    && (forall i | 0 <= i < gone :: r.allStarts[i] < r.limits.Since(clock))
    && RateHolds(r.allStarts, r.limits)
  }

  lemma {:induction false} KeptWhole(starts: seq<Time>, since: int)
    requires forall i | 0 <= i < |starts| :: starts[i] >= since
    ensures Kept(starts, since) == starts
  {
    if starts == [] {
    } else {
      KeptWhole(starts[1..], since);
    }
  }

  /** Pruning a sorted list removes a beginning of it. */
  lemma {:induction false} KeptIsSuffix(starts: seq<Time>, since: int) returns (n: nat)
    requires Sorted(starts)
    ensures n <= |starts| && Kept(starts, since) == starts[n..]
    ensures forall i | 0 <= i < n :: starts[i] < since
  {
    if starts == [] || starts[0] >= since {
      n := 0;
      KeptWhole(starts, since);
    } else {
      var rest := KeptIsSuffix(starts[1..], since);
      n := rest + 1;
      assert starts[1..][rest..] == starts[n..];
      forall i | 0 <= i < n ensures starts[i] < since {
        assert i > 0 ==> starts[1..][i - 1] == starts[i];
      }
    }
  }

  lemma PruneKeepsRate(r: Runtime, clock: Time, now: Time)
    requires RateOk(r, clock) && clock <= now
    ensures RateOk(r.(recent := Kept(r.recent, r.limits.Since(now))), now)
  {
    var n := KeptIsSuffix(r.recent, r.limits.Since(now));
    RateSuffix(r, clock, now, n);
  }

  /** Dropping the oldest starts, all of them too old to count. */
  lemma RateSuffix(r: Runtime, clock: Time, now: Time, n: nat)
    requires RateOk(r, clock) && clock <= now && n <= |r.recent|
    requires forall i | 0 <= i < n :: r.recent[i] < r.limits.Since(now)
    ensures RateOk(r.(recent := r.recent[n..]), now)
  {
    var gone := |r.allStarts| - |r.recent|;
    SuffixOfSuffix(r.allStarts, r.recent, gone, n, r.limits.Since(now));
    assert |r.allStarts| - |r.recent[n..]| == gone + n;
  }

  lemma SuffixOfSuffix(all: seq<Time>, recent: seq<Time>, gone: nat, n: nat, since: int)
    requires gone <= |all| && recent == all[gone..] && n <= |recent|
    requires (forall i | 0 <= i < gone :: all[i] < since) && forall i | 0 <= i < n :: recent[i] < since
    ensures recent[n..] == all[gone + n..] && forall i | 0 <= i < gone + n :: all[i] < since
  {
    forall i | 0 <= i < gone + n ensures all[i] < since {
      if i >= gone {
        assert all[i] == recent[i - gone];
      }
    }
  }

  lemma StartKeepsRate(r: Runtime, now: Time)
    requires RateOk(r, now) && |r.recent| < r.limits.perMinute
    ensures RateOk(r.(recent := r.recent + [now], allStarts := r.allStarts + [now]), now)
  {
    var later := r.allStarts + [now];
    var gone := |r.allStarts| - |r.recent|;
    assert later[gone..] == r.recent + [now];
    forall i, j | 0 <= i <= j < |later| && later[j] - later[i] <= r.limits.minute ensures j - i < r.limits.perMinute {
      if j == |r.allStarts| && i < j {
        assert later[i] == r.allStarts[i];
      }
    }
  }

  /** Creating a job leaves the starts alone, prunes them, or prunes them and adds one. */
  lemma CreateStarts(r: Runtime, id: string, now: Time, valid: bool, allowed: bool, visited: set<string>)
    ensures var later := Create(r, id, now, valid, allowed, visited).runtime;
            var kept := Kept(r.recent, r.limits.Since(now));
            || (later.recent == r.recent && later.allStarts == r.allStarts)
            || (later.recent == kept && later.allStarts == r.allStarts)
            || (later.recent == kept + [now] && later.allStarts == r.allStarts + [now] && |kept| < r.limits.perMinute)
    ensures Create(r, id, now, valid, allowed, visited).runtime.limits == r.limits
  {
  }

  lemma SameRate(r: Runtime, s: Runtime, clock: Time, now: Time)
    requires RateOk(r, clock) && clock <= now && s.recent == r.recent && s.allStarts == r.allStarts &&
             s.limits == r.limits
    ensures RateOk(s, now)
  {
  }

  lemma CreateKeepsRate(r: Runtime, clock: Time, id: string, now: Time, valid: bool, allowed: bool,
                        visited: set<string>)
    requires RateOk(r, clock) && clock <= now
    ensures RateOk(Create(r, id, now, valid, allowed, visited).runtime, now)
  {
    var later, pruned := Create(r, id, now, valid, allowed, visited).runtime,
                         r.(recent := Kept(r.recent, r.limits.Since(now)));
    CreateStarts(r, id, now, valid, allowed, visited);
    PruneKeepsRate(r, clock, now);
    if later.allStarts == r.allStarts {
      SameRate(if later.recent == r.recent then r else pruned, later, if later.recent == r.recent then clock
                                                                      else now, now);
    } else {
      StartKeepsRate(pruned, now);
      SameRate(pruned.(recent := pruned.recent + [now], allStarts := pruned.allStarts + [now]), later, now, now);
    }
  }

  lemma {:induction false} RunRate(limits: Limits, actions: seq<Action>)
    requires TimesGrow(actions)
    ensures RateOk(Run(limits, actions), Clock(actions)) && Run(limits, actions).limits == limits
  {
    if actions == [] {
    } else {
      var before, a := actions[..|actions| - 1], actions[|actions| - 1];
      var r := Run(limits, before);
      RunRate(limits, before);
      LimitsStay(r, a);
      assert Clock(before) <= TimeOf(a) by {
        assert before != [] ==> before[|before| - 1] == actions[|actions| - 2];
      }
      if a.DoCreate? {
        CreateKeepsRate(r, Clock(before), a.id, a.now, a.valid, a.allowed, a.visited);
      } else {
        OthersStartNothing(r, a);
      }
    }
  }

  lemma OthersStartNothing(r: Runtime, a: Action)
    requires !a.DoCreate?
    ensures Next(r, a).allStarts == r.allStarts && Next(r, a).recent == r.recent
  {
  }

  /** With times that never go back, any minute holds at most the configured number of starts. */
  lemma MinuteHoldsAtMostTheLimit(limits: Limits, actions: seq<Action>)
    requires TimesGrow(actions)
    ensures RateHolds(Run(limits, actions).allStarts, limits)
  {
    RunRate(limits, actions);
  }

  // ----------------------------------------------------------------------- the class

  class Jobs {
    const limits: Limits
    var jobs: map<string, Job>
    var recent: seq<Time>
    var evidence: map<string, Evidence>
    var allStarts: seq<Time>
    var tools: seq<Tool>

    function Value(): Runtime
      reads this
    {
      Runtime(limits, jobs, recent, evidence, allStarts, tools)
    }

    constructor (l: Limits)
      requires l.Valid()
      ensures Value() == Fresh(l)
    {
      limits, jobs, recent, evidence, allStarts, tools := l, map[], [], map[], [], [];
    }

    /** Looking at one job more. */
    static lemma ExpireOneMore(r: Runtime, now: Time, visited: set<string>, id: string, before: map<string, Job>,
                               after: map<string, Job>)
      requires id in r.jobs && id !in visited && before == ExpireAll(r, now, visited)
      requires after == if IsActive(before[id].state) && Overdue(r.limits, before[id], now)
                        then before[id := Expire(before[id], now)] else before
      ensures after == ExpireAll(r, now, visited + {id})
    {
    }

    /** Looks at every job in some order and expires the overdue ones; stops at one with a later event. */
    method ExpireOverdue(now: Time) returns (ok: bool, visited: set<string>)
      modifies this`jobs
      ensures jobs == ExpireAll(old(Value()), now, visited)
      ensures ok ==> visited == old(jobs).Keys
      ensures ok <==> !exists k <- old(jobs) :: IsActive(old(jobs)[k].state) && now < old(jobs)[k].lastEvent
    {
      var left := jobs.Keys;
      visited := {};
      while left != {}
        invariant visited + left == old(jobs).Keys && visited !! left
        invariant jobs == ExpireAll(old(Value()), now, visited)
        invariant forall k <- visited :: !(IsActive(old(jobs)[k].state) && now < old(jobs)[k].lastEvent)
        decreases |left|
      {
        var id :| id in left;
        var j := jobs[id];
        if IsActive(j.state) && now < j.lastEvent { return false, visited; }
        ghost var before := jobs;
        if IsActive(j.state) && Overdue(limits, j, now) {
          jobs := jobs[id := Expire(j, now)];
        }
        ExpireOneMore(old(Value()), now, visited, id, before, jobs);
        visited, left := visited + {id}, left - {id};
      }
      ok := true;
    }

    method Prune(now: Time)
      modifies this`recent
      ensures recent == Kept(old(recent), limits.Since(now))
    {
      var kept: seq<Time> := [];
      assert recent[0..] == recent && kept + Kept(recent, limits.Since(now)) == Kept(recent, limits.Since(now));
      for i := 0 to |recent|
        invariant recent == old(recent) &&
                  kept + Kept(recent[i..], limits.Since(now)) == Kept(old(recent), limits.Since(now))
      {
        assert recent[i..][1..] == recent[i + 1..];
        if recent[i] >= limits.Since(now) {
          assert kept + ([recent[i]] + Kept(recent[i + 1..], limits.Since(now))) == kept + [recent[i]] +
                 Kept(recent[i + 1..], limits.Since(now));
          kept := kept + [recent[i]];
        }
      }
      assert kept + [] == kept;
      recent := kept;
    }

    method CreateJob(id: string, now: Time, valid: bool, allowed: bool) returns (ok: bool, visited: set<string>)
      modifies this
      ensures Reply(Value(), ok) == Create(old(Value()), id, now, valid, allowed, visited)
    {
      if !valid || now == 0 { return false, {}; }
      ok, visited := ExpireOverdue(now);
      if !ok { return; }
      Prune(now);
      var running := set k | k in jobs && IsActive(jobs[k].state);
      assert running == ActiveIds(jobs);
      if |running| >= limits.parallel || |recent| >= limits.perMinute || id in jobs ||
         !allowed { return false, visited; }
      jobs := jobs[id := Job(Running, now, None, 0, false, [], now, 0, 0)];
      recent, allStarts := recent + [now], allStarts + [now];
    }

    method ActiveJob(id: string, now: Time) returns (ok: bool)
      modifies this`jobs
      ensures Reply(Value(), ok) == Touch(old(Value()), id, now)
    {
      if id !in jobs || !IsActive(jobs[id].state) || now == 0 || now < jobs[id].lastEvent { return false; }
      if Overdue(limits, jobs[id], now) {
        jobs := jobs[id := Expire(jobs[id], now)];
        return false;
      }
      ok := true;
    }

    method ApprovePatch(id: string, now: Time, valid: bool) returns (ok: bool)
      modifies this`jobs
      ensures Reply(Value(), ok) == Approve(old(Value()), id, now, valid)
    {
      ok := ActiveJob(id, now);
      if !ok || jobs[id].state != WaitingReview || !valid { return false; }
      var j := jobs[id];
      jobs := jobs[id := j.(lastEvent := now, granted := true, state := Running, approvals := j.approvals + 1)];
    }

    method AddEvidence(id: string, e: Evidence)
      requires id in jobs
      modifies this`jobs, this`evidence
      ensures Value() == Record(old(Value()), id, old(jobs)[id], e)
    {
      var j := jobs[id];
      var key := EvidenceId(id, j.toolCalls + 1);
      if key !in evidence {
        evidence := evidence[key := e];
      }
      jobs := jobs[id := j.(evidence := j.evidence + [key], toolCalls := j.toolCalls + 1)];
    }

    method ExecuteTool(id: string, now: Time, patch: bool, permitted: bool, succeeds: bool) returns (ok: bool)
      modifies this`jobs, this`evidence, this`tools
      ensures Reply(Value(), ok) == Execute(old(Value()), id, now, patch, permitted, succeeds)
    {
      ok := ActiveJob(id, now);
      if !ok || jobs[id].state != Running { return false; }
      ghost var before, j := Value(), jobs[id].(lastEvent := now);
      jobs := jobs[id := jobs[id].(lastEvent := now)];
      CallAgain(before, id, j, patch, permitted, succeeds);
      ok := CallTool(id, patch, permitted, succeeds);
    }

    /** The job's new time is already in the table. */
    static lemma CallAgain(r: Runtime, id: string, j: Job, patch: bool, permitted: bool, succeeds: bool)
      ensures Call(Update(r, id, j), id, j, patch, permitted, succeeds) == Call(r, id, j, patch, permitted, succeeds)
    {
      assert forall k :: Update(Update(r, id, j), id, k) == Update(r, id, k);
    }

    method CallTool(id: string, patch: bool, permitted: bool, succeeds: bool) returns (ok: bool)
      requires id in jobs
      modifies this`jobs, this`evidence, this`tools
      ensures Reply(Value(), ok) == Call(old(Value()), id, old(jobs)[id], patch, permitted, succeeds)
    {
      var j := jobs[id];
      assert jobs[id := j] == jobs;
      if j.toolCalls >= limits.toolCalls { return false; }
      if !permitted {
        AddEvidence(id, Evidence(id, patch, false));
        return false;
      }
      if patch && !j.granted {
        jobs := jobs[id := j.(state := WaitingReview)];
        return false;
      }
      if patch {
        jobs := jobs[id := j.(granted := false, attempts := j.attempts + 1)];
      }
      tools := tools + [Tool(id, patch)];
      AddEvidence(id, Evidence(id, patch, succeeds));
      ok := true;
    }

    method CompleteJob(id: string, now: Time) returns (ok: bool)
      modifies this`jobs
      ensures Reply(Value(), ok) == Complete(old(Value()), id, now)
    {
      ok := ActiveJob(id, now);
      if !ok || jobs[id].state != Running || jobs[id].evidence == [] { return false; }
      var j := jobs[id];
      var succeeded := AllSucceeded(Value(), j.evidence);
      jobs := jobs[id := j.(lastEvent := now, finished := Some(now), state := if succeeded then Succeeded else Failed)];
    }

    method CancelJob(id: string, now: Time) returns (ok: bool)
      modifies this`jobs
      ensures Reply(Value(), ok) == Cancel(old(Value()), id, now)
    {
      ok := ActiveJob(id, now);
      if !ok { return; }
      jobs := jobs[id := jobs[id].(lastEvent := now, state := Cancelled, finished := Some(now))];
    }
  }
}
