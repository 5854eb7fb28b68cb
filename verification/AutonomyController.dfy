/** The controller object: counters fed by the workers, and the tick that turns them into control. */
module AutonomyController {
  import opened Wrappers
  import opened Forecast
  import opened Autonomy
  import opened AutonomyStarts

  /** The window between two ticks, summed up as one observation. */
  function Summarize(now: real, pressure: real, completed: nat, failed: nat, retries: nat, latencyMS: real): Observation {
    if completed == 0 then Observation(now, pressure, 0.0, 0.0, 0.0, 0)
    else
      var n := completed as real;
      Observation(now, pressure, failed as real / n, latencyMS / n, retries as real / n, completed)
  }

  /** Pressure still calls for the action, and neither errors nor latency have grown past what the guardrails allow. */
  predicate Harmless(c: Config, action: Action, obs: Observation) {
    && obs.queuePressure > c.recoverPressure
    && obs.errorRate - action.baselineErrorRate <= c.maxErrorRateIncrease
    && !LatencyRegression(action.baselineMeanLatencyMS, obs.meanLatencyMS, c.maxLatencyIncreaseRatio)
  }

  /** The cascade of reasons to end an action: it expired, pressure recovered, errors or latency got worse. */
  method Ending(c: Config, action: Action, obs: Observation, now: real) returns (phase: Option<Phase>)
    ensures phase == EndingPhase(c, action, obs, now)
    // Expiry comes first; the guardrails only decide about an action that still has time left.
    ensures phase == Some(Expired) <==> now >= action.expiresAt
    ensures phase.None? <==> now < action.expiresAt && Harmless(c, action, obs)
    ensures phase.Some? ==> phase.value.Expired? || phase.value.RolledBack?
  {
    if now >= action.expiresAt { return Some(Expired); }
    if obs.queuePressure <= c.recoverPressure { return Some(RolledBack); }
    if obs.errorRate > action.baselineErrorRate + c.maxErrorRateIncrease { return Some(RolledBack); }
    if LatencyRegression(action.baselineMeanLatencyMS, obs.meanLatencyMS, c.maxLatencyIncreaseRatio) { return Some(RolledBack); }
    return None;
  }

  /** The record of an action that ended at `now`. */
  predicate Over(ended: Action, action: Action, now: real) {
    ended.id == action.id && ended.updatedAt == now && (ended.phase.Expired? || ended.phase.RolledBack?)
  }

  /** The ended action is remembered behind the last fifteen before it, and stored if the auditor could. */
  predicate Filed(s: Control, s': Control, audited: bool) {
    0 < |s'.recent| &&
    var n := |s'.recent| - 1;
    && n == (if |s.recent| < 15 then |s.recent| else 15) && s'.recent[..n] == s.recent[|s.recent| - n..]
    && s'.trail == if audited then s.trail + [s'.recent[n]] else s.trail
  }

  lemma LastSixteen<T>(s: seq<T>, x: T)
    ensures var t := Last(s + [x], 16);
            var n := |t| - 1;
            n == (if |s| < 15 then |s| else 15) && t[..n] == s[|s| - n..] && t[n] == x
  {
    if |s| >= 16 {
      assert Last(s + [x], 16) == (s + [x])[|s| + 1 - 16..];
    }
  }

  /** What ending an action files, whatever ended it. */
  lemma EndedIsFiled(c: Config, s: Control, obs: Observation, now: real, audited: bool)
    requires s.active.Some? && EvaluateActive(c, s, obs, now, audited).active.None?
    ensures Filed(s, EvaluateActive(c, s, obs, now, audited), audited)
  {
    var phase := EndingPhase(c, s.active.value, obs, now);
    LastSixteen(s.recent, s.active.value.(phase := phase.value, updatedAt := now));
  }

  /** The rollback branch of a tick. */
  method EndActive(c: Config, s: Control, obs: Observation, now: real, audited: bool) returns (s': Control)
    requires s.active.Some?
    ensures s' == EvaluateActive(c, s, obs, now, audited)
    // Either nothing changed and the action has time left, or it is over and its effect with it.
    ensures s'.active.Some? ==> s' == s && now < s.active.value.expiresAt
    ensures s'.active.None? ==>
              && s'.multiplier == 1.0 && s'.cooldownUntil == Some(now + c.cooldown)
              && 0 < |s'.recent| <= KEEP_RECENT && Over(s'.recent[|s'.recent| - 1], s.active.value, now)
    ensures Valid(c) && Inv(c, s) && now == obs.at ==> Inv(c, s')
  {
    if Valid(c) && Inv(c, s) && now == obs.at {
      EvaluateKeeps(c, s, obs, audited);
    }
    s' := Rollback(c, s, obs, now, audited);
  }

  method Rollback(c: Config, s: Control, obs: Observation, now: real, audited: bool) returns (s': Control)
    requires s.active.Some?
    ensures s' == EvaluateActive(c, s, obs, now, audited)
  {
    var ending := Ending(c, s.active.value, obs, now);
    if ending.None? { return s; }
    var action := s.active.value.(phase := ending.value, updatedAt := now);
    var recent := s.recent + [action];
    if |recent| > KEEP_RECENT {
      recent := recent[|recent| - KEEP_RECENT..];
    }
    s' := s.(multiplier := 1.0, recent := recent, active := None, cooldownUntil := Some(now + c.cooldown),
             trail := if audited then s.trail + [action] else s.trail, events := s.events + [Ended(now)]);
  }

  /** The start branch of a tick: an action that cannot be audited is not applied. */
  method Start(c: Config, s: Control, forecast: Forecast, obs: Observation, now: real, audited: bool) returns (s': Control)
    requires forecast == Predict(s.history, c.horizon)
    ensures s' == StartAction(c, s, obs, now, audited)
    // Sampling changes only under an applied action, and only an audited action in auto mode is applied.
    ensures s'.active.Some? && s'.active.value.id > s.sequence
    ensures s'.active.value.phase.Applied? <==> c.mode.Auto? && audited
    ensures s'.active.value.phase.Applied? ==> s'.active.value in s'.trail && s'.multiplier == s'.active.value.multiplier
    ensures !s'.active.value.phase.Applied? ==> s'.multiplier == s.multiplier
    ensures Valid(c) && Inv(c, s) && ShouldStart(c, s, now) && now == obs.at ==> Inv(c, s') && now < s'.active.value.expiresAt
  {
    if Valid(c) && Inv(c, s) && ShouldStart(c, s, now) && now == obs.at {
      StartKeeps(c, s, obs, audited);
    }
    var recommended := RecommendedMultiplier(forecast.predictedPressure, c.minMultiplier);
    var phase := if c.mode.Auto? then Applied else InShadow;
    var action := Action(s.sequence + 1, phase, now, now, now + c.maxActionTTL, recommended, obs.errorRate, obs.meanLatencyMS);
    var trail := s.trail;
    if audited {
      trail := trail + [action];
    } else {
      action := action.(phase := InShadow);
    }
    var multiplier := s.multiplier;
    if action.phase.Applied? {
      multiplier := recommended;
    }
    s' := s.(sequence := s.sequence + 1, active := Some(action), multiplier := multiplier, trail := trail,
             events := s.events + [Started(now)]);
  }

  // ---------------------------------------------------------------- windows of jobs

  datatype Job = Job(durationMS: real, attempts: int, failure: bool)

  datatype Totals = Totals(completed: nat, failed: nat, retries: nat, latencyMS: real)

  function Plus(a: Totals, b: Totals): Totals {
    Totals(a.completed + b.completed, a.failed + b.failed, a.retries + b.retries, a.latencyMS + b.latencyMS)
  }

  /** What one job adds: the first attempt of a job is not a retry. */
  function TotalOf(job: Job): Totals {
    Totals(1, if job.failure then 1 else 0, if job.attempts > 1 then job.attempts - 1 else 0, job.durationMS)
  }

  function TotalsOf(jobs: seq<Job>): (t: Totals)
    ensures t.completed == |jobs|
  {
    if jobs == [] then Totals(0, 0, 0, 0.0) else Plus(TotalsOf(jobs[..|jobs| - 1]), TotalOf(jobs[|jobs| - 1]))
  }

  lemma {:induction false} TotalsSplit(a: seq<Job>, b: seq<Job>)
    ensures TotalsOf(a + b) == Plus(TotalsOf(a), TotalsOf(b))
  {
    if b == [] {
      assert a + b == a;
    } else {
      var rest, last := b[..|b| - 1], b[|b| - 1];
      TotalsSplit(a, rest);
      TotalsSnoc(a + rest, last);
      TotalsSnoc(rest, last);
      assert rest + [last] == b && a + rest + [last] == a + b;
      PlusAssociates(TotalsOf(a), TotalsOf(rest), TotalOf(last));
    }
  }

  lemma TotalsSnoc(jobs: seq<Job>, job: Job)
    ensures TotalsOf(jobs + [job]) == Plus(TotalsOf(jobs), TotalOf(job))
  {
    assert (jobs + [job])[..|jobs|] == jobs;
  }

  /** A completed job adds to the totals of all jobs and leaves those of the observed ones. */
  lemma JobJoins(jobs: seq<Job>, observed: nat, job: Job)
    requires observed <= |jobs|
    ensures TotalsOf(jobs + [job]) == Plus(TotalsOf(jobs), TotalOf(job))
    ensures (jobs + [job])[..observed] == jobs[..observed]
  {
    TotalsSnoc(jobs, job);
  }

  lemma PlusAssociates(a: Totals, b: Totals, c: Totals)
    ensures Plus(Plus(a, b), c) == Plus(a, Plus(b, c))
  {
  }

  /** The observation of a window in which exactly these jobs completed. */
  function WindowOf(now: real, pressure: real, jobs: seq<Job>): Observation {
    var t := TotalsOf(jobs);
    Summarize(now, pressure, |jobs|, t.failed, t.retries, t.latencyMS)
  }

  ghost function Failures(jobs: seq<Job>): set<int> {
    set i | 0 <= i < |jobs| && jobs[i].failure
  }

  ghost function TotalMS(jobs: seq<Job>): real {
    if jobs == [] then 0.0 else TotalMS(jobs[1..]) + jobs[0].durationMS
  }

  /** The attempts beyond the first. */
  ghost function Repeats(jobs: seq<Job>): nat {
    if jobs == [] then 0 else Repeats(jobs[1..]) + if jobs[0].attempts <= 1 then 0 else jobs[0].attempts - 1
  }

  lemma {:induction false} TotalsMeaning(jobs: seq<Job>)
    ensures var t := TotalsOf(jobs);
            t.completed == |jobs| && t.failed == |Failures(jobs)| && t.retries == Repeats(jobs) && t.latencyMS == TotalMS(jobs)
  {
    if jobs == [] {
      assert Failures(jobs) == {};
    } else {
      var before, last := jobs[..|jobs| - 1], jobs[|jobs| - 1];
      TotalsMeaning(before);
      assert before + [last] == jobs;
      SumsSnoc(before, last);
      FailuresSnoc(before, last);
      TotalsSnoc(before, last);
    }
  }

  lemma FailuresSnoc(jobs: seq<Job>, job: Job)
    ensures |Failures(jobs + [job])| == |Failures(jobs)| + if job.failure then 1 else 0
  {
    assert Failures(jobs + [job]) == Failures(jobs) + if job.failure then {|jobs|} else {};
  }

  lemma {:induction false} SumsSnoc(jobs: seq<Job>, job: Job)
    ensures TotalMS(jobs + [job]) == TotalMS(jobs) + job.durationMS
    ensures Repeats(jobs + [job]) == Repeats(jobs) + if job.attempts <= 1 then 0 else job.attempts - 1
  {
    if jobs != [] {
      SumsSnoc(jobs[1..], job);
      assert (jobs + [job])[1..] == jobs[1..] + [job];
    }
  }

  /** An observation sums up the jobs of its window: how many, how many failed, how often they were repeated, how long they took. */
  lemma WindowMeaning(now: real, pressure: real, jobs: seq<Job>)
    ensures WindowOf(now, pressure, jobs) == Summarize(now, pressure, |jobs|, |Failures(jobs)|, Repeats(jobs), TotalMS(jobs))
    ensures jobs == [] ==> |Failures(jobs)| == Repeats(jobs) == 0 && TotalMS(jobs) == 0.0
  {
    TotalsMeaning(jobs);
    assert jobs == [] ==> Failures(jobs) == {};
  }

  /** Its rates are means per job, and zero without a job. */
  lemma SummarizeMeaning(now: real, pressure: real, completed: nat, failed: nat, retries: nat, latencyMS: real)
    requires completed == 0 ==> failed == retries == 0 && latencyMS == 0.0
    ensures var obs, n := Summarize(now, pressure, completed, failed, retries, latencyMS), completed as real;
            && obs.at == now && obs.queuePressure == pressure && obs.completed == completed
            && obs.errorRate * n == failed as real && obs.meanLatencyMS * n == latencyMS && obs.retryRate * n == retries as real
  {
    if completed > 0 {
      var n := completed as real;
      Quotient(failed as real, n);
      Quotient(latencyMS, n);
      Quotient(retries as real, n);
    }
  }

  class Controller {
    const cfg: Config
    var queuePressure: real
    var completed: nat
    var failed: nat
    var retries: nat
    var totalLatencyMS: real
    var lastCompleted: nat
    var lastFailed: nat
    var lastRetries: nat
    var lastLatencyMS: real
    var forecast: Forecast
    var control: Control
    ghost var jobs: seq<Job>
    ghost var observed: nat

    /** The counters are the totals of all jobs, and the marks those of the jobs observed by a tick. */
    ghost predicate CountersOk()
      reads this`queuePressure, this`completed, this`failed, this`retries, this`totalLatencyMS
      reads this`lastCompleted, this`lastFailed, this`lastRetries, this`lastLatencyMS, this`jobs, this`observed
    {
      && observed <= |jobs| && 0.0 <= queuePressure <= 1.0
      && Totals(completed, failed, retries, totalLatencyMS) == TotalsOf(jobs)
      && Totals(lastCompleted, lastFailed, lastRetries, lastLatencyMS) == TotalsOf(jobs[..observed])
    }

    constructor (cfg: Config)
      requires Valid(cfg)
      ensures this.cfg == cfg && CountersOk() && control == Fresh() && Inv(cfg, control) && jobs == []
    {
      this.cfg := cfg;
      queuePressure, totalLatencyMS, lastLatencyMS := 0.0, 0.0, 0.0;
      completed, failed, retries, lastCompleted, lastFailed, lastRetries := 0, 0, 0, 0, 0, 0;
      forecast := Predict([], cfg.horizon);
      control := Fresh();
      jobs, observed := [], 0;
    }

    method QueueDepth(current: int, capacity: int)
      requires CountersOk()
      modifies this`queuePressure
      ensures CountersOk()
      ensures queuePressure == if capacity <= 0 then 0.0 else Clamp(current as real / capacity as real, 0.0, 1.0)
    {
      queuePressure := if capacity <= 0 then 0.0 else Clamp(current as real / capacity as real, 0.0, 1.0);
    }

    method JobCompleted(durationMS: real, attempts: int, failure: bool)
      requires CountersOk()
      modifies this`completed, this`failed, this`retries, this`totalLatencyMS, this`jobs
      ensures CountersOk() && jobs == old(jobs) + [Job(durationMS, attempts, failure)]
    {
      JobJoins(jobs, observed, Job(durationMS, attempts, failure));
      jobs := jobs + [Job(durationMS, attempts, failure)];
      completed := completed + 1;
      totalLatencyMS := totalLatencyMS + durationMS;
      if failure {
        failed := failed + 1;
      }
      if attempts > 1 {
        retries := retries + (attempts - 1);
      }
    }

    /** The observation of exactly the jobs no tick has observed before; none of them is observed again. */
    method TakeWindow(now: real) returns (obs: Observation)
      requires CountersOk()
      modifies this`lastCompleted, this`lastFailed, this`lastRetries, this`lastLatencyMS, this`observed
      ensures CountersOk() && observed == |jobs|
      ensures obs == WindowOf(now, queuePressure, jobs[old(observed)..])
    {
      TotalsSplit(jobs[..observed], jobs[observed..]);
      assert jobs[..observed] + jobs[observed..] == jobs && jobs[..|jobs|] == jobs;
      observed := |jobs|;
      obs := Summarize(now, queuePressure, completed - lastCompleted, failed - lastFailed,
                       retries - lastRetries, totalLatencyMS - lastLatencyMS);
      lastCompleted, lastFailed, lastRetries, lastLatencyMS := completed, failed, retries, totalLatencyMS;
    }

    /** One tick of the loop keeps the safety invariant and leaves no expired action in force. */
    method Tick(now: real, auditEnd: bool, auditStart: bool) returns (last: Observation)
      requires Valid(cfg) && CountersOk() && Inv(cfg, control)
      modifies this`lastCompleted, this`lastFailed, this`lastRetries, this`lastLatencyMS, this`observed, this`forecast, this`control
      ensures CountersOk() && observed == |jobs| && Inv(cfg, control)
      ensures last == WindowOf(now, queuePressure, jobs[old(observed)..])
      ensures control == Autonomy.Tick(cfg, old(control), last, auditEnd, auditStart)
      ensures control.active.Some? ==> now < control.active.value.expiresAt
      // A new action is started exactly when it is due.
      ensures control.active.Some? && control.active.value.id > old(control.sequence) <==>
                Starts(cfg, old(control), last, control.history)
      ensures TickedTo(cfg, old(control), last, auditStart, control)
    {
      last := TakeWindow(now);
      Decides(last, auditEnd, auditStart);
    }

    /** The half of a tick that decides. */
    method Decides(obs: Observation, auditEnd: bool, auditStart: bool)
      requires Valid(cfg) && Inv(cfg, control) && CountersOk()
      modifies this`forecast, this`control
      ensures CountersOk() && Inv(cfg, control) && (control.active.Some? ==> obs.at < control.active.value.expiresAt)
      ensures control == Autonomy.Tick(cfg, old(control), obs, auditEnd, auditStart)
      ensures TickedTo(cfg, old(control), obs, auditStart, control)
      ensures control.active.Some? && control.active.value.id > old(control.sequence) <==>
                Starts(cfg, old(control), obs, control.history)
    {
      forecast, control := DecideSafely(cfg, control, obs, auditEnd, auditStart);
    }
  }

  method MaybeStart(c: Config, s: Control, forecast: Forecast, obs: Observation, audited: bool) returns (s': Control)
    requires forecast == Predict(s.history, c.horizon)
    ensures s' == if ShouldStart(c, s, obs.at) then StartAction(c, s, obs, obs.at, audited) else s
  {
    s' := s;
    if s.active.None? && !c.mode.Off? && (s.cooldownUntil.None? || obs.at >= s.cooldownUntil.value)
       && |s.history| >= c.minObservations && forecast.predictedPressure >= c.triggerPressure {
      s' := Start(c, s, forecast, obs, obs.at, audited);
    }
  }

  method Remember(history: seq<Observation>, obs: Observation, window: nat) returns (history': seq<Observation>)
    ensures history' == Last(history + [obs], window)
  {
    history' := history + [obs];
    if |history'| > window {
      history' := history'[|history'| - window..];
    }
  }

  /** Neither branch of a tick touches the window it was decided on. */
  lemma HistoryKept(c: Config, s: Control, obs: Observation, audited: bool)
    ensures EvaluateActive(c, s, obs, obs.at, audited).history == s.history
    ensures StartAction(c, s, obs, obs.at, audited).history == s.history
  {
  }

  /** A tick of a controller in a safe state leaves it in one. */
  method DecideSafely(c: Config, s: Control, obs: Observation, auditEnd: bool, auditStart: bool)
    returns (forecast: Forecast, s': Control)
    requires Valid(c) && Inv(c, s)
    ensures s' == Autonomy.Tick(c, s, obs, auditEnd, auditStart) && forecast == Predict(s'.history, c.horizon)
    ensures Inv(c, s') && (s'.active.Some? ==> obs.at < s'.active.value.expiresAt)
    ensures TickedTo(c, s, obs, auditStart, s')
    ensures s'.active.Some? && s'.active.value.id > s.sequence <==> Starts(c, s, obs, s'.history)
  {
    TickStartsIff(c, s, obs, auditEnd, auditStart);
    TickKeeps(c, s, obs, auditEnd, auditStart);
    TickSpelled(c, s, obs, auditEnd, auditStart);
    forecast, s' := Decide(c, s, obs, auditEnd, auditStart);
  }

  /** The body of a tick after the counters are read. */
  method Decide(c: Config, s: Control, obs: Observation, auditEnd: bool, auditStart: bool)
    returns (forecast: Forecast, s': Control)
    ensures s' == Autonomy.Tick(c, s, obs, auditEnd, auditStart)
    ensures forecast == Predict(s'.history, c.horizon)
  {
    var history := Remember(s.history, obs, c.window);
    forecast := ForecastPressure(history, c.horizon);
    s' := s.(history := history);
    HistoryKept(c, s', obs, auditEnd);
    if s'.active.Some? {
      s' := EndActive(c, s', obs, obs.at, auditEnd);
    }
    HistoryKept(c, s', obs, auditStart);
    s' := MaybeStart(c, s', forecast, obs, auditStart);
  }
}
