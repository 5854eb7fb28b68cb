/** When the autonomy controller starts an action, and what action it is: for one tick and for every run of ticks. */
module AutonomyStarts {
  import opened Wrappers
  import opened Forecast
  import opened Autonomy

  /** The active action has to end: its time is up, pressure has recovered, or errors or latency broke a guardrail. */
  predicate Ends(c: Config, s: Control, obs: Observation) {
    s.active.Some? &&
    var action := s.active.value;
    || obs.at >= action.expiresAt
    || obs.queuePressure <= c.recoverPressure
    || obs.errorRate - action.baselineErrorRate > c.maxErrorRateIncrease
    || (action.baselineMeanLatencyMS > 0.0 && obs.meanLatencyMS > 0.0
        && obs.meanLatencyMS > action.baselineMeanLatencyMS * (1.0 + c.maxLatencyIncreaseRatio))
  }

  /** The cooldown is over: one that begins with this very tick is over when it has no length. */
  predicate Rested(c: Config, s: Control, obs: Observation) {
    if Ends(c, s, obs) then c.cooldown <= 0.0 else s.cooldownUntil.None? || s.cooldownUntil.value <= obs.at
  }

  /** An action starts on this observation, with `window` remembered. */
  predicate Starts(c: Config, s: Control, obs: Observation, window: seq<Observation>) {
    && (s.active.None? || Ends(c, s, obs)) && Rested(c, s, obs)
    && (c.mode.Shadow? || c.mode.Auto?)
    && |window| >= c.minObservations
    && Predict(window, c.horizon).predictedPressure >= c.triggerPressure
  }

  /** Three bands of predicted pressure, none of them below the configured minimum. */
  predicate MultiplierIs(c: Config, predicted: real, multiplier: real) {
    && multiplier >= c.minMultiplier
    && (predicted >= 0.95 ==> multiplier >= 0.50 && (multiplier == 0.50 || multiplier == c.minMultiplier))
    && (0.90 <= predicted < 0.95 ==> multiplier >= 0.60 && (multiplier == 0.60 || multiplier == c.minMultiplier))
    && (predicted < 0.90 ==> multiplier >= 0.75 && (multiplier == 0.75 || multiplier == c.minMultiplier))
  }

  /** The action a tick starts. */
  predicate StartedAs(c: Config, s: Control, obs: Observation, window: seq<Observation>, audited: bool, action: Action) {
    && action.id == s.sequence + 1
    && (action.phase == if c.mode.Auto? && audited then Applied else InShadow)
    && action.createdAt == action.updatedAt == obs.at && action.expiresAt == obs.at + c.maxActionTTL
    && MultiplierIs(c, Predict(window, c.horizon).predictedPressure, action.multiplier)
    && action.baselineErrorRate == obs.errorRate && action.baselineMeanLatencyMS == obs.meanLatencyMS
  }

  /** The last observations, as many as the window holds. */
  predicate Remembers(all: seq<Observation>, window: nat, kept: seq<Observation>) {
    |kept| == (if |all| <= window then |all| else window) && kept == all[|all| - |kept|..]
  }

  lemma LastRemembers(all: seq<Observation>, window: nat)
    ensures Remembers(all, window, Last(all, window))
  {
  }

  /** The state a tick leaves. */
  ghost predicate TickedTo(c: Config, s: Control, obs: Observation, audited: bool, s': Control) {
    && Remembers(s.history + [obs], c.window, s'.history)
    && if Starts(c, s, obs, s'.history)
       then s'.active.Some? && StartedAs(c, s, obs, s'.history, audited, s'.active.value) && s'.sequence == s.sequence + 1
            && s'.multiplier == if c.mode.Auto? && audited then s'.active.value.multiplier else 1.0
       else s'.active == (if Ends(c, s, obs) then None else s.active) && s'.sequence == s.sequence
            && s'.multiplier == if Ends(c, s, obs) then 1.0 else s.multiplier
  }

  lemma EndsMeans(c: Config, s: Control, obs: Observation)
    ensures Ends(c, s, obs) <==> s.active.Some? && EndingPhase(c, s.active.value, obs, obs.at).Some?
  {
  }

  lemma RecommendedSpelled(c: Config, predicted: real)
    requires 0.0 < c.minMultiplier <= 1.0
    ensures MultiplierIs(c, predicted, RecommendedMultiplier(predicted, c.minMultiplier))
  {
  }

  lemma StartSpelled(c: Config, s: Control, obs: Observation, audited: bool)
    ensures ShouldStart(c, EvaluateActive(c, s, obs, obs.at, audited), obs.at) <==> Starts(c, s, obs, s.history)
  {
    EndsMeans(c, s, obs);
  }

  lemma StartedSpelled(c: Config, s: Control, obs: Observation, audited: bool)
    requires 0.0 < c.minMultiplier <= 1.0
    ensures var s' := StartAction(c, s, obs, obs.at, audited);
            && s'.history == s.history && s'.sequence == s.sequence + 1
            && s'.active.Some? && StartedAs(c, s, obs, s.history, audited, s'.active.value)
            && s'.multiplier == if c.mode.Auto? && audited then s'.active.value.multiplier else s.multiplier
  {
    RecommendedSpelled(c, Predict(s.history, c.horizon).predictedPressure);
  }

  lemma EvaluatedSpelled(c: Config, s: Control, obs: Observation, audited: bool)
    ensures var s' := EvaluateActive(c, s, obs, obs.at, audited);
            && s'.history == s.history && s'.sequence == s.sequence
            && s'.active == (if Ends(c, s, obs) then None else s.active)
            && s'.multiplier == (if Ends(c, s, obs) then 1.0 else s.multiplier)
  {
    EndsMeans(c, s, obs);
  }

  /** What one tick does, whatever the auditor stores. */
  lemma TickSpelled(c: Config, s: Control, obs: Observation, auditEnd: bool, auditStart: bool)
    requires Valid(c) && Inv(c, s)
    ensures TickedTo(c, s, obs, auditStart, Tick(c, s, obs, auditEnd, auditStart))
  {
    LastRemembers(s.history + [obs], c.window);
    var s1 := s.(history := Last(s.history + [obs], c.window));
    StartSpelled(c, s1, obs, auditEnd);
    EvaluatedSpelled(c, s1, obs, auditEnd);
    var s2 := EvaluateActive(c, s1, obs, obs.at, auditEnd);
    StartedSpelled(c, s2, obs, auditStart);
    SameStart(c, s, s1, obs, s1.history);
  }

  /** What is remembered decides a start only through the window. */
  lemma SameStart(c: Config, s: Control, s1: Control, obs: Observation, window: seq<Observation>)
    requires s1 == s.(history := s1.history)
    ensures Starts(c, s1, obs, window) == Starts(c, s, obs, window) && Ends(c, s1, obs) == Ends(c, s, obs)
  {
  }

  /** A tick ends with an action of its own exactly when it is due one. */
  lemma TickStartsIff(c: Config, s: Control, obs: Observation, auditEnd: bool, auditStart: bool)
    requires Valid(c) && Inv(c, s)
    ensures var s' := Tick(c, s, obs, auditEnd, auditStart);
            s'.active.Some? && s'.active.value.id > s.sequence <==> Starts(c, s, obs, s'.history)
  {
    TickSpelled(c, s, obs, auditEnd, auditStart);
  }

  // ---------------------------------------------------------------- runs

  function Observed(rounds: seq<Round>): (all: seq<Observation>)
    ensures |all| == |rounds|
  {
    seq(|rounds|, i requires 0 <= i < |rounds| => rounds[i].obs)
  }

  lemma LastOfLast<T>(s: seq<T>, x: T, n: nat)
    requires n > 0
    ensures Last(Last(s, n) + [x], n) == Last(s + [x], n)
  {
    if |s| >= n {
      assert Last(s, n) == s[|s| - n..];
      assert (s[|s| - n..] + [x])[1..] == (s + [x])[|s| + 1 - n..];
    }
  }

  /** The controller remembers the last observations, as many as the window holds. */
  lemma {:induction false} HistoryIsWindow(c: Config, rounds: seq<Round>)
    requires Valid(c)
    ensures Run(c, rounds).history == Last(Observed(rounds), c.window)
  {
    if rounds != [] {
      var before, last := rounds[..|rounds| - 1], rounds[|rounds| - 1];
      HistoryIsWindow(c, before);
      TickHistory(c, Run(c, before), last);
      ObservedOneMore(rounds);
      LastOfLast(Observed(before), last.obs, c.window);
    }
  }

  lemma ObservedOneMore(rounds: seq<Round>)
    requires rounds != []
    ensures Observed(rounds) == Observed(rounds[..|rounds| - 1]) + [rounds[|rounds| - 1].obs]
  {
  }

  lemma TickHistory(c: Config, s: Control, round: Round)
    ensures Tick(c, s, round.obs, round.auditEnd, round.auditStart).history == Last(s.history + [round.obs], c.window)
  {
  }

  /** In every run the last tick starts an action exactly when the last observations call for one, and then it is this one. */
  lemma RunStartsIff(c: Config, rounds: seq<Round>)
    requires Valid(c) && rounds != []
    ensures var before, last, after := Run(c, rounds[..|rounds| - 1]), rounds[|rounds| - 1], Run(c, rounds);
            var window := after.history;
            && Remembers(Observed(rounds), c.window, window)
            && (after.active.Some? && after.active.value.id > before.sequence <==> Starts(c, before, last.obs, window))
            && (Starts(c, before, last.obs, window) ==> StartedAs(c, before, last.obs, window, last.auditStart, after.active.value))
  {
    var before, last := rounds[..|rounds| - 1], rounds[|rounds| - 1];
    RunIsSafe(c, before);
    HistoryIsWindow(c, rounds);
    LastRemembers(Observed(rounds), c.window);
    TickSpelled(c, Run(c, before), last.obs, last.auditEnd, last.auditStart);
  }

  /** A steady pressure below the trigger never moves the controller, however long it lasts. */
  lemma {:induction false} SteadyPressureStartsNothing(c: Config, rounds: seq<Round>, pressure: real)
    requires Valid(c) && 0.0 <= pressure < c.triggerPressure
    requires forall i :: 0 <= i < |rounds| ==> rounds[i].obs.queuePressure == pressure
    ensures Run(c, rounds).active.None? && Run(c, rounds).multiplier == 1.0 && Run(c, rounds).sequence == 0
  {
    if rounds != [] {
      var before, last := rounds[..|rounds| - 1], rounds[|rounds| - 1];
      SteadyPressureStartsNothing(c, before, pressure);
      RunIsSafe(c, before);
      SteadyPrediction(c, rounds, pressure);
      TickSpelled(c, Run(c, before), last.obs, last.auditEnd, last.auditStart);
    }
  }

  /** One at or above it starts an action with the first tick that has enough observations. */
  lemma SteadyPressureStarts(c: Config, rounds: seq<Round>, pressure: real)
    requires Valid(c) && !c.mode.Off? && c.triggerPressure <= pressure <= 1.0 && |rounds| == c.minObservations
    requires forall i :: 0 <= i < |rounds| ==> rounds[i].obs.queuePressure == pressure
    ensures Run(c, rounds).active.Some? && MultiplierIs(c, pressure, Run(c, rounds).active.value.multiplier)
  {
    var before, last := rounds[..|rounds| - 1], rounds[|rounds| - 1];
    TooFewStartNothing(c, before);
    SteadyPrediction(c, rounds, pressure);
    RunStartsIff(c, rounds);
    Due(c, Run(c, before), last.obs, Run(c, rounds).history);
  }

  lemma SteadyPrediction(c: Config, rounds: seq<Round>, pressure: real)
    requires Valid(c) && rounds != [] && 0.0 <= pressure <= 1.0
    requires forall i :: 0 <= i < |rounds| ==> rounds[i].obs.queuePressure == pressure
    ensures |Run(c, rounds).history| == if |rounds| <= c.window then |rounds| else c.window
    ensures Predict(Run(c, rounds).history, c.horizon).predictedPressure == pressure
  {
    HistoryIsWindow(c, rounds);
    LastRemembers(Observed(rounds), c.window);
    SteadyWindow(Observed(rounds), c.window, Run(c, rounds).history, c.horizon, pressure);
  }

  lemma SteadyWindow(all: seq<Observation>, window: nat, kept: seq<Observation>, horizon: real, pressure: real)
    requires Remembers(all, window, kept) && kept != [] && 0.0 <= pressure <= 1.0
    requires forall i :: 0 <= i < |all| ==> all[i].queuePressure == pressure
    ensures Predict(kept, horizon).predictedPressure == pressure
  {
    RemembersSteady(all, window, kept, pressure);
    SteadyStays(kept, horizon, pressure);
  }

  lemma RemembersSteady(all: seq<Observation>, window: nat, kept: seq<Observation>, pressure: real)
    requires Remembers(all, window, kept) && forall i :: 0 <= i < |all| ==> all[i].queuePressure == pressure
    ensures forall i :: 0 <= i < |kept| ==> kept[i].queuePressure == pressure
  {
  }

  lemma Due(c: Config, s: Control, obs: Observation, window: seq<Observation>)
    requires s.active.None? && s.cooldownUntil.None? && !c.mode.Off? && |window| >= c.minObservations
    requires Predict(window, c.horizon).predictedPressure >= c.triggerPressure
    ensures Starts(c, s, obs, window)
  {
  }

  lemma {:induction false} TooFewStartNothing(c: Config, rounds: seq<Round>)
    requires Valid(c) && |rounds| < c.minObservations
    ensures Run(c, rounds).active.None? && Run(c, rounds).cooldownUntil.None?
  {
    if rounds != [] {
      TooFewStartNothing(c, rounds[..|rounds| - 1]);
      HistoryIsWindow(c, rounds);
    }
  }
}
