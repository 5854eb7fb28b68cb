/**
The autonomy controller: a guarded control loop whose only effect is a temporary sampling
multiplier.  Times are seconds; whether the auditor stores a record is an input.
 */
module Autonomy {
  import opened Wrappers
  import opened Forecast

  datatype Mode = Off | Shadow | Auto

  datatype Config = Config(
    mode: Mode,
    window: nat,
    horizon: real,
    triggerPressure: real,
    recoverPressure: real,
    minMultiplier: real,
    maxActionTTL: real,
    cooldown: real,
    minObservations: nat,
    maxErrorRateIncrease: real,
    maxLatencyIncreaseRatio: real)

  /** `Config.Validate`. */
  predicate Valid(c: Config) {
    && 3 <= c.window <= 256
    && 3 <= c.minObservations <= c.window
    && 0.0 < c.horizon <= 600.0
    && 0.0 < c.triggerPressure <= 1.0
    && 0.0 <= c.recoverPressure < c.triggerPressure
    && 0.0 < c.minMultiplier <= 1.0
    && 0.0 < c.maxActionTTL <= 1800.0
    && 0.0 <= c.cooldown <= 1800.0
    && 0.0 <= c.maxErrorRateIncrease <= 1.0
    && 0.0 <= c.maxLatencyIncreaseRatio <= 10.0
  }

  datatype Phase = InShadow | Applied | RolledBack | Expired

  datatype Action = Action(
    id: nat,
    phase: Phase,
    createdAt: real,
    updatedAt: real,
    expiresAt: real,
    multiplier: real,
    baselineErrorRate: real,
    baselineMeanLatencyMS: real)

  /** Starts and rollbacks, in order: the visible history of the controller. */
  datatype Event = Started(at: real) | Ended(at: real)

  /** The controller's fields that outlive a tick; `trail` is what the auditor stored and `events` what happened. */
  datatype Control = Control(
    history: seq<Observation>,
    active: Option<Action>,
    recent: seq<Action>,
    cooldownUntil: Option<real>,
    sequence: nat,
    multiplier: real,
    trail: seq<Action>,
    events: seq<Event>)

  const KEEP_RECENT := 16

  function Fresh(): Control { Control([], None, [], None, 0, 1.0, [], []) }

  function Last<T>(s: seq<T>, n: nat): (t: seq<T>)
    ensures |t| <= n && |t| <= |s|
    ensures |s| <= n ==> t == s
    ensures s != [] && n > 0 ==> t != [] && t[|t| - 1] == s[|s| - 1]
  {
    if |s| > n then s[|s| - n..] else s
  }

  function LatencyRegression(baseline: real, current: real, ratio: real): bool {
    baseline > 0.0 && current > 0.0 && current > baseline * (1.0 + ratio)
  }

  function RecommendedMultiplier(predicted: real, minimum: real): real {
    var candidate := if predicted >= 0.95 then 0.50 else if predicted >= 0.90 then 0.60 else 0.75;
    var candidate := if candidate < minimum then minimum else candidate;
    if candidate > 1.0 then 1.0 else candidate
  }

  /** Why an active action has to end now, if it has to. */
  function EndingPhase(c: Config, action: Action, obs: Observation, now: real): Option<Phase> {
    if now >= action.expiresAt then Some(Expired)
    else if obs.queuePressure <= c.recoverPressure
         || obs.errorRate > action.baselineErrorRate + c.maxErrorRateIncrease
         || LatencyRegression(action.baselineMeanLatencyMS, obs.meanLatencyMS, c.maxLatencyIncreaseRatio)
    then Some(RolledBack)
    else None
  }

  function EvaluateActive(c: Config, s: Control, obs: Observation, now: real, audited: bool): Control {
    if s.active.None? then s
    else match EndingPhase(c, s.active.value, obs, now)
      case None => s
      case Some(phase) =>
        var ended := s.active.value.(phase := phase, updatedAt := now);
        s.(active := None,
           recent := Last(s.recent + [ended], KEEP_RECENT),
           cooldownUntil := Some(now + c.cooldown),
           multiplier := 1.0,
           trail := if audited then s.trail + [ended] else s.trail,
           events := s.events + [Ended(now)])
  }

  predicate ShouldStart(c: Config, s: Control, now: real) {
    && s.active.None? && !c.mode.Off?
    && (s.cooldownUntil.None? || now >= s.cooldownUntil.value)
    && |s.history| >= c.minObservations
    && Predict(s.history, c.horizon).predictedPressure >= c.triggerPressure
  }

  function StartAction(c: Config, s: Control, obs: Observation, now: real, audited: bool): Control {
    var multiplier := RecommendedMultiplier(Predict(s.history, c.horizon).predictedPressure, c.minMultiplier);
    var wanted := Action(s.sequence + 1, if c.mode.Auto? then Applied else InShadow, now, now, now + c.maxActionTTL,
                         multiplier, obs.errorRate, obs.meanLatencyMS);
    var action := if audited then wanted else wanted.(phase := InShadow);
    s.(sequence := s.sequence + 1,
       active := Some(action),
       multiplier := if action.phase.Applied? then multiplier else s.multiplier,
       trail := if audited then s.trail + [wanted] else s.trail,
       events := s.events + [Started(now)])
  }

  /** One tick: remember the observation, reconsider the active action, maybe start a new one. */
  function Tick(c: Config, s: Control, obs: Observation, auditEnd: bool, auditStart: bool): Control {
    var now := obs.at;
    var s := s.(history := Last(s.history + [obs], c.window));
    var s := EvaluateActive(c, s, obs, now, auditEnd);
    if ShouldStart(c, s, now) then StartAction(c, s, obs, now, auditStart) else s
  }

  // ---------------------------------------------------------------- invariant

  /** Starts and endings alternate, and no start comes within the cooldown of the ending before it. */
  ghost predicate WellSpaced(c: Config, events: seq<Event>) {
    && (events != [] ==> events[0].Started?)
    && (forall i :: 0 <= i < |events| - 1 ==>
          if events[i].Started? then events[i + 1].Ended?
          else events[i + 1].Started? && events[i + 1].at >= events[i].at + c.cooldown)
  }

  ghost predicate Inv(c: Config, s: Control) {
    && |s.history| <= c.window && |s.recent| <= KEEP_RECENT
    // The multiplier is one unless an applied action says otherwise.
    && s.multiplier == (if s.active.Some? && s.active.value.phase.Applied? then s.active.value.multiplier else 1.0)
    && (s.active.Some? ==>
          && !c.mode.Off? && s.active.value.id <= s.sequence
          && (s.active.value.phase.Applied? || s.active.value.phase.InShadow?)
          && s.active.value.expiresAt == s.active.value.createdAt + c.maxActionTTL
          && (s.active.value.phase.Applied? ==>
                c.mode.Auto? && s.active.value in s.trail && c.minMultiplier <= s.active.value.multiplier <= 1.0))
    && WellSpaced(c, s.events)
    && (s.active.Some? <==> s.events != [] && s.events[|s.events| - 1].Started?)
    && (s.events != [] && s.events[|s.events| - 1].Ended? ==>
          s.cooldownUntil == Some(s.events[|s.events| - 1].at + c.cooldown))
  }

  lemma FreshInv(c: Config)
    ensures Inv(c, Fresh())
  {
  }

  lemma EvaluateKeeps(c: Config, s: Control, obs: Observation, audited: bool)
    requires Valid(c) && Inv(c, s)
    ensures var s' := EvaluateActive(c, s, obs, obs.at, audited);
            Inv(c, s') && (s'.active.Some? ==> obs.at < s'.active.value.expiresAt)
  {
  }

  lemma MultiplierBounds(predicted: real, minimum: real)
    requires 0.0 < minimum <= 1.0
    ensures minimum <= RecommendedMultiplier(predicted, minimum) <= 1.0
  {
  }

  lemma StartKeeps(c: Config, s: Control, obs: Observation, audited: bool)
    requires Valid(c) && Inv(c, s) && ShouldStart(c, s, obs.at)
    ensures var s' := StartAction(c, s, obs, obs.at, audited);
            Inv(c, s') && obs.at < s'.active.value.expiresAt
  {
    MultiplierBounds(Predict(s.history, c.horizon).predictedPressure, c.minMultiplier);
  }

  lemma TickKeeps(c: Config, s: Control, obs: Observation, auditEnd: bool, auditStart: bool)
    requires Valid(c) && Inv(c, s)
    ensures var s' := Tick(c, s, obs, auditEnd, auditStart);
            Inv(c, s') && (s'.active.Some? ==> obs.at < s'.active.value.expiresAt)
  {
    var s1 := s.(history := Last(s.history + [obs], c.window));
    EvaluateKeeps(c, s1, obs, auditEnd);
    var s2 := EvaluateActive(c, s1, obs, obs.at, auditEnd);
    if ShouldStart(c, s2, obs.at) {
      StartKeeps(c, s2, obs, auditStart);
    }
  }

  datatype Round = Round(obs: Observation, auditEnd: bool, auditStart: bool)

  function Run(c: Config, rounds: seq<Round>): Control {
    if rounds == [] then Fresh()
    else
      var last := rounds[|rounds| - 1];
      Tick(c, Run(c, rounds[..|rounds| - 1]), last.obs, last.auditEnd, last.auditStart)
  }

  /**
  Safety over every run of ticks, whatever is observed, whatever the clock does and whatever
  the auditor stores.
   */
  lemma {:induction false} RunIsSafe(c: Config, rounds: seq<Round>)
    requires Valid(c)
    ensures Inv(c, Run(c, rounds))
    ensures rounds != [] && Run(c, rounds).active.Some? ==>
              rounds[|rounds| - 1].obs.at < Run(c, rounds).active.value.expiresAt
    ensures Run(c, rounds).multiplier != 1.0 ==>
              && c.mode.Auto? && Run(c, rounds).active.Some? && Run(c, rounds).active.value.phase.Applied?
              && c.minMultiplier <= Run(c, rounds).multiplier <= 1.0
  {
    if rounds != [] {
      var last := rounds[|rounds| - 1];
      RunIsSafe(c, rounds[..|rounds| - 1]);
      TickKeeps(c, Run(c, rounds[..|rounds| - 1]), last.obs, last.auditEnd, last.auditStart);
    }
  }

  // ---------------------------------------------------------------- what a cooldown of zero costs

  /** The last tick of the run ends the action that was active before it. */
  ghost predicate EndsAction(c: Config, rounds: seq<Round>) {
    rounds != [] &&
    var before, last := Run(c, rounds[..|rounds| - 1]), rounds[|rounds| - 1];
    before.active.Some? && EndingPhase(c, before.active.value, last.obs, last.obs.at).Some?
  }

  /** And it starts another. */
  ghost predicate Restarts(c: Config, rounds: seq<Round>) {
    EndsAction(c, rounds) && Run(c, rounds).active.Some?
  }

  /** In every run a tick that ends an action leaves the controller at rest. */
  ghost predicate EndingRests(c: Config) {
    forall rounds :: !Restarts(c, rounds)
  }

  /** A saturated queue, observed at the time `at`. */
  function Full(at: real): Observation { Observation(at, 1.0, 0.0, 0.0, 0.0, 0) }

  /** `n` observations of a saturated queue, one second apart. */
  function Saturation(n: nat): (history: seq<Observation>)
    ensures |history| == n
  {
    seq(n, i requires 0 <= i < n => Full(i as real))
  }

  function Saturated(n: nat): (rounds: seq<Round>)
    ensures |rounds| == n
  {
    seq(n, i requires 0 <= i < n => Round(Full(i as real), true, true))
  }

  ghost predicate AllFull(history: seq<Observation>) {
    && (forall i :: 0 <= i < |history| ==> history[i].queuePressure == 1.0)
    && (forall i, j :: 0 <= i < j < |history| ==> history[i].at <= history[j].at)
  }

  lemma FullPredictsFull(history: seq<Observation>, horizon: real)
    requires history != [] && AllFull(history) && horizon >= 0.0
    ensures Predict(history, horizon).predictedPressure == 1.0
  {
    ForecastFollowsTrend(history, horizon);
    assert Rising(Points(history));
  }

  lemma SaturatedPrefix(n: nat)
    requires n > 0
    ensures Saturated(n)[..n - 1] == Saturated(n - 1) && Saturation(n) == Saturation(n - 1) + [Full((n - 1) as real)]
  {
  }

  /** Until the window is long enough nothing starts. */
  lemma {:induction false} WarmingUp(c: Config, n: nat)
    requires Valid(c) && n < c.minObservations
    ensures Run(c, Saturated(n)) == Fresh().(history := Saturation(n))
  {
    if n == 0 {
      assert Saturation(0) == [];
    } else {
      SaturatedPrefix(n);
      WarmingUp(c, n - 1);
    }
  }

  /** The action expires by the time `at`, and the queue was saturated all along. */
  ghost predicate Poised(c: Config, s: Control, at: real) {
    && s.active.Some? && at >= s.active.value.expiresAt
    && |s.history| >= c.minObservations && AllFull(s.history + [Full(at)])
  }

  /** The first tick with a long enough window starts an action. */
  lemma FirstAction(c: Config)
    requires Valid(c) && !c.mode.Off?
    ensures Poised(c, Run(c, Saturated(c.minObservations)), (c.minObservations - 1) as real + c.maxActionTTL)
  {
    var n := c.minObservations;
    SaturatedPrefix(n);
    WarmingUp(c, n - 1);
    FullPredictsFull(Saturation(n), c.horizon);
  }

  lemma SomeRunIsPoised(c: Config) returns (rounds: seq<Round>, at: real)
    requires Valid(c) && !c.mode.Off?
    ensures Poised(c, Run(c, rounds), at)
  {
    FirstAction(c);
    rounds, at := Saturated(c.minObservations), (c.minObservations - 1) as real + c.maxActionTTL;
  }

  /** The run that shows it: a saturated queue until an action starts, and one more tick when that action expires. */
  lemma RestartsAtOnce(c: Config) returns (rounds: seq<Round>)
    requires Valid(c) && !c.mode.Off? && c.cooldown == 0.0
    ensures Restarts(c, rounds)
  {
    var before, at := SomeRunIsPoised(c);
    RestartRun(c, before, at);
    rounds := before + [Round(Full(at), true, true)];
  }

  lemma RestartRun(c: Config, rounds: seq<Round>, at: real)
    requires Valid(c) && !c.mode.Off? && c.cooldown == 0.0 && Poised(c, Run(c, rounds), at)
    ensures Restarts(c, rounds + [Round(Full(at), true, true)])
  {
    var more := rounds + [Round(Full(at), true, true)];
    assert more[..|more| - 1] == rounds;
    RestartTick(c, Run(c, rounds), at);
  }

  lemma RestartTick(c: Config, s: Control, at: real)
    requires Valid(c) && !c.mode.Off? && c.cooldown == 0.0 && Poised(c, s, at)
    ensures Tick(c, s, Full(at), true, true).active.Some?
    ensures EndingPhase(c, s.active.value, Full(at), at).Some?
  {
    FullPredictsFull(Last(s.history + [Full(at)], c.window), c.horizon);
  }

  lemma PositiveCooldownRests(c: Config, s: Control, obs: Observation, auditEnd: bool, auditStart: bool)
    requires c.cooldown > 0.0 && s.active.Some? && EndingPhase(c, s.active.value, obs, obs.at).Some?
    ensures Tick(c, s, obs, auditEnd, auditStart).active.None?
  {
  }

  lemma OffNeverActs(c: Config, rounds: seq<Round>)
    requires Valid(c) && c.mode.Off?
    ensures Run(c, rounds).active.None?
  {
    RunIsSafe(c, rounds);
  }

  /** In every run an ending is followed by rest, exactly when the cooldown is positive or the controller never acts. */
  lemma RestIffCooldown(c: Config)
    requires Valid(c)
    ensures EndingRests(c) <==> c.cooldown > 0.0 || c.mode.Off?
  {
    if c.cooldown > 0.0 || c.mode.Off? {
      forall rounds: seq<Round>
        ensures !Restarts(c, rounds)
      {
        if c.mode.Off? {
          OffNeverActs(c, rounds);
        } else if EndsAction(c, rounds) {
          var last := rounds[|rounds| - 1];
          PositiveCooldownRests(c, Run(c, rounds[..|rounds| - 1]), last.obs, last.auditEnd, last.auditStart);
        }
      }
    } else {
      var rounds := RestartsAtOnce(c);
    }
  }
}
