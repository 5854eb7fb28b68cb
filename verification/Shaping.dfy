/** Adaptive sampling: which rule sets the rate, how pressure and autonomy lower it, and which events survive. */
module Shaping {
  import opened Wrappers

  /** A rule's `stop` ends the scan; `shapeProtected` lets it transform protected events too. */
  datatype Rule = Rule(name: string, sampleRate: Option<real>, minSampleRate: real, stop: bool, shapeProtected: bool)

  datatype Pressure = Pressure(enabled: bool, highWatermark: real, criticalWatermark: real, highFactor: real, criticalFactor: real)

  datatype Config = Config(defaultSampleRate: real, pressure: Pressure, rules: seq<Rule>)

  predicate ValidPressure(p: Pressure) {
    p.enabled ==>
      && 0.0 < p.highWatermark < 1.0
      && p.highWatermark < p.criticalWatermark <= 1.0
      && 0.0 < p.highFactor <= 1.0
      && 0.0 < p.criticalFactor <= p.highFactor
  }

  predicate ValidRule(r: Rule) {
    && 0.0 <= r.minSampleRate <= 1.0
    && (r.sampleRate.Some? ==> 0.0 <= r.sampleRate.value <= 1.0 && r.minSampleRate <= r.sampleRate.value)
  }

  predicate Valid(c: Config) {
    && 0.0 <= c.defaultSampleRate <= 1.0 && ValidPressure(c.pressure)
    && (forall i :: 0 <= i < |c.rules| ==> ValidRule(c.rules[i]))
  }

  // ---------------------------------------------------------------- which rules apply

  /** Rule `k` is looked at when no earlier matching rule stopped the scan. */
  ghost predicate InScope(rules: seq<Rule>, matches: Rule -> bool, k: nat)
    requires k <= |rules|
  {
    forall j :: 0 <= j < k ==> !(matches(rules[j]) && rules[j].stop)
  }

  ghost predicate Applies(rules: seq<Rule>, matches: Rule -> bool, k: nat)
    requires k < |rules|
  {
    InScope(rules, matches, k) && matches(rules[k])
  }

  ghost predicate Rates(rules: seq<Rule>, matches: Rule -> bool, k: nat)
    requires k < |rules|
  {
    Applies(rules, matches, k) && rules[k].sampleRate.Some?
  }

  /** The last applying rule with a sample rate decides; without one the default does, with no floor. */
  ghost predicate Decides(c: Config, matches: Rule -> bool, base: real, min: real) {
    || (exists k: nat :: k < |c.rules| && Rates(c.rules, matches, k) && base == c.rules[k].sampleRate.value && min == c.rules[k].minSampleRate
                         && forall j :: k < j < |c.rules| ==> !Rates(c.rules, matches, j))
    || (base == c.defaultSampleRate && min == 0.0 && forall k :: 0 <= k < |c.rules| ==> !Rates(c.rules, matches, k))
  }

  lemma DecidedOnce(c: Config, matches: Rule -> bool, base: real, min: real, base': real, min': real)
    requires Decides(c, matches, base, min) && Decides(c, matches, base', min')
    ensures base == base' && min == min'
  {
  }

  lemma DecidedInRange(c: Config, matches: Rule -> bool, base: real, min: real)
    requires Valid(c) && Decides(c, matches, base, min)
    ensures 0.0 <= min <= base <= 1.0
  {
    if k: nat :| k < |c.rules| && Rates(c.rules, matches, k) && base == c.rules[k].sampleRate.value && min == c.rules[k].minSampleRate {
      assert ValidRule(c.rules[k]);
    }
  }

  /** A protected event is transformed only by rules that ask for it. */
  ghost predicate Transforms(rules: seq<Rule>, matches: Rule -> bool, isProtected: bool, k: nat)
    requires k < |rules|
  {
    Applies(rules, matches, k) && (!isProtected || rules[k].shapeProtected)
  }

  ghost function Shaped<E>(rules: seq<Rule>, matches: Rule -> bool, isProtected: bool, transform: (Rule, E) -> E, event: E, k: nat): E
    requires k <= |rules|
  {
    if k == 0 then event
    else
      var before := Shaped(rules, matches, isProtected, transform, event, k - 1);
      if Transforms(rules, matches, isProtected, k - 1) then transform(rules[k - 1], before) else before
  }

  /** What the scan has found after `k` rules. */
  ghost predicate Found(c: Config, matches: Rule -> bool, k: nat, rate: real, min: real)
    requires k <= |c.rules|
  {
    || (exists i: nat :: i < k && Rates(c.rules, matches, i) && rate == c.rules[i].sampleRate.value && min == c.rules[i].minSampleRate
                         && forall j :: i < j < k ==> !Rates(c.rules, matches, j))
    || (rate == c.defaultSampleRate && min == 0.0 && forall j :: 0 <= j < k ==> !Rates(c.rules, matches, j))
  }

  lemma FoundNext(c: Config, matches: Rule -> bool, k: nat, rate: real, min: real)
    requires k < |c.rules| && Found(c, matches, k, rate, min)
    ensures if Rates(c.rules, matches, k)
            then Found(c, matches, k + 1, c.rules[k].sampleRate.value, c.rules[k].minSampleRate)
            else Found(c, matches, k + 1, rate, min)
  {
    if !Rates(c.rules, matches, k) {
      if i: nat :| i < k && Rates(c.rules, matches, i) && rate == c.rules[i].sampleRate.value && min == c.rules[i].minSampleRate
                   && forall j :: i < j < k ==> !Rates(c.rules, matches, j) {
        assert forall j :: i < j < k + 1 ==> !Rates(c.rules, matches, j);
      }
    }
  }

  /** Nothing applies after a rule that stopped the scan. */
  lemma StoppedScan(c: Config, matches: Rule -> bool, k: nat, rate: real, min: real)
    requires 0 < k <= |c.rules| && matches(c.rules[k - 1]) && c.rules[k - 1].stop && Found(c, matches, k, rate, min)
    ensures Decides(c, matches, rate, min)
    ensures forall j :: k <= j < |c.rules| ==> !Applies(c.rules, matches, j)
  {
    forall j | k <= j < |c.rules|
      ensures !Applies(c.rules, matches, j)
    {
      assert !InScope(c.rules, matches, j);
    }
  }

  lemma {:induction false} ShapedSettled<E>(rules: seq<Rule>, matches: Rule -> bool, isProtected: bool, transform: (Rule, E) -> E, event: E, k: nat, n: nat)
    requires k <= n <= |rules| && forall j :: k <= j < n ==> !Applies(rules, matches, j)
    ensures Shaped(rules, matches, isProtected, transform, event, n) == Shaped(rules, matches, isProtected, transform, event, k)
  {
    if k < n {
      ShapedSettled(rules, matches, isProtected, transform, event, k, n - 1);
    }
  }

  /** The rule scan: the rate that applies, its floor, and the transformed event. */
  method Scan<E>(c: Config, matches: Rule -> bool, isProtected: bool, transform: (Rule, E) -> E, event: E) returns (rate: real, min: real, shaped: E)
    ensures Decides(c, matches, rate, min)
    ensures shaped == Shaped(c.rules, matches, isProtected, transform, event, |c.rules|)
  {
    rate, min, shaped := c.defaultSampleRate, 0.0, event;
    for k := 0 to |c.rules|
      invariant InScope(c.rules, matches, k) && Found(c, matches, k, rate, min)
      invariant shaped == Shaped(c.rules, matches, isProtected, transform, event, k)
    {
      var rule := c.rules[k];
      FoundNext(c, matches, k, rate, min);
      if !matches(rule) {
        continue;
      }
      if rule.sampleRate.Some? {
        rate, min := rule.sampleRate.value, rule.minSampleRate;
      }
      if !isProtected || rule.shapeProtected {
        shaped := transform(rule, shaped);
      }
      if rule.stop {
        StoppedScan(c, matches, k + 1, rate, min);
        ShapedSettled(c.rules, matches, isProtected, transform, event, k + 1, |c.rules|);
        return;
      }
    }
  }

  // ---------------------------------------------------------------- what the scan makes of one more rule

  /** Rules after a matching one that stops are as good as absent. */
  lemma RulesAfterStop<E>(c: Config, matches: Rule -> bool, k: nat, isProtected: bool, transform: (Rule, E) -> E, event: E, base: real, min: real)
    requires k < |c.rules| && matches(c.rules[k]) && c.rules[k].stop
    ensures var shorter := c.rules[..k + 1];
            && (Decides(c, matches, base, min) <==> Decides(c.(rules := shorter), matches, base, min))
            && Shaped(c.rules, matches, isProtected, transform, event, |c.rules|) == Shaped(shorter, matches, isProtected, transform, event, k + 1)
  {
    var shorter := c.rules[..k + 1];
    NoneAfterStop(c.rules, matches, k);
    StopDecides(c, matches, k, base, min);
    ShapedSettled(c.rules, matches, isProtected, transform, event, k + 1, |c.rules|);
    ShapedOnPrefix(c.rules, shorter, matches, isProtected, transform, event, k + 1);
  }

  lemma NoneAfterStop(rules: seq<Rule>, matches: Rule -> bool, k: nat)
    requires k < |rules| && matches(rules[k]) && rules[k].stop
    ensures forall j :: k < j < |rules| ==> !Applies(rules, matches, j)
  {
    forall j | k < j < |rules|
      ensures !Applies(rules, matches, j)
    {
      assert !InScope(rules, matches, j);
    }
  }

  lemma StopDecides(c: Config, matches: Rule -> bool, k: nat, base: real, min: real)
    requires k < |c.rules| && matches(c.rules[k]) && c.rules[k].stop
    ensures Decides(c, matches, base, min) <==> Decides(c.(rules := c.rules[..k + 1]), matches, base, min)
  {
    NoneAfterStop(c.rules, matches, k);
    SamePrefix(c.rules, c.rules[..k + 1], matches, k + 1);
    DecidesOnPrefix(c, matches, k + 1, base, min);
  }

  lemma SamePrefix(rules: seq<Rule>, shorter: seq<Rule>, matches: Rule -> bool, n: nat)
    requires n <= |rules| && shorter == rules[..n]
    ensures forall j: nat :: j < n ==> (Applies(rules, matches, j) <==> Applies(shorter, matches, j))
    ensures forall j: nat :: j < n ==> (Rates(rules, matches, j) <==> Rates(shorter, matches, j))
  {
    forall j: nat | j < n
      ensures Applies(rules, matches, j) <==> Applies(shorter, matches, j)
    {
      assert forall i :: 0 <= i < j ==> rules[i] == shorter[i];
    }
  }

  lemma DecidesOnPrefix(c: Config, matches: Rule -> bool, n: nat, base: real, min: real)
    requires n <= |c.rules| && (forall j :: n <= j < |c.rules| ==> !Applies(c.rules, matches, j))
    requires forall j: nat :: j < n ==> (Rates(c.rules, matches, j) <==> Rates(c.rules[..n], matches, j))
    ensures Decides(c, matches, base, min) <==> Decides(c.(rules := c.rules[..n]), matches, base, min)
  {
    var shorter := c.(rules := c.rules[..n]);
    if k: nat :| k < |c.rules| && Rates(c.rules, matches, k) && base == c.rules[k].sampleRate.value && min == c.rules[k].minSampleRate
                 && forall j :: k < j < |c.rules| ==> !Rates(c.rules, matches, j) {
      assert k < n && Rates(shorter.rules, matches, k);
    }
    if k: nat :| k < n && Rates(shorter.rules, matches, k) && base == shorter.rules[k].sampleRate.value && min == shorter.rules[k].minSampleRate
                 && forall j :: k < j < n ==> !Rates(shorter.rules, matches, j) {
      assert Rates(c.rules, matches, k);
    }
  }

  lemma {:induction false} ShapedOnPrefix<E>(rules: seq<Rule>, shorter: seq<Rule>, matches: Rule -> bool, isProtected: bool, transform: (Rule, E) -> E, event: E, n: nat)
    requires n <= |shorter| <= |rules| && shorter == rules[..|shorter|]
    ensures Shaped(rules, matches, isProtected, transform, event, n) == Shaped(shorter, matches, isProtected, transform, event, n)
  {
    if n > 0 {
      ShapedOnPrefix(rules, shorter, matches, isProtected, transform, event, n - 1);
      SamePrefix(rules, shorter, matches, |shorter|);
    }
  }

  /** With nothing to stop the scan before it, a last rule that matches and has a rate decides; any other last rule changes nothing. */
  lemma LastRuleDecides(c: Config, matches: Rule -> bool, last: Rule, base: real, min: real)
    requires forall j :: 0 <= j < |c.rules| ==> !(matches(c.rules[j]) && c.rules[j].stop)
    ensures var longer := c.(rules := c.rules + [last]);
            if matches(last) && last.sampleRate.Some?
            then Decides(longer, matches, base, min) <==> base == last.sampleRate.value && min == last.minSampleRate
            else Decides(longer, matches, base, min) <==> Decides(c, matches, base, min)
  {
    var n, longer := |c.rules|, c.(rules := c.rules + [last]);
    assert longer.rules[..n] == c.rules;
    assert InScope(longer.rules, matches, n);
    if matches(last) && last.sampleRate.Some? {
      assert Rates(longer.rules, matches, n);
      assert Decides(longer, matches, last.sampleRate.value, last.minSampleRate);
      if Decides(longer, matches, base, min) {
        DecidedOnce(longer, matches, base, min, last.sampleRate.value, last.minSampleRate);
      }
    } else {
      assert !Rates(longer.rules, matches, n);
      SamePrefix(longer.rules, c.rules, matches, n);
      UnratedLast(c, matches, last, base, min);
    }
  }

  lemma UnratedLast(c: Config, matches: Rule -> bool, last: Rule, base: real, min: real)
    requires var rules := c.rules + [last];
             && !Rates(rules, matches, |c.rules|)
             && forall j: nat :: j < |c.rules| ==> (Rates(rules, matches, j) <==> Rates(c.rules, matches, j))
    ensures Decides(c.(rules := c.rules + [last]), matches, base, min) <==> Decides(c, matches, base, min)
  {
    var longer := c.(rules := c.rules + [last]);
    if k: nat :| k < |longer.rules| && Rates(longer.rules, matches, k) && base == longer.rules[k].sampleRate.value && min == longer.rules[k].minSampleRate
                 && forall j :: k < j < |longer.rules| ==> !Rates(longer.rules, matches, j) {
      assert k < |c.rules| && Rates(c.rules, matches, k);
    }
    if k: nat :| k < |c.rules| && Rates(c.rules, matches, k) && base == c.rules[k].sampleRate.value && min == c.rules[k].minSampleRate
                 && forall j :: k < j < |c.rules| ==> !Rates(c.rules, matches, j) {
      assert Rates(longer.rules, matches, k);
    }
  }

  /** Likewise it transforms the event exactly when it matches and the event is unprotected or it may shape protected ones. */
  lemma LastRuleShapes<E>(rules: seq<Rule>, matches: Rule -> bool, isProtected: bool, transform: (Rule, E) -> E, event: E, last: Rule)
    requires forall j :: 0 <= j < |rules| ==> !(matches(rules[j]) && rules[j].stop)
    ensures var before := Shaped(rules, matches, isProtected, transform, event, |rules|);
            Shaped(rules + [last], matches, isProtected, transform, event, |rules| + 1) ==
              if matches(last) && (!isProtected || last.shapeProtected) then transform(last, before) else before
  {
    var longer := rules + [last];
    assert longer[..|rules|] == rules;
    ShapedOnPrefix(longer, rules, matches, isProtected, transform, event, |rules|);
    assert InScope(longer, matches, |rules|);
  }

  /** A protected event no applying rule claims leaves unchanged. */
  lemma {:induction false} ProtectedUnchanged<E>(rules: seq<Rule>, matches: Rule -> bool, transform: (Rule, E) -> E, event: E, k: nat)
    requires k <= |rules| && forall i :: 0 <= i < k ==> !(Applies(rules, matches, i) && rules[i].shapeProtected)
    ensures Shaped(rules, matches, true, transform, event, k) == event
  {
    if k > 0 {
      ProtectedUnchanged(rules, matches, transform, event, k - 1);
    }
  }

  // ---------------------------------------------------------------- the effective rate

  function Clamp(value: real, lo: real, hi: real): (r: real)
    ensures lo <= hi ==> lo <= r <= hi
    ensures lo <= value <= hi ==> r == value
  {
    if value < lo then lo else if value > hi then hi else value
  }

  /** The share of the base rate left at a pressure. */
  function Factor(p: Pressure, current: real): real {
    if !p.enabled || current < p.highWatermark then 1.0
    else if current >= p.criticalWatermark then p.criticalFactor
    else p.highFactor
  }

  function Max(a: real, b: real): real { if a >= b then a else b }

  /** A rate scaled down, but not below its floor. */
  function Floored(min: real, rate: real, factor: real): real { Max(min, rate * factor) }

  lemma ScaleDown(x: real, f: real, g: real)
    requires x >= 0.0 && 0.0 <= f <= g
    ensures 0.0 <= x * f <= x * g
  {
    assert x * g - x * f == x * (g - f);
  }

  lemma ProductGrows(a: real, b: real, f: real, g: real)
    requires 0.0 <= a <= b && 0.0 <= f <= g
    ensures a * f <= b * g
  {
    ScaleDown(a, f, g);
    assert b * g - a * g == (b - a) * g;
  }

  lemma FlooredGrows(min: real, a: real, b: real, f: real, g: real)
    requires 0.0 <= a <= b && 0.0 <= f <= g
    ensures Floored(min, a, f) <= Floored(min, b, g)
  {
    ProductGrows(a, b, f, g);
    var x, y := a * f, b * g;
    assert Max(min, x) <= Max(min, y);
  }

  lemma FlooredWhole(min: real, rate: real)
    requires min <= rate
    ensures Floored(min, rate, 1.0) == rate
  {
  }

  lemma FlooredBounds(min: real, rate: real, factor: real)
    requires 0.0 <= min <= rate && 0.0 <= factor <= 1.0
    ensures min <= Floored(min, rate, factor) <= rate
  {
    FlooredGrows(min, rate, rate, factor, 1.0);
    FlooredWhole(min, rate);
  }

  /** More pressure never leaves a larger share. */
  lemma FactorFalls(p: Pressure, low: real, high: real)
    requires ValidPressure(p) && low <= high
    ensures 0.0 < Factor(p, high) <= Factor(p, low) <= 1.0
  {
  }

  function PressureRate(p: Pressure, base: real, min: real, current: real): real {
    Floored(min, base, Factor(p, Clamp(current, 0.0, 1.0)))
  }

  lemma PressureRateBounds(p: Pressure, base: real, min: real, current: real)
    requires ValidPressure(p) && 0.0 <= min <= base <= 1.0
    ensures min <= PressureRate(p, base, min, current) <= base
  {
    var pressure := Clamp(current, 0.0, 1.0);
    FactorFalls(p, pressure, pressure);
    FlooredBounds(min, base, Factor(p, pressure));
  }

  /** The pressure controller's rate; for a validated rule it stays between the floor and the base rate. */
  method EffectiveRate(p: Pressure, base: real, min: real, current: real) returns (r: real)
    ensures 0.0 <= r <= 1.0
    ensures ValidPressure(p) && 0.0 <= min <= base <= 1.0 ==> r == PressureRate(p, base, min, current) && min <= r <= base
    ensures ValidPressure(p) && 0.0 <= min <= base <= 1.0 ==> PressuredIs(p, base, min, current, r)
  {
    if ValidPressure(p) && 0.0 <= min <= base <= 1.0 {
      PressureRateSpelled(p, base, min, current);
      PressureRateBounds(p, base, min, current);
      FlooredWhole(min, base);
    }
    var rate := Clamp(base, 0.0, 1.0);
    var floor := Clamp(min, 0.0, rate);
    var pressure := Clamp(current, 0.0, 1.0);
    if !p.enabled || pressure < p.highWatermark {
      return rate;
    }
    var factor := p.highFactor;
    if pressure >= p.criticalWatermark {
      factor := p.criticalFactor;
    }
    r := Lowered(rate, floor, factor);
    r := Clamp(r, 0.0, 1.0);
  }

  method Lowered(rate: real, floor: real, factor: real) returns (r: real)
    ensures r == Floored(floor, rate, factor)
  {
    r := rate * factor;
    if r < floor {
      r := floor;
    }
  }

  /** The rate after pressure and the autonomy multiplier; protected events ignore the multiplier. */
  function FinalRate(p: Pressure, base: real, min: real, current: real, multiplier: real, isProtected: bool): real {
    Floored(min, PressureRate(p, base, min, current), if isProtected then 1.0 else Clamp(multiplier, 0.0, 1.0))
  }

  /** The effective rate stays between the deciding rule's floor and its base rate. */
  lemma FinalRateBounds(p: Pressure, base: real, min: real, current: real, multiplier: real, isProtected: bool)
    requires ValidPressure(p) && 0.0 <= min <= base <= 1.0
    ensures min <= FinalRate(p, base, min, current, multiplier, isProtected) <= base
  {
    PressureRateBounds(p, base, min, current);
    FlooredBounds(min, PressureRate(p, base, min, current), if isProtected then 1.0 else Clamp(multiplier, 0.0, 1.0));
  }

  /** Less pressure and a higher multiplier never lower the effective rate. */
  lemma FinalRateFalls(p: Pressure, base: real, min: real, low: real, high: real, more: real, less: real, isProtected: bool)
    requires ValidPressure(p) && 0.0 <= min <= base <= 1.0 && low <= high && less <= more
    ensures FinalRate(p, base, min, high, less, isProtected) <= FinalRate(p, base, min, low, more, isProtected)
  {
    var l, h := Clamp(low, 0.0, 1.0), Clamp(high, 0.0, 1.0);
    FactorFalls(p, l, h);
    FlooredGrows(min, base, base, Factor(p, h), Factor(p, l));
    PressureRateBounds(p, base, min, high);
    FlooredGrows(min, PressureRate(p, base, min, high), PressureRate(p, base, min, low),
                 if isProtected then 1.0 else Clamp(less, 0.0, 1.0), if isProtected then 1.0 else Clamp(more, 0.0, 1.0));
  }

  /** The rate pressure leaves, read off the watermarks; a pressure outside zero to one counts as the nearer end. */
  predicate PressuredIs(p: Pressure, base: real, min: real, current: real, rate: real) {
    && (!p.enabled || current < p.highWatermark ==> rate == base)
    && (p.enabled && p.highWatermark <= current < p.criticalWatermark ==> ScaledTo(base, min, p.highFactor, rate))
    && (p.enabled && p.criticalWatermark <= current ==> ScaledTo(base, min, p.criticalFactor, rate))
  }

  /** `rate` is the larger of the floor and the product. */
  predicate ScaledTo(base: real, min: real, factor: real, rate: real) {
    rate >= min && rate >= base * factor && (rate == min || rate == base * factor)
  }

  /** A multiplier below zero counts as zero, one above one as one. */
  predicate LoweredTo(base: real, min: real, multiplier: real, rate: real) {
    && (multiplier >= 1.0 ==> rate == base)
    && (0.0 <= multiplier < 1.0 ==> ScaledTo(base, min, multiplier, rate))
    && (multiplier < 0.0 ==> rate == min)
  }

  lemma PressureRateSpelled(p: Pressure, base: real, min: real, current: real)
    requires ValidPressure(p) && 0.0 <= min <= base <= 1.0
    ensures PressuredIs(p, base, min, current, PressureRate(p, base, min, current))
  {
    FlooredWhole(min, base);
  }

  lemma MultiplierSpelled(min: real, rate: real, multiplier: real)
    requires 0.0 <= min <= rate
    ensures LoweredTo(rate, min, multiplier, Floored(min, rate, Clamp(multiplier, 0.0, 1.0)))
  {
    FlooredWhole(min, rate);
  }

  // ---------------------------------------------------------------- keeping

  const MAX_UINT64 := 0xFFFF_FFFF_FFFF_FFFF

  /** `hash` is the first eight bytes of the event's digest. */
  predicate DeterministicKeep(hash: nat, rate: real) {
    if rate <= 0.0 then false
    else if rate >= 1.0 then true
    else (hash as real) / (MAX_UINT64 as real) < rate
  }

  /** Between the two ends an event is kept when its hash lies in the lowest `rate` of the range. */
  lemma KeepSpelled(hash: nat, rate: real)
    ensures 0.0 < rate < 1.0 ==> (DeterministicKeep(hash, rate) <==> hash as real < rate * MAX_UINT64 as real)
  {
  }

  lemma KeepIsNested(hash: nat, lower: real, higher: real)
    requires lower <= higher && DeterministicKeep(hash, lower)
    ensures DeterministicKeep(hash, higher)
  {
  }

  /** Autonomy lowers the rate of unprotected events only, and not below the floor. */
  method ApplyMultiplier(rate: real, min: real, multiplier: real, isProtected: bool) returns (r: real)
    requires min <= rate
    ensures r == Floored(min, rate, if isProtected then 1.0 else Clamp(multiplier, 0.0, 1.0))
  {
    FlooredWhole(min, rate);
    var m := Clamp(multiplier, 0.0, 1.0);
    r := rate;
    if !isProtected && m < 1.0 {
      r := Lowered(rate, min, m);
    }
  }

  /** The rate after pressure and multiplier. */
  method SampleRate(p: Pressure, base: real, min: real, current: real, multiplier: real, isProtected: bool)
    returns (pressured: real, effective: real)
    requires ValidPressure(p) && 0.0 <= min <= base <= 1.0
    ensures min <= effective <= base
    ensures effective == FinalRate(p, base, min, current, multiplier, isProtected)
    ensures PressuredIs(p, base, min, current, pressured)
    ensures LoweredTo(pressured, min, if isProtected then 1.0 else multiplier, effective)
  {
    FinalRateBounds(p, base, min, current, multiplier, isProtected);
    PressureRateBounds(p, base, min, current);
    PressureRateSpelled(p, base, min, current);
    pressured := EffectiveRate(p, base, min, current);
    MultiplierSpelled(min, pressured, if isProtected then 1.0 else multiplier);
    effective := ApplyMultiplier(pressured, min, multiplier, isProtected);
  }

  /** The whole evaluation. */
  method Evaluate<E>(c: Config, matches: Rule -> bool, isProtected: bool, transform: (Rule, E) -> E, event: E, hash: nat, queuePressure: real, multiplier: real)
    returns (shaped: E, keep: bool, base: real, min: real, pressured: real, effective: real)
    requires Valid(c)
    ensures Decides(c, matches, base, min) && min <= effective <= base
    ensures effective == FinalRate(c.pressure, base, min, queuePressure, multiplier, isProtected)
    // Pressure scales the base rate, then for an unprotected event the multiplier does, neither below the floor.
    ensures PressuredIs(c.pressure, base, min, queuePressure, pressured)
    ensures LoweredTo(pressured, min, if isProtected then 1.0 else multiplier, effective)
    ensures keep <==> isProtected || DeterministicKeep(hash, effective)
    ensures isProtected || effective >= 1.0 ==> keep
    ensures !isProtected && effective <= 0.0 ==> !keep
    ensures !isProtected && 0.0 < effective < 1.0 ==> (keep <==> hash as real < effective * MAX_UINT64 as real)
    ensures keep <==> Kept(c, matches, isProtected, hash, queuePressure, multiplier)
    ensures shaped == Shaped(c.rules, matches, isProtected, transform, event, |c.rules|)
  {
    base, min, shaped := Scan(c, matches, isProtected, transform, event);
    DecidedInRange(c, matches, base, min);
    pressured, effective := SampleRate(c.pressure, base, min, queuePressure, multiplier, isProtected);
    keep := isProtected || DeterministicKeep(hash, effective);
    KeepSpelled(hash, effective);
    KeptMeans(c, matches, isProtected, hash, queuePressure, multiplier, base, min);
  }

  lemma KeptMeans(c: Config, matches: Rule -> bool, isProtected: bool, hash: nat, queuePressure: real, multiplier: real, base: real, min: real)
    requires Decides(c, matches, base, min)
    ensures Kept(c, matches, isProtected, hash, queuePressure, multiplier) <==>
            KeptAt(c, isProtected, hash, queuePressure, multiplier, base, min)
  {
    if base': real, min': real :| Decides(c, matches, base', min') && KeptAt(c, isProtected, hash, queuePressure, multiplier, base', min') {
      DecidedOnce(c, matches, base, min, base', min');
    }
  }

  predicate KeptAt(c: Config, isProtected: bool, hash: nat, queuePressure: real, multiplier: real, base: real, min: real) {
    isProtected || DeterministicKeep(hash, FinalRate(c.pressure, base, min, queuePressure, multiplier, isProtected))
  }

  ghost predicate Kept(c: Config, matches: Rule -> bool, isProtected: bool, hash: nat, queuePressure: real, multiplier: real) {
    exists base: real, min: real ::
      Decides(c, matches, base, min) && KeptAt(c, isProtected, hash, queuePressure, multiplier, base, min)
  }

  /** An event kept at some pressure and multiplier is kept at any lower pressure and higher multiplier. */
  lemma SamplingIsNested(c: Config, matches: Rule -> bool, isProtected: bool, hash: nat, low: real, high: real, more: real, less: real)
    requires Valid(c) && low <= high && less <= more
    requires Kept(c, matches, isProtected, hash, high, less)
    ensures Kept(c, matches, isProtected, hash, low, more)
  {
    var base: real, min: real :| Decides(c, matches, base, min) && KeptAt(c, isProtected, hash, high, less, base, min);
    DecidedInRange(c, matches, base, min);
    FinalRateFalls(c.pressure, base, min, low, high, more, less, isProtected);
    if !isProtected {
      KeepIsNested(hash, FinalRate(c.pressure, base, min, high, less, isProtected), FinalRate(c.pressure, base, min, low, more, isProtected));
    }
  }

  /** Nesting rests on validation: a critical factor above the high factor would keep more events under more pressure. */
  lemma UnvalidatedIsNotNested()
    ensures var p := Pressure(true, 0.5, 0.8, 0.1, 1.0);
            var c := Config(0.5, p, []);
            var none := (r: Rule) => false;
            !Valid(c) && Kept(c, none, false, 0x4000_0000_0000_0000, 0.9, 1.0) && !Kept(c, none, false, 0x4000_0000_0000_0000, 0.6, 1.0)
  {
    var p := Pressure(true, 0.5, 0.8, 0.1, 1.0);
    var c := Config(0.5, p, []);
    var none := (r: Rule) => false;
    assert Decides(c, none, 0.5, 0.0);
    assert FinalRate(p, 0.5, 0.0, 0.9, 1.0, false) == 0.5;
    assert FinalRate(p, 0.5, 0.0, 0.6, 1.0, false) == 0.05;
    assert DeterministicKeep(0x4000_0000_0000_0000, 0.5);
  }
}
