/**
 The two ejection passes of outlier detection, on values: which entries a pass
 ejects, how many may be ejected, and whom the success rate pass spares. Rates
 are exact reals.
 */
module EjectionPasses {
  import opened Common

  // ----- A pass over the entries, in order -----

  /** What ejection changes in an entry. */
  datatype Ejection = Ejection(timestamp: Option<int>, multiplier: nat)

  /** What a pass reads when it comes to an entry: a random number and the clock. */
  datatype Reading = Reading(draw: real, now: int)

  /** An entry that is ejected already is ejected again: its time starts anew and
      its multiplier grows. */
  function Eject(e: Ejection, now: int): Ejection { Ejection(Some(now), e.multiplier + 1) }

  function Count(v: seq<Ejection>, n: nat): nat
    requires n <= |v|
  {
    if n == 0 then 0 else Count(v, n - 1) + if v[n - 1].timestamp.Some? then 1 else 0
  }

  function Ejected(v: seq<Ejection>): nat { Count(v, |v|) }

  /** May another entry be ejected? */
  predicate Room(v: seq<Ejection>, maxEjectionPercent: real) {
    (Ejected(v) * 100) as real < maxEjectionPercent * |v| as real
  }

  /** The entries after the pass has gone through the first `n`, when those that
      `outlier` marks are the ones to eject. */
  function After(v: seq<Ejection>, outlier: seq<bool>, maxEjectionPercent: real, readings: seq<Reading>,
                 n: nat): (r: seq<Ejection>)
    requires n <= |v| == |outlier| == |readings|
    ensures |r| == |v|
  {
    if n == 0 then v
    else
      var r := After(v, outlier, maxEjectionPercent, readings, n - 1);
      if outlier[n - 1] && Room(r, maxEjectionPercent) then r[n - 1 := Eject(r[n - 1], readings[n - 1].now)] else r
  }

  lemma {:induction false} CountUpdate(v: seq<Ejection>, i: nat, now: int, n: nat)
    requires i < |v| && n <= |v|
    ensures Count(v[i := Eject(v[i], now)], n) == Count(v, n) + if i < n && v[i].timestamp.None? then 1 else 0
  {
    if n > 0 { CountUpdate(v, i, now, n - 1); }
  }

  /** The limit on ejections as it is kept: every ejection that raised the number
      was made while the number was below the limit. */
  ghost predicate WithinLimit(before: nat, now: nat, maxEjectionPercent: real, size: nat) {
    now == before || ((now - 1) * 100) as real < maxEjectionPercent * size as real
  }

  lemma {:induction false} PassWithinLimit(v: seq<Ejection>, outlier: seq<bool>, maxEjectionPercent: real,
                                           readings: seq<Reading>, n: nat)
    requires n <= |v| == |outlier| == |readings|
    ensures WithinLimit(Ejected(v), Ejected(After(v, outlier, maxEjectionPercent, readings, n)), maxEjectionPercent,
                        |v|)
    ensures Ejected(v) <= Ejected(After(v, outlier, maxEjectionPercent, readings, n))
  {
    if n > 0 {
      PassWithinLimit(v, outlier, maxEjectionPercent, readings, n - 1);
      var r := After(v, outlier, maxEjectionPercent, readings, n - 1);
      CountUpdate(r, n - 1, readings[n - 1].now, |v|);
      if outlier[n - 1] && Room(r, maxEjectionPercent) {
        OneMoreWithinLimit(r, maxEjectionPercent, Ejected(v),
                           Ejected(After(v, outlier, maxEjectionPercent, readings, n)));
      }
    }
  }

  lemma OneMoreWithinLimit(r: seq<Ejection>, maxEjectionPercent: real, before: nat, next: nat)
    requires Room(r, maxEjectionPercent) && next <= Ejected(r) + 1
    ensures WithinLimit(before, next, maxEjectionPercent, |r|)
  {
  }

  /** Once there is no room, the rest of the pass changes nothing: the early exit
      from the loop is sound. */
  lemma {:induction false} FullStaysFull(v: seq<Ejection>, outlier: seq<bool>, maxEjectionPercent: real,
                                         readings: seq<Reading>, i: nat, n: nat)
    requires i <= n <= |v| == |outlier| == |readings|
             && !Room(After(v, outlier, maxEjectionPercent, readings, i), maxEjectionPercent)
    ensures After(v, outlier, maxEjectionPercent, readings, n) == After(v, outlier, maxEjectionPercent, readings, i)
  {
    if i < n { FullStaysFull(v, outlier, maxEjectionPercent, readings, i, n - 1); }
  }

  /** Exactly which entries a pass ejects: the outliers it comes to while there is
      room, whether or not they were ejected before. All others stay as they were. */
  lemma {:induction false} PassEjectsOutliers(v: seq<Ejection>, outlier: seq<bool>, maxEjectionPercent: real,
                                              readings: seq<Reading>, n: nat, i: nat)
    requires n <= |v| == |outlier| == |readings| && i < |v|
    ensures After(v, outlier, maxEjectionPercent, readings, n)[i] ==
            if i < n && outlier[i] && Room(After(v, outlier, maxEjectionPercent, readings, i), maxEjectionPercent)
            then Eject(v[i], readings[i].now) else v[i]
  {
    if n > 0 { PassEjectsOutliers(v, outlier, maxEjectionPercent, readings, n - 1, i); }
  }

  // ----- Success rates -----

  /** How many calls ended so. */
  function Outcomes(outcomes: seq<bool>, ok: bool): nat {
    if outcomes == [] then 0
    else Outcomes(outcomes[..|outcomes| - 1], ok) + if outcomes[|outcomes| - 1] == ok then 1 else 0
  }

  /** A number in JavaScript: without calls a rate is 0/0. Infinities do not occur. */
  datatype Number = NaN | Real(value: real)

  function Quotient(a: real, n: nat): Number { if n == 0 then NaN else Real(a / n as real) }

  function Plus(a: Number, b: Number): Number { if a.NaN? || b.NaN? then NaN else Real(a.value + b.value) }

  function SquaredDifference(a: Number, b: Number): Number {
    if a.NaN? || b.NaN? then NaN else Real((a.value - b.value) * (a.value - b.value))
  }

  predicate Less(a: Number, b: Number) { a.Real? && b.Real? && a.value < b.value }

  datatype CallCountBucket = CallCountBucket(success: nat, failure: nat) {
    function Calls(): nat { success + failure }

    ghost predicate Tallies(outcomes: seq<bool>) {
      success == Outcomes(outcomes, true) && failure == Outcomes(outcomes, false)
    }

    function SuccessRate(): Number { Quotient(success as real, Calls()) }

    function FailurePercentage(): Number { Quotient((failure * 100) as real, Calls()) }
  }

  /** The success rates of the entries with enough calls, among the first `n`. */
  function Rates(b: seq<CallCountBucket>, volume: nat, n: nat): seq<Number>
    requires n <= |b|
  {
    if n == 0 then []
    else if b[n - 1].Calls() >= volume then Rates(b, volume, n - 1) + [b[n - 1].SuccessRate()]
    else Rates(b, volume, n - 1)
  }

  lemma {:induction false} RatesCover(b: seq<CallCountBucket>, volume: nat, n: nat, rate: Number) returns (i: nat)
    requires n <= |b| && rate in Rates(b, volume, n)
    ensures i < n && b[i].Calls() >= volume && b[i].SuccessRate() == rate
  {
    i := n - 1;
    if b[i].Calls() < volume || b[i].SuccessRate() != rate { i := RatesCover(b, volume, n - 1, rate); }
  }

  function Sum(s: seq<Number>, n: nat): Number
    requires n <= |s|
  {
    if n == 0 then Real(0.0) else Plus(Sum(s, n - 1), s[n - 1])
  }

  function SquaredDeviations(s: seq<Number>, mean: Number, n: nat): Number
    requires n <= |s|
  {
    if n == 0 then Real(0.0) else Plus(SquaredDeviations(s, mean, n - 1), SquaredDifference(s[n - 1], mean))
  }

  function Mean(s: seq<Number>): Number {
    var sum := Sum(s, |s|);
    if sum.NaN? then NaN else Quotient(sum.value, |s|)
  }

  function Threshold(mean: Number, deviations: Number, n: nat, sqrt: real -> real, stdevFactor: real): Number
    requires n > 0
  {
    if mean.NaN? || deviations.NaN? then NaN
    else Real(mean.value - sqrt(deviations.value / n as real) * (stdevFactor / 1000.0))
  }

  function EjectionThreshold(s: seq<Number>, sqrt: real -> real, stdevFactor: real): Number
    requires s != []
  {
    Threshold(Mean(s), SquaredDeviations(s, Mean(s), |s|), |s|, sqrt, stdevFactor)
  }

  lemma {:induction false} SumIsNaN(s: seq<Number>, n: nat)
    requires n <= |s|
    ensures Sum(s, n).NaN? <==> exists i :: 0 <= i < n && s[i].NaN?
  {
    if n > 0 { SumIsNaN(s, n - 1); }
  }

  lemma {:induction false} SumBelow(s: seq<Number>, bound: real, n: nat)
    requires n <= |s| && forall i | 0 <= i < n :: Less(s[i], Real(bound))
    ensures Sum(s, n).Real?
    ensures Sum(s, n).value <= bound * n as real && (n > 0 ==> Sum(s, n).value < bound * n as real)
  {
    if n > 0 {
      SumBelow(s, bound, n - 1);
      assert bound * n as real == bound * (n - 1) as real + bound;
    }
  }

  /** Some rate is not below the mean. */
  lemma SomeAtLeastMean(s: seq<Number>) returns (i: nat)
    requires s != []
    ensures i < |s| && !Less(s[i], Mean(s))
  {
    if forall i | 0 <= i < |s| :: Less(s[i], Mean(s)) {
      assert Less(s[0], Mean(s));
      SumBelow(s, Mean(s).value, |s|);
      MeanTimesCount(Sum(s, |s|).value, |s|);
      assert false;
    }
    i :| 0 <= i < |s| && !Less(s[i], Mean(s));
  }

  lemma MeanTimesCount(sum: real, n: nat)
    requires n > 0
    ensures Quotient(sum, n).value * n as real == sum
  {
  }

  lemma ThresholdBelowMean(s: seq<Number>, sqrt: real -> real, stdevFactor: real)
    requires s != [] && stdevFactor >= 0.0 && forall x :: sqrt(x) >= 0.0
    ensures forall rate :: !Less(rate, Mean(s)) ==> !Less(rate, EjectionThreshold(s, sqrt, stdevFactor))
  {
    var deviations := SquaredDeviations(s, Mean(s), |s|);
    if Mean(s).Real? && deviations.Real? {
      RootTimesFactor(sqrt(deviations.value / |s| as real), stdevFactor / 1000.0);
    }
  }

  lemma RootTimesFactor(root: real, factor: real)
    requires root >= 0.0 && factor >= 0.0
    ensures root * factor >= 0.0
  {
  }

  datatype SuccessRateEjectionConfig = SuccessRateEjectionConfig(
    stdevFactor: real, enforcementPercentage: real, minimumHosts: int, requestVolume: nat)

  datatype FailurePercentageEjectionConfig = FailurePercentageEjectionConfig(
    threshold: real, enforcementPercentage: real, minimumHosts: int, requestVolume: nat)

  datatype OutlierDetectionLoadBalancingConfig = OutlierDetectionLoadBalancingConfig(
    baseEjectionTimeMs: nat, maxEjectionTimeMs: nat, maxEjectionPercent: real,
    successRateEjection: Option<SuccessRateEjectionConfig>,
    failurePercentageEjection: Option<FailurePercentageEjectionConfig>)
  {
    /** How long an ejection lasts. */
    function EjectionTime(multiplier: nat): int {
      Min(baseEjectionTimeMs * multiplier,
          if baseEjectionTimeMs >= maxEjectionTimeMs then baseEjectionTimeMs else maxEjectionTimeMs)
    }

    predicate CountingEnabled() { successRateEjection.Some? || failurePercentageEjection.Some? }
  }

  /** Is this entry for the success rate pass to eject, if it draws `draw`? */
  predicate SuccessRateOutlier(b: CallCountBucket, c: SuccessRateEjectionConfig, threshold: Number, draw: real)
  {
    b.Calls() >= c.requestVolume && Less(b.SuccessRate(), threshold) && draw * 100.0 < c.enforcementPercentage
  }

  function SuccessRateOutliers(b: seq<CallCountBucket>, c: SuccessRateEjectionConfig, threshold: Number,
                               readings: seq<Reading>): (o: seq<bool>)
    requires |readings| == |b|
    ensures |o| == |b|
  {
    seq(|b|, i requires 0 <= i < |b| => SuccessRateOutlier(b[i], c, threshold, readings[i].draw))
  }

  predicate FailurePercentageOutlier(b: CallCountBucket, c: FailurePercentageEjectionConfig, draw: real)
  {
    && b.Calls() >= c.requestVolume && Less(Real(c.threshold), b.FailurePercentage())
    && draw * 100.0 < c.enforcementPercentage
  }

  function FailurePercentageOutliers(b: seq<CallCountBucket>, c: FailurePercentageEjectionConfig,
                                     readings: seq<Reading>): (o: seq<bool>)
    requires |readings| == |b|
    ensures |o| == |b|
  {
    seq(|b|, i requires 0 <= i < |b| => FailurePercentageOutlier(b[i], c, readings[i].draw))
  }

  /** How many of the first `n` entries have enough calls. */
  function Candidates(b: seq<CallCountBucket>, volume: nat, n: nat): nat
    requires n <= |b|
  {
    if n == 0 then 0 else Candidates(b, volume, n - 1) + if b[n - 1].Calls() >= volume then 1 else 0
  }

  /** The success rate check; it throws when there are no candidates and yet as
      many as the configuration asks for. */
  function SuccessRateChecked(v: seq<Ejection>, b: seq<CallCountBucket>, config: OutlierDetectionLoadBalancingConfig,
                              sqrt: real -> real, readings: seq<Reading>): (r: Option<seq<Ejection>>)
    requires |v| == |b| == |readings|
    ensures r.Some? ==> |r.value| == |v|
  {
    if config.successRateEjection.None? then Some(v)
    else
      var c := config.successRateEjection.value;
      var rates := Rates(b, c.requestVolume, |b|);
      if |rates| < c.minimumHosts then Some(v)
      else if rates == [] then None
      else Some(After(v, SuccessRateOutliers(b, c, EjectionThreshold(rates, sqrt, c.stdevFactor), readings),
                      config.maxEjectionPercent, readings, |v|))
  }

  function FailurePercentageChecked(v: seq<Ejection>, b: seq<CallCountBucket>,
                                    config: OutlierDetectionLoadBalancingConfig,
                                    readings: seq<Reading>): (r: seq<Ejection>)
    requires |v| == |b| == |readings|
    ensures |r| == |v|
  {
    if config.failurePercentageEjection.None? then v
    else
      var c := config.failurePercentageEjection.value;
      if Candidates(b, c.requestVolume, |b|) < c.minimumHosts then v
      else After(v, FailurePercentageOutliers(b, c, readings), config.maxEjectionPercent, readings, |v|)
  }

  /** The last step of the checks, for one entry: count down the multiplier, or end
      an ejection whose time is over. */
  function Settle(e: Ejection, config: OutlierDetectionLoadBalancingConfig, now: int): Ejection {
    if e.timestamp.None? then e.(multiplier := if e.multiplier > 0 then e.multiplier - 1 else 0)
    else if e.timestamp.value + config.EjectionTime(e.multiplier) < now then e.(timestamp := None)
    else e
  }

  function Settled(v: seq<Ejection>, config: OutlierDetectionLoadBalancingConfig,
                   settleTimes: seq<int>): (r: seq<Ejection>)
    requires |settleTimes| == |v|
    ensures |r| == |v|
  {
    seq(|v|, i requires 0 <= i < |v| => Settle(v[i], config, settleTimes[i]))
  }

  /** One whole run of the checks; nothing when it throws. */
  function Checked(v: seq<Ejection>, b: seq<CallCountBucket>, config: OutlierDetectionLoadBalancingConfig,
                   sqrt: real -> real, readings: seq<Reading>, moreReadings: seq<Reading>,
                   settleTimes: seq<int>): (r: Option<seq<Ejection>>)
    requires |v| == |b| == |readings| == |moreReadings| == |settleTimes|
    ensures r.Some? ==> |r.value| == |v|
  {
    var between := SuccessRateChecked(v, b, config, sqrt, readings);
    if between.None? then None
    else Some(Settled(FailurePercentageChecked(between.value, b, config, moreReadings), config, settleTimes))
  }

  /** The success rate check took the entries from `v` to `after`, or threw. */
  ghost predicate IsSuccessRateChecked(v: seq<Ejection>, b: seq<CallCountBucket>,
                                       config: OutlierDetectionLoadBalancingConfig, sqrt: real -> real,
                                       readings: seq<Reading>, ok: bool, after: seq<Ejection>)
    requires |v| == |b| == |readings|
  {
    var r := SuccessRateChecked(v, b, config, sqrt, readings);
    ok == r.Some? && after == if ok then r.value else v
  }

  /** A run of the checks is its steps, one after the other. */
  lemma CheckedInSteps(v: seq<Ejection>, b: seq<CallCountBucket>, config: OutlierDetectionLoadBalancingConfig,
                       sqrt: real -> real, readings: seq<Reading>, moreReadings: seq<Reading>, settleTimes: seq<int>,
                       ok: bool, between: seq<Ejection>, after: seq<Ejection>)
    requires |v| == |b| == |readings| == |moreReadings| == |settleTimes| == |between|
    requires IsSuccessRateChecked(v, b, config, sqrt, readings, ok, between)
    requires after ==
               if ok then Settled(FailurePercentageChecked(between, b, config, moreReadings), config, settleTimes)
               else between
    ensures IsChecked(v, b, config, sqrt, readings, moreReadings, settleTimes, ok, after)
  {
  }

  /** A run of the checks took the entries from `v` to `after`, or threw. */
  ghost predicate IsChecked(v: seq<Ejection>, b: seq<CallCountBucket>, config: OutlierDetectionLoadBalancingConfig,
                            sqrt: real -> real, readings: seq<Reading>, moreReadings: seq<Reading>,
                            settleTimes: seq<int>, ok: bool, after: seq<Ejection>)
    requires |v| == |b| == |readings| == |moreReadings| == |settleTimes|
  {
    var r := Checked(v, b, config, sqrt, readings, moreReadings, settleTimes);
    ok == r.Some? && after == if ok then r.value else v
  }

  lemma {:induction false} SettlingEjectsNone(v: seq<Ejection>, config: OutlierDetectionLoadBalancingConfig,
                                              settleTimes: seq<int>, n: nat)
    requires n <= |v| == |settleTimes|
    ensures Count(Settled(v, config, settleTimes), n) <= Count(v, n)
  {
    if n > 0 { SettlingEjectsNone(v, config, settleTimes, n - 1); }
  }

  /** Over a whole run, the number of ejected entries does not grow, or all but one
      of them are within the limit. */
  lemma RunWithinLimit(v: seq<Ejection>, b: seq<CallCountBucket>, config: OutlierDetectionLoadBalancingConfig,
                       sqrt: real -> real, readings: seq<Reading>, moreReadings: seq<Reading>, settleTimes: seq<int>)
    requires |v| == |b| == |readings| == |moreReadings| == |settleTimes|
    ensures var r := Checked(v, b, config, sqrt, readings, moreReadings, settleTimes);
            r.Some? && Ejected(r.value) > Ejected(v) ==>
              ((Ejected(r.value) - 1) * 100) as real < config.maxEjectionPercent * |v| as real
  {
    var between := SuccessRateChecked(v, b, config, sqrt, readings);
    if between.Some? {
      var checked := FailurePercentageChecked(between.value, b, config, moreReadings);
      ChecksWithinLimit(v, b, config, sqrt, readings, moreReadings, settleTimes);
      SettlingEjectsNone(checked, config, settleTimes, |v|);
      Scaled(Ejected(Settled(checked, config, settleTimes)), Ejected(checked));
    }
  }

  lemma Scaled(a: nat, b: nat)
    requires a <= b
    ensures ((a - 1) * 100) as real <= ((b - 1) * 100) as real
  {
  }

  /** After the two checks, either no more entries are ejected than before, or all
      but one of them are within the limit. */
  lemma ChecksWithinLimit(v: seq<Ejection>, b: seq<CallCountBucket>, config: OutlierDetectionLoadBalancingConfig,
                          sqrt: real -> real, readings: seq<Reading>, moreReadings: seq<Reading>, settleTimes: seq<int>)
    requires |v| == |b| == |readings| == |moreReadings| == |settleTimes|
    ensures var between := SuccessRateChecked(v, b, config, sqrt, readings);
            between.Some? ==>
              WithinLimit(Ejected(v), Ejected(FailurePercentageChecked(between.value, b, config, moreReadings)),
                          config.maxEjectionPercent, |v|)
  {
    SuccessRateWithinLimit(v, b, config, sqrt, readings);
    var between := SuccessRateChecked(v, b, config, sqrt, readings);
    if between.Some? {
      FailurePercentageWithinLimit(between.value, b, config, moreReadings);
    }
  }

  lemma SuccessRateWithinLimit(v: seq<Ejection>, b: seq<CallCountBucket>, config: OutlierDetectionLoadBalancingConfig,
                               sqrt: real -> real, readings: seq<Reading>)
    requires |v| == |b| == |readings|
    ensures var r := SuccessRateChecked(v, b, config, sqrt, readings);
            r.Some? ==> WithinLimit(Ejected(v), Ejected(r.value), config.maxEjectionPercent, |v|)
  {
    if config.successRateEjection.Some? {
      var c := config.successRateEjection.value;
      var rates := Rates(b, c.requestVolume, |b|);
      if rates != [] {
        PassWithinLimit(v, SuccessRateOutliers(b, c, EjectionThreshold(rates, sqrt, c.stdevFactor), readings),
                        config.maxEjectionPercent, readings, |v|);
      }
    }
  }

  lemma FailurePercentageWithinLimit(v: seq<Ejection>, b: seq<CallCountBucket>,
                                     config: OutlierDetectionLoadBalancingConfig,
                                     readings: seq<Reading>)
    requires |v| == |b| == |readings|
    ensures WithinLimit(Ejected(v), Ejected(FailurePercentageChecked(v, b, config, readings)),
                        config.maxEjectionPercent, |v|)
  {
    if config.failurePercentageEjection.Some? {
      PassWithinLimit(v, FailurePercentageOutliers(b, config.failurePercentageEjection.value, readings),
                      config.maxEjectionPercent, readings, |v|);
    }
  }

  /** An entry that the checks of a run ejected is still ejected at the end of the
      run exactly if the clock, as it is read to settle the entry, has not passed
      the end of the ejection. With a base ejection time of zero one tick is enough. */
  lemma EjectionOutlastsRun(v: seq<Ejection>, b: seq<CallCountBucket>, config: OutlierDetectionLoadBalancingConfig,
                            sqrt: real -> real, readings: seq<Reading>, moreReadings: seq<Reading>,
                            settleTimes: seq<int>,
                            i: nat, e: Ejection, ejectedAt: int)
    requires |v| == |b| == |readings| == |moreReadings| == |settleTimes| && i < |v|
    requires var between := SuccessRateChecked(v, b, config, sqrt, readings);
             between.Some? && FailurePercentageChecked(between.value, b, config, moreReadings)[i] == Eject(e, ejectedAt)
    ensures var r := Checked(v, b, config, sqrt, readings, moreReadings, settleTimes);
            && r.Some?
            && (r.value[i].timestamp.Some? <==> settleTimes[i] <= ejectedAt + config.EjectionTime(e.multiplier + 1))
            && (r.value[i].timestamp.Some? ==> r.value[i] == Eject(e, ejectedAt))
  {
  }

  /** Entry `i` is judged, succeeds at least as often as the mean, and is not touched by the check. */
  ghost predicate Spared(v: seq<Ejection>, after: seq<Ejection>, b: seq<CallCountBucket>, volume: nat, i: nat)
    requires |v| == |after| == |b| && Rates(b, volume, |b|) != []
  {
    i < |b| && b[i].Calls() >= volume && !Less(b[i].SuccessRate(), Mean(Rates(b, volume, |b|))) && after[i] == v[i]
  }

  /** The success rate check never ejects everyone it judges: some candidate with
      at least the mean success rate is left as it was, whatever is drawn. */
  lemma {:induction false} SomeCandidateIsSpared(v: seq<Ejection>, b: seq<CallCountBucket>,
                                                 config: OutlierDetectionLoadBalancingConfig, sqrt: real -> real,
                                                 readings: seq<Reading>)
    requires |v| == |b| == |readings| && config.successRateEjection.Some?
    requires Rates(b, config.successRateEjection.value.requestVolume, |b|) != []
    requires config.successRateEjection.value.stdevFactor >= 0.0 && forall x :: sqrt(x) >= 0.0
    ensures var after := SuccessRateChecked(v, b, config, sqrt, readings);
            after.Some? && exists i: nat ::
              Spared(v, after.value, b, config.successRateEjection.value.requestVolume, i)
  {
    var c := config.successRateEjection.value;
    var rates := Rates(b, c.requestVolume, |b|);
    var k := SomeAtLeastMean(rates);
    var i := RatesCover(b, c.requestVolume, |b|, rates[k]);
    ThresholdBelowMean(rates, sqrt, c.stdevFactor);
    PassEjectsOutliers(v, SuccessRateOutliers(b, c, EjectionThreshold(rates, sqrt, c.stdevFactor), readings),
                       config.maxEjectionPercent, readings, |v|, i);
    assert Spared(v, SuccessRateChecked(v, b, config, sqrt, readings).value, b, c.requestVolume, i);
  }

  /** Without a threshold nobody is ejected. */
  lemma {:induction false} NobodyBelowNaN(v: seq<Ejection>, b: seq<CallCountBucket>, c: SuccessRateEjectionConfig,
                                          maxEjectionPercent: real, readings: seq<Reading>)
    requires |v| == |b| == |readings|
    ensures After(v, SuccessRateOutliers(b, c, NaN, readings), maxEjectionPercent, readings, |v|) == v
  {
    var outliers := SuccessRateOutliers(b, c, NaN, readings);
    forall i | 0 <= i < |v| ensures After(v, outliers, maxEjectionPercent, readings, |v|)[i] == v[i] {
      PassEjectsOutliers(v, outliers, maxEjectionPercent, readings, |v|, i);
    }
  }

  lemma {:induction false} ThresholdIsNaN(b: seq<CallCountBucket>, volume: nat, sqrt: real -> real, stdevFactor: real,
                                          idle: nat)
    requires volume == 0 && idle < |b| && b[idle].Calls() == 0
    ensures var rates := Rates(b, volume, |b|); rates != [] && EjectionThreshold(rates, sqrt, stdevFactor) == NaN
  {
    var rates := Rates(b, volume, |b|);
    RatesHold(b, volume, |b|, idle);
    var k :| 0 <= k < |rates| && rates[k] == b[idle].SuccessRate();
    SumIsNaN(rates, |rates|);
  }

  /** With a request volume of zero an entry without calls is judged as well, and then
      the check ejects nobody: its rate is 0/0, and so is the threshold. */
  lemma {:induction false} IdleEntryDisarms(v: seq<Ejection>, b: seq<CallCountBucket>,
                                            config: OutlierDetectionLoadBalancingConfig, sqrt: real -> real,
                                            readings: seq<Reading>, idle: nat)
    requires |v| == |b| == |readings| && config.successRateEjection.Some?
    requires config.successRateEjection.value.requestVolume == 0 && idle < |b| && b[idle].Calls() == 0
    ensures SuccessRateChecked(v, b, config, sqrt, readings) == Some(v)
  {
    var c := config.successRateEjection.value;
    ThresholdIsNaN(b, c.requestVolume, sqrt, c.stdevFactor, idle);
    NobodyBelowNaN(v, b, c, config.maxEjectionPercent, readings);
  }

  lemma {:induction false} RatesHold(b: seq<CallCountBucket>, volume: nat, n: nat, i: nat)
    requires i < n <= |b| && b[i].Calls() >= volume
    ensures exists k :: 0 <= k < |Rates(b, volume, n)| && Rates(b, volume, n)[k] == b[i].SuccessRate()
  {
    if i < n - 1 {
      RatesHold(b, volume, n - 1, i);
      var k :| 0 <= k < |Rates(b, volume, n - 1)| && Rates(b, volume, n - 1)[k] == b[i].SuccessRate();
      assert Rates(b, volume, n)[k] == b[i].SuccessRate();
    } else {
      assert Rates(b, volume, n)[|Rates(b, volume, n)| - 1] == b[i].SuccessRate();
    }
  }
}

/**
 The outlier detection policy: its entries, their subchannel wrappers, and the
 periodic checks. Every entry has its own readings of the clock in a run.
 */
module OutlierDetection {
  import opened Common
  import opened EjectionPasses

  class OutlierDetectionSubchannelWrapper {
    var healthy: bool
    var refCount: int

    constructor ()
      ensures healthy && refCount == 0
    {
      healthy, refCount := true, 0;
    }

    method SetHealthy(healthy: bool)
      modifies this`healthy
      ensures this.healthy == healthy
    {
      this.healthy := healthy;
    }
  }

  class MapEntry {
    const endpoint: EndpointKey
    var activeBucket: CallCountBucket
    var inactiveBucket: CallCountBucket
    var currentEjectionTimestamp: Option<int>
    var ejectionTimeMultiplier: nat
    var subchannelWrappers: seq<OutlierDetectionSubchannelWrapper>
    /** The outcomes of the calls that ended since the last switch of buckets, and of
        those that ended in the interval before it. */
    ghost var ended: seq<bool>
    ghost var judged: seq<bool>

    /** The buckets count those calls, no more and no less. */
    ghost predicate CountsOk()
      reads this`activeBucket, this`inactiveBucket, this`ended, this`judged
    {
      activeBucket.Tallies(ended) && inactiveBucket.Tallies(judged)
    }

    constructor (endpoint: EndpointKey)
      ensures this.endpoint == endpoint && currentEjectionTimestamp == None && ejectionTimeMultiplier == 0
      ensures subchannelWrappers == [] && CountsOk() && ended == [] && judged == []
    {
      this.endpoint := endpoint;
      activeBucket, inactiveBucket := CallCountBucket(0, 0), CallCountBucket(0, 0);
      currentEjectionTimestamp, ejectionTimeMultiplier, subchannelWrappers := None, 0, [];
      ended, judged := [], [];
    }

    predicate IsEjected()
      reads this`currentEjectionTimestamp
    {
      currentEjectionTimestamp.Some?
    }

    /** Every listed wrapper is healthy exactly when the entry is not ejected. */
    ghost predicate HealthOk()
      reads this, subchannelWrappers
    {
      forall w | w in subchannelWrappers :: w.healthy <==> !IsEjected()
    }

    /** A call ends: it will be judged in the next run of the checks. */
    method CallEnded(ok: bool)
      requires CountsOk()
      modifies this`activeBucket, this`ended
      ensures CountsOk() && ended == old(ended) + [ok]
    {
      activeBucket := if ok then activeBucket.(success := activeBucket.success + 1)
                      else activeBucket.(failure := activeBucket.failure + 1);
      assert (ended + [ok])[..|ended|] == ended;
      ended := ended + [ok];
    }

    /** The calls that ended since the last switch are now the ones to be judged. */
    method SwitchBuckets()
      requires CountsOk()
      modifies this`activeBucket, this`inactiveBucket, this`ended, this`judged
      ensures CountsOk() && judged == old(ended) && ended == []
    {
      inactiveBucket := activeBucket;
      activeBucket := CallCountBucket(0, 0);
      judged, ended := ended, [];
    }

    /** An entry that is ejected already is ejected again: its time starts anew and
        its multiplier grows. */
    method Eject(now: int)
      modifies this`currentEjectionTimestamp, this`ejectionTimeMultiplier,
               (set w: OutlierDetectionSubchannelWrapper | w in subchannelWrappers)`healthy
      ensures HealthOk() && currentEjectionTimestamp == Some(now)
      ensures ejectionTimeMultiplier == old(ejectionTimeMultiplier) + 1
    {
      currentEjectionTimestamp := Some(now);
      ejectionTimeMultiplier := ejectionTimeMultiplier + 1;
      for i := 0 to |subchannelWrappers|
        invariant currentEjectionTimestamp == Some(now) && ejectionTimeMultiplier == old(ejectionTimeMultiplier) + 1
        invariant forall j | 0 <= j < i :: !subchannelWrappers[j].healthy
      {
        subchannelWrappers[i].SetHealthy(false);
      }
    }

    method Uneject()
      modifies this`currentEjectionTimestamp,
               (set w: OutlierDetectionSubchannelWrapper | w in subchannelWrappers)`healthy
      ensures HealthOk() && currentEjectionTimestamp == None
    {
      currentEjectionTimestamp := None;
      for i := 0 to |subchannelWrappers|
        invariant currentEjectionTimestamp == None
        invariant forall j | 0 <= j < i :: subchannelWrappers[j].healthy
      {
        subchannelWrappers[i].SetHealthy(true);
      }
    }
  }

  // ----- The entries as values -----

  function EntrySet(entries: seq<MapEntry>): set<MapEntry> { set e | e in entries }

  ghost function ViewTo(entries: seq<MapEntry>, n: nat): (v: seq<Ejection>)
    requires n <= |entries|
    reads EntrySet(entries)`currentEjectionTimestamp, EntrySet(entries)`ejectionTimeMultiplier
    ensures |v| == n
    ensures forall i | 0 <= i < n ::
              v[i] == Ejection(entries[i].currentEjectionTimestamp, entries[i].ejectionTimeMultiplier)
  {
    if n == 0 then []
    else ViewTo(entries, n - 1)
         + [Ejection(entries[n - 1].currentEjectionTimestamp, entries[n - 1].ejectionTimeMultiplier)]
  }

  ghost function BucketsTo(entries: seq<MapEntry>, n: nat): (b: seq<CallCountBucket>)
    requires n <= |entries|
    reads EntrySet(entries)`inactiveBucket
    ensures |b| == n
    ensures forall i | 0 <= i < n :: b[i] == entries[i].inactiveBucket
  {
    if n == 0 then [] else BucketsTo(entries, n - 1) + [entries[n - 1].inactiveBucket]
  }

  ghost function View(entries: seq<MapEntry>): (v: seq<Ejection>)
    reads EntrySet(entries)`currentEjectionTimestamp, EntrySet(entries)`ejectionTimeMultiplier
    ensures |v| == |entries|
    ensures forall i | 0 <= i < |entries| ::
              v[i] == Ejection(entries[i].currentEjectionTimestamp, entries[i].ejectionTimeMultiplier)
  {
    ViewTo(entries, |entries|)
  }

  ghost function Buckets(entries: seq<MapEntry>): (b: seq<CallCountBucket>)
    reads EntrySet(entries)`inactiveBucket
    ensures |b| == |entries| && forall i | 0 <= i < |entries| :: b[i] == entries[i].inactiveBucket
  {
    BucketsTo(entries, |entries|)
  }

  /** Entries are distinct objects and share no wrappers. */
  ghost predicate Apart(entries: seq<MapEntry>)
    reads EntrySet(entries)`subchannelWrappers
  {
    && (forall i, j | 0 <= i < j < |entries| :: entries[i] != entries[j])
    && (forall i, j, w: OutlierDetectionSubchannelWrapper | 0 <= i < |entries| && 0 <= j < |entries|
        && w in entries[i].subchannelWrappers && w in entries[j].subchannelWrappers :: i == j)
  }

  ghost function Wrappers(entries: seq<MapEntry>): set<OutlierDetectionSubchannelWrapper>
    reads EntrySet(entries)`subchannelWrappers
  {
    set e: MapEntry, w: OutlierDetectionSubchannelWrapper | e in entries && w in e.subchannelWrappers :: w
  }

  ghost predicate AllHealthOk(entries: seq<MapEntry>)
    reads EntrySet(entries)`subchannelWrappers, EntrySet(entries)`currentEjectionTimestamp, Wrappers(entries)`healthy
  {
    forall e: MapEntry, w: OutlierDetectionSubchannelWrapper | e in entries && w in e.subchannelWrappers ::
      w.healthy <==> !e.IsEjected()
  }

  method EjectedCount(entries: seq<MapEntry>) returns (ejectionCount: nat)
    ensures ejectionCount == Ejected(View(entries))
  {
    ejectionCount := 0;
    for i := 0 to |entries|
      invariant ejectionCount == Count(View(entries), i)
    {
      if entries[i].IsEjected() {
        ejectionCount := ejectionCount + 1;
      }
    }
  }

  /** One turn of a pass. */
  method EjectOne(entries: seq<MapEntry>, i: nat, e: MapEntry, now: int)
    requires i < |entries| && e == entries[i] && Apart(entries) && AllHealthOk(entries)
    modifies e`currentEjectionTimestamp, e`ejectionTimeMultiplier,
             (set w: OutlierDetectionSubchannelWrapper | w in e.subchannelWrappers)`healthy
    ensures AllHealthOk(entries)
    ensures View(entries) == old(View(entries))[i := EjectionPasses.Eject(old(View(entries))[i], now)]
  {
    e.Eject(now);
    forall o: MapEntry, w: OutlierDetectionSubchannelWrapper | o in entries && w in o.subchannelWrappers
      ensures w.healthy <==> !o.IsEjected()
    {
      if o != e { assert w !in e.subchannelWrappers; }
    }
  }

  // ----- The two passes -----

  /** Is it time to stop ejecting? Without entries the percentage is 0/0, which is
      not at any limit. */
  method AtLimit(entries: seq<MapEntry>, maxEjectionPercent: real) returns (atLimit: bool)
    ensures atLimit <==> entries != [] && !Room(View(entries), maxEjectionPercent)
  {
    if |entries| == 0 {
      return false;
    }
    var ejectionCount := EjectedCount(entries);
    QuotientBelow((ejectionCount * 100) as real, |entries| as real, maxEjectionPercent);
    return (ejectionCount * 100) as real / |entries| as real >= maxEjectionPercent;
  }

  method SuccessRatePass(entries: seq<MapEntry>, c: SuccessRateEjectionConfig, ejectionThreshold: Number,
                         maxEjectionPercent: real,
                         readings: seq<Reading>, ghost outlier: seq<bool>)
    requires Apart(entries) && AllHealthOk(entries) && |readings| == |entries| == |outlier|
    requires forall i | 0 <= i < |entries| :: outlier[i] ==
               SuccessRateOutlier(entries[i].inactiveBucket, c, ejectionThreshold, readings[i].draw)
    modifies EntrySet(entries)`currentEjectionTimestamp, EntrySet(entries)`ejectionTimeMultiplier,
             Wrappers(entries)`healthy
    ensures AllHealthOk(entries)
    ensures View(entries) == After(old(View(entries)), outlier, maxEjectionPercent, readings, |entries|)
  {
    ghost var v := View(entries);
    for i := 0 to |entries|
      invariant AllHealthOk(entries)
      invariant View(entries) == After(v, outlier, maxEjectionPercent, readings, i)
    {
      assert outlier[i] == SuccessRateOutlier(entries[i].inactiveBucket, c, ejectionThreshold, readings[i].draw);
      var atLimit := AtLimit(entries, maxEjectionPercent);
      if atLimit {
        FullStaysFull(v, outlier, maxEjectionPercent, readings, i, |v|);
        break;
      }
      if entries[i].inactiveBucket.Calls() < c.requestVolume {
        continue;
      }
      var successRate := entries[i].inactiveBucket.SuccessRate();
      if Less(successRate, ejectionThreshold) {
        var randomNumber := readings[i].draw * 100.0;
        if randomNumber < c.enforcementPercentage {
          EjectOne(entries, i, entries[i], readings[i].now);
        }
      }
    }
  }

  method FailurePercentagePass(entries: seq<MapEntry>, c: FailurePercentageEjectionConfig, maxEjectionPercent: real,
                               readings: seq<Reading>, ghost outlier: seq<bool>)
    requires Apart(entries) && AllHealthOk(entries) && |readings| == |entries| == |outlier|
    requires forall i | 0 <= i < |entries| :: outlier[i] ==
               FailurePercentageOutlier(entries[i].inactiveBucket, c, readings[i].draw)
    modifies EntrySet(entries)`currentEjectionTimestamp, EntrySet(entries)`ejectionTimeMultiplier,
             Wrappers(entries)`healthy
    ensures AllHealthOk(entries)
    ensures View(entries) == After(old(View(entries)), outlier, maxEjectionPercent, readings, |entries|)
  {
    ghost var v := View(entries);
    for i := 0 to |entries|
      invariant AllHealthOk(entries)
      invariant View(entries) == After(v, outlier, maxEjectionPercent, readings, i)
    {
      assert outlier[i] == FailurePercentageOutlier(entries[i].inactiveBucket, c, readings[i].draw);
      var atLimit := AtLimit(entries, maxEjectionPercent);
      if atLimit {
        FullStaysFull(v, outlier, maxEjectionPercent, readings, i, |v|);
        break;
      }
      if entries[i].inactiveBucket.Calls() < c.requestVolume {
        continue;
      }
      var failurePercentage := entries[i].inactiveBucket.FailurePercentage();
      if Less(Real(c.threshold), failurePercentage) {
        var randomNumber := readings[i].draw * 100.0;
        if randomNumber < c.enforcementPercentage {
          EjectOne(entries, i, entries[i], readings[i].now);
        }
      }
    }
  }

  // ----- The policy -----

  class OutlierDetectionLoadBalancer {
    const sqrt: real -> real
    var entryMap: seq<MapEntry>
    var latestConfig: Option<OutlierDetectionLoadBalancingConfig>
    var timerStartTime: Option<int>

    ghost predicate Valid()
      reads this, entryMap, Wrappers(entryMap)
    {
      && (forall x :: sqrt(x) >= 0.0)
      && (timerStartTime.Some? ==> latestConfig.Some?)
      && Apart(entryMap) && AllHealthOk(entryMap)
      && (forall i, j | 0 <= i < j < |entryMap| :: entryMap[i].endpoint != entryMap[j].endpoint)
    }

    /** Every entry's buckets count its calls. */
    ghost predicate CountsOk()
      reads this`entryMap, EntrySet(entryMap)`activeBucket, EntrySet(entryMap)`inactiveBucket,
            EntrySet(entryMap)`ended, EntrySet(entryMap)`judged
    {
      forall e | e in entryMap :: e.CountsOk()
    }

    constructor (sqrt: real -> real)
      requires forall x :: sqrt(x) >= 0.0
      ensures Valid() && CountsOk() && entryMap == [] && latestConfig == None && timerStartTime == None
    {
      this.sqrt := sqrt;
      entryMap, latestConfig, timerStartTime := [], None, None;
    }

    /** The success rates of the entries with enough calls. */
    method CollectRates(volume: nat) returns (successRates: seq<Number>)
      ensures successRates == Rates(Buckets(entryMap), volume, |entryMap|)
    {
      successRates := [];
      for i := 0 to |entryMap|
        invariant successRates == Rates(Buckets(entryMap), volume, i)
      {
        if entryMap[i].inactiveBucket.Calls() >= volume {
          successRates := successRates + [entryMap[i].inactiveBucket.SuccessRate()];
        }
      }
    }

    method RateThreshold(successRates: seq<Number>, stdevFactor: real) returns (ejectionThreshold: Number)
      requires successRates != []
      ensures ejectionThreshold == EjectionThreshold(successRates, sqrt, stdevFactor)
    {
      var sum := successRates[0];
      for i := 1 to |successRates|
        invariant sum == Sum(successRates, i)
      {
        sum := Plus(sum, successRates[i]);
      }
      var successRateMean := if sum.NaN? then NaN else Quotient(sum.value, |successRates|);
      var successRateDeviationSum := Real(0.0);
      for i := 0 to |successRates|
        invariant successRateDeviationSum == SquaredDeviations(successRates, successRateMean, i)
      {
        var deviation := SquaredDifference(successRates[i], successRateMean);
        successRateDeviationSum := Plus(successRateDeviationSum, deviation);
      }
      return Threshold(successRateMean, successRateDeviationSum, |successRates|, sqrt, stdevFactor);
    }

    /** Steps 1 and 2 of the check: no threshold if it ends there, with `ok` false
        if it throws. */
    method SuccessRateThreshold(c: SuccessRateEjectionConfig) returns (ok: bool, ejectionThreshold: Option<Number>)
      requires Valid()
      ensures var rates := Rates(Buckets(entryMap), c.requestVolume, |entryMap|);
              if |rates| < c.minimumHosts then ok && ejectionThreshold.None?
              else if rates == [] then !ok && ejectionThreshold.None?
              else ok && ejectionThreshold == Some(EjectionThreshold(rates, sqrt, c.stdevFactor))
    {
      var successRates := CollectRates(c.requestVolume);
      if |successRates| < c.minimumHosts {
        return true, None;
      }
      if successRates == [] {
        return false, None;
      }
      ghost var b := Buckets(entryMap);
      var threshold := RateThreshold(successRates, c.stdevFactor);
      assert Buckets(entryMap) == b;
      return true, Some(threshold);
    }

    /** Returns false when it throws. */
    method RunSuccessRateCheck(readings: seq<Reading>) returns (ok: bool)
      requires Valid() && latestConfig.Some? && |readings| == |entryMap|
      modifies EntrySet(entryMap)`currentEjectionTimestamp, EntrySet(entryMap)`ejectionTimeMultiplier,
               Wrappers(entryMap)`healthy
      ensures Valid()
      ensures IsSuccessRateChecked(old(View(entryMap)), Buckets(entryMap), latestConfig.value, sqrt, readings, ok,
                                   View(entryMap))
    {
      var config := latestConfig.value;
      if config.successRateEjection.None? {
        return true;
      }
      var c := config.successRateEjection.value;
      var threshold;
      ok, threshold := SuccessRateThreshold(c);
      if threshold.Some? {
        ghost var outlier := SuccessRateOutliers(Buckets(entryMap), c, threshold.value, readings);
        SuccessRatePass(entryMap, c, threshold.value, config.maxEjectionPercent, readings, outlier);
      }
    }

    method RunFailurePercentageCheck(readings: seq<Reading>)
      requires Valid() && latestConfig.Some? && |readings| == |entryMap|
      modifies EntrySet(entryMap)`currentEjectionTimestamp, EntrySet(entryMap)`ejectionTimeMultiplier,
               Wrappers(entryMap)`healthy
      ensures Valid()
      ensures View(entryMap)
              == FailurePercentageChecked(old(View(entryMap)), Buckets(entryMap), latestConfig.value, readings)
    {
      if latestConfig.value.failurePercentageEjection.None? {
        return;
      }
      var c := latestConfig.value.failurePercentageEjection.value;
      var addressesWithTargetVolume := 0;
      for i := 0 to |entryMap|
        invariant addressesWithTargetVolume == Candidates(Buckets(entryMap), c.requestVolume, i)
      {
        if entryMap[i].inactiveBucket.Calls() >= c.requestVolume {
          addressesWithTargetVolume := addressesWithTargetVolume + 1;
        }
      }
      if addressesWithTargetVolume < c.minimumHosts {
        return;
      }
      FailurePercentagePass(entryMap, c, latestConfig.value.maxEjectionPercent, readings,
                            FailurePercentageOutliers(Buckets(entryMap), c, readings));
    }

    /** The periodic run: new buckets, the two checks, and then each entry settled.
        Returns false when a check throws, which ends the run there. The timer is
        never set before there is a configuration. */
    method RunChecks(now: int, readings: seq<Reading>, moreReadings: seq<Reading>, settleTimes: seq<int>)
      returns (ok: bool)
      requires Valid() && CountsOk() && timerStartTime.Some?
      requires |readings| == |entryMap| == |moreReadings| == |settleTimes|
      modifies this`timerStartTime, EntrySet(entryMap)`activeBucket, EntrySet(entryMap)`inactiveBucket
      modifies EntrySet(entryMap)`ended, EntrySet(entryMap)`judged
      modifies EntrySet(entryMap)`currentEjectionTimestamp, EntrySet(entryMap)`ejectionTimeMultiplier,
               Wrappers(entryMap)`healthy
      ensures Valid() && CountsOk() && timerStartTime == Some(now)
      ensures forall e | e in entryMap :: e.judged == old(e.ended) && e.ended == []
      ensures IsChecked(old(View(entryMap)), Buckets(entryMap), latestConfig.value, sqrt, readings, moreReadings,
                        settleTimes, ok, View(entryMap))
    {
      ghost var v := View(entryMap);
      SwitchAllBuckets();
      timerStartTime := Some(now);
      ok := CheckAndSettle(v, readings, moreReadings, settleTimes);
    }

    method CheckAndSettle(ghost v: seq<Ejection>, readings: seq<Reading>, moreReadings: seq<Reading>,
                          settleTimes: seq<int>)
      returns (ok: bool)
      requires v == View(entryMap)
      requires Valid() && latestConfig.Some? && |readings| == |entryMap| == |moreReadings| == |settleTimes|
      modifies EntrySet(entryMap)`currentEjectionTimestamp, EntrySet(entryMap)`ejectionTimeMultiplier,
               Wrappers(entryMap)`healthy
      ensures Valid() && CallsKept()
      ensures IsChecked(v, Buckets(entryMap), latestConfig.value, sqrt, readings, moreReadings, settleTimes, ok,
                        View(entryMap))
    {
      ok := RunSuccessRateCheck(readings);
      ghost var between := View(entryMap);
      if ok {
        FinishRun(moreReadings, settleTimes);
      }
      CheckedInSteps(v, Buckets(entryMap), latestConfig.value, sqrt, readings, moreReadings, settleTimes, ok, between,
                     View(entryMap));
    }

    method FinishRun(moreReadings: seq<Reading>, settleTimes: seq<int>)
      requires Valid() && latestConfig.Some? && |entryMap| == |moreReadings| == |settleTimes|
      modifies EntrySet(entryMap)`currentEjectionTimestamp, EntrySet(entryMap)`ejectionTimeMultiplier,
               Wrappers(entryMap)`healthy
      ensures Valid() && CallsKept()
      ensures View(entryMap) ==
                Settled(FailurePercentageChecked(old(View(entryMap)), Buckets(entryMap), latestConfig.value,
                                                 moreReadings),
                        latestConfig.value, settleTimes)
    {
      RunFailurePercentageCheck(moreReadings);
      assert CallsKept();
      SettleAll(entryMap, latestConfig.value, settleTimes);
      assert CallsKept();
    }

    /** What is known of calls stays as it was. */
    twostate predicate CallsKept()
      reads this, entryMap
    {
      entryMap == old(entryMap) &&
      forall e | e in old(entryMap) ::
        && e.inactiveBucket == old(e.inactiveBucket) && e.activeBucket == old(e.activeBucket)
        && e.ended == old(e.ended) && e.judged == old(e.judged)
    }

    method SwitchAllBuckets()
      requires Valid() && CountsOk()
      modifies EntrySet(entryMap)`activeBucket, EntrySet(entryMap)`inactiveBucket
      modifies EntrySet(entryMap)`ended, EntrySet(entryMap)`judged
      ensures Valid() && CountsOk() && View(entryMap) == old(View(entryMap))
      ensures forall e | e in entryMap :: e.judged == old(e.ended) && e.ended == []
    {
      for i := 0 to |entryMap|
        invariant forall j | 0 <= j < |entryMap| :: entryMap[j].CountsOk() &&
                    if j < i then entryMap[j].judged == old(entryMap[j].ended) && entryMap[j].ended == []
                    else entryMap[j].ended == old(entryMap[j].ended)
      {
        assert forall j | 0 <= j < |entryMap| :: entryMap[j] in entryMap;
        entryMap[i].SwitchBuckets();
      }
    }

    /** Takes the new endpoints: an entry each, those already known as they were.
        Without counting, all ejections end. */
    method UpdateAddressList(endpointList: seq<EndpointKey>, lbConfig: OutlierDetectionLoadBalancingConfig, now: int)
      requires Valid() && CountsOk()
      modifies this, EntrySet(entryMap), Wrappers(entryMap)
      ensures Valid() && CountsOk() && latestConfig == Some(lbConfig)
      ensures forall k :: k in endpointList <==> exists e | e in entryMap :: e.endpoint == k
      ensures forall e | e in old(entryMap) && e.endpoint in endpointList :: e in entryMap
      ensures forall e | e in entryMap && e !in old(entryMap) ::
                fresh(e) && !e.IsEjected() && e.subchannelWrappers == []
      ensures forall e | e in entryMap && e in old(entryMap) :: e.subchannelWrappers == old(e.subchannelWrappers)
      ensures lbConfig.CountingEnabled() ==>
                && timerStartTime == (if old(timerStartTime).Some? then old(timerStartTime) else Some(now))
                && forall e | e in entryMap && e in old(entryMap) ::
                     && e.currentEjectionTimestamp == old(e.currentEjectionTimestamp)
                     && e.ejectionTimeMultiplier == old(e.ejectionTimeMultiplier)
      ensures !lbConfig.CountingEnabled() ==>
                timerStartTime == None && forall e | e in entryMap :: !e.IsEjected() && e.ejectionTimeMultiplier == 0
    {
      TakeEndpoints(endpointList);
      SetCounting(lbConfig, now);
    }

    /** Starts the timer if it is to run and does not, or ends it and all ejections. */
    method SetCounting(lbConfig: OutlierDetectionLoadBalancingConfig, now: int)
      requires Valid() && CountsOk()
      modifies this`timerStartTime, this`latestConfig, EntrySet(entryMap)`activeBucket,
               EntrySet(entryMap)`inactiveBucket
      modifies EntrySet(entryMap)`ended, EntrySet(entryMap)`judged
      modifies EntrySet(entryMap)`currentEjectionTimestamp, EntrySet(entryMap)`ejectionTimeMultiplier,
               Wrappers(entryMap)`healthy
      ensures Valid() && CountsOk() && latestConfig == Some(lbConfig)
      ensures lbConfig.CountingEnabled() ==>
                && timerStartTime == (if old(timerStartTime).Some? then old(timerStartTime) else Some(now))
                && forall e | e in entryMap ::
                     && e.currentEjectionTimestamp == old(e.currentEjectionTimestamp)
                     && e.ejectionTimeMultiplier == old(e.ejectionTimeMultiplier)
      ensures !lbConfig.CountingEnabled() ==>
                timerStartTime == None && forall e | e in entryMap :: !e.IsEjected() && e.ejectionTimeMultiplier == 0
    {
      if lbConfig.CountingEnabled() {
        StartCounting(lbConfig, now);
      } else {
        StopCounting(lbConfig);
      }
    }

    method StartCounting(lbConfig: OutlierDetectionLoadBalancingConfig, now: int)
      requires Valid() && CountsOk()
      modifies this`timerStartTime, this`latestConfig, EntrySet(entryMap)`activeBucket,
               EntrySet(entryMap)`inactiveBucket
      modifies EntrySet(entryMap)`ended, EntrySet(entryMap)`judged
      ensures Valid() && CountsOk() && latestConfig == Some(lbConfig)
      ensures timerStartTime == if old(timerStartTime).Some? then old(timerStartTime) else Some(now)
    {
      latestConfig := Some(lbConfig);
      if timerStartTime.None? {
        SwitchAllBuckets();
        timerStartTime := Some(now);
      }
    }

    method StopCounting(lbConfig: OutlierDetectionLoadBalancingConfig)
      requires Valid() && CountsOk()
      modifies this`timerStartTime, this`latestConfig
      modifies EntrySet(entryMap)`currentEjectionTimestamp, EntrySet(entryMap)`ejectionTimeMultiplier,
               Wrappers(entryMap)`healthy
      ensures Valid() && CountsOk() && latestConfig == Some(lbConfig) && timerStartTime == None
      ensures forall e | e in entryMap :: !e.IsEjected() && e.ejectionTimeMultiplier == 0
    {
      latestConfig, timerStartTime := Some(lbConfig), None;
      UnejectAll(entryMap);
    }

    method TakeEndpoints(endpointList: seq<EndpointKey>)
      requires Valid() && CountsOk()
      modifies this`entryMap
      ensures Valid() && CountsOk()
      ensures forall k :: k in endpointList <==> exists e | e in entryMap :: e.endpoint == k
      ensures forall e | e in old(entryMap) && e.endpoint in endpointList :: e in entryMap
      ensures forall e | e in entryMap && e !in old(entryMap) ::
                fresh(e) && !e.IsEjected() && e.subchannelWrappers == []
    {
      AddMissing(endpointList);
      ghost var all := entryMap;
      entryMap := Kept(entryMap, endpointList);
      forall k | k in endpointList ensures exists e | e in entryMap :: e.endpoint == k {
        var e :| e in all && e.endpoint == k;
        assert e in entryMap;
      }
    }

    method AddMissing(endpointList: seq<EndpointKey>)
      requires Valid() && CountsOk()
      modifies this`entryMap
      ensures Valid() && CountsOk()
      ensures forall e | e in old(entryMap) :: e in entryMap
      ensures forall e | e in entryMap && e !in old(entryMap) ::
                fresh(e) && !e.IsEjected() && e.ejectionTimeMultiplier == 0 && e.subchannelWrappers == []
      ensures forall k | k in endpointList :: exists e | e in entryMap :: e.endpoint == k
    {
      for i := 0 to |endpointList|
        invariant Valid() && CountsOk()
        invariant forall e | e in old(entryMap) :: e in entryMap
        invariant forall e | e in entryMap && e !in old(entryMap) ::
                    fresh(e) && !e.IsEjected() && e.ejectionTimeMultiplier == 0 && e.subchannelWrappers == []
        invariant forall k | 0 <= k < i :: exists e | e in entryMap :: e.endpoint == endpointList[k]
      {
        EnsureEntry(endpointList[i]);
      }
    }

    method EnsureEntry(endpoint: EndpointKey)
      requires Valid() && CountsOk()
      modifies this`entryMap
      ensures Valid() && CountsOk()
      ensures exists e | e in entryMap :: e.endpoint == endpoint
      ensures entryMap == old(entryMap) ||
              exists e :: && fresh(e) && entryMap == old(entryMap) + [e]
                          && !e.IsEjected() && e.ejectionTimeMultiplier == 0 && e.subchannelWrappers == []
    {
      if !exists e | e in entryMap :: e.endpoint == endpoint {
        var entry := new MapEntry(endpoint);
        entryMap := entryMap + [entry];
        assert entry in entryMap;
      }
    }

    /** A wrapper for a new subchannel starts in the health of its address's entry.
        For an address without an entry it starts unhealthy, and is listed nowhere,
        so nothing here will ever make it healthy. */
    method CreateSubchannel(address: string) returns (w: OutlierDetectionSubchannelWrapper, mapEntry: Option<MapEntry>)
      requires Valid()
      modifies EntrySet(entryMap)`subchannelWrappers
      ensures Valid() && fresh(w)
      ensures mapEntry.None? <==> forall e | e in entryMap :: address !in e.endpoint.addresses
      ensures mapEntry.Some? ==> mapEntry.value in entryMap && address in mapEntry.value.endpoint.addresses
                                 && mapEntry.value.subchannelWrappers == old(mapEntry.value.subchannelWrappers) + [w]
                                 && (w.healthy <==> !mapEntry.value.IsEjected())
      ensures mapEntry.None? ==> !w.healthy
      ensures forall e | e in entryMap && mapEntry != Some(e) :: e.subchannelWrappers == old(e.subchannelWrappers)
    {
      mapEntry := FindEntry(address);
      w := new OutlierDetectionSubchannelWrapper();
      if mapEntry.None? || mapEntry.value.currentEjectionTimestamp.Some? {
        w.SetHealthy(false);
      }
      if mapEntry.Some? {
        AddWrapper(mapEntry.value, w);
      }
    }

    /** The first entry whose endpoint has the address. */
    method FindEntry(address: string) returns (mapEntry: Option<MapEntry>)
      ensures mapEntry.None? <==> forall e | e in entryMap :: address !in e.endpoint.addresses
      ensures mapEntry.Some? ==> mapEntry.value in entryMap && address in mapEntry.value.endpoint.addresses
    {
      for i := 0 to |entryMap|
        invariant forall j | 0 <= j < i :: address !in entryMap[j].endpoint.addresses
      {
        if address in entryMap[i].endpoint.addresses {
          return Some(entryMap[i]);
        }
      }
      return None;
    }

    method AddWrapper(e: MapEntry, w: OutlierDetectionSubchannelWrapper)
      requires Valid() && e in entryMap && w !in Wrappers(entryMap) && (w.healthy <==> !e.IsEjected())
      modifies e`subchannelWrappers
      ensures Valid() && e.subchannelWrappers == old(e.subchannelWrappers) + [w]
    {
      e.subchannelWrappers := e.subchannelWrappers + [w];
    }


    /** A wrapper without references leaves its entry's list. */
    method Unref(w: OutlierDetectionSubchannelWrapper, mapEntry: Option<MapEntry>)
      requires Valid()
      modifies w`refCount, (if mapEntry.Some? then {mapEntry.value} else {})`subchannelWrappers
      ensures Valid() && w.refCount == old(w.refCount) - 1
      ensures mapEntry.Some? ==>
                var before := old(mapEntry.value.subchannelWrappers);
                if w.refCount > 0 || w !in before then mapEntry.value.subchannelWrappers == before
                else exists i ::
                       0 <= i < |before| && before[i] == w
                       && mapEntry.value.subchannelWrappers == before[..i] + before[i + 1..]
    {
      w.refCount := w.refCount - 1;
      if w.refCount <= 0 && mapEntry.Some? {
        var wrappers := mapEntry.value.subchannelWrappers;
        for i := 0 to |wrappers|
          invariant w !in wrappers[..i]
          invariant mapEntry.value.subchannelWrappers == wrappers
        {
          if wrappers[i] == w {
            mapEntry.value.subchannelWrappers := wrappers[..i] + wrappers[i + 1..];
            return;
          }
        }
      }
    }
  }

  method SettleAll(entries: seq<MapEntry>, config: OutlierDetectionLoadBalancingConfig, settleTimes: seq<int>)
    requires |settleTimes| == |entries| && Apart(entries) && AllHealthOk(entries)
    modifies EntrySet(entries)`currentEjectionTimestamp, EntrySet(entries)`ejectionTimeMultiplier,
             Wrappers(entries)`healthy
    ensures AllHealthOk(entries)
    ensures View(entries) == Settled(old(View(entries)), config, settleTimes)
  {
    for i := 0 to |entries|
      invariant AllHealthOk(entries)
      invariant forall k | 0 <= k < |entries| ::
                  View(entries)[k] ==
                    if k < i then Settle(old(View(entries))[k], config, settleTimes[k]) else old(View(entries))[k]
    {
      SettleOne(entries, i, entries[i], config, settleTimes[i]);
    }
  }

  /** The entries that EndpointMap.deleteMissing leaves. */
  method Kept(entries: seq<MapEntry>, endpointList: seq<EndpointKey>) returns (kept: seq<MapEntry>)
    requires Apart(entries) && AllHealthOk(entries)
    requires forall i, j | 0 <= i < j < |entries| :: entries[i].endpoint != entries[j].endpoint
    ensures Apart(kept) && AllHealthOk(kept)
    ensures forall i, j | 0 <= i < j < |kept| :: kept[i].endpoint != kept[j].endpoint
    ensures forall e :: e in kept <==> e in entries && e.endpoint in endpointList
  {
    kept := [];
    for i := 0 to |entries|
      invariant Apart(kept)
      invariant forall i, j | 0 <= i < j < |kept| :: kept[i].endpoint != kept[j].endpoint
      invariant forall e :: e in kept <==> e in entries[..i] && e.endpoint in endpointList
    {
      if entries[i].endpoint in endpointList {
        kept := kept + [entries[i]];
      }
    }
    assert entries[..|entries|] == entries;
  }

  method UnejectAll(entries: seq<MapEntry>)
    requires Apart(entries) && AllHealthOk(entries)
    modifies EntrySet(entries)`currentEjectionTimestamp, EntrySet(entries)`ejectionTimeMultiplier,
             Wrappers(entries)`healthy
    ensures AllHealthOk(entries)
    ensures forall e | e in entries :: !e.IsEjected() && e.ejectionTimeMultiplier == 0
  {
    for i := 0 to |entries|
      invariant AllHealthOk(entries)
      invariant forall k | 0 <= k < i :: View(entries)[k] == Ejection(None, 0)
    {
      UnejectOne(entries, i, entries[i]);
      entries[i].ejectionTimeMultiplier := 0;
    }
    forall e | e in entries ensures !e.IsEjected() && e.ejectionTimeMultiplier == 0 {
      var k :| 0 <= k < |entries| && entries[k] == e;
      assert View(entries)[k] == Ejection(None, 0);
    }
  }

  method SettleOne(entries: seq<MapEntry>, i: nat, e: MapEntry, config: OutlierDetectionLoadBalancingConfig, now: int)
    requires i < |entries| && e == entries[i] && Apart(entries) && AllHealthOk(entries)
    modifies e`currentEjectionTimestamp, e`ejectionTimeMultiplier,
             (set w: OutlierDetectionSubchannelWrapper | w in e.subchannelWrappers)`healthy
    ensures AllHealthOk(entries)
    ensures View(entries) == old(View(entries))[i := Settle(old(View(entries))[i], config, now)]
  {
    if e.currentEjectionTimestamp.None? {
      if e.ejectionTimeMultiplier > 0 {
        e.ejectionTimeMultiplier := e.ejectionTimeMultiplier - 1;
      }
    } else if e.currentEjectionTimestamp.value + config.EjectionTime(e.ejectionTimeMultiplier) < now {
      UnejectOne(entries, i, e);
    }
  }

  method UnejectOne(entries: seq<MapEntry>, i: nat, e: MapEntry)
    requires i < |entries| && e == entries[i] && Apart(entries) && AllHealthOk(entries)
    modifies e`currentEjectionTimestamp, (set w: OutlierDetectionSubchannelWrapper | w in e.subchannelWrappers)`healthy
    ensures AllHealthOk(entries)
    ensures View(entries) == old(View(entries))[i := old(View(entries))[i].(timestamp := None)]
  {
    e.Uneject();
    forall o: MapEntry, w: OutlierDetectionSubchannelWrapper | o in entries && w in o.subchannelWrappers
      ensures w.healthy <==> !o.IsEjected()
    {
      if o != e { assert w !in e.subchannelWrappers; }
    }
  }

  lemma QuotientBelow(a: real, d: real, m: real)
    requires d > 0.0
    ensures a / d >= m <==> a >= m * d
  {
  }
}
