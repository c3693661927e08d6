/** The CPU plugin (plugins/cpu/cpu.go:89-234): the snapshot pair of CPU
    time counters, the per-category utilisation rate derived from it, the
    three smoothed samples (user, system, idle) and one tick of the sampling
    loop, which feeds the rates to the samples and the user moving average to
    the alert debouncer. Reading the counters and posting notifications are
    outside the model. */
module Cpu {
  import Ring
  import Alert

  // The counter categories, in the order of the plugin's gauge constants.
  const UserGauge := 0
  const SystemGauge := 1
  const IdleGauge := 2
  const NiceGauge := 3

  /** The number of categories the plugin smooths: user, system and idle. */
  const Gauges := 3

  /** The alert input of one tick: the average is a number at or above the
      threshold. An IEEE NaN compares false with everything. */
  function Breach(avg: Ring.Avg, threshold: real): (r: bool)
    ensures avg.NaN? ==> !r
    ensures avg.Num? ==> (r <==> avg.value >= threshold)
  {
    avg.Num? && avg.value >= threshold
  }

  lemma ScaledBounds(r: real, t: real, x: real)
    requires t > 0.0 && r * t == x && 0.0 <= x <= 100.0 * t
    ensures 0.0 <= r <= 100.0
  {
    Ring.MulSign(r, t);
    Ring.MulSign(100.0 - r, t);
    assert (100.0 - r) * t == 100.0 * t - r * t;
  }

  lemma Cancel(x: real, y: real, t: real)
    requires t != 0.0 && x * t == y * t
    ensures x == y
  {
    assert (x - y) * t == x * t - y * t;
  }

  lemma Distribute(a: real, b: real, t: real)
    ensures (a + b) * t == a * t + b * t
  {
  }

  class CPU {
    var previous: seq<int>
    var current: seq<int>
    var currentTotal: int
    var previousTotal: int
    /** One sample per gauge; the user gauge has the configured ring size, the
        system and idle gauges a ring of one slot. */
    const averages: seq<Ring.Sample>

    /** The ring arrays of the samples. */
    ghost function Rings(): set<array<real>>
    {
      if |averages| == Gauges then {averages[0].values, averages[1].values, averages[2].values} else {}
    }

    ghost predicate Valid()
      reads this, averages, Rings()
    {
      && |averages| == Gauges
      && averages[UserGauge] != averages[SystemGauge] && averages[SystemGauge] != averages[IdleGauge]
      && averages[IdleGauge] != averages[UserGauge]
      && averages[UserGauge].values != averages[SystemGauge].values
      && averages[SystemGauge].values != averages[IdleGauge].values
      && averages[IdleGauge].values != averages[UserGauge].values
      && averages[UserGauge].Valid() && averages[SystemGauge].Valid() && averages[IdleGauge].Valid()
      && averages[SystemGauge].values.Length == 1
      && averages[IdleGauge].values.Length == 1
    }

    /** New, without the goroutine: empty snapshots and three fresh samples. */
    constructor (alpha: real, ringSize: nat)
      ensures Valid()
      ensures current == [] && previous == [] && currentTotal == 0 && previousTotal == 0
      ensures averages[UserGauge].values.Length == ringSize
      ensures forall k :: 0 <= k < Gauges ==> averages[k].alpha == alpha && averages[k].history == []
      ensures fresh(averages[UserGauge]) && fresh(averages[SystemGauge]) && fresh(averages[IdleGauge])
      ensures fresh(Rings())
    {
      var user := new Ring.Sample(alpha, ringSize);
      var system := new Ring.Sample(alpha, 1);
      var idle := new Ring.Sample(alpha, 1);
      averages := [user, system, idle];
      current := [];
      previous := [];
      currentTotal := 0;
      previousTotal := 0;
    }

    /** rate: the share of the total counter delta that went to category
        `name`, in percent; 0 for a category the snapshot does not have and
        when no time has elapsed. Go indexes `previous[name]` after checking
        only `current`, so callers must supply a `previous` at least as long. */
    function Rate(name: nat): (r: real)
      reads this
      requires name < |current| ==> name < |previous|
      ensures name >= |current| || currentTotal == previousTotal ==> r == 0.0
      ensures name < |current| && currentTotal != previousTotal ==>
        r * (currentTotal - previousTotal) as real == (current[name] - previous[name]) as real * 100.0
    {
      if name >= |current| then 0.0
      else
        var delta := current[name] - previous[name];
        var total := currentTotal - previousTotal;
        if total == 0 then 0.0
        else delta as real / total as real * 100.0
    }

    /** When the total delta is positive and the category's delta lies between
        0 and the total delta, as it does for counters that only grow and a
        total that includes the category, the rate is a percentage. */
    lemma RateIsPercentage(name: nat)
      requires name < |current| ==> name < |previous|
      requires currentTotal >= previousTotal
      requires name < |current| ==> 0 <= current[name] - previous[name] <= currentTotal - previousTotal
      ensures 0.0 <= Rate(name) <= 100.0
    {
      if name < |current| && currentTotal != previousTotal {
        var t := (currentTotal - previousTotal) as real;
        var x := (current[name] - previous[name]) as real * 100.0;
        ScaledBounds(Rate(name), t, x);
      }
    }

    /** The sum of the first `k` category deltas. */
    function DeltaSum(k: nat): int
      reads this
      requires k <= |current| && k <= |previous|
    {
      if k == 0 then 0 else DeltaSum(k - 1) + (current[k - 1] - previous[k - 1])
    }

    /** The sum of the first `k` category rates. */
    function RateSum(k: nat): real
      reads this
      requires k <= |current| && k <= |previous|
    {
      if k == 0 then 0.0 else RateSum(k - 1) + Rate(k - 1)
    }

    /** When the total is the sum of all categories, as for the kernel's CPU
        line, the rates of all categories add up to 100. */
    lemma RatesSumToHundred()
      requires |current| <= |previous|
      requires currentTotal - previousTotal == DeltaSum(|current|) != 0
      ensures RateSum(|current|) == 100.0
    {
      var t := (currentTotal - previousTotal) as real;
      RateSumScaled(|current|);
      assert RateSum(|current|) * t == DeltaSum(|current|) as real * 100.0;
      var d := DeltaSum(|current|) as real;
      assert d == t;
      assert d * 100.0 == 100.0 * t;
      Cancel(RateSum(|current|), 100.0, t);
    }

    lemma {:induction false} RateSumScaled(k: nat)
      requires k <= |current| <= |previous| && currentTotal != previousTotal
      ensures RateSum(k) * (currentTotal - previousTotal) as real == DeltaSum(k) as real * 100.0
    {
      if k > 0 {
        RateSumScaled(k - 1);
        var t := (currentTotal - previousTotal) as real;
        Distribute(RateSum(k - 1), Rate(k - 1), t);
      }
    }

    /** clear: forget both snapshots. The samples are untouched. */
    method Clear()
      requires Valid()
      modifies this
      ensures Valid()
      ensures current == [] && previous == [] && currentTotal == 0 && previousTotal == 0
      ensures forall k :: 0 <= k < Gauges ==> averages[k].history == old(averages[k].history)
      ensures forall name: nat :: Rate(name) == 0.0
    {
      current := [];
      previous := [];
      currentTotal := 0;
      previousTotal := 0;
    }

    /** One iteration of the sampling loop after the counters have been read
        (cpu.go:141-167): add each gauge's rate to its sample, take the user
        gauge's moving average and advance the debouncer with it. */
    method Tick(d: Alert.Debouncer, threshold: real, now: int, interval: int)
      returns (avg: Ring.Avg, next: Alert.Debouncer, e: Alert.Event)
      requires Valid() && averages[UserGauge].values.Length > 0
      requires |current| <= |previous| || Gauges <= |previous|
      modifies averages, Rings()
      ensures Valid()
      ensures forall k :: 0 <= k < Gauges ==> averages[k].history == old(averages[k].history) + [Rate(k)]
      ensures avg == Ring.WindowedAverage(averages[UserGauge].values[..], averages[UserGauge].position, averages[UserGauge].filled)
      ensures avg.Num?
      ensures (next, e) == Alert.Step(d, Breach(avg, threshold), now, interval)
    {
      AddRates();
      avg := averages[UserGauge].MovingAvg();
      next, e := Alert.Advance(d, Breach(avg, threshold), now, interval);
    }

    /** The gauge loop (cpu.go:141-143): add each gauge's rate to its sample. */
    method AddRates()
      requires Valid() && averages[UserGauge].values.Length > 0
      requires |current| <= |previous| || Gauges <= |previous|
      modifies averages, Rings()
      ensures Valid()
      ensures forall k :: 0 <= k < Gauges ==> averages[k].history == old(averages[k].history) + [Rate(k)]
      ensures averages[UserGauge].filled || averages[UserGauge].position != 0
    {
      for g := 0 to Gauges
        invariant Valid()
        invariant forall k :: 0 <= k < g ==> averages[k].history == old(averages[k].history) + [Rate(k)]
        invariant forall k :: g <= k < Gauges ==> averages[k].history == old(averages[k].history)
        invariant g > 0 ==> averages[UserGauge].filled || averages[UserGauge].position != 0
      {
        AddRate(g);
      }
    }

    /** The body of the gauge loop: add gauge `g`'s rate to its sample. */
    method AddRate(g: nat)
      requires Valid() && g < Gauges && averages[g].values.Length > 0
      requires g < |current| ==> g < |previous|
      modifies averages[g], averages[g].values
      ensures Valid()
      ensures averages[g].history == old(averages[g].history) + [Rate(g)]
      ensures averages[g].filled || averages[g].position != 0
      ensures forall k :: 0 <= k < Gauges && k != g ==> averages[k].history == old(averages[k].history)
    {
      averages[g].Add(Rate(g));
    }
  }
}
