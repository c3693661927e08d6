/** The CPU sampler's smoothing unit: a fixed-size ring of raw samples with an
    exponential moving average attached (type `sample` in plugins/cpu/cpu.go).
    Float64 values are modelled as mathematical reals. */
module Ring {

  // ---------------------------------------------------------------------------
  // Arithmetic over sequences of samples
  // ---------------------------------------------------------------------------

  /** Sum of a sequence, accumulated left to right as the source's loops do. */
  function Sum(s: seq<real>): real
  {
    if s == [] then 0.0 else Sum(s[..|s| - 1]) + s[|s| - 1]
  }

  lemma SumStep(s: seq<real>, i: nat, j: nat)
    requires i <= j < |s|
    ensures Sum(s[i..j + 1]) == Sum(s[i..j]) + s[j]
  {
    assert s[i..j + 1][..j - i] == s[i..j];
  }

  /** Plain average of a non-empty sequence. */
  function Mean(s: seq<real>): real
    requires |s| > 0
  {
    Sum(s) / (|s| as real)
  }

  /** Every element of `s` lies in [lo, hi]. */
  predicate Within(s: seq<real>, lo: real, hi: real)
  {
    forall k :: 0 <= k < |s| ==> lo <= s[k] <= hi
  }

  lemma MulSign(x: real, m: real)
    requires m > 0.0
    ensures x < 0.0 ==> x * m < 0.0
    ensures x >= 0.0 ==> x * m >= 0.0
  {
  }

  lemma AddWithin(k: real, prev: real, x: real, lo: real, hi: real)
    requires k * lo <= prev <= k * hi && lo <= x <= hi
    ensures (k + 1.0) * lo <= prev + x <= (k + 1.0) * hi
  {
    assert (k + 1.0) * lo == k * lo + lo;
    assert (k + 1.0) * hi == k * hi + hi;
  }

  lemma {:induction false} SumWithin(s: seq<real>, lo: real, hi: real)
    requires Within(s, lo, hi)
    ensures (|s| as real) * lo <= Sum(s) <= (|s| as real) * hi
  {
    if s != [] {
      var m := |s| - 1;
      assert Within(s[..m], lo, hi);
      SumWithin(s[..m], lo, hi);
      assert Sum(s) == Sum(s[..m]) + s[m];
      AddWithin(m as real, Sum(s[..m]), s[m], lo, hi);
    }
  }

  /** A quotient sum/m stays within [lo, hi] when sum stays within [m*lo, m*hi]. */
  lemma DivWithin(sum: real, m: real, lo: real, hi: real)
    requires m > 0.0 && m * lo <= sum <= m * hi
    ensures lo <= sum / m <= hi
  {
    var q := sum / m;
    assert q * m == sum;
    assert (q - lo) * m == sum - m * lo;
    assert (hi - q) * m == m * hi - sum;
    MulSign(q - lo, m);
    MulSign(hi - q, m);
  }

  /** The mean of values that all lie in [lo, hi] lies in [lo, hi]. */
  lemma MeanWithin(s: seq<real>, lo: real, hi: real)
    requires |s| > 0 && Within(s, lo, hi)
    ensures lo <= Mean(s) <= hi
  {
    SumWithin(s, lo, hi);
    DivWithin(Sum(s), |s| as real, lo, hi);
  }

  // ---------------------------------------------------------------------------
  // Exponential moving average (cpu.go:39-44)
  // ---------------------------------------------------------------------------

  /** The EMA after the samples `h` have been added in order: the first sample
      seeds it, every later one is blended in with weight `alpha`. */
  function Ema(alpha: real, h: seq<real>): (r: real)
    requires |h| > 0
    // with alpha 1 the average is the latest sample
    ensures alpha == 1.0 ==> r == h[|h| - 1]
    // a history of one repeated value averages to that value
    ensures (forall i :: 0 <= i < |h| ==> h[i] == h[0]) ==> r == h[0]
  {
    if |h| == 1 then h[0]
    else Blend(alpha, h[|h| - 1], Ema(alpha, h[..|h| - 1]))
  }

  /** One smoothing step: the new value weighted by alpha, the old average by 1 - alpha. */
  function Blend(alpha: real, v: real, e: real): (r: real)
    // the average moves the fraction alpha of the way from e towards v
    ensures r - e == alpha * (v - e)
    ensures v == e ==> r == e
  {
    v * alpha + (e * (1.0 - alpha))
  }

  /** With 0 < alpha <= 1 the EMA is a convex combination of the history, so
      it never leaves the range of the samples added. */
  lemma {:induction false} EmaWithin(alpha: real, h: seq<real>, lo: real, hi: real)
    requires 0.0 < alpha <= 1.0
    requires |h| > 0 && Within(h, lo, hi)
    ensures lo <= Ema(alpha, h) <= hi
  {
    if |h| > 1 {
      var m := |h| - 1;
      assert Within(h[..m], lo, hi);
      EmaWithin(alpha, h[..m], lo, hi);
      assert Ema(alpha, h) == Blend(alpha, h[m], Ema(alpha, h[..m]));
      BlendWithin(alpha, h[m], Ema(alpha, h[..m]), lo, hi);
    }
  }

  lemma MulNonneg(x: real, y: real)
    requires x >= 0.0 && y >= 0.0
    ensures x * y >= 0.0
  {
  }

  /** One EMA step v*alpha + e*(1-alpha) is a convex combination of v and e. */
  lemma BlendWithin(alpha: real, v: real, e: real, lo: real, hi: real)
    requires 0.0 < alpha <= 1.0 && lo <= v <= hi && lo <= e <= hi
    ensures lo <= Blend(alpha, v, e) <= hi
  {
    var b := 1.0 - alpha;
    assert v * alpha + e * b - lo == (v - lo) * alpha + (e - lo) * b;
    assert hi - (v * alpha + e * b) == (hi - v) * alpha + (hi - e) * b;
    MulNonneg(v - lo, alpha);
    MulNonneg(e - lo, b);
    MulNonneg(hi - v, alpha);
    MulNonneg(hi - e, b);
  }

  // ---------------------------------------------------------------------------
  // Ring slots (cpu.go:46-50)
  // ---------------------------------------------------------------------------

  lemma MulAtLeast(d: int, n: int)
    requires n > 0
    ensures d >= 1 ==> d * n >= n
    ensures d <= -1 ==> d * n <= -n
  {
    if d >= 1 {
      assert d * n - n == (d - 1) * n;
    } else if d <= -1 {
      assert d * n + n == (d + 1) * n;
    }
  }

  lemma ModUnique(x: int, q: int, r: int, n: int)
    requires n > 0 && 0 <= r < n && x == q * n + r
    ensures x % n == r
  {
    var q', r' := x / n, x % n;
    assert x == q' * n + r';
    assert (q - q') * n == r' - r;
    MulAtLeast(q - q', n);
  }

  /** Advancing a position by one slot modulo n. */
  lemma ModNext(a: nat, n: nat)
    requires n > 0
    ensures (a % n + 1) % n == (a + 1) % n
    ensures a % n + 1 < n ==> (a + 1) % n == a % n + 1
    ensures a % n + 1 == n ==> (a + 1) % n == 0
  {
    var q, r := a / n, a % n;
    assert a == q * n + r;
    if r + 1 < n {
      ModUnique(a + 1, q, r + 1, n);
      ModUnique(r + 1, 0, r + 1, n);
    } else {
      assert a + 1 == (q + 1) * n;
      ModUnique(a + 1, q + 1, 0, n);
      ModUnique(r + 1, 1, 0, n);
    }
  }

  /** Two write counts fewer than n apart land in different slots. */
  lemma ModDistinct(i: nat, j: nat, n: nat)
    requires n > 0 && i < j < i + n
    ensures i % n != j % n
  {
    var q, r := i / n, i % n;
    assert i == q * n + r;
    if r + (j - i) < n {
      ModUnique(j, q, r + (j - i), n);
    } else {
      assert j == (q + 1) * n + (r + (j - i) - n);
      ModUnique(j, q + 1, r + (j - i) - n, n);
    }
  }

  lemma ModSmall(a: nat, n: nat)
    requires a < n
    ensures a % n == a
  {
    ModUnique(a, 0, a, n);
  }

  /** The ring contents after the samples `h` have been written, starting at
      slot 0 of a zero-filled ring of `n` slots: sample number k goes to slot
      k mod n. */
  function Slots(h: seq<real>, n: nat): (r: seq<real>)
    requires n > 0
    ensures |r| == n
  {
    if h == [] then seq(n, _ => 0.0)
    else Slots(h[..|h| - 1], n)[(|h| - 1) % n := h[|h| - 1]]
  }

  /** Each of the last n samples written is still in its slot, and a slot that
      has not been written yet still holds zero. */
  lemma {:induction false} SlotsRecent(h: seq<real>, n: nat)
    requires n > 0
    ensures forall i :: 0 <= i < |h| && |h| - n <= i ==> Slots(h, n)[i % n] == h[i]
    ensures forall k :: |h| <= k < n ==> Slots(h, n)[k] == 0.0
  {
    if h != [] {
      var m := |h| - 1;
      SlotsRecent(h[..m], n);
      forall i | 0 <= i < |h| && |h| - n <= i
        ensures Slots(h, n)[i % n] == h[i]
      {
        if i < m {
          ModDistinct(i, m, n);
        }
      }
      forall k | |h| <= k < n
        ensures Slots(h, n)[k] == 0.0
      {
        ModSmall(m, n);
      }
    }
  }

  /** Before the ring has wrapped, its first |h| slots are exactly h in order. */
  lemma SlotsBeforeWrap(h: seq<real>, n: nat)
    requires 0 < n && |h| <= n
    ensures Slots(h, n)[..|h|] == h
  {
    SlotsRecent(h, n);
    forall i | 0 <= i < |h|
      ensures Slots(h, n)[i] == h[i]
    {
      ModSmall(i, n);
    }
  }

  /** What one more write does to the position, the wrap latch and the slots. */
  lemma AddStep(h: seq<real>, n: nat, v: real)
    requires n > 0
    ensures (|h| % n + 1) % n == (|h| + 1) % n
    ensures (|h| + 1 >= n) == (|h| >= n || (|h| + 1) % n == 0)
    ensures (|h| == 0) == (|h| % n == 0 && !(|h| >= n))
    ensures Slots(h + [v], n) == Slots(h, n)[|h| % n := v]
  {
    ModNext(|h|, n);
    WrapStep(|h|, n);
    assert (h + [v])[..|h|] == h;
  }

  lemma WrapStep(a: nat, n: nat)
    requires n > 0
    ensures (a + 1 >= n) == (a >= n || (a + 1) % n == 0)
    ensures (a == 0) == (a % n == 0 && !(a >= n))
  {
    if a < n {
      ModSmall(a, n);
      if a + 1 < n {
        ModSmall(a + 1, n);
      } else {
        ModUnique(a + 1, 1, 0, n);
      }
    }
  }

  // ---------------------------------------------------------------------------
  // The overlapping-window average (cpu.go:53-87)
  // ---------------------------------------------------------------------------

  /** The result of movingAvg: a real, or IEEE NaN where the source computes 0/0. */
  datatype Avg = Num(value: real) | NaN

  /** The number of leading slots that hold real samples. */
  function EffectiveLength(len: nat, position: nat, filled: bool): (r: nat)
    // a filled ring is used whole, an unfilled one up to the write position
    ensures filled ==> r == len
    ensures !filled ==> r == position
    ensures position <= len ==> r <= len
  {
    if filled then len else position
  }

  /** ceil(n/2), written as the source computes it. */
  function HalfUp(n: nat): (r: nat)
    // ceil(n/2): the halves floor(n/2) and r make up n, and differ by at most one
    ensures r + n / 2 == n
    ensures 2 * r == n || 2 * r == n + 1
  {
    n / 2 + n % 2
  }

  /** Every window that movingAvg slices lies inside the first n slots. */
  lemma WindowInBounds(n: nat, i: nat)
    requires i <= n / 2
    ensures i + HalfUp(n) <= n
  {
  }

  /** The plain average of each window s[i .. i + ceil(n/2)), for i = 0 .. floor(n/2). */
  function Buckets(s: seq<real>, n: nat): (r: seq<real>)
    requires 0 < n <= |s|
    ensures |r| == n / 2 + 1
  {
    seq(n / 2 + 1, i requires 0 <= i <= n / 2 => Mean(s[i..i + HalfUp(n)]))
  }

  /** What movingAvg returns for a ring holding `values` at write position
      `position`: 0 for a ring without slots, NaN when no sample has been added
      yet, and otherwise the mean of the window averages over the
      effective length. */
  function WindowedAverage(values: seq<real>, position: nat, filled: bool): (r: Avg)
    requires position <= |values|
    ensures r == NaN <==> |values| > 0 && !filled && position == 0
    ensures |values| == 0 ==> r == Num(0.0)
  {
    if |values| == 0 then Num(0.0)
    else
      var n := EffectiveLength(|values|, position, filled);
      if n == 0 then NaN else Num(Mean(Buckets(values, n)))
  }

  /** The windowed average never leaves the range of the samples it reads. */
  lemma WindowedAverageWithin(values: seq<real>, position: nat, filled: bool, lo: real, hi: real)
    requires position <= |values|
    requires EffectiveLength(|values|, position, filled) > 0
    requires Within(values[..EffectiveLength(|values|, position, filled)], lo, hi)
    ensures WindowedAverage(values, position, filled).Num?
    ensures lo <= WindowedAverage(values, position, filled).value <= hi
  {
    var n := EffectiveLength(|values|, position, filled);
    var b := Buckets(values, n);
    forall i | 0 <= i < |b|
      ensures lo <= b[i] <= hi
    {
      var w := values[i..i + HalfUp(n)];
      assert Within(w, lo, hi) by {
        forall k | 0 <= k < |w| ensures lo <= w[k] <= hi {
          assert w[k] == values[..n][i + k];
        }
      }
      MeanWithin(w, lo, hi);
    }
    MeanWithin(b, lo, hi);
  }

  /** When every sample read equals c, the windowed average is c. */
  lemma WindowedAverageConstant(values: seq<real>, position: nat, filled: bool, c: real)
    requires position <= |values|
    requires EffectiveLength(|values|, position, filled) > 0
    requires forall k :: 0 <= k < EffectiveLength(|values|, position, filled) ==> values[k] == c
    ensures WindowedAverage(values, position, filled) == Num(c)
  {
    var n := EffectiveLength(|values|, position, filled);
    assert Within(values[..n], c, c);
    WindowedAverageWithin(values, position, filled, c, c);
  }

  /** The windowed average reads only the first effective-length slots: two
      rings that agree there give the same result, so the zero tail of a ring
      that has not wrapped yet never contributes. */
  lemma WindowedAverageReadsPrefix(values: seq<real>, other: seq<real>, position: nat, filled: bool)
    requires position <= |values| == |other|
    requires values[..EffectiveLength(|values|, position, filled)] == other[..EffectiveLength(|values|, position, filled)]
    ensures WindowedAverage(values, position, filled) == WindowedAverage(other, position, filled)
  {
    var n := EffectiveLength(|values|, position, filled);
    if n > 0 {
      var b, c := Buckets(values, n), Buckets(other, n);
      forall i | 0 <= i < |b|
        ensures b[i] == c[i]
      {
        WindowInBounds(n, i);
        var w := HalfUp(n);
        assert values[i..i + w] == values[..n][i..i + w] == other[..n][i..i + w] == other[i..i + w];
        assert b[i] == Mean(values[i..i + w]) && c[i] == Mean(other[i..i + w]);
      }
      assert Buckets(values, n) == Buckets(other, n);
    }
  }

  // ---------------------------------------------------------------------------
  // The sample object (cpu.go:24-87)
  // ---------------------------------------------------------------------------

  /** One smoothed metric: the ring `values`, the next slot to write, whether
      the ring has wrapped at least once, and the running EMA. The ghost
      `history` is every value ever added, oldest first. */
  class Sample {
    const alpha: real
    var expMovingAvg: real
    const values: array<real>
    var position: nat
    var filled: bool
    ghost var history: seq<real>

    /** The fields are a function of the history: the position is the number
        of adds modulo the ring length, the ring has wrapped once there have
        been as many adds as slots, the slots are Slots(history), and the EMA
        is Ema(history). A ring without slots never accepts an add. */
    ghost predicate Valid()
      reads this, values
    {
      if values.Length == 0 then
        history == [] && position == 0 && !filled
      else
        && position == |history| % values.Length
        && filled == (|history| >= values.Length)
        && (forall i :: 0 <= i < values.Length ==> values[i] == Slots(history, values.Length)[i])
        && (|history| > 0 ==> expMovingAvg == Ema(alpha, history))
    }

    /** newSample: a zero-filled ring of `ringSize` slots. */
    constructor (alpha: real, ringSize: nat)
      ensures Valid() && fresh(values)
      ensures this.alpha == alpha && values.Length == ringSize
      ensures values[..] == seq(ringSize, _ => 0.0)
      ensures position == 0 && !filled && expMovingAvg == 0.0 && history == []
    {
      this.alpha := alpha;
      values := new real[ringSize](_ => 0.0);
      expMovingAvg := 0.0;
      position := 0;
      filled := false;
      history := [];
    }

    /** add seeds the EMA exactly on the first add of the sample's life: the
        position is 0 with the ring not yet wrapped only before any add. For
        a ring of one slot (the system and idle gauges) every later add finds
        the ring wrapped, i.e. blends. */
    lemma SeedsOnlyOnFirstAdd()
      requires Valid() && values.Length > 0
      ensures (position == 0 && !filled) <==> history == []
      ensures values.Length == 1 && history != [] ==> filled && position == 0
    {
      AddStep(history, values.Length, 0.0);
      if values.Length == 1 {
        ModUnique(|history|, |history|, 0, 1);
      }
    }

    /** add: blend `v` into the EMA (seeding it on the very first add), store
        it in the current slot and advance the position, latching `filled`
        when the position wraps to slot 0. A ring without slots would fault
        on the index and the modulo, so it is excluded. */
    method Add(v: real)
      requires Valid() && values.Length > 0
      modifies this, values
      ensures Valid()
      ensures history == old(history) + [v]
      ensures expMovingAvg ==
        if old(position) == 0 && !old(filled) then v
        else Blend(alpha, v, old(expMovingAvg))
      ensures position < values.Length
      ensures position == (old(position) + 1) % values.Length
      ensures values[..] == old(values[..])[old(position) := v]
      ensures filled == (old(filled) || position == 0)
      ensures filled ==> old(filled) || |history| == values.Length
    {
      AddStep(history, values.Length, v);
      if position == 0 && !filled {
        expMovingAvg := v;
      } else {
        expMovingAvg := Blend(alpha, v, expMovingAvg);
      }
      values[position] := v;
      position := (position + 1) % values.Length;
      if position == 0 {
        filled := true;
      }
      history := history + [v];
    }

    /** movingAvg: the average of the averages of the overlapping windows
        values[i .. i + ceil(m/2)), i = 0 .. floor(m/2), where m is the ring
        length once it has wrapped and the position before that. Division by
        a zero count yields NaN, as it does in the source. */
    method MovingAvg() returns (r: Avg)
      requires position <= values.Length
      ensures r == WindowedAverage(values[..], position, filled)
    {
      if values.Length == 0 {
        return Num(0.0);
      }
      var subSet := (values.Length / 2) + (values.Length % 2);
      var toRange := values.Length / 2;
      if !filled {
        subSet := (position / 2) + (position % 2);
        toRange := position / 2;
      }
      ghost var n := EffectiveLength(values.Length, position, filled);
      assert subSet == HalfUp(n) && toRange == n / 2;

      var avgs := WindowAverages(values, n, subSet, toRange);
      var total, count := SumAverages(avgs);
      assert total == Total(WindowAvgs(values[..], n, n / 2 + 1)) && count == n / 2 + 1;
      MovingAvgMatches(values[..], position, filled);
      r := Divide(total, count);
    }
  }

  /** The source's outer loop: the average of each window values[i:i+subSet]
      for i = 0 .. toRange, in order. */
  method WindowAverages(values: array<real>, ghost n: nat, subSet: nat, toRange: nat) returns (avgs: seq<Avg>)
    requires n <= values.Length && subSet == HalfUp(n) && toRange == n / 2
    ensures avgs == WindowAvgs(values[..], n, n / 2 + 1)
  {
    avgs := [];
    var i := 0;
    while i <= toRange
      invariant 0 <= i <= toRange + 1
      invariant avgs == WindowAvgs(values[..], n, i)
    {
      WindowInBounds(n, i);
      var sum, count := SumRange(values, i, i + subSet);
      assert Quotient(sum, count) == WindowAvg(values[..], n, i);
      avgs := avgs + [Quotient(sum, count)];
      i := i + 1;
    }
  }

  /** The source's inner loop over values[lo:hi]: the running sum and count. */
  method SumRange(values: array<real>, lo: nat, hi: nat) returns (sum: real, count: nat)
    requires lo <= hi <= values.Length
    ensures sum == Sum(values[lo..hi]) && count == hi - lo
  {
    sum, count := 0.0, 0;
    var j := lo;
    while j < hi
      invariant lo <= j <= hi
      invariant sum == Sum(values[lo..j]) && count == j - lo
    {
      SumStep(values[..], lo, j);
      assert values[..][lo..j + 1] == values[lo..j + 1];
      sum := sum + values[j];
      count := count + 1;
      j := j + 1;
    }
  }

  /** The source's final loop over the window averages: their total and count. */
  method SumAverages(avgs: seq<Avg>) returns (total: Avg, count: nat)
    ensures total == Total(avgs) && count == |avgs|
  {
    total, count := Num(0.0), 0;
    var k := 0;
    while k < |avgs|
      invariant 0 <= k <= |avgs| && count == k
      invariant total == Total(avgs[..k])
    {
      TotalStep(avgs, k);
      total := Plus(total, avgs[k]);
      count := count + 1;
      k := k + 1;
    }
    assert avgs[..k] == avgs;
  }

  // ---------------------------------------------------------------------------
  // IEEE-style propagation used by movingAvg's accumulation
  // ---------------------------------------------------------------------------

  /** sum / count for a window: 0/0 is NaN; a non-zero count gives the quotient. */
  function Quotient(sum: real, count: nat): (r: Avg)
    ensures r.NaN? <==> count == 0
  {
    if count == 0 then NaN else Num(sum / (count as real))
  }

  /** Addition in which NaN absorbs everything. */
  function Plus(a: Avg, b: Avg): (r: Avg)
    ensures r.Num? <==> a.Num? && b.Num?
  {
    if a.Num? && b.Num? then Num(a.value + b.value) else NaN
  }

  /** The final division of movingAvg: a NaN total stays NaN, and so does 0/0. */
  function Divide(a: Avg, count: nat): (r: Avg)
    ensures r.Num? <==> a.Num? && count > 0
  {
    if a.Num? then Quotient(a.value, count) else NaN
  }

  /** Summing window averages left to right from 0. */
  function Total(avgs: seq<Avg>): Avg
  {
    if avgs == [] then Num(0.0) else Plus(Total(avgs[..|avgs| - 1]), avgs[|avgs| - 1])
  }

  lemma TotalStep(avgs: seq<Avg>, k: nat)
    requires k < |avgs|
    ensures Total(avgs[..k + 1]) == Plus(Total(avgs[..k]), avgs[k])
  {
    assert avgs[..k + 1][..k] == avgs[..k];
  }

  /** A sequence of defined averages sums to the sum of their values. */
  lemma {:induction false} TotalOfNumbers(avgs: seq<Avg>, vals: seq<real>)
    requires |avgs| == |vals|
    requires forall k :: 0 <= k < |avgs| ==> avgs[k] == Num(vals[k])
    ensures Total(avgs) == Num(Sum(vals))
  {
    if avgs != [] {
      var m := |avgs| - 1;
      TotalOfNumbers(avgs[..m], vals[..m]);
    }
  }

  /** A NaN anywhere makes the total NaN. */
  lemma {:induction false} TotalOfNaN(avgs: seq<Avg>, k: nat)
    requires k < |avgs| && avgs[k] == NaN
    ensures Total(avgs) == NaN
  {
    var m := |avgs| - 1;
    if k < m {
      TotalOfNaN(avgs[..m], k);
    }
  }

  /** The average of window k as movingAvg computes it: sum / count. */
  function WindowAvg(s: seq<real>, n: nat, k: nat): Avg
    requires n <= |s| && k <= n / 2
  {
    Quotient(Sum(s[k..k + HalfUp(n)]), HalfUp(n))
  }

  /** The first `count` window averages movingAvg collects, in order. */
  function WindowAvgs(s: seq<real>, n: nat, count: nat): (r: seq<Avg>)
    requires n <= |s| && count <= n / 2 + 1
    ensures |r| == count
  {
    if count == 0 then [] else WindowAvgs(s, n, count - 1) + [WindowAvg(s, n, count - 1)]
  }

  lemma {:induction false} WindowAvgsAt(s: seq<real>, n: nat, count: nat, k: nat)
    requires n <= |s| && k < count <= n / 2 + 1
    ensures WindowAvgs(s, n, count)[k] == WindowAvg(s, n, k)
  {
    if k < count - 1 {
      WindowAvgsAt(s, n, count - 1, k);
    }
  }

  /** The accumulation movingAvg performs agrees with WindowedAverage. */
  lemma MovingAvgMatches(values: seq<real>, position: nat, filled: bool)
    requires 0 < |values| && position <= |values|
    ensures var n := EffectiveLength(|values|, position, filled);
      Divide(Total(WindowAvgs(values, n, n / 2 + 1)), n / 2 + 1) == WindowedAverage(values, position, filled)
  {
    var n := EffectiveLength(|values|, position, filled);
    if n == 0 {
      WindowAvgOfNothing(values);
      WindowAvgsAt(values, n, 1, 0);
      TotalOfNaN(WindowAvgs(values, n, 1), 0);
    } else {
      TotalOfWindows(values, n);
    }
  }

  /** With samples, the total of the window averages is the sum of the bucket means. */
  lemma TotalOfWindows(values: seq<real>, n: nat)
    requires 0 < n <= |values|
    ensures Divide(Total(WindowAvgs(values, n, n / 2 + 1)), n / 2 + 1) == Num(Mean(Buckets(values, n)))
  {
    var avgs, b := WindowAvgs(values, n, n / 2 + 1), Buckets(values, n);
    forall k | 0 <= k < |avgs| ensures avgs[k] == Num(b[k]) {
      WindowAvgsAt(values, n, n / 2 + 1, k);
      WindowAvgIsMean(values, n, k);
    }
    TotalOfNumbers(avgs, b);
  }

  /** With no samples the single window is 0/0. */
  lemma WindowAvgOfNothing(values: seq<real>)
    ensures WindowAvg(values, 0, 0) == NaN
  {
    assert HalfUp(0) == 0;
  }

  /** With samples, each window's sum/count is that window's mean. */
  lemma WindowAvgIsMean(values: seq<real>, n: nat, k: nat)
    requires 0 < n <= |values| && k <= n / 2
    ensures WindowAvg(values, n, k) == Num(Buckets(values, n)[k])
  {
    var w := values[k..k + HalfUp(n)];
    assert |w| == HalfUp(n) > 0;
    assert Buckets(values, n)[k] == Mean(w);
  }
}
