# CPU smoothing and alerting, modelled in Dafny

This project models the CPU plugin of the monitor agent (`plugins/cpu/cpu.go`).
The plugin samples CPU time counters at a fixed rate and turns each pair of
snapshots into per-category utilisation percentages. For the user, system and
idle categories it keeps a *sample*: a ring buffer of recent rates plus an
exponential moving average (EMA). Every tick it computes an overlapping-window
moving average of the user ring. It feeds "average at or above the threshold"
into a debouncer. The debouncer posts `[ALERT]` after three consecutive
breaches and, while an alert is standing, `[RESOLVED]` after three
consecutive calm ticks; any two notices are more than the cooldown apart.

There are three modules:

- `Ring` (`ring.dfy`) models the `sample` type as a class, `Ring.Sample`.
  - Its ghost `history` records every value added.
  - `Valid()` ties the fields to functions of that history:
    - the position is the number of adds modulo the ring size;
    - `filled` means at least as many adds as slots;
    - the slots are `Slots(history)`;
    - the EMA is `Ema(history)`.
  - `movingAvg` is a method proved equal to the function `WindowedAverage`, which states the index arithmetic of the slices.
  - The properties of `WindowedAverage` are proved as lemmas: bounds, the constant case, and not reading the zero tail.
  - IEEE NaN, produced by `0/0` on an empty unfilled ring, is the `Avg.NaN` value.
- `Alert` (`alert.dfy`) models the debouncer.
  - `Step` is the pure step function over `(alertCount, resolveCount, triggered, lastUpdate)`.
  - `Advance` is the imperative form, as the loop writes it.
  - `Run` gives the events of a sequence of ticks.
  - The lemmas are about runs from the initial state: confirmation counts, what a notice needs, what `triggered` and `lastUpdate` remember, and the cooldown between notices.
- `Cpu` (`cpu.dfy`) models the `CPU` type as a class.
  - `Rate` is `rate`; `Clear` is `clear`.
  - `Tick` is one iteration of the sampling loop after the counters are read: add the three rates, take the user moving average, run the debouncer.

Reals stand in for `float64`; integers are unbounded; time is an integer tick count.

## Model

| member | source | states |
|---|---|---|
| Ring.Sample.constructor | plugins/cpu/cpu.go:32-37 | newSample gives a zero-filled ring of the requested size. Its position is 0, nothing is filled yet, and the history is empty. |
| Ring.Sample.Add | plugins/cpu/cpu.go:39-51 | add keeps the sample valid and appends `v` to the history. It seeds the EMA with `v` exactly when the position is 0 and the ring is unfilled; otherwise it blends `v*alpha + ema*(1-alpha)`. Only slot `old(position)` changes, and it becomes `v`. The new position is `(old+1) mod len` and stays below len. `filled` latches when the position wraps and never clears; it first becomes true on add number `len`. |
| Ring.Sample.SeedsOnlyOnFirstAdd | plugins/cpu/cpu.go:40-44 | The seeding condition `position == 0 && !filled` holds exactly when nothing has been added. For a one-slot ring (system, idle), every later add finds the ring filled, so it blends. |
| Ring.EmaWithin | plugins/cpu/cpu.go:40-44 | With alpha in (0,1], the EMA of a history stays within any bounds that contain every value added. |
| Ring.Ema | plugins/cpu/cpu.go:40-44 | The EMA of a history: the first sample seeds it and each later sample is blended in. With alpha 1 it is the latest sample; a history of one repeated value averages to that value. |
| Ring.Blend | plugins/cpu/cpu.go:43 | One smoothing step `v*alpha + ema*(1-alpha)` moves the average the fraction alpha of the way from the old average towards `v`; blending a value into itself leaves it unchanged. |
| Ring.Slots | plugins/cpu/cpu.go:46-47 | The ring after the samples of a history have been written in order from slot 0, each at its index mod n, over a zero-filled ring: it keeps exactly n slots. Its contents are stated by `SlotsRecent` and `SlotsBeforeWrap`. |
| Ring.SlotsRecent | plugins/cpu/cpu.go:46-47 | Each of the last `n` values added sits in slot `index mod n`, and a slot not yet written still holds 0. |
| Ring.SlotsBeforeWrap | plugins/cpu/cpu.go:46-50 | Before the ring wraps, its first `|history|` slots are the history in order. |
| Ring.AddStep | plugins/cpu/cpu.go:46-50 | One add advances the position modulo the size and sets the wrap latch on reaching the size. It writes exactly the slot at the old position. |
| Ring.Sample.MovingAvg | plugins/cpu/cpu.go:53-87 | movingAvg returns exactly `WindowedAverage` of the ring, position and filled flag. |
| Ring.WindowAverages | plugins/cpu/cpu.go:71-79 | The outer loop produces, in order, the average of each window `values[i : i+ceil(n/2)]` for `i = 0..floor(n/2)`. |
| Ring.SumRange | plugins/cpu/cpu.go:72-75 | The inner loop computes the sum of `values[lo:hi]` and the count `hi-lo`. |
| Ring.SumAverages | plugins/cpu/cpu.go:81-84 | The final loop computes the total of the window averages, with NaN absorbing, and their count. |
| Ring.EffectiveLength | plugins/cpu/cpu.go:54-69 | The number of slots movingAvg uses: the whole ring once filled, otherwise the slots up to the write position, never more than the ring holds. |
| Ring.HalfUp | plugins/cpu/cpu.go:58-68 | `subSet` is ceil(n/2): it and `toRange` = floor(n/2) add up to n and differ by at most one. |
| Ring.WindowInBounds | plugins/cpu/cpu.go:58-72 | For every `i <= floor(n/2)`, the window end `i + ceil(n/2)` is at most `n`, so no slice is out of range. |
| Ring.WindowedAverage | plugins/cpu/cpu.go:53-87 | The result is 0 for a zero-length ring, and NaN exactly when the ring has slots but is unfilled at position 0. |
| Ring.WindowedAverageWithin | plugins/cpu/cpu.go:71-86 | For `n > 0`, the average is a number between any bounds that contain `values[0..n)`. |
| Ring.WindowedAverageConstant | plugins/cpu/cpu.go:71-86 | If every entry of `values[0..n)` is `c`, the average is `c`. |
| Ring.WindowedAverageReadsPrefix | plugins/cpu/cpu.go:64-72 | Rings that agree on the first `n` slots have the same average, so the zero tail past the position is never read while unfilled. |
| Ring.MovingAvgMatches | plugins/cpu/cpu.go:76-86 | Dividing the total of the window averages by their count gives `WindowedAverage`, including the NaN of `0/0`. |
| Ring.Quotient | plugins/cpu/cpu.go:75 | A window's `sum / count` is NaN exactly when the count is 0, and a number otherwise. |
| Ring.Plus | plugins/cpu/cpu.go:81 | `sum += v` over averages: the result is a number exactly when both operands are, so NaN absorbs. |
| Ring.Divide | plugins/cpu/cpu.go:86 | The final `sum / count` is a number exactly when the total is a number and the count is non-zero. |
| Ring.TotalOfNaN | plugins/cpu/cpu.go:81-86 | A single NaN window makes the total NaN. |
| Ring.TotalOfNumbers | plugins/cpu/cpu.go:81-84 | The total of numeric window averages is the number equal to their sum. |
| Alert.Initial | plugins/cpu/cpu.go:116-119 | The goroutine's locals start with both counts 0 and no alert standing; the zero `lastUpdate` lies so far back that the cooldown is over at every time. |
| Alert.CooldownOver | plugins/cpu/cpu.go:159-163 | `time.Since(lastUpdate) > SlackInterval`: always true before the first notice; afterwards false until more than the interval has passed, and, for a non-negative interval, true only after time has moved on. |
| Alert.Step | plugins/cpu/cpu.go:147-167 | A breach increments `alertCount`, saturating at 3, and zeroes `resolveCount`; a calm tick does the reverse. One of the two counts is always 0, and both stay in [0,3]. Alert is posted exactly when `alertCount` is 3 and the cooldown is over, whether or not an alert is standing. Resolved is posted exactly when Alert is not, an alert is standing, `resolveCount` is 3 and the cooldown is over. A notice sets `triggered` to match the notice and `lastUpdate` to now; anything else leaves both unchanged. |
| Alert.Advance | plugins/cpu/cpu.go:147-167 | The loop-carried variables, updated statement by statement, give the same state and notice as `Step`. |
| Alert.Run | plugins/cpu/cpu.go:138-167 | Running a sequence of ticks yields one event per tick. |
| Alert.RunPrefix | plugins/cpu/cpu.go:138-167 | The events of a prefix of the ticks are the prefix of the events. |
| Alert.RunAt | plugins/cpu/cpu.go:138-167 | The event of tick `k` is one Step from the state that the first `k` ticks lead to. |
| Alert.RunCounts | plugins/cpu/cpu.go:147-157 | From the start, `alertCount` is the number of trailing breaches capped at 3, and `resolveCount` is the number of trailing calm ticks capped at 3. |
| Alert.AlertNeedsThreeBreaches | plugins/cpu/cpu.go:147-162 | Alert is posted only on the third or later consecutive breach. |
| Alert.ResolvedNeedsThreeCalmTicks | plugins/cpu/cpu.go:152-166 | Resolved is posted only on the third or later consecutive calm tick. |
| Alert.RunRemembersLastNotice | plugins/cpu/cpu.go:159-166 | `triggered` holds exactly when the last notice was Alert, and `lastUpdate` is the time of the last notice. Before any notice, neither is set. |
| Alert.ResolvedFollowsAlert | plugins/cpu/cpu.go:163-166 | Resolved is posted only when the previous notice was Alert. |
| Alert.NoticesRespectCooldown | plugins/cpu/cpu.go:159-166 | Any two consecutive notices are more than the cooldown interval apart. |
| Alert.ThreeBreachesAlert | plugins/cpu/cpu.go:147-162 | From the start, three breaches post Alert on the third tick, whatever the cooldown. |
| Alert.AlertThenResolveScenario | plugins/cpu/cpu.go:147-167 | Breaches T,T,T,F,F,F with no cooldown post Alert on tick 3 and Resolved on tick 6. |
| Alert.InterruptedBreachScenario | plugins/cpu/cpu.go:147-157 | Two breaches then a calm tick post nothing and reset the alert count. |
| Alert.SustainedBreachRealerts | plugins/cpu/cpu.go:159-162 | A sustained breach re-posts Alert each time the cooldown expires, although an alert is already standing. |
| Cpu.CPU.constructor | plugins/cpu/cpu.go:122-134 | New has empty snapshots and three fresh samples with fresh ring arrays: the user ring with the configured size, the system and idle rings with one slot each. |
| Cpu.Breach | plugins/cpu/cpu.go:147 | The test `avg >= Threshold`: a NaN average never breaches, and a number breaches exactly when it is at or above the threshold. |
| Cpu.CPU.Rate | plugins/cpu/cpu.go:223-234 | rate is 0 when the category is not in the snapshot or the total delta is 0. Otherwise it is the percentage: rate times the total delta equals the category delta times 100. |
| Cpu.CPU.RateIsPercentage | plugins/cpu/cpu.go:223-234 | When the category's delta lies between 0 and the total delta, the rate lies in [0,100]. |
| Cpu.CPU.RatesSumToHundred | plugins/cpu/cpu.go:223-234 | When the total delta is the sum of the category deltas and is non-zero, the rates of all categories add up to 100. |
| Cpu.CPU.RateSumScaled | plugins/cpu/cpu.go:230-233 | The sum of the first `k` rates, times the total delta, is 100 times the sum of the first `k` deltas. |
| Cpu.CPU.Clear | plugins/cpu/cpu.go:216-221 | clear empties both snapshots and zeroes both totals. It keeps the object valid, leaves every sample's history unchanged, and makes every rate 0. |
| Cpu.CPU.Tick | plugins/cpu/cpu.go:141-167 | One tick appends `rate(g)` to the history of each of the user, system and idle samples. The average it takes is the user sample's `WindowedAverage`, and it is never NaN. The debouncer state and the notice are `Step` applied to "average at or above the threshold". |
| Cpu.CPU.AddRates | plugins/cpu/cpu.go:141-143 | The gauge loop appends each gauge's rate to that gauge's sample history and keeps the samples valid. |
| Cpu.CPU.AddRate | plugins/cpu/cpu.go:142 | Adding one gauge's rate changes only that gauge's sample. Afterwards the ring is filled or its position is non-zero. |

## Left out

- The goroutine, the `time.Tick` schedule and the mutex (cpu.go:136-145, 206-210). One loop iteration is the sequential `Cpu.CPU.Tick`.
- Reading the counters (`c.collect()`). The collect routine is not part of this model. `Tick` takes the snapshot fields as they are.
- `postSlack` (cpu.go:174-203). It is HTTP and JSON I/O, so a notice is the emitted `Alert.Event` value.
- The zero `time.Time` that `lastUpdate` starts with is `None` in `Alert.Debouncer`. For `None` the cooldown is always over, since the zero time lies far in the past. Go's saturation of `time.Since` at the largest `Duration` is ignored, so with `SlackInterval` at that maximum the source never posts while the model does.
- `Collect` and the metric updaters (cpu.go:205-214). They call an external package.
- `New`'s computation of `alpha` and the ring size from durations, and the `int64` truncation (cpu.go:114-115, 35). Both are parameters of the constructor.
- The unused `CPU.lastUpdate` field (cpu.go:95). The loop uses a local of the same name, which is the `lastUpdate` of `Alert.Debouncer`.
- `plugins/system/collect_linux.go`. It is file reads, text parsing and float percentages for a different plugin.
- IEEE `float64` rounding: values, rates and averages are exact reals. NaN is kept only where `movingAvg` produces it (`0/0`). The counts in `movingAvg` are naturals rather than floats.
- `int` overflow of the counters and of the debouncer counts: the integers are unbounded.
- Ring.Sample.MovingAvg: its three loops are the helper methods `WindowAverages`, `SumRange` and `SumAverages`. The source writes them inline in one function.
- Ring.Sample.Add: it requires a ring with at least one slot. At size 0 the source faults on the index and the modulo (cpu.go:46-47).
- Cpu.CPU.Rate: it requires `previous` to cover every category that `current` covers. The source indexes `previous[name]` after checking only `len(current)`, so it panics otherwise.
- Cpu.CPU.Tick: it requires a non-empty user ring, for the same reason as `Add`. It also requires `|current| <= |previous| || Gauges <= |previous|`, which is the requires of `Rate` for the three gauges, for the reason given on the `Cpu.CPU.Rate` line.

## Design notes

- The Alert branch (cpu.go:159) does not test `triggered`. A breach that lasts longer than the cooldown therefore re-posts `[ALERT]` each time the cooldown expires, as `Alert.SustainedBreachRealerts` shows.
