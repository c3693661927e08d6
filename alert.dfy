/** The alert debouncer of the CPU sampling loop (plugins/cpu/cpu.go:147-167):
    a hysteresis state machine fed one boolean per tick, "the moving average
    is at or above the threshold", which posts [ALERT] and [RESOLVED]
    notifications no more often than the cooldown allows. Time is a tick
    count; `time.Since(lastUpdate) > SlackInterval` is `now - lastUpdate > interval`. */
module Alert {

  datatype Option<T> = None | Some(value: T)

  /** What one tick posts: nothing, the [ALERT] message or the [RESOLVED] message. */
  datatype Event = Quiet | Alert | Resolved

  /** The variables the sampling goroutine carries from tick to tick
      (cpu.go:116-119). `lastUpdate` is None while it still holds Go's zero
      time, i.e. before the first notification. */
  datatype Debouncer = Debouncer(alertCount: int, resolveCount: int, triggered: bool, lastUpdate: Option<int>)

  /** The number of consecutive ticks that confirm a change. */
  const Confirmations := 3

  /** The state before the first tick: no confirmations counted, no alert
      standing, and a last notification so long ago that any cooldown is over. */
  function Initial(): (d: Debouncer)
    ensures Bounded(d) && d.alertCount == 0 && d.resolveCount == 0 && !d.triggered
    ensures forall now, interval :: CooldownOver(d.lastUpdate, now, interval)
  {
    Debouncer(0, 0, false, None)
  }

  /** Whether more than `interval` has passed since the last notification; the
      zero time lies arbitrarily far in the past. */
  function CooldownOver(lastUpdate: Option<int>, now: int, interval: int): (r: bool)
    ensures lastUpdate.None? ==> r
    ensures lastUpdate.Some? && interval >= 0 && r ==> now > lastUpdate.value
    ensures lastUpdate.Some? && now <= lastUpdate.value + interval ==> !r
  {
    lastUpdate.None? || now - lastUpdate.value > interval
  }

  /** The counts stay within [0, Confirmations]. */
  predicate Bounded(d: Debouncer)
  {
    0 <= d.alertCount <= Confirmations && 0 <= d.resolveCount <= Confirmations
  }

  /** One tick of the debouncer. A breach increments the alert count (up to 3)
      and clears the resolve count; a calm tick does the reverse. Then Alert is
      posted when the alert count is 3 and the cooldown is over (whether or not
      an alert is already standing), else Resolved when an alert is standing,
      the resolve count is 3 and the cooldown is over. */
  function Step(d: Debouncer, breach: bool, now: int, interval: int): (r: (Debouncer, Event))
    // the counts: the opposite count is reset, so one of them is always 0
    ensures breach ==> r.0.resolveCount == 0 && r.0.alertCount >= d.alertCount
    ensures !breach ==> r.0.alertCount == 0 && r.0.resolveCount >= d.resolveCount
    ensures Bounded(d) ==> Bounded(r.0)
    ensures Bounded(d) && breach ==> r.0.alertCount == if d.alertCount < Confirmations then d.alertCount + 1 else Confirmations
    ensures Bounded(d) && !breach ==> r.0.resolveCount == if d.resolveCount < Confirmations then d.resolveCount + 1 else Confirmations
    // the emission rule
    ensures r.1 == Alert <==> r.0.alertCount == Confirmations && CooldownOver(d.lastUpdate, now, interval)
    ensures r.1 == Resolved <==>
      r.0.alertCount != Confirmations && d.triggered && r.0.resolveCount == Confirmations && CooldownOver(d.lastUpdate, now, interval)
    ensures r.1 != Quiet ==> r.0.triggered == (r.1 == Alert) && r.0.lastUpdate == Some(now)
    ensures r.1 == Quiet ==> r.0.triggered == d.triggered && r.0.lastUpdate == d.lastUpdate
  {
    var alertCount := if breach then (if d.alertCount < Confirmations then d.alertCount + 1 else d.alertCount) else 0;
    var resolveCount := if breach then 0 else (if d.resolveCount < Confirmations then d.resolveCount + 1 else d.resolveCount);
    if alertCount == Confirmations && CooldownOver(d.lastUpdate, now, interval) then
      (Debouncer(alertCount, resolveCount, true, Some(now)), Alert)
    else if d.triggered && resolveCount == Confirmations && CooldownOver(d.lastUpdate, now, interval) then
      (Debouncer(alertCount, resolveCount, false, Some(now)), Resolved)
    else
      (Debouncer(alertCount, resolveCount, d.triggered, d.lastUpdate), Quiet)
  }

  /** The debouncer as the sampling loop runs it: the loop-carried variables
      updated statement by statement, returning the new state and the
      notification to post. */
  method Advance(d: Debouncer, breach: bool, now: int, interval: int) returns (next: Debouncer, e: Event)
    ensures (next, e) == Step(d, breach, now, interval)
  {
    var alertCount, resolveCount, triggered, lastUpdate := d.alertCount, d.resolveCount, d.triggered, d.lastUpdate;
    if breach {
      if alertCount < Confirmations {
        alertCount := alertCount + 1;
      }
      resolveCount := 0;
    } else {
      if resolveCount < Confirmations {
        resolveCount := resolveCount + 1;
      }
      alertCount := 0;
    }
    e := Quiet;
    if alertCount == Confirmations && CooldownOver(lastUpdate, now, interval) {
      triggered := true;
      lastUpdate := Some(now);
      e := Alert;
    } else if triggered && resolveCount == Confirmations && CooldownOver(lastUpdate, now, interval) {
      triggered := false;
      lastUpdate := Some(now);
      e := Resolved;
    }
    next := Debouncer(alertCount, resolveCount, triggered, lastUpdate);
  }

  // ---------------------------------------------------------------------------
  // Runs of ticks
  // ---------------------------------------------------------------------------

  /** One tick's input: the breach flag and the current time. */
  datatype Reading = Reading(breach: bool, now: int)

  /** The state after feeding `ticks` to the debouncer, with the event of each tick. */
  function Run(d: Debouncer, ticks: seq<Reading>, interval: int): (r: (Debouncer, seq<Event>))
    ensures |r.1| == |ticks|
  {
    if ticks == [] then (d, [])
    else
      var before := Run(d, ticks[..|ticks| - 1], interval);
      var t := ticks[|ticks| - 1];
      var after := Step(before.0, t.breach, t.now, interval);
      (after.0, before.1 + [after.1])
  }

  /** Feeding one more tick is one more Step. */
  lemma RunSnoc(d: Debouncer, ticks: seq<Reading>, t: Reading, interval: int)
    ensures var before := Run(d, ticks, interval);
      var after := Step(before.0, t.breach, t.now, interval);
      Run(d, ticks + [t], interval) == (after.0, before.1 + [after.1])
  {
    assert (ticks + [t])[..|ticks|] == ticks;
  }

  /** RunSnoc with the intermediate values named, for scenarios. */
  lemma RunExtends(d: Debouncer, ticks: seq<Reading>, t: Reading, interval: int,
                   before: Debouncer, events: seq<Event>, after: Debouncer, e: Event)
    requires Run(d, ticks, interval).0 == before && Run(d, ticks, interval).1 == events
    requires Step(before, t.breach, t.now, interval) == (after, e)
    ensures Run(d, ticks + [t], interval).0 == after && Run(d, ticks + [t], interval).1 == events + [e]
  {
    RunSnoc(d, ticks, t, interval);
  }

  /** The events of a prefix of the ticks are the prefix of the events. */
  lemma {:induction false} RunPrefix(d: Debouncer, ticks: seq<Reading>, interval: int, k: nat)
    requires k <= |ticks|
    ensures Run(d, ticks[..k], interval).1 == Run(d, ticks, interval).1[..k]
    decreases |ticks|
  {
    if k < |ticks| {
      var m := |ticks| - 1;
      assert ticks[..m][..k] == ticks[..k];
      RunPrefix(d, ticks[..m], interval, k);
      assert Run(d, ticks, interval).1[..m] == Run(d, ticks[..m], interval).1;
    } else {
      assert ticks[..k] == ticks;
    }
  }

  /** Tick k is one Step from the state the first k ticks lead to. */
  lemma RunAt(d: Debouncer, ticks: seq<Reading>, interval: int, k: nat)
    requires k < |ticks|
    ensures Run(d, ticks[..k], interval).1 == Run(d, ticks, interval).1[..k]
    ensures Step(Run(d, ticks[..k], interval).0, ticks[k].breach, ticks[k].now, interval).1 == Run(d, ticks, interval).1[k]
  {
    RunPrefix(d, ticks, interval, k);
    RunPrefix(d, ticks, interval, k + 1);
    assert ticks[..k + 1][..k] == ticks[..k];
    assert Run(d, ticks, interval).1[..k + 1][k] == Run(d, ticks, interval).1[k];
  }

  /** The number of ticks at the end of `ticks` whose breach flag is `b`. */
  function Trailing(ticks: seq<Reading>, b: bool): (r: nat)
    ensures r <= |ticks|
    ensures forall j :: |ticks| - r <= j < |ticks| ==> ticks[j].breach == b
    ensures r < |ticks| ==> ticks[|ticks| - 1 - r].breach != b
  {
    if ticks == [] || ticks[|ticks| - 1].breach != b then 0
    else Trailing(ticks[..|ticks| - 1], b) + 1
  }

  function Min(a: int, b: int): int
  {
    if a <= b then a else b
  }

  /** From the initial state, the alert count is the number of consecutive
      breaches up to now and the resolve count the number of consecutive calm
      ticks, each capped at 3. */
  lemma {:induction false} RunCounts(ticks: seq<Reading>, interval: int)
    ensures Run(Initial(), ticks, interval).0.alertCount == Min(Trailing(ticks, true), Confirmations)
    ensures Run(Initial(), ticks, interval).0.resolveCount == Min(Trailing(ticks, false), Confirmations)
  {
    if ticks != [] {
      RunCounts(ticks[..|ticks| - 1], interval);
    }
  }

  /** Alert is posted only on the third (or later) consecutive breach. */
  lemma AlertNeedsThreeBreaches(ticks: seq<Reading>, interval: int, k: nat)
    requires k < |ticks| && Run(Initial(), ticks, interval).1[k] == Alert
    ensures 2 <= k && ticks[k - 2].breach && ticks[k - 1].breach && ticks[k].breach
  {
    var p := ticks[..k + 1];
    RunPrefix(Initial(), ticks, interval, k + 1);
    RunCounts(p, interval);
    assert Run(Initial(), p, interval).1[k] == Alert;
    assert Trailing(p, true) >= Confirmations;
  }

  /** Resolved is posted only on the third (or later) consecutive calm tick. */
  lemma ResolvedNeedsThreeCalmTicks(ticks: seq<Reading>, interval: int, k: nat)
    requires k < |ticks| && Run(Initial(), ticks, interval).1[k] == Resolved
    ensures 2 <= k && !ticks[k - 2].breach && !ticks[k - 1].breach && !ticks[k].breach
  {
    var p := ticks[..k + 1];
    RunPrefix(Initial(), ticks, interval, k + 1);
    RunCounts(p, interval);
    assert Run(Initial(), p, interval).1[k] == Resolved;
    assert Trailing(p, false) >= Confirmations;
  }

  /** The index of the last posted notification, if any. */
  function LastNotice(es: seq<Event>): (r: Option<nat>)
    ensures r.Some? ==> r.value < |es| && es[r.value] != Quiet
    ensures r.Some? ==> forall j :: r.value < j < |es| ==> es[j] == Quiet
    ensures r.None? ==> forall j :: 0 <= j < |es| ==> es[j] == Quiet
  {
    if es == [] then None
    else if es[|es| - 1] != Quiet then Some(|es| - 1)
    else LastNotice(es[..|es| - 1])
  }

  /** From the initial state, `triggered` says whether the last notification
      was an Alert, and `lastUpdate` is the time of the last notification. */
  lemma {:induction false} RunRemembersLastNotice(ticks: seq<Reading>, interval: int)
    ensures var (d, es) := Run(Initial(), ticks, interval);
      match LastNotice(es)
      case None => !d.triggered && d.lastUpdate == None
      case Some(j) => j < |ticks| && d.triggered == (es[j] == Alert) && d.lastUpdate == Some(ticks[j].now)
  {
    if ticks != [] {
      var m := |ticks| - 1;
      RunRemembersLastNotice(ticks[..m], interval);
      var es := Run(Initial(), ticks, interval).1;
      assert es[..m] == Run(Initial(), ticks[..m], interval).1;
      if es[m] == Quiet {
        assert LastNotice(es) == LastNotice(es[..m]);
      }
    }
  }

  /** Resolved is posted only while the last notification was an Alert. */
  lemma ResolvedFollowsAlert(ticks: seq<Reading>, interval: int, k: nat)
    requires k < |ticks| && Run(Initial(), ticks, interval).1[k] == Resolved
    ensures var before := Run(Initial(), ticks, interval).1[..k];
      LastNotice(before).Some? && before[LastNotice(before).value] == Alert
  {
    RunAt(Initial(), ticks, interval, k);
    RunRemembersLastNotice(ticks[..k], interval);
  }

  /** Two notifications are always more than the cooldown apart. */
  lemma NoticesRespectCooldown(ticks: seq<Reading>, interval: int, k: nat)
    requires k < |ticks| && Run(Initial(), ticks, interval).1[k] != Quiet
    ensures var before := Run(Initial(), ticks, interval).1[..k];
      LastNotice(before).Some? ==> ticks[k].now - ticks[LastNotice(before).value].now > interval
  {
    RunAt(Initial(), ticks, interval, k);
    RunRemembersLastNotice(ticks[..k], interval);
  }

  // ---------------------------------------------------------------------------
  // Scenarios
  // ---------------------------------------------------------------------------

  /** Three breaches from the start post Alert on the third, whatever the
      cooldown: no notification has been posted before. */
  lemma ThreeBreachesAlert(interval: int)
    ensures Run(Initial(), [Reading(true, 1), Reading(true, 2), Reading(true, 3)], interval).0 == Debouncer(3, 0, true, Some(3))
    ensures Run(Initial(), [Reading(true, 1), Reading(true, 2), Reading(true, 3)], interval).1 == [Quiet, Quiet, Alert]
  {
    var p0: seq<Reading> := [];
    var p1 := p0 + [Reading(true, 1)];
    RunExtends(Initial(), p0, Reading(true, 1), interval, Initial(), [], Debouncer(1, 0, false, None), Quiet);
    var p2 := p1 + [Reading(true, 2)];
    RunExtends(Initial(), p1, Reading(true, 2), interval, Debouncer(1, 0, false, None), [Quiet], Debouncer(2, 0, false, None), Quiet);
    var p3 := p2 + [Reading(true, 3)];
    RunExtends(Initial(), p2, Reading(true, 3), interval, Debouncer(2, 0, false, None), [Quiet, Quiet], Debouncer(3, 0, true, Some(3)), Alert);
    assert p3 == [Reading(true, 1), Reading(true, 2), Reading(true, 3)];
  }

  /** Three breaches, then three calm ticks, one time unit apart with no
      cooldown: Alert on the third tick, Resolved on the sixth. */
  lemma AlertThenResolveScenario()
    ensures Run(Initial(), [Reading(true, 1), Reading(true, 2), Reading(true, 3), Reading(false, 4), Reading(false, 5), Reading(false, 6)], 0).1
      == [Quiet, Quiet, Alert, Quiet, Quiet, Resolved]
  {
    var p3 := [Reading(true, 1), Reading(true, 2), Reading(true, 3)];
    ThreeBreachesAlert(0);
    var p4 := p3 + [Reading(false, 4)];
    RunExtends(Initial(), p3, Reading(false, 4), 0, Debouncer(3, 0, true, Some(3)), [Quiet, Quiet, Alert], Debouncer(0, 1, true, Some(3)), Quiet);
    var p5 := p4 + [Reading(false, 5)];
    RunExtends(Initial(), p4, Reading(false, 5), 0, Debouncer(0, 1, true, Some(3)), [Quiet, Quiet, Alert, Quiet], Debouncer(0, 2, true, Some(3)), Quiet);
    var p6 := p5 + [Reading(false, 6)];
    RunExtends(Initial(), p5, Reading(false, 6), 0, Debouncer(0, 2, true, Some(3)), [Quiet, Quiet, Alert, Quiet, Quiet], Debouncer(0, 3, false, Some(6)), Resolved);
    assert p6 == [Reading(true, 1), Reading(true, 2), Reading(true, 3), Reading(false, 4), Reading(false, 5), Reading(false, 6)];
  }

  /** Two breaches and a calm tick leave the alert count at 0 and post nothing. */
  lemma InterruptedBreachScenario()
    ensures Run(Initial(), [Reading(true, 1), Reading(true, 2), Reading(false, 3)], 0).0 == Debouncer(0, 1, false, None)
    ensures Run(Initial(), [Reading(true, 1), Reading(true, 2), Reading(false, 3)], 0).1 == [Quiet, Quiet, Quiet]
  {
    var p0: seq<Reading> := [];
    var p1 := p0 + [Reading(true, 1)];
    RunExtends(Initial(), p0, Reading(true, 1), 0, Initial(), [], Debouncer(1, 0, false, None), Quiet);
    var p2 := p1 + [Reading(true, 2)];
    RunExtends(Initial(), p1, Reading(true, 2), 0, Debouncer(1, 0, false, None), [Quiet], Debouncer(2, 0, false, None), Quiet);
    var p3 := p2 + [Reading(false, 3)];
    RunExtends(Initial(), p2, Reading(false, 3), 0, Debouncer(2, 0, false, None), [Quiet, Quiet], Debouncer(0, 1, false, None), Quiet);
    assert p3 == [Reading(true, 1), Reading(true, 2), Reading(false, 3)];
  }

  /** A sustained breach posts Alert again each time the cooldown runs out,
      although an alert is already standing. */
  lemma SustainedBreachRealerts()
    ensures Run(Initial(), [Reading(true, 1), Reading(true, 2), Reading(true, 3), Reading(true, 4), Reading(true, 5)], 1).1
      == [Quiet, Quiet, Alert, Quiet, Alert]
  {
    var p3 := [Reading(true, 1), Reading(true, 2), Reading(true, 3)];
    ThreeBreachesAlert(1);
    var p4 := p3 + [Reading(true, 4)];
    RunExtends(Initial(), p3, Reading(true, 4), 1, Debouncer(3, 0, true, Some(3)), [Quiet, Quiet, Alert], Debouncer(3, 0, true, Some(3)), Quiet);
    var p5 := p4 + [Reading(true, 5)];
    RunExtends(Initial(), p4, Reading(true, 5), 1, Debouncer(3, 0, true, Some(3)), [Quiet, Quiet, Alert, Quiet], Debouncer(3, 0, true, Some(5)), Alert);
    assert p5 == [Reading(true, 1), Reading(true, 2), Reading(true, 3), Reading(true, 4), Reading(true, 5)];
  }
}
