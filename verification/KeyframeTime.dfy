/** When an LED's 16-bit animation time is cut short (components/badge-led-strip/strip_animator.cpp). */
module KeyframeTime {
  import opened Arith
  import opened StripAnimator

  /** An LED that starts k ticks into the animation. */
  function Begun(k: nat): Led { Led(0, 0, k) }

  /** An LED just sent back to the loop point. */
  function Looped(t: Table): Led
    requires t.period > 0 && t.loopPoint < t.Count()
  {
    Led(t.loopPoint, Min(t.loopPoint + 1, t.Count() - 1), t.TicksTo(t.frames[t.loopPoint].time))
  }

  /** The counter when an LED on a lap from `from` passes destination i. */
  function Passing(t: Table, from: Led, i: nat): (c: nat)
    requires t.period > 0 && from.destination <= i < t.Count()
    ensures c >= t.TicksTo(t.frames[i].time)
    decreases i
  {
    var earliest := if i == from.destination then from.ticks else Passing(t, from, i - 1) + 1;
    Max(t.TicksTo(t.frames[i].time), earliest)
  }

  /** The counter when it turns to destination i, and the origin it then has. */
  function Turning(t: Table, from: Led, i: nat): nat
    requires t.period > 0 && from.destination <= i < t.Count()
  {
    if i == from.destination then from.ticks else Passing(t, from, i - 1) + 1
  }

  function OriginOf(from: Led, i: nat): nat
    requires from.destination <= i
  {
    if i == from.destination then from.origin else i - 1
  }

  function Heading(from: Led, i: nat, ticks: nat): Led
    requires from.destination <= i
  {
    Led(OriginOf(from, i), i, ticks)
  }

  predicate OnLap(t: Table, from: Led, led: Led)
    requires t.period > 0
  {
    && from.destination <= led.destination < t.Count()
    && led == Heading(from, led.destination, led.ticks)
    && Turning(t, from, led.destination) <= led.ticks <= Passing(t, from, led.destination)
  }

  // ---------------------------------------------------------------- bounds

  lemma {:induction false} TimesBounded(t: Table, i: nat)
    requires t.Ok() && i < t.Count()
    ensures t.frames[i].time <= i * MAX_GAP
  {
    if i > 0 { TimesBounded(t, i - 1); }
  }

  lemma TicksHalved(time: nat, period: nat)
    requires period > 1
    ensures (time + (period - 1)) / period <= time / 2 + 1
  {
    DivWindow(time + (period - 1), period);
    var k := (time + (period - 1)) / period;
    if k > time / 2 + 1 {
      MulMono(period, time / 2 + 2, k);
      Distribute(period, time / 2, 2);
      MulMono(time / 2, 2, period);
    }
  }

  lemma {:induction false} PassingBounded(t: Table, from: Led, i: nat)
    requires t.Ok() && LedOk(t, from) && from.destination <= i < t.Count()
    ensures Passing(t, from, i) <= t.TicksTo(t.Last()) + i
  {
    if i > from.destination { PassingBounded(t, from, i - 1); }
    LastIsLatest(t, i);
    TicksToMonotone(t, t.frames[i].time, t.Last());
  }

  /** With at most 16 frames no lap saturates the counter, except for ticks of one millisecond. */
  lemma PassingBelowMax(t: Table, from: Led, i: nat)
    requires t.Ok() && t.period > 1 && LedOk(t, from) && from.destination <= i < t.Count()
    ensures Passing(t, from, i) < MAX_TICKS
  {
    PassingBounded(t, from, i);
    TimesBounded(t, t.Count() - 1);
    TicksHalved(t.Last(), t.period);
  }

  lemma {:induction false} PassingMonotone(t: Table, from: Led, i: nat, j: nat)
    requires t.period > 0 && from.destination <= i <= j < t.Count()
    ensures Passing(t, from, i) <= Passing(t, from, j)
  {
    if i < j { PassingMonotone(t, from, i, j - 1); }
  }

  lemma NotYet(t: Table, ticks: nat, time: nat)
    requires t.period > 0 && ticks < t.TicksTo(time)
    ensures ticks * t.period < time
  {
    if time <= ticks * t.period { TicksToPassed(t, ticks, time); }
  }

  lemma Due(t: Table, ticks: nat, time: nat)
    requires t.period > 0 && t.TicksTo(time) <= ticks
    ensures time <= ticks * t.period
  {
    TicksToWindow(t, time);
    MulMonoLeft(t.TicksTo(time), ticks, t.period);
  }

  lemma LoopedOk(t: Table)
    requires t.Ok() && t.period > 1
    ensures LedOk(t, Looped(t)) && Looped(t).ticks < 65536
  {
    var time := t.frames[t.loopPoint].time;
    LastIsLatest(t, t.loopPoint);
    TicksToWindow(t, time);
    TicksToMonotone(t, time, t.Last());
    TimesBounded(t, t.Count() - 1);
    TicksHalved(t.Last(), t.period);
  }

  // ---------------------------------------------------------------- the states an LED goes through

  /** Where a lap goes on. */
  function LapNext(t: Table, from: Led, led: Led): Led
    requires t.period > 0 && t.loopPoint < t.Count() && OnLap(t, from, led)
  {
    if led.ticks < Passing(t, from, led.destination) then led.(ticks := led.ticks + 1)
    else if led.destination + 1 < t.Count() then Heading(from, led.destination + 1, led.ticks + 1)
    else Looped(t)
  }

  /** One tick on a lap. */
  lemma LapStep(t: Table, from: Led, led: Led)
    requires t.Ok() && t.period > 1 && LedOk(t, from) && OnLap(t, from, led)
    ensures NextLed(t, led) == LapNext(t, from, led)
  {
    var i := led.destination;
    PassingBelowMax(t, from, i);
    LoopedOk(t);
    if led.ticks < Passing(t, from, i) {
      NotYet(t, led.ticks, t.frames[i].time);
    } else {
      Due(t, led.ticks, t.frames[i].time);
    }
  }

  /** On the first lap, or on one from the loop point. */
  predicate Underway(t: Table, from: Led, led: Led)
    requires t.period > 0 && t.loopPoint < t.Count()
  {
    OnLap(t, from, led) || OnLap(t, Looped(t), led)
  }

  /** A tick keeps an LED on its lap or sends it to the loop point. */
  lemma LapKept(t: Table, from: Led, led: Led)
    requires t.Ok() && t.period > 1 && LedOk(t, from) && OnLap(t, from, led)
    ensures Underway(t, from, NextLed(t, led))
  {
    LapStep(t, from, led);
  }

  lemma UnderwayKept(t: Table, from: Led, led: Led)
    requires t.Ok() && t.period > 1 && LedOk(t, from) && Underway(t, from, led)
    ensures led.destination < t.Count() && Underway(t, from, NextLed(t, led))
  {
    LoopedOk(t);
    if OnLap(t, from, led) { LapKept(t, from, led); } else { LapKept(t, Looped(t), led); }
  }

  lemma TickManyNext(t: Table, from: Led, n: nat, led: Led)
    requires t.Ok() && LedOk(t, from) && n > 0 && led == TickMany(t, from, n - 1)
    ensures TickMany(t, from, n) == NextLed(t, led)
  {
  }

  ghost predicate Reached(t: Table, from: Led, led: Led) {
    t.Ok() && LedOk(t, from) && exists n: nat :: TickMany(t, from, n) == led
  }

  lemma ReachedNext(t: Table, from: Led, led: Led)
    requires Reached(t, from, led)
    ensures led.destination < t.Count() && Reached(t, from, NextLed(t, led))
  {
    var n: nat :| TickMany(t, from, n) == led;
    TickManyNext(t, from, n + 1, led);
  }

  lemma ReachedItself(t: Table, from: Led)
    requires t.Ok() && LedOk(t, from)
    ensures Reached(t, from, from)
  {
    assert TickMany(t, from, 0) == from;
  }

  /** A state of a lap other than its start follows another. */
  lemma LapBefore(t: Table, from: Led, led: Led) returns (before: Led)
    requires t.Ok() && t.period > 0 && OnLap(t, from, led) && led != from
    ensures OnLap(t, from, before) && LapNext(t, from, before) == led
    ensures before.destination <= led.destination && before.ticks < led.ticks
  {
    var i, ticks := led.destination, led.ticks - 1;
    before := if led.ticks > Turning(t, from, i) then Heading(from, i, ticks) else Heading(from, i - 1, ticks);
  }

  /** Every state of a lap is reached from wherever its start is ... */
  lemma {:induction false} LapReached(t: Table, first: Led, from: Led, led: Led)
    requires t.Ok() && t.period > 1 && Reached(t, first, from) && LedOk(t, from) && OnLap(t, from, led)
    ensures Reached(t, first, led)
    decreases led.ticks
  {
    if led != from {
      var before := LapBefore(t, from, led);
      LapReached(t, first, from, before);
      StepReached(t, first, from, before);
    }
  }

  lemma StepReached(t: Table, first: Led, from: Led, led: Led)
    requires t.Ok() && t.period > 1 && LedOk(t, from) && Reached(t, first, led) && OnLap(t, from, led)
    ensures Reached(t, first, LapNext(t, from, led))
  {
    LapStep(t, from, led);
    ReachedNext(t, first, led);
  }

  lemma LapStatesReached(t: Table, from: Led, led: Led)
    requires t.Ok() && t.period > 1 && LedOk(t, from) && OnLap(t, from, led)
    ensures Reached(t, from, led) && LedOk(t, led)
  {
    ReachedItself(t, from);
    LapReached(t, from, from, led);
    var n: nat :| TickMany(t, from, n) == led;
  }

  /** ... and then the loop point. */
  lemma LoopReached(t: Table, from: Led)
    requires t.Ok() && t.period > 1 && LedOk(t, from)
    ensures Reached(t, from, Looped(t)) && LedOk(t, Looped(t))
  {
    var i := t.Count() - 1;
    var end := Heading(from, i, Passing(t, from, i));
    LapStatesReached(t, from, end);
    StepReached(t, from, from, end);
    LoopedOk(t);
  }

  lemma {:induction false} StaysUnderway(t: Table, from: Led, n: nat)
    requires t.Ok() && t.period > 1 && LedOk(t, from)
    ensures Underway(t, from, TickMany(t, from, n))
  {
    if n > 0 {
      var led := TickMany(t, from, n - 1);
      StaysUnderway(t, from, n - 1);
      UnderwayKept(t, from, led);
      TickManyNext(t, from, n, led);
      assert Underway(t, from, NextLed(t, led));
    } else {
      assert OnLap(t, from, from);
    }
  }

  /** For ticks longer than a millisecond: an LED goes through exactly the states of its first lap and of the loop. */
  lemma VisitsExactly(t: Table, from: Led, led: Led)
    requires t.Ok() && t.period > 1 && LedOk(t, from)
    ensures Reached(t, from, led) <==> Underway(t, from, led)
  {
    if Reached(t, from, led) {
      var n: nat :| TickMany(t, from, n) == led;
      StaysUnderway(t, from, n);
    }
    if OnLap(t, from, led) { LapStatesReached(t, from, led); }
    if OnLap(t, Looped(t), led) {
      LoopReached(t, from);
      LapReached(t, from, Looped(t), led);
    }
  }

  // ---------------------------------------------------------------- the exact condition

  /** A refresh rate is a uint8_t, and a start lies within the animation. */
  ghost predicate Startable(t: Table, k: nat) {
    t.Ok() && t.period < 256 && k <= t.TicksTo(t.Last()) && k <= MAX_TICKS
  }

  /** Every start that a cycle animation gives an LED is one of these. */
  lemma OffsetStartable(t: Table, i: nat, offset: nat)
    requires t.Ok() && t.period < 256 && t.Last() / t.period > 0
    ensures Startable(t, Offset(i, offset, t.Last() / t.period))
  {
    OffsetLedOk(t, i * offset);
  }

  /** A time is below its origin's when it is past 16 bits, and not so far past that the rest catches up again. */
  lemma BelowExactlyWhen(t: Table, led: Led)
    requires t.Ok() && t.period < 256 && LedOk(t, led)
    ensures Below(t, led) <==> 65536 <= led.ticks * t.period < 65536 + t.frames[led.origin].time
  {
    var time := led.ticks * t.period;
    TimesBounded(t, t.Count() - 1);
    TicksToWindow(t, t.Last());
    FifteenTicks(led.ticks, t.TicksTo(t.Last()), t.period);
    if time >= 65536 { assert time % 65536 == time - 65536; }
  }

  lemma FifteenTicks(ticks: nat, due: nat, period: nat)
    requires ticks <= due + 15
    ensures ticks * period <= due * period + 15 * period
  {
    MulMonoLeft(ticks, due + 15, period);
    Distribute(period, due, 15);
  }

  /** The first counter reading past 16 bits on the way to destination i. */
  function FirstCut(t: Table, from: Led, i: nat): nat
    requires t.period > 0 && from.destination <= i < t.Count()
  {
    Max(Turning(t, from, i), t.TicksTo(65536))
  }

  predicate CutAt(t: Table, from: Led, i: nat)
    requires t.period > 0 && from.destination <= i < t.Count() && from.origin < t.Count()
  {
    var first := FirstCut(t, from, i);
    first <= Passing(t, from, i) && first * t.period < 65536 + t.frames[OriginOf(from, i)].time
  }

  /** Somewhere on the lap the time is below its origin's. */
  predicate LapCut(t: Table, from: Led)
    requires t.period > 0 && from.origin < t.Count()
  {
    exists i | from.destination <= i < t.Count() :: CutAt(t, from, i)
  }

  lemma BelowIsCut(t: Table, from: Led, led: Led)
    requires t.Ok() && 1 < t.period < 256 && LedOk(t, from) && OnLap(t, from, led) && Below(t, led)
    ensures LapCut(t, from)
  {
    LapStatesReached(t, from, led);
    BelowExactlyWhen(t, led);
    TicksToPassed(t, led.ticks, 65536);
    MulMonoLeft(FirstCut(t, from, led.destination), led.ticks, t.period);
    assert CutAt(t, from, led.destination);
  }

  lemma CutIsBelow(t: Table, from: Led) returns (led: Led)
    requires t.Ok() && 1 < t.period < 256 && LedOk(t, from) && LapCut(t, from)
    ensures OnLap(t, from, led) && Below(t, led)
  {
    var i :| from.destination <= i < t.Count() && CutAt(t, from, i);
    led := Heading(from, i, FirstCut(t, from, i));
    LapStatesReached(t, from, led);
    Due(t, led.ticks, 65536);
    BelowExactlyWhen(t, led);
  }

  /** Some tick of an LED that starts k ticks into the animation is below its origin. */
  ghost predicate EverBelow(t: Table, k: nat)
    requires t.Ok()
  {
    LedOk(t, Begun(k)) && exists n: nat :: Below(t, TickMany(t, Begun(k), n))
  }

  predicate Overruns(t: Table, k: nat)
    requires t.period > 0 && t.loopPoint < t.Count()
  {
    t.period > 1 && (LapCut(t, Begun(k)) || LapCut(t, Looped(t)))
  }

  lemma OneMillisecondNever(t: Table, led: Led)
    requires t.Ok() && t.period == 1 && LedOk(t, led)
    ensures !Below(t, led)
  {
  }

  lemma BelowOverruns(t: Table, k: nat, n: nat)
    requires Startable(t, k) && LedOk(t, Begun(k)) && Below(t, TickMany(t, Begun(k), n))
    ensures Overruns(t, k)
  {
    var led := TickMany(t, Begun(k), n);
    if t.period == 1 {
      OneMillisecondNever(t, led);
    } else {
      LoopedOk(t);
      StaysUnderway(t, Begun(k), n);
      BelowIsCut(t, if OnLap(t, Begun(k), led) then Begun(k) else Looped(t), led);
    }
  }

  lemma OverrunsBelow(t: Table, k: nat)
    requires Startable(t, k) && Overruns(t, k)
    ensures EverBelow(t, k)
  {
    LoopedOk(t);
    if LapCut(t, Begun(k)) { LapCutBelow(t, k, Begun(k)); } else { LapCutBelow(t, k, Looped(t)); }
  }

  lemma LapCutBelow(t: Table, k: nat, from: Led)
    requires t.Ok() && 1 < t.period < 256 && LedOk(t, Begun(k)) && LedOk(t, from) && LapCut(t, from)
    requires from == Begun(k) || from == Looped(t)
    ensures EverBelow(t, k)
  {
    var led := CutIsBelow(t, from);
    BelowReached(t, k, led);
  }

  lemma BelowReached(t: Table, k: nat, led: Led)
    requires t.Ok() && t.period > 1 && LedOk(t, Begun(k)) && Underway(t, Begun(k), led) && Below(t, led)
    ensures EverBelow(t, k)
  {
    VisitsExactly(t, Begun(k), led);
    var n: nat :| TickMany(t, Begun(k), n) == led;
    assert Below(t, TickMany(t, Begun(k), n));
  }

  /**
   * For any start within the animation: a time below its origin's exactly when the tick is longer than a millisecond
   * and the first lap or the loop has a destination on the way to which the counter passes 16 bits of milliseconds soon
   * enough.
   */
  lemma TruncatesExactlyWhen(t: Table, k: nat)
    requires Startable(t, k)
    ensures EverBelow(t, k) <==> Overruns(t, k)
  {
    if Overruns(t, k) {
      OverrunsBelow(t, k);
    } else if EverBelow(t, k) {
      var n: nat :| Below(t, TickMany(t, Begun(k), n));
      BelowOverruns(t, k, n);
    }
  }

  // ---------------------------------------------------------------- laps that start on time

  ghost predicate OnTime(t: Table, from: Led)
    requires t.Ok()
  {
    LedOk(t, from) && from.ticks <= t.TicksTo(t.frames[from.destination].time)
  }

  lemma {:induction false} PassingOnTime(t: Table, from: Led, i: nat)
    requires t.Ok() && OnTime(t, from) && from.destination <= i < t.Count()
    ensures Passing(t, from, i) <= t.TicksTo(t.frames[i].time) + i
  {
    if i > from.destination {
      PassingOnTime(t, from, i - 1);
      TicksToMonotone(t, t.frames[i - 1].time, t.frames[i].time);
    }
  }

  /** On such a lap every time past 16 bits is below its origin's. */
  lemma BelowIsTruncated(t: Table, from: Led, led: Led)
    requires t.Ok() && 1 < t.period < 256 && OnTime(t, from) && OnLap(t, from, led)
    ensures Below(t, led) <==> led.ticks * t.period >= 65536
  {
    var i := led.destination;
    LapStatesReached(t, from, led);
    BelowExactlyWhen(t, led);
    PassingOnTime(t, from, i);
    TicksToWindow(t, t.frames[i].time);
    FifteenTicks(led.ticks, t.TicksTo(t.frames[i].time), t.period);
  }

  /** The latest counter reading of a lap. */
  function Peak(t: Table, from: Led): nat
    requires t.period > 0 && from.destination < t.Count()
  {
    Passing(t, from, t.Count() - 1)
  }

  lemma OnTimeLapCut(t: Table, from: Led)
    requires t.Ok() && 1 < t.period < 256 && OnTime(t, from)
    ensures LapCut(t, from) <==> Peak(t, from) * t.period >= 65536
  {
    if LapCut(t, from) { OnTimeCutPeaks(t, from); }
    var end := Heading(from, t.Count() - 1, Peak(t, from));
    if end.ticks * t.period >= 65536 {
      BelowIsTruncated(t, from, end);
      BelowIsCut(t, from, end);
    }
  }

  lemma OnTimeCutPeaks(t: Table, from: Led)
    requires t.Ok() && 1 < t.period < 256 && OnTime(t, from) && LapCut(t, from)
    ensures Peak(t, from) * t.period >= 65536
  {
    var led := CutIsBelow(t, from);
    BelowIsTruncated(t, from, led);
    PeakIsLatest(t, from, led);
    MulMonoLeft(led.ticks, Peak(t, from), t.period);
  }

  lemma PeakIsLatest(t: Table, from: Led, led: Led)
    requires t.period > 0 && OnLap(t, from, led)
    ensures led.ticks <= Peak(t, from)
  {
    PassingMonotone(t, from, led.destination, t.Count() - 1);
  }

  lemma LoopedOnTime(t: Table)
    requires t.Ok() && t.period > 1
    ensures OnTime(t, Looped(t))
  {
    LoopedOk(t);
    TicksToMonotone(t, t.frames[t.loopPoint].time, t.frames[Looped(t).destination].time);
  }

  lemma {:induction false} LoopPassesEarlier(t: Table, i: nat)
    requires t.Ok() && t.period > 1 && Looped(t).destination <= i < t.Count()
    ensures Passing(t, Looped(t), i) <= Passing(t, Begun(0), i)
  {
    if i > Looped(t).destination {
      LoopPassesEarlier(t, i - 1);
    } else {
      LoopedOnTime(t);
    }
  }

  /** From the very start of the animation the condition is on the peak alone. */
  lemma FromStartExactlyWhen(t: Table)
    requires t.Ok() && t.period < 256
    ensures EverBelow(t, 0) <==> t.period > 1 && Peak(t, Begun(0)) * t.period >= 65536
  {
    StartedLedOk(t);
    TruncatesExactlyWhen(t, 0);
    if t.period > 1 {
      OnTimeLapCut(t, Begun(0));
      LoopedOnTime(t);
      OnTimeLapCut(t, Looped(t));
      LoopPassesEarlier(t, t.Count() - 1);
      MulMonoLeft(Peak(t, Looped(t)), Peak(t, Begun(0)), t.period);
    }
  }

  // ---------------------------------------------------------------- tables that do and do not

  /** An animation that fits never gets there, wherever in the cycle the LED starts ... */
  lemma FittingNeverBelow(t: Table, k: nat)
    requires Startable(t, k) && t.Fits()
    ensures !EverBelow(t, k)
  {
    forall n: nat | LedOk(t, Begun(k)) ensures !Below(t, TickMany(t, Begun(k), n)) {
      LedOkMeans(t, TickMany(t, Begun(k), n));
    }
  }

  /** ... sixteen frames at the widest gaps do, at ten milliseconds a tick ... */
  lemma LongTableTruncates(t: Table)
    requires t.Ok() && t.period == 10 && t.Count() == 16 && forall i | 0 <= i < 16 :: t.frames[i].time == i * MAX_GAP
    ensures EverBelow(t, 0)
  {
    Due(t, Peak(t, Begun(0)), t.Last());
    FromStartExactlyWhen(t);
  }

  /** Sixteen frames 182 ticks of 24 ms apart. */
  ghost predicate Even(t: Table) {
    t.Ok() && t.period == 24 && t.Count() == 16 && forall i | 0 <= i < 16 :: t.frames[i].time == i * 4368
  }

  lemma {:induction false} EvenPassing(t: Table, k: nat, i: nat)
    requires Even(t) && i < 16
    ensures Passing(t, Begun(k), i) == Max(182 * i, k + i)
  {
    if i > 0 { EvenPassing(t, k, i - 1); }
  }

  lemma EvenFromStart(t: Table)
    requires Even(t)
    ensures !EverBelow(t, 0)
  {
    EvenPassing(t, 0, 15);
    FromStartExactlyWhen(t);
  }

  lemma EvenOffset(t: Table)
    requires Even(t)
    ensures t.Last() / t.period == 2730 && Offset(11, 247, t.Last() / t.period) == 2717
  {
  }

  lemma EvenCut(t: Table, k: nat, i: nat)
    requires Even(t) && k == 2717 && i == 14
    ensures CutAt(t, Begun(k), i)
  {
    EvenPassing(t, k, i - 1);
    EvenPassing(t, k, i);
  }

  lemma EvenFromLate(t: Table, k: nat)
    requires Even(t) && k == 2717
    ensures EverBelow(t, k)
  {
    EvenCut(t, k, 14);
    TruncatesExactlyWhen(t, k);
  }

  /** ... and some do only for an LED that starts late in the cycle. */
  lemma OffsetTruncates(t: Table)
    requires Even(t)
    ensures !EverBelow(t, 0)
    ensures EverBelow(t, Offset(11, 247, t.Last() / t.period))
  {
    EvenFromStart(t);
    EvenOffset(t);
    EvenFromLate(t, Offset(11, 247, t.Last() / t.period));
  }
}
