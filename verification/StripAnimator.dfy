/** Keyframed LED animations (components/badge-led-strip/strip_animator.cpp). */
module StripAnimator {
  import opened Arith

  const LEDS: nat := 16          // LEDs with animation state
  const ANIM_COUNT: nat := 12    // LEDs actually animated
  const PIXELS: nat := 18
  const SCALING: int := 1024
  const MAX_TICKS: nat := 65535  // ticks_since_start_of_animation is a uint16_t
  const MAX_GAP: nat := 8224

  /** Three components of 0 to 255. */
  type Color = c: seq<int> | |c| == 3 && forall i | 0 <= i < 3 :: 0 <= c[i] < 256 witness [0, 0, 0]
  datatype Keyframe = Keyframe(color: Color, time: nat)

  // ---------------------------------------------------------------- interpolation

  /** C division: truncates toward zero. */
  function TruncDiv(n: int, d: int): int
    requires d > 0
  {
    if n >= 0 then n / d else -((-n) / d)
  }

  predicate Int32(x: int) { -0x8000_0000 <= x < 0x8000_0000 }

  predicate Between(x: int, a: int, b: int) { a <= x <= b || b <= x <= a }

  /** A component so far along the way from one keyframe to the next; the sum is stored in a uint8_t. */
  function Component(from: int, to: int, elapsed: int, span: int): (c: int)
    requires span > 0
    ensures 0 <= c < 256
  {
    (from + TruncDiv((to - from) * (elapsed * SCALING), span * SCALING)) % 256
  }

  /** Every intermediate value fits int32_t, and the divisor is not zero. */
  predicate Computable(from: int, to: int, elapsed: int, span: int) {
    && span > 0 && Int32(elapsed * SCALING) && Int32(span * SCALING)
    && Int32((to - from) * (elapsed * SCALING))
  }

  /** A step of the way from one component to another is computed as it should be and stays between them. */
  lemma ComponentSafe(from: int, to: int, elapsed: int, span: int)
    requires 0 <= from < 256 && 0 <= to < 256 && 0 <= elapsed < span <= MAX_GAP
    ensures Computable(from, to, elapsed, span) && Between(Component(from, to, elapsed, span), from, to)
  {
    var n, d := elapsed * SCALING, span * SCALING;
    var diff := if to >= from then to - from else from - to;
    MulMono(diff, 0, n);
    MulMono(diff, n, d);
    MulMono(n, diff, 255);
    assert (to - from) * n == if to >= from then diff * n else -(diff * n);
    DivWithin(diff * n, d, diff);
  }

  lemma DivWithin(n: int, d: int, q: int)
    requires d > 0 && q >= 0 && 0 <= n <= d * q
    ensures 0 <= n / d <= q
  {
  }

  /**
   * The scaling cancels out: an interpolated component is the first one moved toward the second by their difference
   * times elapsed / span, cut to a whole number.
   */
  lemma ComponentIsLinear(from: int, to: int, elapsed: int, span: int)
    requires 0 <= from < 256 && 0 <= to < 256 && 0 <= elapsed < span <= MAX_GAP
    ensures Component(from, to, elapsed, span) ==
      if from <= to then from + (to - from) * elapsed / span else from - (from - to) * elapsed / span
  {
    var diff := if from <= to then to - from else from - to;
    QuotientBelow(diff, elapsed, span);
    Truncated(to - from, diff, elapsed, span);
  }

  /** Truncation toward zero is division of the absolute value. */
  lemma Truncated(change: int, diff: int, elapsed: int, span: int)
    requires diff == (if change >= 0 then change else -change) && elapsed >= 0 && span > 0
    ensures TruncDiv(change * (elapsed * SCALING), span * SCALING) ==
      if change >= 0 then diff * elapsed / span else -(diff * elapsed / span)
  {
    var n, d := elapsed * SCALING, span * SCALING;
    ScaledQuotient(diff, elapsed, span, SCALING);
    SignedProduct(change, diff, n);
    QuotientSign(diff * n, d);
  }

  lemma SignedProduct(change: int, diff: int, n: int)
    requires diff == (if change >= 0 then change else -change) && n >= 0
    ensures change * n == if change >= 0 then diff * n else -(diff * n)
    ensures diff * n >= 0
  {
    MulMono(diff, 0, n);
  }

  lemma QuotientSign(n: int, d: int)
    requires n >= 0 && d > 0
    ensures TruncDiv(n, d) == n / d && TruncDiv(-n, d) == -(n / d)
  {
    if n == 0 { assert 0 / d == 0; }
  }

  lemma ScaledQuotient(diff: int, elapsed: int, span: int, scale: int)
    requires diff >= 0 && elapsed >= 0 && span > 0 && scale > 0
    ensures diff * (elapsed * scale) / (span * scale) == diff * elapsed / span
  {
    var n := diff * elapsed;
    assert diff * (elapsed * scale) == n * scale;
    DivWindow(n, span);
    var q := n / span;
    ScaledWindow(n, span * q, span, scale);
    Regrouped(span, q, scale);
    QuotientUnique(n * scale, span * scale, q);
  }

  lemma Regrouped(span: int, q: int, scale: int)
    ensures (span * scale) * q == scale * (span * q) && span * scale == scale * span
  {
  }

  lemma ScaledWindow(n: int, low: int, span: int, scale: int)
    requires scale > 0 && low <= n < low + span
    ensures scale * low <= n * scale < scale * low + scale * span
  {
    MulMono(scale, low, n);
    MulMono(scale, n + 1, low + span);
    Distribute(scale, low, span);
    Distribute(scale, n, 1);
  }

  lemma QuotientBelow(diff: int, elapsed: int, span: int)
    requires 0 <= diff && 0 <= elapsed < span
    ensures 0 <= diff * elapsed / span <= diff
  {
    MulMono(diff, 0, elapsed);
    MulMono(diff, elapsed, span);
    DivWithin(diff * elapsed, span, diff);
  }

  /** What interpolate returns: a color, or whatever comes of arithmetic that C++ leaves undefined. */
  datatype Shade = Shade(color: Color) | Undefined

  /** interpolate, as a function; its time argument is a uint16_t. */
  function Shown(origin: Keyframe, destination: Keyframe, now: nat): Shade {
    var t := now % 65536;
    if t >= destination.time then Shade(destination.color)
    else
      var elapsed, span := t - origin.time, destination.time - origin.time;
      if forall i | 0 <= i < 3 :: Computable(origin.color[i], destination.color[i], elapsed, span) then
        Shade([Component(origin.color[0], destination.color[0], elapsed, span),
               Component(origin.color[1], destination.color[1], elapsed, span),
               Component(origin.color[2], destination.color[2], elapsed, span)])
      else Undefined
  }

  /** From its origin's time on, a component is defined and between the two keyframes'. */
  lemma ShownBetween(origin: Keyframe, destination: Keyframe, now: nat, i: nat)
    requires origin.time <= now % 65536 && destination.time <= origin.time + MAX_GAP && i < 3
    ensures Shown(origin, destination, now).Shade?
    ensures Between(Shown(origin, destination, now).color[i], origin.color[i], destination.color[i])
  {
    var t := now % 65536;
    if t < destination.time {
      forall j | 0 <= j < 3
        ensures Computable(origin.color[j], destination.color[j], t - origin.time, destination.time - origin.time)
      {
        ComponentSafe(origin.color[j], destination.color[j], t - origin.time, destination.time - origin.time);
      }
      ComponentSafe(origin.color[i], destination.color[i], t - origin.time, destination.time - origin.time);
    }
  }

  method Interpolate(origin: Keyframe, destination: Keyframe, now: nat) returns (shade: Shade)
    ensures shade == Shown(origin, destination, now)
  {
    var currentTime := now % 65536;
    if currentTime >= destination.time {
      return Shade(destination.color);
    }
    var elapsed, span := currentTime - origin.time, destination.time - origin.time;
    var numerator := elapsed * SCALING;
    var denominator := span * SCALING;
    var newColor: Color := [0, 0, 0];
    for i := 0 to 3
      invariant forall j | 0 <= j < i ::
        && Computable(origin.color[j], destination.color[j], elapsed, span)
        && newColor[j] == Component(origin.color[j], destination.color[j], elapsed, span)
    {
      if !Computable(origin.color[i], destination.color[i], elapsed, span) {
        return Undefined;
      }
      var totalDiff := destination.color[i] - origin.color[i];
      var diffToApply := TruncDiv(totalDiff * numerator, denominator);
      newColor := newColor[i := (origin.color[i] + diffToApply) % 256];
    }
    shade := Shade(newColor);
    assert shade.color == Shown(origin, destination, now).color;
  }

  // ---------------------------------------------------------------- one LED

  /** An animation: its keyframes, where it loops back to, and the tick length. */
  datatype Table = Table(frames: seq<Keyframe>, loopPoint: nat, period: nat)
  {
    function Count(): nat { |frames| }

    function Last(): nat
      requires frames != []
    {
      frames[|frames| - 1].time
    }

    /** Ticks until `time` has passed. */
    function TicksTo(time: nat): nat
      requires period > 0
    {
      (time + (period - 1)) / period
    }

    /** At most 16 frames from time 0, in order, with bounded gaps. */
    ghost predicate Ok() {
      && 1 <= |frames| <= 16 && loopPoint < |frames| && 0 < period
      && frames[0].time == 0
      && (forall i, j | 0 <= i <= j < |frames| :: frames[i].time <= frames[j].time)
      && (forall i | 0 < i < |frames| :: frames[i].time <= frames[i - 1].time + MAX_GAP)
    }

    /** Over before 16 bits of milliseconds run out. */
    predicate Fits()
      requires frames != [] && period > 0
    {
      (TicksTo(Last()) + |frames|) * period < 65536
    }
  }

  datatype Led = Led(origin: nat, destination: nat, ticks: nat)

  /** What every tick of an active LED keeps, whatever the length of the animation. */
  ghost predicate LedOk(t: Table, led: Led)
    requires t.Ok()
  {
    && led.origin < t.Count() && led.destination < t.Count()
    && led.origin <= led.destination <= led.origin + 1
    && t.frames[led.origin].time <= led.ticks * t.period
    && led.ticks <= t.TicksTo(t.Last()) + led.destination
    && led.ticks <= MAX_TICKS
  }

  /** If the animation fits, neither the tick counter nor the 16-bit time overflows. */
  lemma LedOkMeans(t: Table, led: Led)
    requires t.Ok() && t.Fits() && LedOk(t, led)
    ensures led.ticks * t.period < 65536 && led.ticks < MAX_TICKS
    ensures !Below(t, led)
  {
    TicksBelow(led.ticks, t.TicksTo(t.Last()) + t.Count(), t.period);
  }

  lemma TicksBelow(ticks: nat, most: nat, period: nat)
    requires ticks < most && 0 < period && most * period < 65536
    ensures ticks * period < 65536 && ticks < MAX_TICKS
  {
    MulMono(period, ticks, most);
    MulMono(most, 1, period);
  }

  /** One tick of an active LED: it moves on once its destination's time has come. */
  function NextLed(t: Table, led: Led): Led
    requires t.period > 0 && t.loopPoint < t.Count() && led.destination < t.Count()
  {
    var counted := led.(ticks := if led.ticks != MAX_TICKS then led.ticks + 1 else led.ticks);
    if led.ticks * t.period < t.frames[led.destination].time then counted else NextPair(t, counted)
  }

  /** Past its destination an LED takes the next pair of keyframes; past the last one, back to the loop point. */
  function NextPair(t: Table, led: Led): Led
    requires t.period > 0 && t.loopPoint < t.Count() && led.destination < t.Count()
  {
    if led.destination + 1 < t.Count() then Led(led.destination, led.destination + 1, led.ticks)
    else Led(t.loopPoint, if t.loopPoint + 1 < t.Count() - 1 then t.loopPoint + 1 else t.Count() - 1,
             t.TicksTo(t.frames[t.loopPoint].time) % 65536)
  }

  /** The tick with the color it shows. */
  function TickLed(t: Table, led: Led): (Led, Shade)
    requires t.Ok() && LedOk(t, led)
  {
    (NextLed(t, led), Shown(t.frames[led.origin], t.frames[led.destination], led.ticks * t.period))
  }

  /**
   * Where the next tick stands: still on the way; past a frame that has come due, heading for the one after it; or,
   * past the last frame, on its way from the loop point, at the first tick not before that frame's time.
   */
  lemma NextFollows(t: Table, led: Led)
    requires t.Ok() && LedOk(t, led)
    ensures var next, d, counted := NextLed(t, led), led.destination, Min(led.ticks + 1, 65535);
      if led.ticks * t.period < t.frames[d].time then next == Led(led.origin, d, counted)
      else if d + 1 < |t.frames| then next == Led(d, d + 1, counted)
      else
        && next.origin == t.loopPoint
        && next.destination == (if t.loopPoint + 1 < |t.frames| then t.loopPoint + 1 else t.loopPoint)
        && (next.ticks - 1) * t.period < t.frames[t.loopPoint].time <= next.ticks * t.period
  {
    if led.ticks * t.period >= t.frames[led.destination].time && led.destination + 1 == |t.frames| {
      LoopFollows(t, led, NextLed(t, led));
    }
  }

  lemma LoopFollows(t: Table, led: Led, next: Led)
    requires t.Ok() && LedOk(t, led) && next == NextLed(t, led)
    requires led.ticks * t.period >= t.frames[led.destination].time && led.destination + 1 == |t.frames|
    ensures next.origin == t.loopPoint
    ensures next.destination == if t.loopPoint + 1 < |t.frames| then t.loopPoint + 1 else t.loopPoint
    ensures (next.ticks - 1) * t.period < t.frames[t.loopPoint].time <= next.ticks * t.period
  {
    TickLoopsBack(t, led);
    TicksToLeast(t, t.frames[t.loopPoint].time);
  }

  lemma TicksToLeast(t: Table, time: nat)
    requires t.period > 0
    ensures (t.TicksTo(time) - 1) * t.period < time <= t.TicksTo(time) * t.period
  {
    TicksToWindow(t, time);
    Distribute(t.period, t.TicksTo(time), -1);
  }

  /** Until 16 bits run out a tick shows its destination's color once that frame is due, before it a straight line. */
  lemma TickShows(t: Table, led: Led, i: nat)
    requires t.Ok() && LedOk(t, led) && led.ticks * t.period < 65536 && i < 3
    ensures TickLed(t, led).1.Shade?
    ensures var from, to := t.frames[led.origin], t.frames[led.destination];
      var time, shown := led.ticks * t.period, TickLed(t, led).1.color[i];
      var a, b := from.color[i], to.color[i];
      if time >= to.time then shown == b
      else
        && from.time < to.time
        && shown == if a <= b then a + (b - a) * (time - from.time) / (to.time - from.time)
                    else a - (a - b) * (time - from.time) / (to.time - from.time)
  {
    TickShowsBetween(t, led, i);
    var from, to := t.frames[led.origin], t.frames[led.destination];
    ShownExactly(from, to, led.ticks * t.period, i);
  }

  lemma ShownExactly(from: Keyframe, to: Keyframe, time: nat, i: nat)
    requires from.time <= time < 65536 && to.time <= from.time + MAX_GAP && i < 3
    requires Shown(from, to, time).Shade?
    ensures var a, b, shown := from.color[i], to.color[i], Shown(from, to, time).color[i];
      if time >= to.time then shown == b
      else shown == if a <= b then a + (b - a) * (time - from.time) / (to.time - from.time)
                    else a - (a - b) * (time - from.time) / (to.time - from.time)
  {
    if time < to.time {
      ComponentIsLinear(from.color[i], to.color[i], time - from.time, to.time - from.time);
    }
  }

  lemma TicksToWindow(t: Table, time: nat)
    requires t.period > 0
    ensures time <= t.TicksTo(time) * t.period < time + t.period
  {
  }

  /** Being before a time means at least one tick is left until it. */
  lemma TicksToLeft(t: Table, ticks: nat, time: nat)
    requires t.period > 0 && ticks * t.period < time
    ensures ticks + 1 <= t.TicksTo(time)
  {
  }

  lemma TicksToMonotone(t: Table, a: nat, b: nat)
    requires t.period > 0 && a <= b
    ensures t.TicksTo(a) <= t.TicksTo(b)
  {
    TicksToWindow(t, a);
    TicksToWindow(t, b);
    if t.TicksTo(b) < t.TicksTo(a) {
      MulMono(t.period, t.TicksTo(b) + 1, t.TicksTo(a));
      Distribute(t.period, t.TicksTo(b), 1);
    }
  }

  /** The time interpolate gets is below its origin's. */
  predicate Below(t: Table, led: Led)
    requires led.origin < t.Count()
  {
    led.ticks * t.period % 65536 < t.frames[led.origin].time
  }

  /** Unless its time is below its origin's, a tick shows a color between the two keyframes in every component. */
  lemma TickShowsBetween(t: Table, led: Led, i: nat)
    requires t.Ok() && LedOk(t, led) && !Below(t, led) && i < 3
    ensures TickLed(t, led).1.Shade?
    ensures Between(TickLed(t, led).1.color[i], t.frames[led.origin].color[i], t.frames[led.destination].color[i])
  {
    ShownBetween(t.frames[led.origin], t.frames[led.destination], led.ticks * t.period, i);
  }

  lemma LastIsLatest(t: Table, k: nat)
    requires t.Ok() && k < t.Count()
    ensures t.frames[k].time <= t.Last()
  {
  }

  lemma TickOnTheWay(t: Table, led: Led)
    requires t.Ok() && LedOk(t, led) && led.ticks * t.period < t.frames[led.destination].time
    ensures LedOk(t, NextLed(t, led))
  {
    var time := t.frames[led.destination].time;
    LastIsLatest(t, led.destination);
    TicksToLeft(t, led.ticks, time);
    TicksToMonotone(t, time, t.Last());
    Distribute(t.period, led.ticks, 1);
  }

  /** By then the counter is past the loop point's tick, so storing that in 16 bits cuts nothing off. */
  lemma TickLoopsBack(t: Table, led: Led)
    requires t.Ok() && LedOk(t, led) && t.Last() <= led.ticks * t.period
    ensures t.TicksTo(t.frames[t.loopPoint].time) <= MAX_TICKS
    ensures LedOk(t, Led(t.loopPoint, if t.loopPoint + 1 < t.Count() - 1 then t.loopPoint + 1 else t.Count() - 1,
                         t.TicksTo(t.frames[t.loopPoint].time)))
  {
    var time := t.frames[t.loopPoint].time;
    LastIsLatest(t, t.loopPoint);
    TicksToWindow(t, time);
    TicksToMonotone(t, time, t.Last());
    TicksToPassed(t, led.ticks, time);
  }

  /** Once a time has passed, its tick is no later than the counter. */
  lemma TicksToPassed(t: Table, ticks: nat, time: nat)
    requires t.period > 0 && time <= ticks * t.period
    ensures t.TicksTo(time) <= ticks
  {
    TicksToWindow(t, time);
    if ticks + 1 <= t.TicksTo(time) {
      MulMono(t.period, ticks + 1, t.TicksTo(time));
      Distribute(t.period, ticks, 1);
    }
  }

  lemma TickAdvances(t: Table, led: Led)
    requires t.Ok() && LedOk(t, led) && t.frames[led.destination].time <= led.ticks * t.period
    requires led.destination + 1 < t.Count()
    ensures LedOk(t, NextLed(t, led))
  {
    MulMonoLeft(led.ticks, led.ticks + 1, t.period);
  }

  /** Every tick keeps the invariant. */
  lemma TickKeepsLed(t: Table, led: Led)
    requires t.Ok() && LedOk(t, led)
    ensures LedOk(t, NextLed(t, led))
  {
    if led.ticks * t.period < t.frames[led.destination].time {
      TickOnTheWay(t, led);
    } else if led.destination + 1 >= t.Count() {
      TickLoopsBack(t, led);
    } else {
      TickAdvances(t, led);
    }
  }

  /** Any number of ticks. */
  function TickMany(t: Table, led: Led, n: nat): (after: Led)
    requires t.Ok() && LedOk(t, led)
    ensures LedOk(t, after)
  {
    if n == 0 then led
    else
      TickKeepsLed(t, TickMany(t, led, n - 1));
      NextLed(t, TickMany(t, led, n - 1))
  }

  /** The tables in use: at most 16 frames over at most five seconds, ticking every 10 ms. */
  lemma ShortTableFits(frames: seq<Keyframe>, loopPoint: nat)
    requires 1 <= |frames| <= 16 && loopPoint < |frames| && frames[0].time == 0
    requires forall i, j | 0 <= i <= j < |frames| :: frames[i].time <= frames[j].time
    requires frames[|frames| - 1].time <= 5000
    ensures Table(frames, loopPoint, 10).Ok() && Table(frames, loopPoint, 10).Fits()
  {
  }

  // ---------------------------------------------------------------- shooting stars

  /** The LEDs that get a star when the first star is at `position`. */
  predicate Hit(position: nat, stars: nat, led: nat)
    requires stars > 0
  {
    HitBy(position, stars, stars, led)
  }

  predicate HitBy(position: nat, stars: nat, n: nat, led: nat)
    requires stars > 0
  {
    exists k: nat | k < n :: StarAt(position, stars, k) == led
  }

  lemma HitByNext(position: nat, stars: nat, k: nat)
    requires stars > 0
    ensures forall led: nat ::
      HitBy(position, stars, k + 1, led) == (HitBy(position, stars, k, led) || led == StarAt(position, stars, k))
  {
  }

  function StarAt(position: nat, stars: nat, k: nat): nat
    requires stars > 0
  {
    (position + (LEDS / stars) * k) % LEDS
  }

  /** For any star count: the LEDs a whole number of gaps ahead of the first star, as many as there are stars. */
  lemma HitsExactly(position: nat, stars: nat, led: nat)
    requires 0 < stars <= 16 && position < 16 && led < 16
    ensures var ahead, gap := (led + 16 - position) % 16, 16 / stars;
      Hit(position, stars, led) <==> ahead % gap == 0 && ahead / gap < stars
  {
    var ahead, gap := (led + 16 - position) % 16, 16 / stars;
    forall k: nat | k < stars ensures StarAt(position, stars, k) == led <==> ahead % gap == 0 && ahead / gap == k {
      HitsAhead(position, stars, led, k, gap, ahead);
    }
    assert Hit(position, stars, led) <==> exists k: nat :: k < stars && StarAt(position, stars, k) == led;
    if ahead % gap == 0 && ahead / gap < stars { assert StarAt(position, stars, ahead / gap) == led; }
  }

  lemma HitsAhead(position: nat, stars: nat, led: nat, k: nat, gap: nat, ahead: nat)
    requires 0 < stars <= 16 && position < 16 && led < 16 && k < stars
    requires gap == 16 / stars && ahead == (led + 16 - position) % 16
    ensures StarAt(position, stars, k) == led <==> ahead % gap == 0 && ahead / gap == k
  {
    GapsBelowRing(stars, gap, k);
    AheadOf(position, led, gap * k);
    WholeGapsAhead(ahead, gap, k);
  }

  lemma WholeGapsAhead(ahead: nat, gap: nat, k: nat)
    requires gap > 0
    ensures ahead == gap * k <==> ahead % gap == 0 && ahead / gap == k
  {
    DivWindow(ahead, gap);
    if ahead == gap * k { QuotientUnique(ahead, gap, k); }
  }

  lemma AheadOf(position: nat, led: nat, n: nat)
    requires position < 16 && led < 16 && n < 16
    ensures (position + n) % 16 == led <==> (led + 16 - position) % 16 == n
  {
  }

  lemma GapsBelowRing(stars: nat, gap: nat, k: nat)
    requires 0 < stars <= 16 && gap == 16 / stars && k < stars
    ensures gap > 0 && 0 <= gap * k <= 16 - gap
  {
    DivWindow(16, stars);
    MulMono(gap, k + 1, stars);
    Distribute(gap, k, 1);
    MulMono(gap, 0, k);
    if gap == 0 { assert false; }
  }

  lemma ModShift(p: int, gap: int, m: int)
    requires gap > 0
    ensures (p + gap * m) % gap == p % gap
  {
    DivWindow(p, gap);
    Distribute(gap, p / gap, m);
    QuotientUnique(p + gap * m, gap, p / gap + m);
    DivWindow(p + gap * m, gap);
  }

  /** With a star count that divides the ring, the stars sit exactly at every LEDS/stars-th LED. */
  lemma StarsEvenlySpaced(position: nat, stars: nat, led: nat)
    requires stars > 0 && LEDS % stars == 0
    requires position < LEDS && led < LEDS
    ensures Hit(position, stars, led) <==> led % (LEDS / stars) == position % (LEDS / stars)
  {
    var gap := LEDS / stars;
    assert gap * stars == LEDS && gap > 0 by { DivWindow(LEDS, stars); }
    if k: nat :| k < stars && StarAt(position, stars, k) == led {
      StarCongruent(position, stars, gap, k);
    }
    if led % gap == position % gap {
      FindStar(position, stars, gap, led);
    }
  }

  lemma StarCongruent(position: nat, stars: nat, gap: nat, k: nat)
    requires stars > 0 && gap > 0 && gap == LEDS / stars && gap * stars == LEDS
    ensures StarAt(position, stars, k) % gap == position % gap
  {
    var n := position + gap * k;
    var q := n / LEDS;
    DivWindow(n, LEDS);
    Distribute(gap, k, 0 - stars * q);
    assert gap * (0 - stars * q) == 0 - LEDS * q by { Regroup(gap, stars, q); }
    ModShift(position, gap, k - stars * q);
  }

  lemma Regroup(gap: int, stars: int, q: int)
    ensures gap * (0 - stars * q) == 0 - (gap * stars) * q
  {
  }

  lemma FindStar(position: nat, stars: nat, gap: nat, led: nat)
    requires stars > 0 && gap > 0 && gap == LEDS / stars && gap * stars == LEDS
    requires position < LEDS && led < LEDS && led % gap == position % gap
    ensures Hit(position, stars, led)
  {
    var m := WholeGaps(position, led, gap);
    GapsOnRing(stars, gap, m);
    var k := if m >= 0 then m else m + stars;
    assert StarAt(position, stars, k) == led;
  }

  lemma WholeGaps(position: nat, led: nat, gap: nat) returns (m: int)
    requires gap > 0 && led % gap == position % gap
    ensures led == position + gap * m
  {
    DivWindow(position, gap);
    DivWindow(led, gap);
    m := led / gap - position / gap;
    Distribute(gap, led / gap, position / gap);
  }

  lemma GapsOnRing(stars: nat, gap: nat, m: int)
    requires gap > 0 && gap * stars == LEDS && 0 - LEDS < gap * m < LEDS
    ensures 0 - stars < m < stars && gap * (m + stars) == gap * m + LEDS
  {
    if m >= stars { MulMono(gap, stars, m); }
    if m <= 0 - stars { MulMono(gap, m, 0 - stars); }
    Distribute(gap, m, stars);
  }

  // ---------------------------------------------------------------- the strip

  datatype Kind = HeartBeat | Cycle | ShootingStar
  datatype Indices = Indices(even: nat, odd: nat)  // two four-bit fields

  function KeyframeIndex(packed: array<Indices>, led: nat): nat
    reads packed
    requires led < 2 * packed.Length
  {
    if led % 2 == 1 then packed[led / 2].odd else packed[led / 2].even
  }

  /** One LED's part of a tick; an inactive LED repeats frame 0. */
  function TickOne(t: Table, active: bool, led: Led): (Led, Shade)
    requires t.Ok() && (active ==> LedOk(t, led))
  {
    if active then TickLed(t, led) else (Led(0, 0, led.ticks), Shade(t.frames[0].color))
  }

  /** The part of the strip the stars move. */
  datatype Stars = Stars(kind: Kind, position: nat, since: nat, before: nat, count: nat, active: seq<bool>)
  {
    ghost predicate Ok() { |active| == LEDS && (kind == ShootingStar ==> 0 < count <= LEDS) }

    predicate Due() { kind == ShootingStar && since == before }

    /** The stars' part of a tick: a uint8_t counter, compared with a wider one. */
    function Tick(): (s: Stars)
      requires Ok()
      ensures s.Ok()
    {
      if kind != ShootingStar then this
      else if since != before then this.(since := (since + 1) % 256)
      else
        var next := (position + 1) % 16;
        this.(position := next, since := 1,
              active := seq(LEDS, i requires 0 <= i < LEDS => active[i] || Hit(next, count, i)))
    }

    function Blanked(): Stars { this.(position := 0, since := 0, active := seq(LEDS, _ => false)) }
  }

  lemma StartedLedOk(t: Table)
    requires t.Ok()
    ensures LedOk(t, Led(0, 0, 0))
  {
  }

  /** Where LED i starts in the cycle, stored in a uint16_t. */
  function Offset(i: nat, offset: nat, cycle: nat): nat
    requires cycle > 0
  {
    (i * offset) % cycle % 65536
  }

  lemma OffsetLedOk(t: Table, n: nat)
    requires t.Ok() && t.Last() / t.period > 0
    ensures LedOk(t, Led(0, 0, n % (t.Last() / t.period) % 65536))
  {
    DivWindow(t.Last(), t.period);
    TicksToWindow(t, t.Last());
    if t.TicksTo(t.Last()) < t.Last() / t.period { MulMono(t.period, t.TicksTo(t.Last()) + 1, t.Last() / t.period); }
  }

  class StripAnimator {
    var kind: Kind
    var table: Table
    var active: seq<bool>
    var position: nat             // four bits
    var ticksInPosition: nat      // uint8_t
    var ticksBeforeAdvance: nat   // uint16_t
    var starCount: nat
    const origin: array<Indices>
    const destination: array<Indices>
    const ticks: array<nat>
    const pixels: array<Shade>

    ghost predicate Arrays()
      reads this
    {
      && origin.Length == 8 && destination.Length == 8 && origin != destination
      && ticks.Length == LEDS && pixels.Length == PIXELS
    }

    ghost predicate Shape()
      reads this
    {
      && Arrays() && |active| == LEDS
      && table.Ok() && position < LEDS
      && (kind == ShootingStar ==> 0 < starCount <= LEDS)
    }

    function LedAt(i: nat): Led
      reads origin, destination, ticks
      requires i < 2 * origin.Length && i < 2 * destination.Length && i < ticks.Length
    {
      Led(KeyframeIndex(origin, i), KeyframeIndex(destination, i), ticks[i])
    }

    ghost predicate Valid()
      reads this, origin, destination, ticks
    {
      Shape() && forall i: nat | i < LEDS :: active[i] ==> LedOk(table, LedAt(i))
    }

    /** Starts on a cycle animation with every LED active. */
    constructor (frames: seq<Keyframe>)
      requires Table(frames, 1, 10).Ok() && frames[|frames| - 1].time / 10 > 0
      ensures Valid() && kind == HeartBeat && table == Table(frames, 1, 10)
      ensures forall i: nat | i < LEDS :: active[i] && LedAt(i) == Led(0, 0, 0)
      ensures fresh(origin) && fresh(destination) && fresh(ticks) && fresh(pixels)
    {
      kind, table, active := HeartBeat, Table(frames, 1, 10), seq(LEDS, i => true);
      position, ticksInPosition, ticksBeforeAdvance, starCount := 0, 0, 0, 0;
      origin := new Indices[8](_ => Indices(0, 0));
      destination := new Indices[8](_ => Indices(0, 0));
      ticks := new nat[LEDS](_ => 0);
      pixels := new Shade[PIXELS](_ => Shade([0, 0, 0]));
      new;
      StartedLedOk(table);
    }

    static method SetKeyframeIndex(indices: array<Indices>, led: nat, index: nat)
      requires indices.Length == 8 && led < LEDS
      modifies indices
      ensures KeyframeIndex(indices, led) == index % 16
      ensures forall j: nat | j < LEDS && j != led :: KeyframeIndex(indices, j) == old(KeyframeIndex(indices, j))
    {
      var element := indices[led / 2];
      indices[led / 2] := if led % 2 == 1 then element.(odd := index % 16) else element.(even := index % 16);
    }

    method SetLed(i: nat, from: nat, to: nat)
      requires Arrays() && i < LEDS
      modifies origin, destination
      ensures LedAt(i) == Led(from % 16, to % 16, ticks[i])
      ensures forall j: nat | j < LEDS && j != i :: LedAt(j) == old(LedAt(j))
    {
      SetKeyframeIndex(origin, i, from);
      SetKeyframeIndex(destination, i, to);
    }

    /** The second half of an active LED's tick: on to the next pair of keyframes, or back to the loop point. */
    method Advance(i: nat)
      requires Arrays() && i < ANIM_COUNT && LedAt(i).destination < table.Count() <= 16
      requires table.period > 0 && table.loopPoint < table.Count()
      modifies origin, destination, ticks
      ensures LedAt(i) == NextPair(table, old(LedAt(i)))
      ensures forall j: nat | j < LEDS && j != i :: LedAt(j) == old(LedAt(j))
    {
      var newOrigin := KeyframeIndex(destination, i);
      var newDestination := newOrigin + 1;
      if newDestination >= table.Count() {
        newOrigin := table.loopPoint;
        newDestination := if newOrigin + 1 < table.Count() - 1 then newOrigin + 1 else table.Count() - 1;
        ticks[i] := table.TicksTo(table.frames[newOrigin].time) % 65536;
      }
      SetLed(i, newOrigin, newDestination);
    }

    method TickActiveLed(i: nat)
      requires Shape() && i < ANIM_COUNT && LedOk(table, LedAt(i))
      modifies origin, destination, ticks, pixels
      ensures LedAt(i) == TickLed(table, old(LedAt(i))).0
      ensures pixels[i] == TickLed(table, old(LedAt(i))).1
      ensures forall j: nat | j < LEDS && j != i :: LedAt(j) == old(LedAt(j))
      ensures forall j: nat | j < PIXELS && j != i :: pixels[j] == old(pixels[j])
    {
      var from, to := table.frames[KeyframeIndex(origin, i)], table.frames[KeyframeIndex(destination, i)];
      var time := ticks[i] * table.period;
      if ticks[i] != MAX_TICKS { ticks[i] := ticks[i] + 1; }
      var shade := Interpolate(from, to, time);
      pixels[i] := shade;
      if time >= to.time { Advance(i); }
    }

    method TickLedAt(i: nat)
      requires Shape() && i < ANIM_COUNT && (active[i] ==> LedOk(table, LedAt(i)))
      modifies origin, destination, ticks, pixels
      ensures LedAt(i) == TickOne(table, active[i], old(LedAt(i))).0
      ensures pixels[i] == TickOne(table, active[i], old(LedAt(i))).1
      ensures forall j: nat | j < LEDS && j != i :: LedAt(j) == old(LedAt(j))
      ensures forall j: nat | j < PIXELS && j != i :: pixels[j] == old(pixels[j])
    {
      if !active[i] {
        SetLed(i, 0, 0);
        pixels[i] := Shade(table.frames[KeyframeIndex(origin, i)].color);
        return;
      }
      TickActiveLed(i);
    }

    function StarState(): Stars
      reads this
    {
      Stars(kind, position, ticksInPosition, ticksBeforeAdvance, starCount, active)
    }

    predicate Stepping()
      reads this
    {
      StarState().Due()
    }

    method StartStar(led: nat)
      requires Valid() && led < LEDS
      modifies this`active, origin, destination, ticks
      ensures Valid() && active == old(active)[led := true]
      ensures LedAt(led) == Led(0, 0, 0)
      ensures forall j: nat | j < LEDS && j != led :: LedAt(j) == old(LedAt(j))
    {
      SetLed(led, 0, 0);
      ticks[led] := 0;
      active := active[led := true];
      StartedLedOk(table);
    }

    /** Starts the stars around the ring over again, the first one at `position`. */
    method RestartStars()
      requires Valid() && kind == ShootingStar
      modifies this`active, origin, destination, ticks
      ensures Valid()
      ensures forall i: nat | i < LEDS ::
        LedAt(i) == if Hit(position, starCount, i) then Led(0, 0, 0) else old(LedAt(i))
      ensures forall i: nat | i < LEDS :: active[i] == (old(active[i]) || Hit(position, starCount, i))
    {
      for k := 0 to starCount
        invariant Valid()
        invariant forall i: nat | i < LEDS ::
          LedAt(i) == if HitBy(position, starCount, k, i) then Led(0, 0, 0) else old(LedAt(i))
        invariant forall i: nat | i < LEDS :: active[i] == (old(active[i]) || HitBy(position, starCount, k, i))
      {
        HitByNext(position, starCount, k);
        StartStar(StarAt(position, starCount, k));
      }
    }

    /** The step a shooting star makes before the LEDs tick. */
    method MoveStars()
      requires Valid() && kind == ShootingStar
      modifies this`active, this`position, this`ticksInPosition, origin, destination, ticks
      ensures Valid()
      ensures old(Stepping()) ==> position == (old(position) + 1) % 16 && ticksInPosition == 1
      ensures !old(Stepping()) ==> position == old(position) && ticksInPosition == (old(ticksInPosition) + 1) % 256
      ensures forall i: nat | i < LEDS ::
        LedAt(i) == if old(Stepping()) && Hit(position, starCount, i) then Led(0, 0, 0) else old(LedAt(i))
      ensures forall i: nat | i < LEDS ::
        active[i] == (old(active[i]) || (old(Stepping()) && Hit(position, starCount, i)))
    {
      if ticksInPosition == ticksBeforeAdvance {
        ticksInPosition := 0;
        position := (position + 1) % 16;
        RestartStars();
      }
      ticksInPosition := (ticksInPosition + 1) % 256;
    }

    method TickLeds()
      requires Valid()
      modifies origin, destination, ticks, pixels
      ensures Valid()
      ensures forall i: nat | i < ANIM_COUNT ::
        && old(active[i] ==> LedOk(table, LedAt(i)))
        && LedAt(i) == TickOne(table, active[i], old(LedAt(i))).0
        && pixels[i] == TickOne(table, active[i], old(LedAt(i))).1
      ensures forall i: nat | ANIM_COUNT <= i < LEDS :: LedAt(i) == old(LedAt(i))
      ensures forall i: nat | ANIM_COUNT <= i < PIXELS :: pixels[i] == old(pixels[i])
    {
      for k := 0 to ANIM_COUNT
        invariant Shape()
        invariant forall i: nat | i < LEDS :: old(active[i] ==> LedOk(table, LedAt(i)))
        invariant forall i: nat | i < k ::
          (LedAt(i), pixels[i]) == TickOne(table, active[i], old(LedAt(i)))
        invariant forall i: nat | k <= i < LEDS :: LedAt(i) == old(LedAt(i))
        invariant forall i: nat | k <= i < PIXELS :: pixels[i] == old(pixels[i])
      {
        TickLedAt(k);
      }
      forall i: nat | i < LEDS && active[i]
        ensures LedOk(table, LedAt(i))
      {
        if i < ANIM_COUNT { TickKeepsLed(table, old(LedAt(i))); }
      }
    }

    /**
     * One tick of the animation. Stars that step restart their LEDs; then every animated LED shows its color and moves
     * on, and the pixels beyond the animated ones are left alone.
     */
    method KeyframeAnimationTick()
      requires Valid()
      modifies this`active, this`position, this`ticksInPosition, origin, destination, ticks, pixels
      ensures Valid() && StarState() == old(StarState()).Tick()
      ensures forall i: nat | i < 12 ::
        var before := if old(Stepping()) && Hit(position, starCount, i) then Led(0, 0, 0) else old(LedAt(i));
        && (active[i] ==> LedOk(table, before))
        && LedAt(i) == TickOne(table, active[i], before).0
        && pixels[i] == TickOne(table, active[i], before).1
      ensures forall i: nat | i < 12 && !active[i] ::
        pixels[i] == Shade(table.frames[0].color) && LedAt(i).origin == LedAt(i).destination == 0
      ensures forall i: nat | 12 <= i < 18 :: pixels[i] == old(pixels[i])
    {
      if kind == ShootingStar { MoveStars(); }
      assert StarState() == old(StarState()).Tick();
      TickLeds();
    }

    method ResetKeyframedAnimationState()
      requires Shape()
      modifies this`position, this`ticksInPosition, origin, destination, ticks
      ensures position == 0 && ticksInPosition == 0
      ensures forall i: nat | i < LEDS :: LedAt(i) == Led(0, 0, 0)
    {
      position, ticksInPosition := 0, 0;
      for k := 0 to 8
        modifies origin, destination
        invariant forall j | 0 <= j < k :: origin[j] == Indices(0, 0) && destination[j] == Indices(0, 0)
      {
        origin[k], destination[k] := Indices(0, 0), Indices(0, 0);
      }
      for k := 0 to LEDS
        modifies ticks
        invariant forall j | 0 <= j < k :: ticks[j] == 0
      {
        ticks[k] := 0;
      }
    }

    method SetBlankAnimation()
      requires Valid()
      modifies this`active, this`position, this`ticksInPosition, origin, destination, ticks, pixels
      ensures Valid()
      ensures old(kind != ShootingStar || ticksBeforeAdvance != 0) ==>
        forall i: nat | i < ANIM_COUNT ::
          !active[i] && pixels[i] == Shade(table.frames[0].color) && LedAt(i) == Led(0, 0, 0)
      ensures StarState() == old(StarState()).Blanked().Tick()
      ensures forall i: nat | ANIM_COUNT <= i < PIXELS :: pixels[i] == old(pixels[i])
    {
      ResetKeyframedAnimationState();
      active := seq(LEDS, i => false);
      KeyframeAnimationTick();
    }

    method SetKeyframedCycleAnimation(frames: seq<Keyframe>, loopPoint: nat, mask: seq<bool>, offset: nat, refresh: nat)
      requires Shape() && |mask| == LEDS
      requires var t := Table(frames, loopPoint, refresh); t.Ok() && t.Last() / refresh > 0
      modifies this, origin, destination, ticks
      ensures Valid() && kind == Cycle && table == Table(frames, loopPoint, refresh) && active == mask
      ensures forall i: nat | i < LEDS :: LedAt(i) == Led(0, 0, Offset(i, offset, table.Last() / refresh))
    {
      table := Table(frames, loopPoint, refresh);
      kind := Cycle;
      active := mask;
      ResetKeyframedAnimationState();
      OffsetLeds(offset, table.Last() / refresh);
      ghost var t := table;
      forall i: nat ensures LedOk(t, Led(0, 0, Offset(i, offset, t.Last() / t.period))) {
        OffsetLedOk(t, i * offset);
      }
    }

    /** The sparkle effect: each LED starts a little later in the cycle than the one before. */
    method OffsetLeds(offset: nat, cycle: nat)
      requires Shape() && cycle > 0
      requires forall i: nat | i < LEDS :: LedAt(i) == Led(0, 0, 0)
      modifies ticks
      ensures forall i: nat | i < LEDS :: LedAt(i) == Led(0, 0, Offset(i, offset, cycle))
    {
      for k := 0 to LEDS
        modifies ticks
        invariant forall j | 0 <= j < k :: ticks[j] == Offset(j, offset, cycle)
      {
        ticks[k] := Offset(k, offset, cycle);
      }
      forall i: nat | i < LEDS ensures LedAt(i) == Led(0, 0, ticks[i]) { assert old(LedAt(i)) == Led(0, 0, 0); }
    }

    method SetShootingStarAnimation(stars: nat, interval: nat, frames: seq<Keyframe>)
      requires Shape() && 0 < stars <= LEDS && Table(frames, 0, 10).Ok()
      modifies this, origin, destination, ticks
      ensures Valid() && kind == ShootingStar && table == Table(frames, 0, 10) && starCount == stars
      ensures position == 0 && ticksInPosition == 0 && ticksBeforeAdvance == interval / 10 % 65536
      ensures forall i: nat | i < LEDS :: !active[i] && LedAt(i) == Led(0, 0, 0)
    {
      kind := ShootingStar;
      active := seq(LEDS, i => false);
      table := Table(frames, 0, 10);
      starCount := stars;
      ResetKeyframedAnimationState();
      ticksBeforeAdvance := interval / 10 % 65536;
    }
  }
}
