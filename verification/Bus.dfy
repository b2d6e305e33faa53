/**
 * The clocked bit bus between dock and badge (dock-code/src/qkd/qkd.cpp, ctf-components/quantum/qkd.cpp): the dock
 * drives the clock and counts milliseconds, the badge polls.
 */
module Bus {

  /**
   * What a party's program does with the next bit: the dock sends on s2c and reads c2s, the badge the other way round.
   */
  datatype Op = Send | Read

  /** Milliseconds the dock waits after each thing it does to the lines. */
  const HALF_PERIOD: nat := 30

  /** Each party's own program, bit by bit, and what it sends given the bits it has sent and read so far. */
  datatype Plan = Plan(dockOps: seq<Op>, badgeOps: seq<Op>, dock: seq<bool> -> bool, badge: seq<bool> -> bool)
  {
    function DockSends(n: nat): bool { n < |dockOps| && dockOps[n] == Send }
    function BadgeSends(n: nat): bool { n < |badgeOps| && badgeOps[n] == Send }

    /** Where one program sends the other reads, to the end of both. */
    ghost predicate Complementary() {
      |dockOps| == |badgeOps| && forall n | 0 <= n < |dockOps| :: dockOps[n] != badgeOps[n]
    }

    function BitAfter(sofar: seq<bool>): bool {
      if DockSends(|sofar|) then dock(sofar) else badge(sofar)
    }

    /** The first n bits of the conversation the plan describes. */
    function Ideal(n: nat): (bits: seq<bool>)
      ensures |bits| == n
    {
      if n == 0 then [] else Ideal(n - 1) + [BitAfter(Ideal(n - 1))]
    }
  }

  datatype DockPhase = Idle | Prepared | ClockHigh
  datatype BadgePhase = AwaitHigh | AwaitLow

  /** The lines, both programs' positions, and the milliseconds since each last did something. */
  datatype State = State(
    clock: bool, s2c: bool, c2s: bool,
    dockPhase: DockPhase, dockBits: seq<bool>, sinceDock: nat,
    badgePhase: BadgePhase, badgeBits: seq<bool>, sampled: bool, sincePoll: nat)

  /** What the badge drives on c2s while it waits for bit n: the bit if it is to send one, low otherwise. */
  function BadgeDrives(p: Plan, bits: seq<bool>): bool {
    p.BadgeSends(|bits|) && p.badge(bits)
  }

  function Start(p: Plan): State {
    State(false, false, BadgeDrives(p, []), Idle, [], 0, AwaitHigh, [], false, 0)
  }

  /** Setting the data line for the next bit, or merely waiting when the badge is to send. */
  predicate DockPrepares(p: Plan, s: State, t: State) {
    && s.dockPhase == Idle && |s.dockBits| < |p.dockOps| && s.sinceDock >= HALF_PERIOD
    && t == s.(dockPhase := Prepared, sinceDock := 0,
               s2c := if p.DockSends(|s.dockBits|) then p.dock(s.dockBits) else s.s2c)
  }

  predicate DockRaises(s: State, t: State) {
    && s.dockPhase == Prepared && s.sinceDock >= HALF_PERIOD
    && t == s.(dockPhase := ClockHigh, sinceDock := 0, clock := true)
  }

  /** A reading dock samples c2s right before the falling edge. */
  predicate DockLowers(p: Plan, s: State, t: State) {
    && s.dockPhase == ClockHigh && s.sinceDock >= HALF_PERIOD
    && t == s.(dockPhase := Idle, sinceDock := 0, clock := false,
               dockBits := s.dockBits + [if p.DockSends(|s.dockBits|) then p.dock(s.dockBits) else s.c2s])
  }

  /** After its last bit a sending dock drives the data line low. */
  predicate DockReleases(s: State, t: State) {
    s.dockPhase == Idle && t == s.(s2c := false)
  }

  /** One look at the clock, and what follows before the next wait; a finished program no longer looks. */
  function Poll(p: Plan, s: State): State {
    var now := s.(sincePoll := 0);
    if |s.badgeBits| >= |p.badgeOps| then now
    else if s.badgePhase == AwaitHigh then
      if !s.clock then now else now.(badgePhase := AwaitLow, sampled := s.s2c)
    else if s.clock then now
    else
      var bits := s.badgeBits + [if p.BadgeSends(|s.badgeBits|) then p.badge(s.badgeBits) else s.sampled];
      now.(badgePhase := AwaitHigh, badgeBits := bits, c2s := BadgeDrives(p, bits))
  }

  /** Time passes, but the badge never goes `gap` milliseconds without a look at the clock. */
  predicate TimePasses(gap: nat, s: State, t: State) {
    && s.sincePoll <= t.sincePoll <= gap
    && t == s.(sinceDock := s.sinceDock + t.sincePoll - s.sincePoll, sincePoll := t.sincePoll)
  }

  ghost predicate Next(p: Plan, gap: nat, s: State, t: State) {
    DockPrepares(p, s, t) || DockRaises(s, t) || DockLowers(p, s, t) || DockReleases(s, t)
    || t == Poll(p, s) || TimePasses(gap, s, t)
  }

  ghost predicate IsRun(p: Plan, gap: nat, states: seq<State>) {
    && states != [] && states[0] == Start(p)
    && forall i: nat | i + 1 < |states| :: Next(p, gap, states[i], states[i + 1])
  }

  // ---------------------------------------------------------------- the invariant

  /** The badge has seen the last edge, and waits for the opposite one. */
  ghost predicate CaughtUp(p: Plan, s: State) {
    && |s.badgeBits| == |s.dockBits|
    && (s.badgePhase == AwaitLow <==> s.clock)
    && (s.clock && p.DockSends(|s.dockBits|) ==> s.sampled == p.dock(s.dockBits))
  }

  /** The badge has not looked since the last edge. */
  ghost predicate Behind(p: Plan, s: State) {
    && s.sinceDock <= s.sincePoll && s.dockPhase != Prepared
    && (if s.clock then s.badgePhase == AwaitHigh && |s.badgeBits| == |s.dockBits|
        else s.badgePhase == AwaitLow && |s.badgeBits| + 1 == |s.dockBits|
             && (p.DockSends(|s.badgeBits|) ==> s.sampled == p.dock(s.badgeBits)))
  }

  ghost predicate Inv(p: Plan, gap: nat, s: State) {
    && p.Complementary()
    && s.dockBits == p.Ideal(|s.dockBits|) && s.badgeBits == p.Ideal(|s.badgeBits|)
    && |s.dockBits| <= |p.dockOps| && (s.dockPhase != Idle ==> |s.dockBits| < |p.dockOps|)
    && (s.clock <==> s.dockPhase == ClockHigh)
    && (s.dockPhase != Idle && p.DockSends(|s.dockBits|) ==> s.s2c == p.dock(s.dockBits))
    && s.c2s == BadgeDrives(p, s.badgeBits)
    && s.sincePoll <= gap
    && (CaughtUp(p, s) || Behind(p, s))
  }

  lemma DockKeepsInv(p: Plan, gap: nat, s: State, t: State)
    requires gap < HALF_PERIOD && Inv(p, gap, s)
    requires DockPrepares(p, s, t) || DockRaises(s, t) || DockLowers(p, s, t) || DockReleases(s, t)
    ensures Inv(p, gap, t)
  {
  }

  lemma PollKeepsInv(p: Plan, gap: nat, s: State)
    requires Inv(p, gap, s)
    ensures Inv(p, gap, Poll(p, s)) && CaughtUp(p, Poll(p, s))
  {
  }

  /** Every step keeps the invariant, provided the badge looks at the clock more often than the dock turns it. */
  lemma NextKeepsInv(p: Plan, gap: nat, s: State, t: State)
    requires gap < HALF_PERIOD && Inv(p, gap, s) && Next(p, gap, s, t)
    ensures Inv(p, gap, t)
  {
    if t == Poll(p, s) {
      PollKeepsInv(p, gap, s);
    } else if !TimePasses(gap, s, t) {
      DockKeepsInv(p, gap, s, t);
    }
  }

  lemma {:induction false} RunsKeepInv(p: Plan, gap: nat, states: seq<State>)
    requires p.Complementary() && gap < HALF_PERIOD && IsRun(p, gap, states)
    ensures Inv(p, gap, states[|states| - 1])
  {
    if |states| > 1 {
      var front := states[..|states| - 1];
      RunsKeepInv(p, gap, front);
      assert Next(p, gap, states[|states| - 2], states[|states| - 2 + 1]);
      NextKeepsInv(p, gap, front[|front| - 1], states[|states| - 1]);
    }
  }

  // ---------------------------------------------------------------- lossless, exactly when the badge polls fast enough

  lemma {:induction false} IdealPrefix(p: Plan, m: nat, n: nat)
    requires m <= n
    ensures p.Ideal(n)[..m] == p.Ideal(m)
  {
    if m < n { IdealPrefix(p, m, n - 1); }
  }

  /** At every moment both parties hold a prefix of the planned conversation, the badge at most one bit behind. */
  lemma Lossless(p: Plan, gap: nat, states: seq<State>)
    requires p.Complementary() && gap < HALF_PERIOD && IsRun(p, gap, states)
    ensures var s := states[|states| - 1]; var all := p.Ideal(|p.dockOps|);
      && |s.badgeBits| <= |s.dockBits| <= |s.badgeBits| + 1 && |s.dockBits| <= |all|
      && s.dockBits == all[..|s.dockBits|] && s.badgeBits == all[..|s.badgeBits|]
  {
    RunsKeepInv(p, gap, states);
    var s := states[|states| - 1];
    IdealPrefix(p, |s.dockBits|, |p.dockOps|);
    IdealPrefix(p, |s.badgeBits|, |p.dockOps|);
  }

  /** When the badge has its last bit both hold the whole conversation, with the clock and the badge's line low. */
  lemma Completed(p: Plan, gap: nat, states: seq<State>)
    requires p.Complementary() && gap < HALF_PERIOD && IsRun(p, gap, states)
    requires |states[|states| - 1].badgeBits| >= |p.dockOps|
    ensures var s := states[|states| - 1];
      s.dockBits == p.Ideal(|p.dockOps|) && s.badgeBits == s.dockBits && !s.clock && !s.c2s
  {
    RunsKeepInv(p, gap, states);
  }

  /** The dock has finished, the clock is low, and the badge still waits for a rising edge. */
  ghost predicate Lost(p: Plan, s: State) {
    && s.dockPhase == Idle && |s.dockBits| >= |p.dockOps| && !s.clock
    && s.badgePhase == AwaitHigh && |s.badgeBits| < |p.badgeOps|
  }

  function Last(states: seq<State>): State
    requires states != []
  {
    states[|states| - 1]
  }

  /** The milliseconds that pass in one step: only the passing of time lets the dock's timer grow. */
  function Passed(s: State, t: State): nat {
    if s.sinceDock < t.sinceDock then t.sinceDock - s.sinceDock else 0
  }

  /** The milliseconds a run lasts. */
  function Elapsed(states: seq<State>): nat {
    if |states| < 2 then 0
    else Elapsed(states[..|states| - 1]) + Passed(states[|states| - 2], states[|states| - 1])
  }

  lemma Extend(p: Plan, gap: nat, states: seq<State>, t: State) returns (more: seq<State>)
    requires IsRun(p, gap, states) && Next(p, gap, Last(states), t)
    ensures more == states + [t] && IsRun(p, gap, more) && Last(more) == t
    ensures Elapsed(more) == Elapsed(states) + Passed(Last(states), t)
  {
    more := states + [t];
    assert more[..|more| - 1] == states;
  }

  /** Between two bits, the badge not having seen an edge yet. */
  ghost predicate Unseen(p: Plan, s: State) {
    && s.dockPhase == Idle && |s.dockBits| <= |p.dockOps| && !s.clock
    && s.badgePhase == AwaitHigh && s.badgeBits == []
  }

  /** Half a period passes, and then the badge looks at a clock that is low. */
  lemma LooksTooLate(p: Plan, gap: nat, states: seq<State>) returns (more: seq<State>)
    requires gap >= HALF_PERIOD && IsRun(p, gap, states)
    requires var s := Last(states); !s.clock && s.badgePhase == AwaitHigh && s.badgeBits == [] && s.sincePoll == 0
    ensures IsRun(p, gap, more)
    ensures Last(more) == Last(states).(sinceDock := Last(states).sinceDock + HALF_PERIOD)
  {
    var s := Last(states);
    s := s.(sinceDock := s.sinceDock + HALF_PERIOD, sincePoll := HALF_PERIOD);
    more := Extend(p, gap, states, s);
    more := Extend(p, gap, more, Poll(p, s));
  }

  /** The dock raises the clock, and lowers it half a period later. */
  lemma Pulse(p: Plan, gap: nat, states: seq<State>) returns (more: seq<State>)
    requires gap >= HALF_PERIOD && IsRun(p, gap, states)
    requires var s := Last(states);
      && s.dockPhase == Prepared && s.sinceDock >= HALF_PERIOD && !s.clock && |s.dockBits| < |p.dockOps|
      && s.badgePhase == AwaitHigh && s.badgeBits == [] && s.sincePoll == 0
    ensures IsRun(p, gap, more) && |Last(more).dockBits| == |Last(states).dockBits| + 1 && Unseen(p, Last(more))
  {
    var s := Last(states).(dockPhase := ClockHigh, sinceDock := 0, clock := true);
    more := Extend(p, gap, states, s);
    s := s.(sinceDock := HALF_PERIOD, sincePoll := HALF_PERIOD);
    more := Extend(p, gap, more, s);
    var bit := if p.DockSends(|s.dockBits|) then p.dock(s.dockBits) else s.c2s;
    s := s.(dockPhase := Idle, sinceDock := 0, clock := false, dockBits := s.dockBits + [bit]);
    more := Extend(p, gap, more, s);
  }

  /** Polling no faster than the dock turns its clock, the badge can miss a whole pulse ... */
  lemma PulseMissed(p: Plan, gap: nat, states: seq<State>) returns (more: seq<State>)
    requires gap >= HALF_PERIOD && IsRun(p, gap, states) && Unseen(p, Last(states))
    requires |Last(states).dockBits| < |p.dockOps|
    ensures IsRun(p, gap, more) && |Last(more).dockBits| == |Last(states).dockBits| + 1 && Unseen(p, Last(more))
  {
    more := Extend(p, gap, states, Poll(p, Last(states)));
    more := LooksTooLate(p, gap, more);
    var s := Last(more);
    s := s.(dockPhase := Prepared, sinceDock := 0,
            s2c := if p.DockSends(|s.dockBits|) then p.dock(s.dockBits) else s.s2c);
    more := Extend(p, gap, more, s);
    more := LooksTooLate(p, gap, more);
    more := Pulse(p, gap, more);
  }

  /** ... and any number of them. */
  lemma {:induction false} PulsesMissed(p: Plan, gap: nat, n: nat) returns (states: seq<State>)
    requires gap >= HALF_PERIOD && n <= |p.dockOps|
    ensures IsRun(p, gap, states) && Unseen(p, Last(states)) && |Last(states).dockBits| == n
  {
    states := [Start(p)];
    if n > 0 {
      states := PulsesMissed(p, gap, n - 1);
      states := PulseMissed(p, gap, states);
    }
  }

  /** Whatever the conversation, if the badge has a bit to wait for it can miss every pulse. */
  lemma SlowPollLosesBit(p: Plan, gap: nat) returns (states: seq<State>)
    requires gap >= HALF_PERIOD && p.badgeOps != []
    ensures IsRun(p, gap, states) && Lost(p, Last(states))
  {
    states := PulsesMissed(p, gap, |p.dockOps|);
  }

  /** So 30 ms is the exact bound: bits can be lost if and only if the badge may go that long without a look. */
  lemma LossExactlyWhen(p: Plan, gap: nat)
    requires p.Complementary() && p.badgeOps != []
    ensures (exists states :: IsRun(p, gap, states) && Lost(p, Last(states))) <==> gap >= 30
  {
    if gap >= HALF_PERIOD {
      var states := SlowPollLosesBit(p, gap);
    } else {
      forall states | IsRun(p, gap, states) ensures !Lost(p, Last(states)) { RunsKeepInv(p, gap, states); }
    }
  }

  /** A badge that has lost a bit never gets it. */
  lemma LostForever(p: Plan, gap: nat, s: State, t: State)
    requires Lost(p, s) && Next(p, gap, s, t)
    ensures Lost(p, t)
  {
  }

  // ---------------------------------------------------------------- every run can be completed

  /** A poll in vain, and then a millisecond. */
  lemma WaitOne(p: Plan, gap: nat, states: seq<State>) returns (more: seq<State>)
    requires 0 < gap && IsRun(p, gap, states) && CaughtUp(p, Last(states))
    ensures IsRun(p, gap, more) && states <= more && Elapsed(more) == Elapsed(states) + 1
    ensures Last(more) == Last(states).(sinceDock := Last(states).sinceDock + 1, sincePoll := 1)
  {
    var s := Last(states);
    var polled := s.(sincePoll := 0);
    assert polled == Poll(p, s);
    more := Extend(p, gap, states, polled);
    var later := polled.(sinceDock := s.sinceDock + 1, sincePoll := 1);
    assert TimePasses(gap, polled, later);
    more := Extend(p, gap, more, later);
  }

  /** Time can pass while the badge polls in vain. */
  lemma {:induction false} Wait(p: Plan, gap: nat, states: seq<State>, ms: nat) returns (more: seq<State>)
    requires 0 < gap && IsRun(p, gap, states) && CaughtUp(p, Last(states))
    ensures IsRun(p, gap, more) && states <= more && CaughtUp(p, Last(more))
    ensures Last(more) == Last(states).(sinceDock := Last(states).sinceDock + ms, sincePoll := Last(more).sincePoll)
    ensures Elapsed(more) == Elapsed(states) + ms
  {
    more := states;
    if ms > 0 {
      more := Wait(p, gap, states, ms - 1);
      more := WaitOne(p, gap, more);
    }
  }

  /** The dock's actions still to come. */
  function Work(p: Plan, s: State): int {
    3 * (|p.dockOps| - |s.dockBits|) - (match s.dockPhase case Idle => 0 case Prepared => 1 case ClockHigh => 2)
  }

  /** The dock's next action. */
  function DockActs(p: Plan, s: State): State {
    match s.dockPhase
    case Idle => s.(dockPhase := Prepared, sinceDock := 0,
                    s2c := if p.DockSends(|s.dockBits|) then p.dock(s.dockBits) else s.s2c)
    case Prepared => s.(dockPhase := ClockHigh, sinceDock := 0, clock := true)
    case ClockHigh => s.(dockPhase := Idle, sinceDock := 0, clock := false,
                         dockBits := s.dockBits + [if p.DockSends(|s.dockBits|) then p.dock(s.dockBits) else s.c2s])
  }

  lemma DockCanAct(p: Plan, gap: nat, s: State)
    requires Inv(p, gap, s) && |s.dockBits| < |p.dockOps| && s.sinceDock >= HALF_PERIOD
    ensures Next(p, gap, s, DockActs(p, s)) && Work(p, DockActs(p, s)) == Work(p, s) - 1
  {
  }

  lemma PollKeepsWork(p: Plan, s: State)
    ensures Work(p, Poll(p, s)) == Work(p, s)
  {
  }

  /** One more action of the dock, and a poll that catches up with it. */
  lemma Turn(p: Plan, gap: nat, states: seq<State>) returns (more: seq<State>)
    requires p.Complementary() && 0 < gap < HALF_PERIOD && IsRun(p, gap, states) && CaughtUp(p, Last(states))
    requires |Last(states).dockBits| < |p.dockOps|
    ensures IsRun(p, gap, more) && states <= more && CaughtUp(p, Last(more))
    ensures Work(p, Last(more)) == Work(p, Last(states)) - 1
    ensures Elapsed(more) == Elapsed(states) + HALF_PERIOD
  {
    more := Wait(p, gap, states, HALF_PERIOD);
    RunsKeepInv(p, gap, more);
    more := Act(p, gap, more);
    RunsKeepInv(p, gap, more);
    more := CatchUp(p, gap, more);
  }

  lemma Act(p: Plan, gap: nat, states: seq<State>) returns (more: seq<State>)
    requires IsRun(p, gap, states) && Inv(p, gap, Last(states))
    requires |Last(states).dockBits| < |p.dockOps| && Last(states).sinceDock >= HALF_PERIOD
    ensures IsRun(p, gap, more) && states <= more && Elapsed(more) == Elapsed(states)
    ensures Work(p, Last(more)) == Work(p, Last(states)) - 1
  {
    DockCanAct(p, gap, Last(states));
    more := Extend(p, gap, states, DockActs(p, Last(states)));
  }

  lemma CatchUp(p: Plan, gap: nat, states: seq<State>) returns (more: seq<State>)
    requires IsRun(p, gap, states) && Inv(p, gap, Last(states))
    ensures IsRun(p, gap, more) && states <= more && Elapsed(more) == Elapsed(states)
    ensures CaughtUp(p, Last(more)) && Work(p, Last(more)) == Work(p, Last(states))
  {
    PollKeepsInv(p, gap, Last(states));
    PollKeepsWork(p, Last(states));
    more := Extend(p, gap, states, Poll(p, Last(states)));
  }

  lemma {:induction false} Finish(p: Plan, gap: nat, states: seq<State>) returns (more: seq<State>)
    requires p.Complementary() && 0 < gap < HALF_PERIOD && IsRun(p, gap, states) && CaughtUp(p, Last(states))
    ensures IsRun(p, gap, more) && states <= more && Last(more).badgeBits == p.Ideal(|p.dockOps|)
    ensures |Last(states).dockBits| <= |p.dockOps|
    ensures Elapsed(more) == Elapsed(states) + HALF_PERIOD * Work(p, Last(states))
    decreases Work(p, Last(states))
  {
    RunsKeepInv(p, gap, states);
    more := states;
    if |Last(states).dockBits| < |p.dockOps| {
      var turned := Turn(p, gap, states);
      more := Finish(p, gap, turned);
    }
  }

  /** No run is stuck: any of them can be continued until the badge holds the whole conversation. */
  lemma EveryRunCanComplete(p: Plan, gap: nat, states: seq<State>) returns (more: seq<State>)
    requires p.Complementary() && 0 < gap < HALF_PERIOD && IsRun(p, gap, states)
    ensures IsRun(p, gap, more) && states <= more && Last(more).badgeBits == p.Ideal(|p.dockOps|)
  {
    RunsKeepInv(p, gap, states);
    var polled := CatchUp(p, gap, states);
    more := Finish(p, gap, polled);
  }

  // ---------------------------------------------------------------- how long it takes

  /** What the dock has done takes 90 ms a bit, 30 ms for each thing it does to the lines. */
  function Needed(s: State): nat {
    s.sinceDock + 90 * |s.dockBits| + match s.dockPhase case Idle => 0 case Prepared => 30 case ClockHigh => 60
  }

  lemma StepTakes(p: Plan, gap: nat, s: State, t: State)
    requires Next(p, gap, s, t)
    ensures Needed(t) <= Needed(s) + Passed(s, t)
  {
  }

  lemma {:induction false} RunTakes(p: Plan, gap: nat, states: seq<State>)
    requires IsRun(p, gap, states)
    ensures Elapsed(states) >= Needed(Last(states)) >= 90 * |Last(states).dockBits|
  {
    if |states| > 1 {
      RunTakes(p, gap, states[..|states| - 1]);
      assert Next(p, gap, states[|states| - 2], states[|states| - 2 + 1]);
      StepTakes(p, gap, states[|states| - 2], states[|states| - 1]);
    }
  }

  /** A conversation of n bits takes at least 90 n ms, and with a badge that polls fast enough it can take just that. */
  lemma FastestExchange(p: Plan, gap: nat) returns (states: seq<State>)
    requires p.Complementary() && 0 < gap < 30
    ensures IsRun(p, gap, states) && Last(states).badgeBits == p.Ideal(|p.dockOps|)
    ensures Elapsed(states) == 90 * |p.dockOps|
    ensures forall other :: IsRun(p, gap, other) && |Last(other).badgeBits| >= |p.dockOps| ==>
      Elapsed(other) >= 90 * |p.dockOps|
  {
    var start := [Start(p)];
    RunsKeepInv(p, gap, start);
    states := Finish(p, gap, start);
    forall other | IsRun(p, gap, other) && |Last(other).badgeBits| >= |p.dockOps|
      ensures Elapsed(other) >= 90 * |p.dockOps|
    {
      RunsKeepInv(p, gap, other);
      RunTakes(p, gap, other);
    }
  }

  // ---------------------------------------------------------------- the data line

  /** The dock's data line is only ever high because the dock has put a 1 of the conversation on it. */
  lemma {:induction false} LineHighMeansOne(p: Plan, gap: nat, states: seq<State>)
    requires p.Complementary() && gap < 30 && IsRun(p, gap, states) && Last(states).s2c
    ensures exists n: nat ::
      n <= |Last(states).dockBits| && p.DockSends(n) && p.dock(p.Ideal(n))
  {
    var front := states[..|states| - 1];
    assert |states| > 1;
    assert Next(p, gap, states[|states| - 2], states[|states| - 2 + 1]);
    RunsKeepInv(p, gap, front);
    RaisedForOne(p, gap, Last(front), Last(states));
    if Last(front).s2c { LineHighMeansOne(p, gap, front); }
  }

  lemma RaisedForOne(p: Plan, gap: nat, s: State, t: State)
    requires Next(p, gap, s, t) && t.s2c
    ensures |s.dockBits| <= |t.dockBits|
    ensures s.s2c || (p.DockSends(|s.dockBits|) && p.dock(s.dockBits))
  {
  }
}
