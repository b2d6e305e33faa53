/** What moves a badge from state to state, and no sooner than when (components/badge-network/network_handler.cpp). */
module Deadlines {
  import opened Score
  import opened Protocol

  /** In an exchange, or waiting for one. */
  predicate Open(h: Handler) { h.state == WAITING_FOR_PEER || h.state == SENDER || h.state == RECEIVER }

  predicate Final(h: Handler) { h.state == COMPLETED || h.state == TIMEOUT || h.state == CANCELLED }

  /** The call brings the badge a packet of this kind from its peer. */
  predicate FromPeer(h: Handler, c: Call, kind: PacketType) {
    c.Air? && c.p.kind == kind && c.p.sender == h.peer
  }

  // ---------------------------------------------------------------- what makes a badge change its state

  /** For each state, the calls that make a badge enter it. */
  lemma EntersExactlyWhen(h: Handler, me: nat, c: Call)
    requires Settled(h) && ClockOk(c)
    ensures var entered := Called(h, me, c).state;
      && (h.state != entered == WAITING_FOR_PEER <==> h.state == IDLE && c.Button?)
      && (h.state != entered == RECEIVER <==>
            h.state == WAITING_FOR_PEER && c.Air? && c.p.kind == SYNC_REQUEST && me < c.p.sender)
      && (h.state != entered == SENDER <==> h.state == WAITING_FOR_PEER && c.Air? && c.p.kind == SYNC_ACCEPT)
      && (h.state != entered == COMPLETED <==>
            (h.state == SENDER && FromPeer(h, c, ACK)) || (h.state == RECEIVER && FromPeer(h, c, ID_DATA)))
      && (h.state != entered == CANCELLED <==>
            (h.state == SENDER || h.state == RECEIVER) && FromPeer(h, c, CANCEL))
      && (h.state != entered == TIMEOUT <==> Open(h) && c.Tick? && c.now >= h.deadline)
      && (h.state != entered == IDLE <==> Final(h) && c.Tick? && c.now >= h.deadline)
  {
  }

  /** A peer is taken when an exchange opens, dropped on the way to IDLE, and kept otherwise. */
  lemma PeerExactlyWhen(h: Handler, me: nat, c: Call)
    requires Settled(h) && ClockOk(c)
    ensures var g := Called(h, me, c);
      g.peer == if g.state == IDLE then 0
                else if h.state == WAITING_FOR_PEER && (g.state == SENDER || g.state == RECEIVER) then c.p.sender
                else h.peer
  {
  }

  // ---------------------------------------------------------------- ten seconds

  /** A start of an IDLE badge, or a packet that opens its part of an exchange or asks for it again. */
  predicate Prompts(h: Handler, c: Call) {
    || (c.Button? && h.state == IDLE)
    || (c.Air? && h.state == WAITING_FOR_PEER && (c.p.kind == SYNC_REQUEST || c.p.kind == SYNC_ACCEPT))
    || (h.state == SENDER && FromPeer(h, c, SYNC_ACCEPT))
    || (h.state == RECEIVER && FromPeer(h, c, SYNC_REQUEST))
  }

  lemma PromptSetsDeadline(h: Handler, me: nat, c: Call)
    requires Settled(h) && ClockOk(c) && Prompts(h, c)
    ensures Open(Called(h, me, c)) && Called(h, me, c).deadline == c.now + 10000
  {
  }

  /** Every callback reads the clock before this moment. */
  predicate AllBefore(ticks: seq<(int, int)>, moment: int) { forall t | t in ticks :: t.0 < moment }

  lemma {:induction false} NothingBefore(h: Handler, ticks: seq<(int, int)>)
    requires Settled(h) && AllBefore(ticks, h.deadline)
    ensures Ticked(h, ticks) == h
    decreases |ticks|
  {
    if ticks != [] { NothingBefore(h, ticks[1..]); }
  }

  lemma TickSettled(h: Handler, t: (int, int))
    requires Settled(h) && 0 <= t.0 <= t.1
    ensures Settled(h.Timer(t.0, t.1))
  {
    SettledKept(h, 0, Tick(t.0, t.1));
  }

  /** The state after some calls from power-on, one more call, and timer callbacks. */
  ghost predicate After(stored: seq<nat>, level: nat, me: nat, calls: seq<Call>, c: Call, ticks: seq<(int, int)>,
      h: Handler, g: Handler, end: Handler)
  {
    && level <= MAX_LEVEL && (forall d | d in calls + [c] :: ClockOk(d)) && Clocked(ticks)
    && (forall d | d in calls + [c] + Callbacks(ticks) :: ClockOk(d))
    && h == AllCalls(PowerOn(stored, level), me, calls)
    && g == AllCalls(PowerOn(stored, level), me, calls + [c])
    && end == AllCalls(PowerOn(stored, level), me, calls + [c] + Callbacks(ticks))
  }

  lemma AfterIs(stored: seq<nat>, level: nat, me: nat, calls: seq<Call>, c: Call, ticks: seq<(int, int)>, h: Handler,
      g: Handler, end: Handler)
    requires After(stored, level, me, calls, c, ticks, h, g, end)
    ensures Settled(h) && ClockOk(c) && Settled(g) && g == Called(h, me, c) && end == Ticked(g, ticks)
  {
    assert (calls + [c])[..|calls|] == calls && c in calls + [c];
    SettledKept(h, me, c);
    TickedIsCalls(PowerOn(stored, level), me, calls + [c], ticks);
  }

  /**
   * No exchange dies early: ten seconds from the last start or packet that prompted the badge, callbacks leave it
   * exactly as it was; the first one read later ends it.
   */
  lemma OpenForTenSeconds(stored: seq<nat>, level: nat, me: nat, calls: seq<Call>, c: Call, ticks: seq<(int, int)>,
      h: Handler, g: Handler, end: Handler)
    requires After(stored, level, me, calls, c, ticks, h, g, end) && Prompts(h, c)
    ensures Open(g)
    ensures AllBefore(ticks, c.now + 10000) ==> end == g
    ensures !AllBefore(ticks, c.now + 10000) ==> end.state == TIMEOUT || end.state == IDLE
  {
    AfterIs(stored, level, me, calls, c, ticks, h, g, end);
    PromptSetsDeadline(h, me, c);
    if AllBefore(ticks, c.now + 10000) {
      NothingBefore(g, ticks);
    } else {
      EndedByTimeout(g, ticks);
    }
  }

  /** Callbacks take a badge to TIMEOUT and IDLE only. */
  lemma {:induction false} EndedByTimeout(h: Handler, ticks: seq<(int, int)>)
    requires Settled(h) && Clocked(ticks)
    requires h.state == TIMEOUT || h.state == IDLE || (Open(h) && !AllBefore(ticks, h.deadline))
    ensures Ticked(h, ticks).state == TIMEOUT || Ticked(h, ticks).state == IDLE
    decreases |ticks|
  {
    if ticks != [] {
      var next := h.Timer(ticks[0].0, ticks[0].1);
      TickSettled(h, ticks[0]);
      assert ticks == [ticks[0]] + ticks[1..];
      EndedByTimeout(next, ticks[1..]);
    }
  }

  // ---------------------------------------------------------------- three seconds

  /** The reading at which a call makes the badge enter a final state: the second, if it takes two. */
  function EntryReading(h: Handler, c: Call): int {
    if c.Tick? || (h.state == RECEIVER && FromPeer(h, c, ID_DATA)) then Latest(c) else c.now
  }

  lemma EntrySetsDeadline(h: Handler, me: nat, c: Call)
    requires Settled(h) && ClockOk(c) && Final(Called(h, me, c)) && Called(h, me, c).state != h.state
    ensures Called(h, me, c).deadline == EntryReading(h, c) + 3000
  {
  }

  /** The deadline after any call: whatever neither prompts the badge nor changes its state leaves it alone. */
  lemma DeadlineExactly(h: Handler, me: nat, c: Call)
    requires Settled(h) && ClockOk(c)
    ensures var g := Called(h, me, c);
      g.deadline == if Prompts(h, c) then c.now + 10000
                    else if g.state == h.state then h.deadline
                    else if g.state == IDLE then 0 else EntryReading(h, c) + 3000
  {
  }

  /** A call writes to flash, and raises the level, exactly if it completes an exchange with a peer not listed yet. */
  lemma RecordsExactlyWhen(h: Handler, me: nat, c: Call)
    requires Settled(h) && ClockOk(c)
    ensures var g := Called(h, me, c);
      (g.stored, g.level) == if h.state != COMPLETED && g.state == COMPLETED && h.peer !in h.stored
        then (if |h.stored| < 65535 then h.stored + [h.peer] else [], LevelUp(h.level)) else (h.stored, h.level)
  {
  }

  lemma {:induction false} FinalUntil(h: Handler, ticks: seq<(int, int)>)
    requires Settled(h) && Final(h) && Clocked(ticks)
    ensures Ticked(h, ticks).state == IDLE <==> !AllBefore(ticks, h.deadline)
    decreases |ticks|
  {
    if ticks != [] {
      var next := h.Timer(ticks[0].0, ticks[0].1);
      TickSettled(h, ticks[0]);
      assert ticks == [ticks[0]] + ticks[1..];
      if next.state == IDLE { StaysIdle(next, ticks[1..]); } else { FinalUntil(h, ticks[1..]); }
    }
  }

  /** A badge shows the outcome for three seconds: callbacks leave it there until then, and then it is IDLE. */
  lemma FinalForThreeSeconds(stored: seq<nat>, level: nat, me: nat, calls: seq<Call>, c: Call, ticks: seq<(int, int)>,
      h: Handler, g: Handler, end: Handler)
    requires After(stored, level, me, calls, c, ticks, h, g, end) && Final(g) && g.state != h.state
    ensures AllBefore(ticks, EntryReading(h, c) + 3000) ==> end == g
    ensures end.state == IDLE <==> !AllBefore(ticks, EntryReading(h, c) + 3000)
  {
    AfterIs(stored, level, me, calls, c, ticks, h, g, end);
    EntrySetsDeadline(h, me, c);
    FinalUntil(g, ticks);
    if AllBefore(ticks, g.deadline) { NothingBefore(g, ticks); }
  }
}
