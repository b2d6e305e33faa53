/**
 The infrared pairing state machine of one badge (components/badge-network/network_handler.cpp).

 Badge ids are the numbers their bytes spell; on the air only the low three bytes travel, and the
 receiver pads them with zeros, so a peer is known by that 24-bit number.  Clock readings are
 parameters: `now` is the first reading a call takes, `later` the second.
*/
module Protocol {
  import opened Score
  import opened BadgeStore

  const TIMEOUT_MS: int := 10000
  const IDLE_DELAY_MS: int := 3000
  const NOBODY: nat := 0   // the all-zero id _reset_exchange_state writes

  datatype IrState = IDLE | WAITING_FOR_PEER | SENDER | RECEIVER | COMPLETED | TIMEOUT | CANCELLED

  datatype PacketType = SYNC_REQUEST | SYNC_ACCEPT | ID_DATA | ACK | CANCEL | UNKNOWN

  datatype Packet = Packet(kind: PacketType, sender: nat)

  /**
   Everything one badge keeps.  `finishing` marks the stretch of the RECEIVER's ID_DATA handler after
   its ACK has left the antenna and before the peer is recorded; the mutex is held throughout it.
  */
  datatype Handler = Handler(state: IrState, peer: nat, deadline: int, finishing: bool,
                             stored: seq<nat>, level: nat)
  {
    function Reset(): Handler { this.(peer := NOBODY, deadline := 0) }

    /** _handle_successful_sync: record the peer unless it is already listed. */
    function Synced(): Handler
      requires level < 256
    {
      if peer in stored then this
      else this.(stored := Saved(stored, peer), level := LevelUp(level))
    }

    /** _set_ir_protocol_state with its entry actions. */
    function Enter(next: IrState): Handler
      requires level < 256
    {
      if state == next then this
      else if next == IDLE then this.(state := next).Reset()
      else if next == COMPLETED then this.(state := next).Synced()
      else this.(state := next)
    }

    /** start_ir_key_exchange; `now` is read after the random delay. */
    function Start(now: int): (Handler, seq<PacketType>)
      requires level < 256
    {
      if state != IDLE then (this, [])
      else (Reset().Enter(WAITING_FOR_PEER).(deadline := now + TIMEOUT_MS), [SYNC_REQUEST])
    }

    /** _handle_received_ir_packet up to and including its transmission. */
    function Receive(me: nat, p: Packet, now: int): (Handler, seq<PacketType>)
      requires level < 256
    {
      if state == COMPLETED || state == TIMEOUT || state == CANCELLED then (this, [])
      else if p.kind == CANCEL then
        if Active() && p.sender == peer then (Enter(CANCELLED).(deadline := now + IDLE_DELAY_MS), [])
        else (this, [])
      else if Active() && p.sender != peer then (this, [])
      else if state == WAITING_FOR_PEER then
        if p.kind == SYNC_REQUEST then
          var waiting := this.(deadline := now + TIMEOUT_MS);
          if me < p.sender then (waiting.(peer := p.sender).Enter(RECEIVER), [SYNC_ACCEPT])
          else (waiting, [])
        else if p.kind == SYNC_ACCEPT then
          (this.(peer := p.sender, deadline := now + TIMEOUT_MS).Enter(SENDER), [ID_DATA])
        else (this, [])
      else if state == SENDER then
        if p.kind == ACK then (Enter(COMPLETED).(deadline := now + IDLE_DELAY_MS), [])
        else if p.kind == SYNC_ACCEPT then (this.(deadline := now + TIMEOUT_MS), [ID_DATA])
        else (this, [])
      else if state == RECEIVER then
        if p.kind == ID_DATA then (this.(deadline := now + TIMEOUT_MS, finishing := true), [ACK])
        else if p.kind == SYNC_REQUEST then (this.(deadline := now + TIMEOUT_MS), [SYNC_ACCEPT])
        else (this, [])
      else (this, [])
    }

    predicate Active() { state == SENDER || state == RECEIVER }

    /** The rest of the RECEIVER's ID_DATA handler. */
    function Finish(later: int): Handler
      requires level < 256
    {
      this.(finishing := false).Enter(COMPLETED).(deadline := later + IDLE_DELAY_MS)
    }

    /** A whole call of _handle_received_ir_packet. */
    function Handled(me: nat, p: Packet, now: int, later: int): (Handler, seq<PacketType>)
      requires level < 256
    {
      var (h, sent) := Receive(me, p, now);
      (if h.finishing && h.level < 256 then h.Finish(later) else h, sent)
    }

    /** _check_ir_timeouts. */
    function Timer(now: int, later: int): Handler
      requires level < 256
    {
      if deadline <= 0 || now < deadline then this
      else if state == WAITING_FOR_PEER || Active() then Enter(TIMEOUT).(deadline := later + IDLE_DELAY_MS)
      else if state == IDLE then this.(deadline := 0)
      else Enter(IDLE)
    }
  }

  /** A badge at power-on, with whatever its flash holds. */
  function PowerOn(stored: seq<nat>, level: nat): Handler {
    Handler(IDLE, NOBODY, 0, false, stored, level)
  }

  // ---------------------------------------------------------------- one badge, any sequence of calls

  datatype Call =
    | Button(now: int)
    | Air(p: Packet, now: int, later: int)
    | Tick(now: int, later: int)

  /** What every call keeps while the mutex is free. */
  predicate Settled(h: Handler) {
    && !h.finishing && h.level <= MAX_LEVEL
    && (h.state == IDLE <==> h.deadline == 0)
    && h.deadline >= 0
    && (h.state == IDLE ==> h.peer == NOBODY)
    && (h.state == COMPLETED ==> h.peer in h.stored || h.stored == [])
  }

  function Called(h: Handler, me: nat, c: Call): Handler
    requires h.level < 256
  {
    match c
    case Button(now) => h.Start(now).0
    case Air(p, now, later) => h.Handled(me, p, now, later).0
    case Tick(now, later) => h.Timer(now, later)
  }

  predicate ClockOk(c: Call) {
    match c
    case Button(now) => 0 <= now
    case Air(_, now, later) => 0 <= now <= later
    case Tick(now, later) => 0 <= now <= later
  }

  /** The deadline is armed exactly outside IDLE, the level stays capped, and a completed exchange is on record. */
  lemma SettledKept(h: Handler, me: nat, c: Call)
    requires Settled(h) && ClockOk(c)
    ensures Settled(Called(h, me, c))
  {
  }

  /** Any sequence of calls keeps it. */
  function AllCalls(h: Handler, me: nat, calls: seq<Call>): (after: Handler)
    requires Settled(h) && forall c | c in calls :: ClockOk(c)
    ensures Settled(after)
  {
    if calls == [] then h
    else
      var before := AllCalls(h, me, calls[..|calls| - 1]);
      SettledKept(before, me, calls[|calls| - 1]);
      Called(before, me, calls[|calls| - 1])
  }

  /**
   * The `case IDLE` arm of the timer cannot run: after any calls from power-on no armed deadline finds the badge IDLE.
   */
  lemma IdleArmUnreachable(stored: seq<nat>, level: nat, me: nat, calls: seq<Call>, now: int)
    requires level <= MAX_LEVEL && forall c | c in calls :: ClockOk(c)
    ensures Settled(PowerOn(stored, level))
    ensures var h := AllCalls(PowerOn(stored, level), me, calls);
      0 < h.deadline <= now ==> h.state != IDLE
  {
  }

  predicate HasPeer(h: Handler) { h.Active() || h.state == COMPLETED }

  /** A call keeps an exchange and its peer, or opens one with the sender of the packet it handles, or leaves none. */
  predicate PeerMoves(h: Handler, c: Call, g: Handler) {
    HasPeer(g) ==>
      || (HasPeer(h) && g.peer == h.peer)
      || (h.state == WAITING_FOR_PEER && c.Air? && g.peer == c.p.sender)
  }

  lemma CallsMovePeer(h: Handler, me: nat, c: Call)
    requires Settled(h)
    ensures PeerMoves(h, c, Called(h, me, c))
  {
  }

  /** Call k, while waiting, made its packet's sender the peer, and the exchange it opened lasts until call n. */
  predicate PeerSince(states: seq<Handler>, calls: seq<Call>, k: nat, n: nat)
    requires k < n < |states| && |states| == |calls| + 1
  {
    && states[k].state == WAITING_FOR_PEER && calls[k].Air?
    && forall j | k < j <= n :: HasPeer(states[j]) && states[j].peer == calls[k].p.sender
  }

  lemma {:induction false} PeerTraced(states: seq<Handler>, calls: seq<Call>, n: nat) returns (k: nat)
    requires |states| == |calls| + 1 && n < |states| && states[0].state == IDLE && HasPeer(states[n])
    requires forall j | 0 <= j < |calls| :: PeerMoves(states[j], calls[j], states[j + 1])
    ensures k < n && PeerSince(states, calls, k, n)
  {
    assert PeerMoves(states[n - 1], calls[n - 1], states[n - 1 + 1]);
    k := n - 1;
    if HasPeer(states[n - 1]) && states[n].peer == states[n - 1].peer { k := PeerTraced(states, calls, n - 1); }
  }

  /** The states between the calls. */
  function States(h: Handler, me: nat, calls: seq<Call>): (states: seq<Handler>)
    requires Settled(h) && forall c | c in calls :: ClockOk(c)
    ensures |states| == |calls| + 1
  {
    seq(|calls| + 1, j requires 0 <= j <= |calls| => AllCalls(h, me, calls[..j]))
  }

  lemma StatesMovePeer(h: Handler, me: nat, calls: seq<Call>, j: nat)
    requires Settled(h) && (forall c | c in calls :: ClockOk(c)) && j < |calls|
    ensures PeerMoves(States(h, me, calls)[j], calls[j], States(h, me, calls)[j + 1])
  {
    assert calls[..j + 1][..j] == calls[..j];
    CallsMovePeer(AllCalls(h, me, calls[..j]), me, calls[j]);
  }

  /** SENDER, RECEIVER and COMPLETED always have a peer: the sender of the packet that opened this very exchange. */
  lemma PeerOfThisExchange(h: Handler, me: nat, calls: seq<Call>) returns (k: nat)
    requires Settled(h) && h.state == IDLE && forall c | c in calls :: ClockOk(c)
    requires HasPeer(AllCalls(h, me, calls))
    ensures k < |calls| && PeerSince(States(h, me, calls), calls, k, |calls|)
  {
    var states := States(h, me, calls);
    forall j | 0 <= j < |calls| ensures PeerMoves(states[j], calls[j], states[j + 1]) {
      StatesMovePeer(h, me, calls, j);
    }
    assert calls[..|calls|] == calls && calls[..0] == [];
    k := PeerTraced(states, calls, |calls|);
  }

  // ---------------------------------------------------------------- back to IDLE in bounded time

  /**
   * Clock readings of consecutive timer callbacks: at most 500 ms apart, each at most `lag` ms between its two
   * readings.
   */
  predicate Paced(ticks: seq<(int, int)>, from: int, lag: int)
    decreases |ticks|
  {
    ticks == [] ||
    (&& from <= ticks[0].0 <= from + 500
     && ticks[0].0 <= ticks[0].1 <= ticks[0].0 + lag
     && Paced(ticks[1..], ticks[0].0, lag))
  }

  function Ticked(h: Handler, ticks: seq<(int, int)>): Handler
    requires h.level < 256
    decreases |ticks|
  {
    if ticks == [] || h.Timer(ticks[0].0, ticks[0].1).level >= 256 then h
    else Ticked(h.Timer(ticks[0].0, ticks[0].1), ticks[1..])
  }

  lemma {:induction false} StaysIdle(h: Handler, ticks: seq<(int, int)>)
    requires Settled(h) && h.state == IDLE
    ensures Ticked(h, ticks) == h
    decreases |ticks|
  {
    if ticks != [] {
      StaysIdle(h, ticks[1..]);
    }
  }

  /** From a final state: any callback at or after the deadline ends the exchange. */
  lemma {:induction false} FinalStateEnds(h: Handler, ticks: seq<(int, int)>, from: int, lag: int)
    requires Settled(h) && !h.Active() && h.state != WAITING_FOR_PEER && from >= 0
    requires Paced(ticks, from, lag) && ticks != [] && ticks[|ticks| - 1].0 >= h.deadline
    ensures Ticked(h, ticks).state == IDLE
    decreases |ticks|
  {
    var next := h.Timer(ticks[0].0, ticks[0].1);
    if next.state == IDLE {
      StaysIdle(next, ticks[1..]);
    } else {
      FinalStateEnds(next, ticks[1..], ticks[0].0, lag);
    }
  }

  /**
   * Whatever the badge is doing, with its deadline no later than 10 s after `last`, every timer callback from 13500 ms
   * (plus the callback's own lag) after that finds or leaves it IDLE.
   */
  lemma {:induction false} BackToIdle(h: Handler, ticks: seq<(int, int)>, from: int, lag: int, last: int)
    requires Settled(h) && 0 <= from <= last + TIMEOUT_MS && 0 <= lag
    requires h.deadline <= last + TIMEOUT_MS
    requires Paced(ticks, from, lag) && ticks != []
    requires ticks[|ticks| - 1].0 >= last + 13500 + lag
    ensures Ticked(h, ticks).state == IDLE
    decreases |ticks|
  {
    var next := h.Timer(ticks[0].0, ticks[0].1);
    if !h.Active() && h.state != WAITING_FOR_PEER {
      FinalStateEnds(h, ticks, from, lag);
    } else if next.state == TIMEOUT {
      FinalStateEnds(next, ticks[1..], ticks[0].0, lag);
    } else {
      BackToIdle(next, ticks[1..], ticks[0].0, lag, last);
    }
  }

  /** In terms of the wall clock: one of the callbacks up to 14000 ms (plus lag) after `last` leaves the badge IDLE. */
  lemma {:induction false} IdleWithinFourteenSeconds(h: Handler, ticks: seq<(int, int)>, from: int, lag: int, last: int)
    requires Settled(h) && 0 <= from <= last + TIMEOUT_MS && 0 <= lag
    requires h.deadline <= last + TIMEOUT_MS
    requires Paced(ticks, from, lag) && ticks != []
    requires ticks[|ticks| - 1].0 >= last + 13500 + lag
    ensures exists n | 0 < n <= |ticks| ::
      ticks[n - 1].0 <= last + 14000 + lag && Ticked(h, ticks[..n]).state == IDLE
    decreases |ticks|
  {
    var n := |ticks|;
    PacedPrefix(ticks, from, lag, n - 1);
    if n > 1 && ticks[n - 2].0 >= last + 13500 + lag {
      IdleWithinFourteenSeconds(h, ticks[..n - 1], from, lag, last);
      var k :| 0 < k <= n - 1 && ticks[..n - 1][k - 1].0 <= last + 14000 + lag
        && Ticked(h, ticks[..n - 1][..k]).state == IDLE;
      assert ticks[..n - 1][..k] == ticks[..k];
      assert ticks[..n - 1][k - 1] == ticks[k - 1];
    } else {
      BackToIdle(h, ticks, from, lag, last);
      assert ticks[..n] == ticks;
    }
  }

  lemma {:induction false} PacedPrefix(ticks: seq<(int, int)>, from: int, lag: int, n: nat)
    requires Paced(ticks, from, lag) && n < |ticks|
    ensures Paced(ticks[..n], from, lag)
    ensures ticks[n].0 <= (if n == 0 then from else ticks[n - 1].0) + 500
    decreases n
  {
    if n > 0 {
      PacedPrefix(ticks[1..], ticks[0].0, lag, n - 1);
      assert ticks[..n][1..] == ticks[1..][..n - 1];
    }
  }

  // ---------------------------------------------------------------- ... in every run

  function Latest(c: Call): int { if c.Button? then c.now else c.later }

  /** Calls with sensible clock readings, one after the other. */
  ghost predicate InOrder(calls: seq<Call>) {
    && (forall c | c in calls :: ClockOk(c))
    && forall i | 0 < i < |calls| :: Latest(calls[i - 1]) <= calls[i].now
  }

  function LastReading(calls: seq<Call>): int {
    if calls == [] then 0 else Latest(calls[|calls| - 1])
  }

  /** No packet or start leaves a deadline more than 10 s beyond its last clock reading. */
  lemma DeadlineBound(h: Handler, me: nat, c: Call)
    requires Settled(h) && ClockOk(c) && !c.Tick?
    ensures Called(h, me, c).deadline <= Latest(c) + TIMEOUT_MS || Called(h, me, c) == h
  {
  }

  lemma TimerBound(h: Handler, me: nat, c: Call)
    requires Settled(h) && ClockOk(c) && c.Tick?
    ensures Called(h, me, c).deadline <= Latest(c) + TIMEOUT_MS || Called(h, me, c) == h
  {
  }

  /** So no run leaves one more than 10 s beyond its latest reading. */
  lemma {:induction false} DeadlineFollows(stored: seq<nat>, level: nat, me: nat, calls: seq<Call>)
    requires level <= MAX_LEVEL && InOrder(calls)
    ensures Settled(PowerOn(stored, level))
    ensures AllCalls(PowerOn(stored, level), me, calls).deadline <= LastReading(calls) + TIMEOUT_MS
  {
    if calls != [] {
      var front, c := calls[..|calls| - 1], calls[|calls| - 1];
      assert InOrder(front) && c in calls;
      DeadlineFollows(stored, level, me, front);
      var h := AllCalls(PowerOn(stored, level), me, front);
      if c.Tick? { TimerBound(h, me, c); } else { DeadlineBound(h, me, c); }
      assert LastReading(front) <= Latest(c);
    }
  }

  /** Callbacks that read the clock twice, forwards. */
  predicate Clocked(ticks: seq<(int, int)>) { forall t | t in ticks :: 0 <= t.0 <= t.1 }

  lemma {:induction false} PacedIsClocked(ticks: seq<(int, int)>, from: int, lag: int)
    requires 0 <= from && Paced(ticks, from, lag)
    ensures Clocked(ticks)
    decreases |ticks|
  {
    if ticks != [] {
      PacedIsClocked(ticks[1..], ticks[0].0, lag);
      assert ticks == [ticks[0]] + ticks[1..];
    }
  }

  /** Timer callbacks as calls. */
  function Callbacks(ticks: seq<(int, int)>): (calls: seq<Call>)
    ensures |calls| == |ticks|
  {
    seq(|ticks|, i requires 0 <= i < |ticks| => Tick(ticks[i].0, ticks[i].1))
  }

  lemma {:induction false} TickedIsCalls(h: Handler, me: nat, calls: seq<Call>, ticks: seq<(int, int)>)
    requires Settled(h) && (forall c | c in calls :: ClockOk(c)) && Clocked(ticks)
    ensures forall c | c in calls + Callbacks(ticks) :: ClockOk(c)
    ensures AllCalls(h, me, calls + Callbacks(ticks)) == Ticked(AllCalls(h, me, calls), ticks)
    decreases |ticks|
  {
    if ticks == [] {
      assert calls + Callbacks(ticks) == calls;
    } else {
      var first := Tick(ticks[0].0, ticks[0].1);
      assert calls + Callbacks(ticks) == calls + [first] + Callbacks(ticks[1..]);
      assert (calls + [first])[..|calls|] == calls;
      TickedIsCalls(h, me, calls + [first], ticks[1..]);
      SettledKept(AllCalls(h, me, calls), me, first);
    }
  }

  /**
   * Whatever a badge did since power-on: once no packet or start comes any more, timer callbacks leave it IDLE from
   * 13500 ms (plus lag) after the latest reading on.
   */
  lemma RunEndsIdle(stored: seq<nat>, level: nat, me: nat, calls: seq<Call>, ticks: seq<(int, int)>, from: int,
      lag: int)
    requires level <= MAX_LEVEL && InOrder(calls) && 0 <= from <= LastReading(calls) + TIMEOUT_MS && 0 <= lag
    requires Paced(ticks, from, lag) && ticks != []
    requires ticks[|ticks| - 1].0 >= LastReading(calls) + 13500 + lag
    ensures Settled(PowerOn(stored, level)) && forall c | c in calls + Callbacks(ticks) :: ClockOk(c)
    ensures AllCalls(PowerOn(stored, level), me, calls + Callbacks(ticks)).state == IDLE
  {
    var h := PowerOn(stored, level);
    DeadlineFollows(stored, level, me, calls);
    PacedIsClocked(ticks, from, lag);
    TickedIsCalls(h, me, calls, ticks);
    BackToIdle(AllCalls(h, me, calls), ticks, from, lag, LastReading(calls));
  }

  /** And one of the callbacks up to 14000 ms (plus lag) after that reading does. */
  lemma RunIdleWithinFourteenSeconds(stored: seq<nat>, level: nat, me: nat, calls: seq<Call>, ticks: seq<(int, int)>,
      from: int, lag: int) returns (n: nat)
    requires level <= MAX_LEVEL && InOrder(calls) && 0 <= from <= LastReading(calls) + TIMEOUT_MS && 0 <= lag
    requires Paced(ticks, from, lag) && ticks != []
    requires ticks[|ticks| - 1].0 >= LastReading(calls) + 13500 + lag
    ensures 0 < n <= |ticks| && ticks[n - 1].0 <= LastReading(calls) + 14000 + lag
    ensures Settled(PowerOn(stored, level)) && forall c | c in calls + Callbacks(ticks[..n]) :: ClockOk(c)
    ensures AllCalls(PowerOn(stored, level), me, calls + Callbacks(ticks[..n])).state == IDLE
  {
    var h, last := PowerOn(stored, level), LastReading(calls);
    DeadlineFollows(stored, level, me, calls);
    IdleWithinFourteenSeconds(AllCalls(h, me, calls), ticks, from, lag, last);
    n :| 0 < n <= |ticks| && ticks[n - 1].0 <= last + 14000 + lag
      && Ticked(AllCalls(h, me, calls), ticks[..n]).state == IDLE;
    PacedUpTo(ticks, from, lag, n);
    PacedIsClocked(ticks[..n], from, lag);
    TickedIsCalls(h, me, calls, ticks[..n]);
  }

  lemma PacedUpTo(ticks: seq<(int, int)>, from: int, lag: int, n: nat)
    requires Paced(ticks, from, lag) && n <= |ticks|
    ensures Paced(ticks[..n], from, lag)
  {
    if n == |ticks| { assert ticks[..n] == ticks; } else { PacedPrefix(ticks, from, lag, n); }
  }
}

/** The handler object itself, proved against Protocol. */
module NetworkHandler {
  import opened Score
  import opened BadgeStore
  import opened Bytes
  import opened Protocol
  import Wire

  class NetworkHandler {
    const ownId: seq<Byte>
    const badge: Badge
    const store: Store
    var currentIrState: IrState
    var peerId: nat
    var irTimeoutTimestampMs: int
    var sent: seq<seq<Byte>>   // frames handed to the IR interface, oldest first
    ghost var sentFrom: seq<Handler>   // the state each of them was handed over in

    ghost predicate Valid()
      reads this, badge, store
    {
      |ownId| == 6 && badge.Valid() && store.Valid()
    }

    ghost function View(): Handler
      requires Valid()
      reads this, badge, store
    {
      Handler(currentIrState, peerId, irTimeoutTimestampMs, false, store.Contents(), badge.socialLevel)
    }

    function OwnMac(): seq<Byte>
      requires |ownId| == 6
    {
      ownId[3..]
    }

    function Me(): nat
      requires |ownId| == 6
    {
      Wire.MacNumber(OwnMac())
    }

    /** The state a call's packet leaves in: what the call has done before sending. */
    static ghost function Leaving(call: (Handler, seq<PacketType>)): seq<Handler> {
      if call.1 == [] then [] else [call.0.(finishing := false)]
    }

    constructor (id: seq<Byte>, badge: Badge, store: Store)
      requires |id| == 6 && badge.Valid() && store.Valid()
      ensures Valid() && ownId == id && this.badge == badge && this.store == store
      ensures View() == PowerOn(store.Contents(), badge.socialLevel) && sent == []
    {
      ownId, this.badge, this.store := id, badge, store;
      currentIrState, peerId, irTimeoutTimestampMs, sent, sentFrom := IDLE, NOBODY, 0, [], [];
    }

    method ResetExchangeState()
      requires Valid()
      modifies `peerId, `irTimeoutTimestampMs
      ensures Valid() && View() == old(View()).Reset()
    {
      peerId := NOBODY;
      irTimeoutTimestampMs := 0;
    }

    method SetIrProtocolState(nextState: IrState)
      requires Valid()
      modifies this, badge, store
      ensures Valid() && View() == old(View()).Enter(nextState) && sent == old(sent) && sentFrom == old(sentFrom)
    {
      if currentIrState == nextState {
        return;
      }
      currentIrState := nextState;
      if nextState == IDLE {
        ResetExchangeState();
      } else if nextState == COMPLETED {
        HandleSuccessfulSync();
      }
    }

    method HandleSuccessfulSync()
      requires Valid()
      modifies badge, store
      ensures Valid() && View() == old(View()).Synced()
    {
      var known := store.HasId(peerId);
      if known {
        badge.ApplyScoreChange(0);
      } else {
        store.SaveId(peerId);
        badge.ApplyScoreChange(1);
      }
    }

    method SendIrPacket(kind: PacketType)
      requires Valid() && kind != UNKNOWN
      modifies `sent, `sentFrom
      ensures Valid() && View() == old(View()) && sentFrom == old(sentFrom) + [View()]
      ensures sent == old(sent) + [Wire.Frame(kind, OwnMac())]
      ensures sent[|sent| - 1][1..4] == [ownId[3], ownId[4], ownId[5]]
    {
      var frame := [Wire.TypeCode(kind)] + OwnMac();
      var checksum := Wire.CalculateChecksum(frame);
      sent, sentFrom := sent + [frame + [checksum]], sentFrom + [View()];
    }

    method StartIrKeyExchange(now: int)
      requires Valid()
      modifies this, badge, store
      ensures Valid() && View() == old(View()).Start(now).0
      ensures sent == old(sent) + Wire.Frames(old(View()).Start(now).1, OwnMac())
      ensures sentFrom == old(sentFrom) + Leaving(old(View()).Start(now))
    {
      if currentIrState != IDLE {
        return;
      }
      ResetExchangeState();
      SetIrProtocolState(WAITING_FOR_PEER);
      irTimeoutTimestampMs := now + TIMEOUT_MS;
      SendIrPacket(SYNC_REQUEST);
    }

    method HandleReceivedIrPacket(frame: seq<Byte>, now: int, later: int)
      requires Valid() && |frame| == 5
      modifies this, badge, store
      ensures Valid() && View() == old(View()).Handled(Me(), Wire.Parse(frame), now, later).0
      ensures sent == old(sent) + Wire.Frames(old(View()).Handled(Me(), Wire.Parse(frame), now, later).1, OwnMac())
      ensures sentFrom == old(sentFrom) + Leaving(old(View()).Receive(Me(), Wire.Parse(frame), now))
    {
      var kind := Wire.ParseType(frame[0]);
      var senderId := Wire.MacNumber(frame[1..4]);
      var currentState := currentIrState;
      if currentState == COMPLETED || currentState == TIMEOUT || currentState == CANCELLED {
        return;
      }
      var isActiveExchange := currentState == SENDER || currentState == RECEIVER;
      if kind == CANCEL {
        if isActiveExchange && senderId == peerId {
          SetIrProtocolState(CANCELLED);
          irTimeoutTimestampMs := now + IDLE_DELAY_MS;
        }
        return;
      }
      if isActiveExchange && senderId != peerId {
        return;
      }
      match currentState {
        case WAITING_FOR_PEER => WhileWaiting(kind, frame[1..4], now);
        case SENDER => WhileSender(kind, senderId, now);
        case RECEIVER => WhileReceiver(kind, senderId, now, later);
        case _ =>
      }
    }

    method WhileWaiting(kind: PacketType, senderMac: seq<Byte>, now: int)
      requires Valid() && currentIrState == WAITING_FOR_PEER && kind != CANCEL && |senderMac| == 3
      modifies this, badge, store
      ensures var p := Packet(kind, Wire.MacNumber(senderMac));
        && Valid() && View() == old(View()).Handled(Me(), p, now, now).0
        && sent == old(sent) + Wire.Frames(old(View()).Handled(Me(), p, now, now).1, OwnMac())
        && sentFrom == old(sentFrom) + Leaving(old(View()).Receive(Me(), p, now))
    {
      if kind == SYNC_REQUEST {
        var iAmLower := Wire.Memcmp(OwnMac(), senderMac) < 0;
        Wire.MemcmpIsNumericOrder(OwnMac(), senderMac);
        if iAmLower {
          peerId := Wire.MacNumber(senderMac);
          irTimeoutTimestampMs := now + TIMEOUT_MS;
          SetIrProtocolState(RECEIVER);
          SendIrPacket(SYNC_ACCEPT);
        } else {
          irTimeoutTimestampMs := now + TIMEOUT_MS;
        }
      } else if kind == SYNC_ACCEPT {
        peerId := Wire.MacNumber(senderMac);
        irTimeoutTimestampMs := now + TIMEOUT_MS;
        SetIrProtocolState(SENDER);
        SendIrPacket(ID_DATA);
      }
    }

    method WhileSender(kind: PacketType, senderId: nat, now: int)
      requires Valid() && currentIrState == SENDER && kind != CANCEL && senderId == peerId
      modifies this, badge, store
      ensures var p := Packet(kind, senderId);
        && Valid() && View() == old(View()).Handled(Me(), p, now, now).0
        && sent == old(sent) + Wire.Frames(old(View()).Handled(Me(), p, now, now).1, OwnMac())
        && sentFrom == old(sentFrom) + Leaving(old(View()).Receive(Me(), p, now))
    {
      if kind == ACK {
        SetIrProtocolState(COMPLETED);
        irTimeoutTimestampMs := now + IDLE_DELAY_MS;
      } else if kind == SYNC_ACCEPT {
        irTimeoutTimestampMs := now + TIMEOUT_MS;
        SendIrPacket(ID_DATA);
      }
    }

    method WhileReceiver(kind: PacketType, senderId: nat, now: int, later: int)
      requires Valid() && currentIrState == RECEIVER && kind != CANCEL && senderId == peerId
      modifies this, badge, store
      ensures var p := Packet(kind, senderId);
        && Valid() && View() == old(View()).Handled(Me(), p, now, later).0
        && sent == old(sent) + Wire.Frames(old(View()).Handled(Me(), p, now, later).1, OwnMac())
        && sentFrom == old(sentFrom) + Leaving(old(View()).Receive(Me(), p, now))
    {
      if kind == ID_DATA {
        irTimeoutTimestampMs := now + TIMEOUT_MS;
        SendIrPacket(ACK);
        SetIrProtocolState(COMPLETED);
        irTimeoutTimestampMs := later + IDLE_DELAY_MS;
      } else if kind == SYNC_REQUEST {
        irTimeoutTimestampMs := now + TIMEOUT_MS;
        SendIrPacket(SYNC_ACCEPT);
      }
    }

    /** The callback registered with the IR interface: a frame with a wrong checksum is dropped. */
    method OnFrame(frame: seq<Byte>, now: int, later: int)
      requires Valid() && |frame| == 5
      modifies this, badge, store
      ensures Valid()
      ensures View() == if Wire.Intact(frame) then old(View()).Handled(Me(), Wire.Parse(frame), now, later).0
        else old(View())
      ensures sent == old(sent) +
        if Wire.Intact(frame) then Wire.Frames(old(View()).Handled(Me(), Wire.Parse(frame), now, later).1, OwnMac())
          else []
      ensures sentFrom == old(sentFrom) +
        if Wire.Intact(frame) then Leaving(old(View()).Receive(Me(), Wire.Parse(frame), now)) else []
    {
      var checksum := Wire.CalculateChecksum(frame[..4]);
      if checksum != frame[4] {
        return;
      }
      HandleReceivedIrPacket(frame, now, later);
    }

    method CheckIrTimeouts(now: int, later: int)
      requires Valid()
      modifies this, badge, store
      ensures Valid() && View() == old(View()).Timer(now, later) && sent == old(sent) && sentFrom == old(sentFrom)
    {
      if irTimeoutTimestampMs <= 0 || now < irTimeoutTimestampMs {
        return;
      }
      match currentIrState {
        case WAITING_FOR_PEER | SENDER | RECEIVER =>
          SetIrProtocolState(TIMEOUT);
          irTimeoutTimestampMs := later + IDLE_DELAY_MS;
        case COMPLETED | TIMEOUT | CANCELLED =>
          SetIrProtocolState(IDLE);
        case IDLE =>
          irTimeoutTimestampMs := 0;
      }
    }
  }
}
