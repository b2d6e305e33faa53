/** Exactly when agreement and its converse hold, and when a badge is recorded. */
module PairingLimits {
  import opened Score
  import opened BadgeStore
  import opened Protocol
  import opened Pairing
  import opened PairingTheorems

  // ---------------------------------------------------------------- building runs

  /** A run prolonged by one step with a known outcome. */
  lemma Prolong(w: World, steps: seq<Step>, n: Net, s: Step, g: Handler, kinds: seq<PacketType>)
    returns (more: seq<Step>, m: Net)
    requires IsRun(w, steps) && After(w, steps) == n
    requires Can(w, n, s) && Act(w, n, s) == (g, kinds) && |kinds| <= 1
    ensures more == steps + [s]
    ensures m == Net(n.badges[s.b := g], if kinds == [] then n.log else n.log + [Sent(kinds[0], s.b, g.peer)])
    ensures IsRun(w, more) && After(w, more) == m
  {
    more, m := steps + [s], Next(w, n, s);
    RunSnoc(w, w.PoweredOn(), steps, s);
    assert kinds != [] ==> Stamped(kinds, s.b, g.peer) == [Sent(kinds[0], s.b, g.peer)];
    assert kinds == [] ==> n.log + Stamped(kinds, s.b, g.peer) == n.log;
  }

  /** A badge with this flash after its button was pressed at time 0. */
  function Waiting(flash: seq<nat>): Handler { Handler(WAITING_FOR_PEER, NOBODY, TIMEOUT_MS, false, flash, 0) }

  function Receiving(flash: seq<nat>, peer: nat): Handler { Waiting(flash).(state := RECEIVER, peer := peer) }

  function Sending(flash: seq<nat>, peer: nat): Handler { Waiting(flash).(state := SENDER, peer := peer) }

  /** The outcome of the sync at time 0. */
  function Completed(flash: seq<nat>, peer: nat): Handler {
    if peer in flash then Handler(COMPLETED, peer, IDLE_DELAY_MS, false, flash, 0)
    else Handler(COMPLETED, peer, IDLE_DELAY_MS, false, Saved(flash, peer), 5)
  }

  lemma SyncOutcome(flash: seq<nat>, peer: nat, me: nat)
    ensures Receiving(flash, peer).(finishing := true).Finish(0) == Completed(flash, peer)
    ensures Sending(flash, peer).Receive(me, Packet(ACK, peer), 0) == (Completed(flash, peer), [])
  {
    assert LevelUp(0) == 5;
  }

  predicate Distinct(w: World, a: nat, b: nat, c: nat) {
    a < |w.ids| && b < |w.ids| && c < |w.ids| && a != b && a != c && b != c
  }

  /** Two badges press their buttons. */
  lemma TwoPress(w: World, a: nat, b: nat) returns (steps: seq<Step>, n: Net)
    requires w.Ok() && a < |w.ids| && b < |w.ids| && a != b
    ensures IsRun(w, steps) && After(w, steps) == n
    ensures n.badges == w.PoweredOn().badges[a := Waiting(w.flash[a])][b := Waiting(w.flash[b])]
    ensures n.log == [Sent(SYNC_REQUEST, a, NOBODY), Sent(SYNC_REQUEST, b, NOBODY)]
  {
    steps, n := Prolong(w, [], w.PoweredOn(), Start(a, 0), Waiting(w.flash[a]), [SYNC_REQUEST]);
    steps, n := Prolong(w, steps, n, Start(b, 0), Waiting(w.flash[b]), [SYNC_REQUEST]);
  }

  // ---------------------------------------------------------------- agreement

  lemma ThreePress(w: World, a: nat, b: nat, c: nat) returns (steps: seq<Step>, n: Net)
    requires w.Ok() && Distinct(w, a, b, c)
    ensures IsRun(w, steps) && After(w, steps) == n
    ensures n.badges[a] == Waiting(w.flash[a]) && n.badges[b] == Waiting(w.flash[b])
    ensures n.badges[c] == Waiting(w.flash[c])
    ensures |n.log| == 3 && n.log[2] == Sent(SYNC_REQUEST, c, NOBODY)
  {
    steps, n := TwoPress(w, a, b);
    steps, n := Prolong(w, steps, n, Start(c, 0), Waiting(w.flash[c]), [SYNC_REQUEST]);
  }

  /** Three badges press their buttons, and a accepts c. */
  lemma Accepted(w: World, a: nat, b: nat, c: nat) returns (steps: seq<Step>, n: Net)
    requires w.Ok() && Distinct(w, a, b, c) && w.ids[a] < w.ids[c]
    ensures IsRun(w, steps) && After(w, steps) == n
    ensures n.badges[a] == Receiving(w.flash[a], w.ids[c])
    ensures n.badges[b] == Waiting(w.flash[b]) && n.badges[c] == Waiting(w.flash[c])
    ensures |n.log| == 4 && n.log[3] == Sent(SYNC_ACCEPT, a, w.ids[c])
  {
    steps, n := ThreePress(w, a, b, c);
    steps, n := Prolong(w, steps, n, Deliver(a, 2, 0), Receiving(w.flash[a], w.ids[c]), [SYNC_ACCEPT]);
  }

  /** Both others take that SYNC_ACCEPT as theirs. */
  lemma BothSend(w: World, a: nat, b: nat, c: nat) returns (steps: seq<Step>, n: Net)
    requires w.Ok() && Distinct(w, a, b, c) && w.ids[a] < w.ids[c]
    ensures IsRun(w, steps) && After(w, steps) == n
    ensures n.badges[a] == Receiving(w.flash[a], w.ids[c]) && n.badges[b] == Sending(w.flash[b], w.ids[a])
    ensures |n.log| == 6 && n.log[5] == Sent(ID_DATA, c, w.ids[a])
  {
    steps, n := Accepted(w, a, b, c);
    steps, n := Prolong(w, steps, n, Deliver(b, 3, 0), Sending(w.flash[b], w.ids[a]), [ID_DATA]);
    steps, n := Prolong(w, steps, n, Deliver(c, 3, 0), Sending(w.flash[c], w.ids[a]), [ID_DATA]);
  }

  /** a acknowledges c's answer. */
  lemma AckedToC(w: World, a: nat, b: nat, c: nat) returns (steps: seq<Step>, n: Net)
    requires w.Ok() && Distinct(w, a, b, c) && w.ids[a] < w.ids[c]
    ensures IsRun(w, steps) && After(w, steps) == n
    ensures n.badges[a] == Receiving(w.flash[a], w.ids[c]).(finishing := true)
    ensures n.badges[b] == Sending(w.flash[b], w.ids[a]) && |n.log| == 7 && n.log[6] == Sent(ACK, a, w.ids[c])
  {
    steps, n := BothSend(w, a, b, c);
    steps, n := Prolong(w, steps, n, Deliver(a, 5, 0), Receiving(w.flash[a], w.ids[c]).(finishing := true), [ACK]);
  }

  /** The ACK meant for c completes b, which lists a; a completes with c and does not list b. */
  lemma Crosstalk(w: World, a: nat, b: nat, c: nat) returns (steps: seq<Step>)
    requires w.Ok() && Distinct(w, a, b, c) && w.ids[a] < w.ids[c]
    requires w.ids[a] !in w.flash[b] && w.ids[b] !in w.flash[a]
    ensures IsRun(w, steps)
    ensures var n := After(w, steps);
      w.ids[a] in n.badges[b].stored && !RecordsOrFinishing(n.badges[a], w.ids[b]) && n.badges[a].state == COMPLETED
  {
    var n;
    steps, n := AckedToC(w, a, b, c);
    SyncOutcome(w.flash[b], w.ids[a], w.ids[b]);
    steps, n := Prolong(w, steps, n, Deliver(b, 6, 0), Completed(w.flash[b], w.ids[a]), []);
    SyncOutcome(w.flash[a], w.ids[c], w.ids[a]);
    steps, n := Prolong(w, steps, n, Finish(a, 0), Completed(w.flash[a], w.ids[c]), []);
    assert w.ids[b] != w.ids[c];
  }

  /** In every run: once b lists a, a lists b or is about to. */
  ghost predicate Agrees(w: World, a: nat, b: nat)
    requires w.Ok() && a < |w.ids| && b < |w.ids|
  {
    forall steps: seq<Step> | IsRun(w, steps) && w.ids[a] in After(w, steps).badges[b].stored ::
      RecordsOrFinishing(After(w, steps).badges[a], w.ids[b])
  }

  /** What flash and ids must say for that. */
  predicate Separated(w: World, a: nat, b: nat)
    requires w.Ok() && a < |w.ids| && b < |w.ids|
  {
    w.ids[b] in w.flash[a]
    || (w.ids[a] !in w.flash[b] && forall c | 0 <= c < |w.ids| && c != a && c != b :: w.ids[c] < w.ids[a])
  }

  /** Flash contents stay listed. */
  lemma FlashStays(w: World, steps: seq<Step>, i: nat, p: nat)
    requires IsRun(w, steps) && i < |w.ids| && p in w.flash[i]
    ensures p in After(w, steps).badges[i].stored
  {
    AlwaysInv(w, steps);
    var n := After(w, steps);
    assert StoreOk(w, n, i);
    var k :| 0 <= k < |w.flash[i]| && w.flash[i][k] == p;
    assert n.badges[i].stored[k] == p;
  }

  /** Where every other badge is below a, a acknowledges nobody but b. */
  lemma AcksOnlyTo(w: World, steps: seq<Step>, a: nat, b: nat, c: nat)
    requires IsRun(w, steps) && a < |w.ids| && b < |w.ids|
    requires forall d | 0 <= d < |w.ids| && d != a && d != b :: w.ids[d] < w.ids[a]
    requires Sent(ACK, a, c) in After(w, steps).log
    ensures c == w.ids[b]
  {
    AlwaysInv(w, steps);
    var n := After(w, steps);
    assert SentOk(w, n, Sent(ACK, a, c));
    HeardIsMember(w, n.log, ID_DATA, c);
  }

  lemma SeparatedAgrees(w: World, a: nat, b: nat)
    requires w.Ok() && a < |w.ids| && b < |w.ids| && w.ids[a] < w.ids[b] && Separated(w, a, b)
    ensures Agrees(w, a, b)
  {
    forall steps: seq<Step> | IsRun(w, steps) && w.ids[a] in After(w, steps).badges[b].stored
      ensures RecordsOrFinishing(After(w, steps).badges[a], w.ids[b])
    {
      if w.ids[b] in w.flash[a] {
        FlashStays(w, steps, a, w.ids[b]);
      } else {
        forall c | Sent(ACK, a, c) in After(w, steps).log ensures c == w.ids[b] { AcksOnlyTo(w, steps, a, b, c); }
        AgreementWithoutCrosstalk(w, steps, b, a);
      }
    }
  }

  /**
   * The exact condition, for any world and any pair with a the lower id: a's flash lists b already, or b's does not
   * list a and no third badge has an id above a's.
   */
  lemma AgreementExactlyWhen(w: World, a: nat, b: nat)
    requires w.Ok() && a < |w.ids| && b < |w.ids| && w.ids[a] < w.ids[b]
    ensures Agrees(w, a, b) <==> Separated(w, a, b)
  {
    if Separated(w, a, b) {
      SeparatedAgrees(w, a, b);
    } else if w.ids[a] in w.flash[b] {
      assert IsRun(w, []) && After(w, []) == w.PoweredOn();
    } else {
      var c :| 0 <= c < |w.ids| && c != a && c != b && w.ids[c] > w.ids[a];
      var steps := Crosstalk(w, a, b, c);
    }
  }

  ghost predicate AllAgree(w: World)
    requires w.Ok()
  {
    forall a: nat, b: nat | a < |w.ids| && b < |w.ids| && w.ids[a] < w.ids[b] :: Agrees(w, a, b)
  }

  predicate FreshFlash(w: World)
    requires w.Ok()
  {
    forall i, p | 0 <= i < |w.ids| && p in w.flash[i] :: p !in w.ids
  }

  lemma StrangersUnlisted(w: World, a: nat, b: nat)
    requires w.Ok() && FreshFlash(w) && a < |w.ids| && b < |w.ids|
    ensures w.ids[a] !in w.flash[b] && w.ids[b] !in w.flash[a]
  {
    assert w.ids[a] in w.ids && w.ids[b] in w.ids;
  }

  /** Badges that start out strangers all agree, in every run, if and only if there are at most two of them. */
  lemma StrangersAgreeExactlyInPairs(w: World)
    requires w.Ok() && FreshFlash(w)
    ensures AllAgree(w) <==> |w.ids| <= 2
  {
    if |w.ids| <= 2 {
      forall a: nat, b: nat | a < |w.ids| && b < |w.ids| && w.ids[a] < w.ids[b] ensures Agrees(w, a, b) {
        StrangersUnlisted(w, a, b);
        AgreementExactlyWhen(w, a, b);
      }
    } else {
      var a, b := LowestTwo(w);
      StrangersUnlisted(w, a, b);
      AgreementExactlyWhen(w, a, b);
    }
  }

  /** Two of three or more badges such that the lower has a third one above it. */
  lemma LowestTwo(w: World) returns (a: nat, b: nat)
    requires w.Ok() && |w.ids| > 2
    ensures a < |w.ids| && b < |w.ids| && w.ids[a] < w.ids[b]
    ensures exists c :: 0 <= c < |w.ids| && c != a && c != b && w.ids[c] > w.ids[a]
  {
    a := if w.ids[0] < w.ids[1] && w.ids[0] < w.ids[2] then 0 else if w.ids[1] < w.ids[2] then 1 else 2;
    b := if a == 0 then 1 else 0;
    var c := if a == 2 then 1 else 2;
    assert w.ids[c] > w.ids[a];
  }

  // ---------------------------------------------------------------- the converse

  /** a accepts b and b answers. */
  lemma Answered(w: World, a: nat, b: nat) returns (steps: seq<Step>, n: Net)
    requires w.Ok() && a < |w.ids| && b < |w.ids| && w.ids[a] < w.ids[b]
    ensures IsRun(w, steps) && After(w, steps) == n
    ensures n.badges[a] == Receiving(w.flash[a], w.ids[b]) && n.badges[b] == Sending(w.flash[b], w.ids[a])
    ensures |n.log| == 4 && n.log[3] == Sent(ID_DATA, b, w.ids[a])
  {
    steps, n := TwoPress(w, a, b);
    steps, n := Prolong(w, steps, n, Deliver(a, 1, 0), Receiving(w.flash[a], w.ids[b]), [SYNC_ACCEPT]);
    steps, n := Prolong(w, steps, n, Deliver(b, 2, 0), Sending(w.flash[b], w.ids[a]), [ID_DATA]);
  }

  /** Then a acknowledges; the ACK is lost. */
  lemma AckLost(w: World, a: nat, b: nat) returns (steps: seq<Step>)
    requires w.Ok() && a < |w.ids| && b < |w.ids| && w.ids[a] < w.ids[b]
    requires w.ids[b] !in w.flash[a]
    ensures IsRun(w, steps)
    ensures var n := After(w, steps); w.ids[b] in n.badges[a].stored && n.badges[b].stored == w.flash[b]
  {
    var n;
    steps, n := Answered(w, a, b);
    steps, n := Prolong(w, steps, n, Deliver(a, 3, 0), Receiving(w.flash[a], w.ids[b]).(finishing := true), [ACK]);
    SyncOutcome(w.flash[a], w.ids[b], w.ids[a]);
    steps, n := Prolong(w, steps, n, Finish(a, 0), Completed(w.flash[a], w.ids[b]), []);
  }

  /** In every run: once a lists b, b lists a. */
  ghost predicate ConverseAgrees(w: World, a: nat, b: nat)
    requires w.Ok() && a < |w.ids| && b < |w.ids|
  {
    forall steps: seq<Step> | IsRun(w, steps) && w.ids[b] in After(w, steps).badges[a].stored ::
      w.ids[a] in After(w, steps).badges[b].stored
  }

  /** The converse, for a the lower id of any pair in any world, holds only where b's flash lists a to begin with. */
  lemma ConverseExactlyWhen(w: World, a: nat, b: nat)
    requires w.Ok() && a < |w.ids| && b < |w.ids| && w.ids[a] < w.ids[b]
    ensures ConverseAgrees(w, a, b) <==> w.ids[a] in w.flash[b]
  {
    if w.ids[a] in w.flash[b] {
      forall steps: seq<Step> | IsRun(w, steps) && w.ids[b] in After(w, steps).badges[a].stored
        ensures w.ids[a] in After(w, steps).badges[b].stored
      {
        FlashStays(w, steps, b, w.ids[a]);
      }
    } else if w.ids[b] in w.flash[a] {
      assert IsRun(w, []) && After(w, []) == w.PoweredOn();
    } else {
      var steps := AckLost(w, a, b);
    }
  }

  // ---------------------------------------------------------------- when a badge is recorded

  /** The step makes badge i record p: p's ACK reaches a SENDER with p as peer, or a RECEIVER finishes with p. */
  predicate RecordsAt(w: World, n: Net, s: Step, i: nat, p: nat)
    requires Shape(w, n) && Can(w, n, s)
  {
    && s.b == i && n.badges[i].peer == p
    && match s
       case Deliver(_, k, _) => n.badges[i].state == SENDER && n.log[k].kind == ACK && w.ids[n.log[k].from] == p
       case Finish(_, _) => true
       case _ => false
  }

  lemma ReceiveRecords(h: Handler, me: nat, packet: Packet, now: int, p: nat)
    requires !h.finishing && h.level <= MAX_LEVEL && |h.stored| + 1 < COUNT_LIMIT
    ensures p in h.Receive(me, packet, now).0.stored
      <==> p in h.stored || (h.state == SENDER && packet.kind == ACK && packet.sender == h.peer == p)
  {
  }

  lemma FinishRecords(h: Handler, later: int, p: nat)
    requires h.state == RECEIVER && h.level <= MAX_LEVEL && |h.stored| + 1 < COUNT_LIMIT
    ensures p in h.Finish(later).stored <==> p in h.stored || h.peer == p
  {
  }

  /** The acting badge's own list. */
  lemma ActRecords(w: World, n: Net, s: Step, p: nat)
    requires Inv(w, n) && Can(w, n, s)
    ensures p in Act(w, n, s).0.stored <==> p in n.badges[s.b].stored || RecordsAt(w, n, s, s.b, p)
  {
    var h := n.badges[s.b];
    assert BadgeOk(w, n, s.b) && StoreOk(w, n, s.b);
    RoomLeft(w, n, s.b);
    match s
    case Start(_, now) => QuietFacts(h, now, now);
    case Deliver(b, k, now) => ReceiveRecords(h, w.ids[b], Packet(n.log[k].kind, w.ids[n.log[k].from]), now, p);
    case Finish(_, later) => FinishRecords(h, later, p);
    case Timer(_, now, later) => QuietFacts(h, now, later);
  }

  /** One step records p exactly then. */
  lemma StepRecords(w: World, n: Net, s: Step, i: nat, p: nat)
    requires Inv(w, n) && Can(w, n, s) && i < |n.badges|
    ensures p in Next(w, n, s).badges[i].stored <==> p in n.badges[i].stored || RecordsAt(w, n, s, i, p)
  {
    ActRecords(w, n, s, p);
  }

  /** Somewhere in the run from n there is such a step. */
  ghost predicate RecordsIn(w: World, n: Net, steps: seq<Step>, i: nat, p: nat)
    requires Shape(w, n) && CanRun(w, n, steps)
    decreases |steps|
  {
    steps != []
    && (RecordsAt(w, n, steps[0], i, p)
        || (ShapeKept(w, n, steps[0]); RecordsIn(w, Next(w, n, steps[0]), steps[1..], i, p)))
  }

  lemma {:induction false} RunRecords(w: World, n: Net, steps: seq<Step>, i: nat, p: nat)
    requires Inv(w, n) && CanRun(w, n, steps) && i < |n.badges|
    ensures p in Run(w, n, steps).badges[i].stored <==> p in n.badges[i].stored || RecordsIn(w, n, steps, i, p)
    decreases |steps|
  {
    if steps != [] {
      InvKept(w, n, steps[0]);
      StepRecords(w, n, steps[0], i, p);
      RunRecords(w, Next(w, n, steps[0]), steps[1..], i, p);
    }
  }

  /** Any badge, any run: it lists p exactly when its flash did or some step of the run recorded p. */
  lemma ListedExactlyWhen(w: World, steps: seq<Step>, i: nat, p: nat)
    requires IsRun(w, steps) && i < |w.ids|
    ensures p in After(w, steps).badges[i].stored
      <==> p in w.flash[i] || RecordsIn(w, w.PoweredOn(), steps, i, p)
  {
    InvInit(w);
    RunRecords(w, w.PoweredOn(), steps, i, p);
  }

  /** The step delivers p's ACK to badge i while it is SENDER with p as its peer. */
  predicate AckHeardAt(w: World, n: Net, s: Step, i: nat, p: nat)
    requires Shape(w, n) && Can(w, n, s)
  {
    s.Deliver? && RecordsAt(w, n, s, i, p)
  }

  ghost predicate AckHeardIn(w: World, n: Net, steps: seq<Step>, i: nat, p: nat)
    requires Shape(w, n) && CanRun(w, n, steps)
    decreases |steps|
  {
    steps != []
    && (AckHeardAt(w, n, steps[0], i, p)
        || (ShapeKept(w, n, steps[0]); AckHeardIn(w, Next(w, n, steps[0]), steps[1..], i, p)))
  }

  /** The highest id has nobody to receive from. */
  lemma HighestOnlyHearsAcks(w: World, n: Net, s: Step, i: nat, p: nat)
    requires Inv(w, n) && Can(w, n, s) && i < |w.ids|
    requires forall j | 0 <= j < |w.ids| :: w.ids[j] <= w.ids[i]
    ensures RecordsAt(w, n, s, i, p) <==> AckHeardAt(w, n, s, i, p)
  {
    assert BadgeOk(w, n, i);
    if s.Finish? && s.b == i { HeardIsMember(w, n.log, SYNC_REQUEST, n.badges[i].peer); }
  }

  lemma {:induction false} HighestRecords(w: World, n: Net, steps: seq<Step>, i: nat, p: nat)
    requires Inv(w, n) && CanRun(w, n, steps) && i < |w.ids|
    requires forall j | 0 <= j < |w.ids| :: w.ids[j] <= w.ids[i]
    ensures RecordsIn(w, n, steps, i, p) <==> AckHeardIn(w, n, steps, i, p)
    decreases |steps|
  {
    if steps != [] {
      InvKept(w, n, steps[0]);
      HighestOnlyHearsAcks(w, n, steps[0], i, p);
      HighestRecords(w, Next(w, n, steps[0]), steps[1..], i, p);
    }
  }

  /**
   * So the converse's exact condition on a run: the highest badge (of two, the higher) lists a peer exactly when its
   * flash did, or the peer's ACK reached it while it was SENDER with that peer.
   */
  lemma HighestListedExactlyWhen(w: World, steps: seq<Step>, i: nat, p: nat)
    requires IsRun(w, steps) && i < |w.ids| && forall j | 0 <= j < |w.ids| :: w.ids[j] <= w.ids[i]
    ensures p in After(w, steps).badges[i].stored
      <==> p in w.flash[i] || AckHeardIn(w, w.PoweredOn(), steps, i, p)
  {
    ListedExactlyWhen(w, steps, i, p);
    InvInit(w);
    HighestRecords(w, w.PoweredOn(), steps, i, p);
  }
}
