/**
 Any number of badges pairing over a broadcast medium that loses, duplicates, reorders and delays packets.

 Every packet ever sent stays in `log` and may reach any badge but its sender any number of times at
 any later moment, or never.  A handler call is one step, except that the RECEIVER's ID_DATA handler is
 two: its ACK is on the air before the peer is recorded.
*/
module Pairing {
  import opened Score
  import opened BadgeStore
  import opened Protocol

  /** A packet on the air, with the peer its sender had at that moment (the packet itself names no addressee). */
  datatype Sent = Sent(kind: PacketType, from: nat, to: nat)

  datatype Net = Net(badges: seq<Handler>, log: seq<Sent>)

  datatype Step =
    | Start(b: nat, now: int)
    | Deliver(b: nat, k: nat, now: int)
    | Finish(b: nat, later: int)
    | Timer(b: nat, now: int, later: int)

  /** The fixed part: the 24-bit id and the flash contents every badge starts with. */
  datatype World = World(ids: seq<nat>, flash: seq<seq<nat>>)
  {
    predicate Ok() {
      && |flash| == |ids|
      && (forall i, j | 0 <= i < j < |ids| :: ids[i] != ids[j])
      && (forall i | 0 <= i < |ids| :: |flash[i]| + |ids| + 1 < COUNT_LIMIT)
    }

    function PoweredOn(): Net
      requires Ok()
    {
      Net(seq(|ids|, i requires 0 <= i < |ids| => PowerOn(flash[i], 0)), [])
    }
  }

  predicate Shape(w: World, n: Net) {
    && w.Ok() && |n.badges| == |w.ids|
    && (forall i | 0 <= i < |n.badges| :: n.badges[i].level <= MAX_LEVEL)
    && (forall k | 0 <= k < |n.log| :: n.log[k].from < |w.ids|)
  }

  predicate Can(w: World, n: Net, s: Step)
    requires Shape(w, n)
  {
    && s.b < |n.badges|
    && match s
       case Start(b, now) => !n.badges[b].finishing && 0 <= now
       case Deliver(b, k, now) => !n.badges[b].finishing && k < |n.log| && n.log[k].from != b && 0 <= now
       case Finish(b, later) => n.badges[b].finishing && 0 <= later
       case Timer(b, now, later) => !n.badges[b].finishing && 0 <= now <= later
  }

  /** What the badge named by a step does. */
  function Act(w: World, n: Net, s: Step): (Handler, seq<PacketType>)
    requires Shape(w, n) && Can(w, n, s)
  {
    var h := n.badges[s.b];
    match s
    case Start(_, now) => h.Start(now)
    case Deliver(b, k, now) => h.Receive(w.ids[b], Packet(n.log[k].kind, w.ids[n.log[k].from]), now)
    case Finish(_, later) => (h.Finish(later), [])
    case Timer(_, now, later) => (h.Timer(now, later), [])
  }

  function Stamped(kinds: seq<PacketType>, b: nat, peer: nat): seq<Sent> {
    if kinds == [] then [] else [Sent(kinds[0], b, peer)] + Stamped(kinds[1..], b, peer)
  }

  function Next(w: World, n: Net, s: Step): Net
    requires Shape(w, n) && Can(w, n, s)
  {
    var (h, kinds) := Act(w, n, s);
    Net(n.badges[s.b := h], n.log + Stamped(kinds, s.b, h.peer))
  }

  // ---------------------------------------------------------------- one handler step, as the proofs need it

  /** Recording a peer: nothing, or one new id at the end. */
  predicate Recorded(before: seq<nat>, after: seq<nat>, peer: nat) {
    peer in after && (after == before || (after == before + [peer] && peer !in before))
  }

  lemma ReceiveFacts(h: Handler, me: nat, p: Packet, now: int)
    requires !h.finishing && h.level <= MAX_LEVEL && |h.stored| + 1 < COUNT_LIMIT
    requires h.state == RECEIVER ==> me < h.peer
    ensures
      var (g, out) := h.Receive(me, p, now);
      && g.level <= MAX_LEVEL
      && (g.state == SENDER ==>
            (h.state == SENDER && g.peer == h.peer) || (p.kind == SYNC_ACCEPT && g.peer == p.sender))
      && (g.state == RECEIVER ==>
            || (h.state == RECEIVER && g.peer == h.peer)
            || (p.kind == SYNC_REQUEST && g.peer == p.sender && me < p.sender))
      && (g.state == COMPLETED && h.state != COMPLETED ==>
            h.state == SENDER && p.kind == ACK && g.peer == h.peer == p.sender && Recorded(h.stored, g.stored, h.peer))
      && (g.state != COMPLETED || h.state == COMPLETED ==> g.stored == h.stored)
      && (h.state == COMPLETED ==> g == h)
      && (g.state == CANCELLED ==> h.state == CANCELLED || p.kind == CANCEL)
      && (g.finishing ==> g.state == RECEIVER && out == [ACK])
      && (|| out == []
          || (out == [SYNC_ACCEPT] && g.state == RECEIVER
              && p.kind == SYNC_REQUEST && p.sender == g.peer && me < g.peer)
          || (out == [ID_DATA] && g.state == SENDER && p.kind == SYNC_ACCEPT && p.sender == g.peer)
          || (out == [ACK] && g.finishing && p.kind == ID_DATA && p.sender == g.peer && me < g.peer))
  {
  }

  lemma QuietFacts(h: Handler, now: int, later: int)
    requires !h.finishing && h.level <= MAX_LEVEL
    ensures
      var g := h.Timer(now, later);
      && g.level <= MAX_LEVEL && !g.finishing && g.stored == h.stored
      && (g.state != h.state ==> g.state == TIMEOUT || g.state == IDLE)
      && (g.state == h.state ==> g.peer == h.peer)
    ensures
      var (g, out) := h.Start(now);
      && g.level <= MAX_LEVEL && !g.finishing && g.stored == h.stored
      && (g.state != h.state ==> g.state == WAITING_FOR_PEER && out == [SYNC_REQUEST])
      && (g.state == h.state ==> g.peer == h.peer && out == [])
  {
  }

  lemma FinishFacts(h: Handler, later: int)
    requires h.finishing && h.state == RECEIVER && h.level <= MAX_LEVEL && |h.stored| + 1 < COUNT_LIMIT
    ensures
      var g := h.Finish(later);
      && g.level <= MAX_LEVEL && !g.finishing && g.state == COMPLETED && g.peer == h.peer
      && Recorded(h.stored, g.stored, h.peer)
  {
  }

  // ---------------------------------------------------------------- the invariant

  /** Somebody with this id has sent a packet of this kind. */
  ghost predicate Heard(w: World, log: seq<Sent>, kind: PacketType, id: nat) {
    exists k :: 0 <= k < |log| && log[k].kind == kind && log[k].from < |w.ids| && w.ids[log[k].from] == id
  }

  /** What a badge's state says about the history. */
  ghost predicate BadgeOk(w: World, n: Net, i: nat)
    requires i < |n.badges| == |w.ids|
  {
    var h := n.badges[i];
    && (h.finishing ==> h.state == RECEIVER && Sent(ACK, i, h.peer) in n.log)
    && (h.state == SENDER ==> h.peer != w.ids[i] && Heard(w, n.log, SYNC_ACCEPT, h.peer))
    && (h.state == RECEIVER ==> w.ids[i] < h.peer && Heard(w, n.log, SYNC_REQUEST, h.peer))
    && (h.state == COMPLETED ==> h.peer != w.ids[i] && h.peer in w.ids && h.peer in h.stored)
    && h.state != CANCELLED
  }

  /** What a packet says about the history, and an ACK about its sender's records. */
  ghost predicate SentOk(w: World, n: Net, e: Sent)
    requires e.from < |n.badges| == |w.ids|
  {
    var h := n.badges[e.from];
    match e.kind
    case SYNC_REQUEST => true
    case SYNC_ACCEPT => w.ids[e.from] < e.to && Heard(w, n.log, SYNC_REQUEST, e.to)
    case ID_DATA => e.to != w.ids[e.from] && Heard(w, n.log, SYNC_ACCEPT, e.to)
    case ACK => w.ids[e.from] < e.to && Heard(w, n.log, ID_DATA, e.to)
                && (e.to in h.stored || (h.finishing && h.peer == e.to))
    case _ => false
  }

  /** Why badge i lists peer p: it acknowledged p, or it heard an ACK of p. */
  ghost predicate Justified(w: World, n: Net, i: nat, p: nat) {
    Sent(ACK, i, p) in n.log || Heard(w, n.log, ACK, p)
  }

  /** Records only grow, name distinct badges of this world, and each new one is justified. */
  ghost predicate StoreOk(w: World, n: Net, i: nat)
    requires i < |n.badges| == |w.ids| == |w.flash|
  {
    var s, f := n.badges[i].stored, w.flash[i];
    && f <= s
    && (forall a, b | |f| <= a < b < |s| :: s[a] != s[b])
    && (forall a | |f| <= a < |s| :: s[a] in w.ids && Justified(w, n, i, s[a]))
  }

  ghost predicate Inv(w: World, n: Net) {
    && Shape(w, n)
    && (forall i | 0 <= i < |n.badges| :: BadgeOk(w, n, i))
    && (forall k | 0 <= k < |n.log| :: SentOk(w, n, n.log[k]))
    && (forall i | 0 <= i < |n.badges| :: StoreOk(w, n, i))
  }

  lemma InvInit(w: World)
    requires w.Ok()
    ensures Inv(w, w.PoweredOn())
  {
  }

  /** Distinct new records all name badges of this world, so there is always room for one more. */
  lemma RoomLeft(w: World, n: Net, i: nat)
    requires Shape(w, n) && i < |n.badges| && StoreOk(w, n, i)
    ensures |n.badges[i].stored| <= |w.flash[i]| + |w.ids|
  {
    var s, f := n.badges[i].stored, w.flash[i];
    DistinctBounded(s[|f|..], w.ids);
  }

  lemma {:induction false} DistinctBounded(s: seq<nat>, t: seq<nat>)
    requires forall a, b | 0 <= a < b < |s| :: s[a] != s[b]
    requires forall a | 0 <= a < |s| :: s[a] in t
    ensures |s| <= |t|
  {
    if s != [] {
      var j :| 0 <= j < |t| && t[j] == s[0];
      var rest := t[..j] + t[j + 1..];
      forall a | 0 <= a < |s[1..]|
        ensures s[1..][a] in rest
      {
        assert s[1..][a] == s[a + 1] != s[0];
        var m :| 0 <= m < |t| && t[m] == s[a + 1];
        assert if m < j then rest[m] == t[m] else rest[m - 1] == t[m];
      }
      DistinctBounded(s[1..], rest);
    }
  }

  // ---------------------------------------------------------------- every step keeps it

  /** How a badge may change without upsetting what the log says about it. */
  predicate Advances(h: Handler, g: Handler) {
    && h.stored <= g.stored
    && (h.finishing ==> h.peer in g.stored || (g.finishing && g.peer == h.peer))
  }

  ghost predicate Extends(n: Net, m: Net) {
    && |n.badges| == |m.badges| && n.log <= m.log
    && forall i | 0 <= i < |n.badges| :: Advances(n.badges[i], m.badges[i])
  }

  lemma HeardLater(w: World, n: Net, m: Net, kind: PacketType, id: nat)
    requires n.log <= m.log && Heard(w, n.log, kind, id)
    ensures Heard(w, m.log, kind, id)
  {
  }

  lemma UntouchedBadge(w: World, n: Net, m: Net, i: nat)
    requires Extends(n, m) && i < |n.badges| == |w.ids| == |w.flash| && m.badges[i] == n.badges[i]
    requires BadgeOk(w, n, i) && StoreOk(w, n, i)
    ensures BadgeOk(w, m, i) && StoreOk(w, m, i)
  {
  }

  lemma OldPacket(w: World, n: Net, m: Net, e: Sent)
    requires Extends(n, m) && e.from < |n.badges| == |w.ids| && SentOk(w, n, e)
    ensures SentOk(w, m, e)
  {
  }

  /** It is enough to look at the one badge that moved and the packet it may have sent. */
  lemma OneBadgeMoved(w: World, n: Net, b: nat, g: Handler, kinds: seq<PacketType>)
    requires Inv(w, n) && b < |n.badges| && g.level <= MAX_LEVEL && |kinds| <= 1
    requires Advances(n.badges[b], g)
    requires var m := Net(n.badges[b := g], n.log + Stamped(kinds, b, g.peer));
      && BadgeOk(w, m, b) && StoreOk(w, m, b)
      && (kinds != [] ==> SentOk(w, m, Sent(kinds[0], b, g.peer)))
    ensures Inv(w, Net(n.badges[b := g], n.log + Stamped(kinds, b, g.peer)))
  {
    var m := Net(n.badges[b := g], n.log + Stamped(kinds, b, g.peer));
    assert kinds != [] ==> Stamped(kinds, b, g.peer) == [Sent(kinds[0], b, g.peer)];
    assert Extends(n, m);
    forall i | 0 <= i < |m.badges|
      ensures BadgeOk(w, m, i) && StoreOk(w, m, i)
    {
      if i != b { UntouchedBadge(w, n, m, i); }
    }
    forall k | 0 <= k < |m.log|
      ensures m.log[k].from < |w.ids| && SentOk(w, m, m.log[k])
    {
      if k < |n.log| { OldPacket(w, n, m, n.log[k]); }
    }
  }

  /** A badge whose records did not change keeps them justified. */
  lemma SameStore(w: World, n: Net, m: Net, i: nat)
    requires i < |n.badges| == |m.badges| == |w.ids| == |w.flash| && n.log <= m.log
    requires StoreOk(w, n, i) && m.badges[i].stored == n.badges[i].stored
    ensures StoreOk(w, m, i)
  {
  }

  /** A badge that recorded a justified peer. */
  lemma PeerRecorded(w: World, n: Net, m: Net, i: nat, p: nat)
    requires i < |n.badges| == |m.badges| == |w.ids| == |w.flash| && n.log <= m.log
    requires StoreOk(w, n, i) && Recorded(n.badges[i].stored, m.badges[i].stored, p)
    requires p in w.ids && Justified(w, n, i, p)
    ensures StoreOk(w, m, i)
  {
  }

  lemma HeardIsMember(w: World, log: seq<Sent>, kind: PacketType, id: nat)
    requires Heard(w, log, kind, id)
    ensures id in w.ids
  {
  }

  lemma HeardNow(w: World, log: seq<Sent>, k: nat)
    requires k < |log| && log[k].from < |w.ids|
    ensures Heard(w, log, log[k].kind, w.ids[log[k].from])
  {
  }

  lemma DeliverKept(w: World, n: Net, s: Step)
    requires Inv(w, n) && s.Deliver? && Can(w, n, s)
    ensures Inv(w, Next(w, n, s))
  {
    var b, e, h := s.b, n.log[s.k], n.badges[s.b];
    var p := Packet(e.kind, w.ids[e.from]);
    var (g, out) := Act(w, n, s);
    var m := Next(w, n, s);
    assert BadgeOk(w, n, b) && StoreOk(w, n, b);
    RoomLeft(w, n, b);
    ReceiveFacts(h, w.ids[b], p, s.now);
    assert SentOk(w, n, e);
    assert p.sender != w.ids[b];
    HeardNow(w, n.log, s.k);
    assert out != [] ==> Stamped(out, b, g.peer) == [Sent(out[0], b, g.peer)];
    if g.state == SENDER {
      HeardLater(w, n, m, SYNC_ACCEPT, g.peer);
    } else if g.state == RECEIVER {
      HeardLater(w, n, m, SYNC_REQUEST, g.peer);
      if out == [ACK] { HeardLater(w, n, m, ID_DATA, g.peer); }
    }
    if g.state == COMPLETED && h.state != COMPLETED {
      HeardIsMember(w, n.log, ACK, g.peer);
      PeerRecorded(w, n, m, b, g.peer);
    } else {
      SameStore(w, n, m, b);
    }
    OneBadgeMoved(w, n, b, g, out);
  }

  lemma QuietKept(w: World, n: Net, s: Step)
    requires Inv(w, n) && (s.Start? || s.Timer?) && Can(w, n, s)
    ensures Inv(w, Next(w, n, s))
  {
    var b, h := s.b, n.badges[s.b];
    var (g, out) := Act(w, n, s);
    var m := Next(w, n, s);
    assert BadgeOk(w, n, b) && StoreOk(w, n, b);
    QuietFacts(h, s.now, if s.Timer? then s.later else s.now);
    SameStore(w, n, m, b);
    assert out != [] ==> Stamped(out, b, g.peer) == [Sent(out[0], b, g.peer)];
    if g.state == SENDER { HeardLater(w, n, m, SYNC_ACCEPT, g.peer); }
    if g.state == RECEIVER { HeardLater(w, n, m, SYNC_REQUEST, g.peer); }
    OneBadgeMoved(w, n, b, g, out);
  }

  lemma FinishKept(w: World, n: Net, s: Step)
    requires Inv(w, n) && s.Finish? && Can(w, n, s)
    ensures Inv(w, Next(w, n, s))
  {
    var b, h := s.b, n.badges[s.b];
    var g := Act(w, n, s).0;
    var m := Next(w, n, s);
    assert BadgeOk(w, n, b) && StoreOk(w, n, b);
    RoomLeft(w, n, b);
    FinishFacts(h, s.later);
    HeardIsMember(w, n.log, SYNC_REQUEST, h.peer);
    PeerRecorded(w, n, m, b, h.peer);
    OneBadgeMoved(w, n, b, g, []);
  }

  lemma InvKept(w: World, n: Net, s: Step)
    requires Inv(w, n) && Can(w, n, s)
    ensures Inv(w, Next(w, n, s))
  {
    if s.Deliver? { DeliverKept(w, n, s); } else if s.Finish? { FinishKept(w, n, s); } else { QuietKept(w, n, s); }
  }

  // ---------------------------------------------------------------- whole runs

  lemma ShapeKept(w: World, n: Net, s: Step)
    requires Shape(w, n) && Can(w, n, s)
    ensures Shape(w, Next(w, n, s))
  {
    var (g, kinds) := Act(w, n, s);
    var packet := if s.Deliver? then Packet(n.log[s.k].kind, w.ids[n.log[s.k].from]) else Packet(UNKNOWN, 0);
    LevelCapped(n.badges[s.b], g, kinds, w.ids[s.b], s, packet);
    assert kinds != [] ==> Stamped(kinds, s.b, g.peer) == [Sent(kinds[0], s.b, g.peer)];
  }

  lemma LevelCapped(h: Handler, g: Handler, kinds: seq<PacketType>, me: nat, s: Step, p: Packet)
    requires h.level <= MAX_LEVEL
    requires match s
      case Start(_, now) => (g, kinds) == h.Start(now)
      case Deliver(_, _, now) => (g, kinds) == h.Receive(me, p, now)
      case Finish(_, later) => (g, kinds) == (h.Finish(later), [])
      case Timer(_, now, later) => (g, kinds) == (h.Timer(now, later), [])
    ensures g.level <= MAX_LEVEL && |kinds| <= 1
  {
  }

  ghost predicate CanRun(w: World, n: Net, steps: seq<Step>)
    requires Shape(w, n)
    decreases |steps|
  {
    steps == [] || (Can(w, n, steps[0]) && (ShapeKept(w, n, steps[0]); CanRun(w, Next(w, n, steps[0]), steps[1..])))
  }

  ghost function Run(w: World, n: Net, steps: seq<Step>): (m: Net)
    requires Shape(w, n) && CanRun(w, n, steps)
    ensures Shape(w, m)
    decreases |steps|
  {
    if steps == [] then n
    else
      ShapeKept(w, n, steps[0]);
      Run(w, Next(w, n, steps[0]), steps[1..])
  }

  lemma {:induction false} RunKeepsInv(w: World, n: Net, steps: seq<Step>)
    requires Inv(w, n) && CanRun(w, n, steps)
    ensures Inv(w, Run(w, n, steps))
    decreases |steps|
  {
    if steps != [] {
      InvKept(w, n, steps[0]);
      RunKeepsInv(w, Next(w, n, steps[0]), steps[1..]);
    }
  }

  lemma {:induction false} RunSnoc(w: World, n: Net, steps: seq<Step>, s: Step)
    requires Shape(w, n) && CanRun(w, n, steps) && Can(w, Run(w, n, steps), s)
    ensures CanRun(w, n, steps + [s])
    ensures Run(w, n, steps + [s]) == Next(w, Run(w, n, steps), s)
    decreases |steps|
  {
    if steps == [] {
      assert steps + [s] == [s];
      ShapeKept(w, n, s);
    } else {
      ShapeKept(w, n, steps[0]);
      RunSnoc(w, Next(w, n, steps[0]), steps[1..], s);
      assert (steps + [s])[0] == steps[0] && (steps + [s])[1..] == steps[1..] + [s];
    }
  }

  /** All badges powered on, then any run. */
  ghost predicate IsRun(w: World, steps: seq<Step>) {
    w.Ok() && CanRun(w, w.PoweredOn(), steps)
  }

  ghost function After(w: World, steps: seq<Step>): (n: Net)
    requires IsRun(w, steps)
    ensures Shape(w, n)
  {
    Run(w, w.PoweredOn(), steps)
  }

  /** The invariant holds in every reachable state. */
  lemma AlwaysInv(w: World, steps: seq<Step>)
    requires IsRun(w, steps)
    ensures Inv(w, After(w, steps))
  {
    InvInit(w);
    RunKeepsInv(w, w.PoweredOn(), steps);
  }
}
