/** Every packet a badge sends has its cause, and every cause its packet. */
module PacketCounts {
  import opened Protocol
  import opened Pairing

  /** The packets of one kind that badge b has sent. */
  function SentBy(log: seq<Sent>, b: nat, kind: PacketType): nat {
    if log == [] then 0
    else
      var last := log[|log| - 1];
      SentBy(log[..|log| - 1], b, kind) + if last.from == b && last.kind == kind then 1 else 0
  }

  /** The step brings badge b a packet of this kind. */
  predicate Brings(n: Net, s: Step, b: nat, kind: PacketType) {
    s.Deliver? && s.b == b && s.k < |n.log| && n.log[s.k].kind == kind
  }

  /** The step starts badge b, which is IDLE. */
  predicate StartsIdle(n: Net, s: Step, b: nat)
    requires b < |n.badges|
  {
    s.Start? && s.b == b && n.badges[b].state == IDLE
  }

  /** The step brings b a SYNC_REQUEST while it waits and has the lower id, or is RECEIVER with that peer. */
  predicate Invited(w: World, n: Net, s: Step, b: nat)
    requires Shape(w, n) && b < |n.badges|
  {
    && Brings(n, s, b, SYNC_REQUEST)
    && var sender := w.ids[n.log[s.k].from];
      || (n.badges[b].state == WAITING_FOR_PEER && w.ids[b] < sender)
      || (n.badges[b].state == RECEIVER && n.badges[b].peer == sender)
  }

  /** The step brings b a SYNC_ACCEPT while it waits, or is SENDER with that peer. */
  predicate Accepted(w: World, n: Net, s: Step, b: nat)
    requires Shape(w, n) && b < |n.badges|
  {
    && Brings(n, s, b, SYNC_ACCEPT)
    && (n.badges[b].state == WAITING_FOR_PEER
        || (n.badges[b].state == SENDER && n.badges[b].peer == w.ids[n.log[s.k].from]))
  }

  /** The step brings b, a RECEIVER, its peer's ID_DATA. */
  predicate Identified(w: World, n: Net, s: Step, b: nat)
    requires Shape(w, n) && b < |n.badges|
  {
    && Brings(n, s, b, ID_DATA)
    && n.badges[b].state == RECEIVER && n.badges[b].peer == w.ids[n.log[s.k].from]
  }

  /** What makes badge b send a packet of this kind. */
  predicate Causes(w: World, n: Net, s: Step, b: nat, kind: PacketType)
    requires Shape(w, n) && b < |n.badges|
  {
    match kind
    case SYNC_REQUEST => StartsIdle(n, s, b)
    case SYNC_ACCEPT => Invited(w, n, s, b)
    case ID_DATA => Accepted(w, n, s, b)
    case ACK => Identified(w, n, s, b)
    case CANCEL => false
    case UNKNOWN => false
  }

  /** How many steps of a run from n do. */
  ghost function Caused(w: World, n: Net, steps: seq<Step>, b: nat, kind: PacketType): nat
    requires Shape(w, n) && CanRun(w, n, steps) && b < |n.badges|
    decreases |steps|
  {
    if steps == [] then 0
    else
      ShapeKept(w, n, steps[0]);
      (if Causes(w, n, steps[0], b, kind) then 1 else 0) + Caused(w, Next(w, n, steps[0]), steps[1..], b, kind)
  }

  lemma SentBySnoc(log: seq<Sent>, e: Sent, b: nat, kind: PacketType)
    ensures SentBy(log + [e], b, kind) == SentBy(log, b, kind) + if e.from == b && e.kind == kind then 1 else 0
  {
    assert (log + [e])[..|log|] == log;
  }

  /** What the acting badge sends: one packet of the kind that has its cause, or nothing. */
  lemma ActSends(w: World, n: Net, s: Step) returns (kinds: seq<PacketType>)
    requires Shape(w, n) && Can(w, n, s)
    ensures kinds == Act(w, n, s).1 && |kinds| <= 1
    ensures forall kind :: Causes(w, n, s, s.b, kind) <==> kinds == [kind]
  {
    kinds := Act(w, n, s).1;
  }

  lemma NextLog(w: World, n: Net, s: Step, kinds: seq<PacketType>) returns (peer: nat)
    requires Shape(w, n) && Can(w, n, s) && kinds == Act(w, n, s).1 && |kinds| <= 1
    ensures Next(w, n, s).log == if kinds == [] then n.log else n.log + [Sent(kinds[0], s.b, peer)]
  {
    peer := Act(w, n, s).0.peer;
    assert kinds != [] ==> Stamped(kinds, s.b, peer) == [Sent(kinds[0], s.b, peer)];
  }

  lemma StepSends(w: World, n: Net, s: Step, b: nat, kind: PacketType)
    requires Shape(w, n) && Can(w, n, s) && b < |n.badges|
    ensures SentBy(Next(w, n, s).log, b, kind)
      == SentBy(n.log, b, kind) + if Causes(w, n, s, b, kind) then 1 else 0
  {
    var kinds := ActSends(w, n, s);
    var peer := NextLog(w, n, s, kinds);
    if kinds != [] { SentBySnoc(n.log, Sent(kinds[0], s.b, peer), b, kind); }
  }

  lemma {:induction false} RunSends(w: World, n: Net, steps: seq<Step>, b: nat, kind: PacketType)
    requires Shape(w, n) && CanRun(w, n, steps) && b < |n.badges|
    ensures SentBy(Run(w, n, steps).log, b, kind) == SentBy(n.log, b, kind) + Caused(w, n, steps, b, kind)
    decreases |steps|
  {
    if steps != [] {
      ShapeKept(w, n, steps[0]);
      StepSends(w, n, steps[0], b, kind);
      RunSends(w, Next(w, n, steps[0]), steps[1..], b, kind);
    }
  }

  /**
   * In every run each badge has sent, of each kind, exactly as many packets as there were causes: starts while IDLE,
   * SYNC_REQUESTs and SYNC_ACCEPTs that open or repeat its part of an exchange, and its peer's ID_DATAs.
   */
  lemma SentExactly(w: World, steps: seq<Step>, b: nat, kind: PacketType)
    requires IsRun(w, steps) && b < |w.ids|
    ensures SentBy(After(w, steps).log, b, kind) == Caused(w, w.PoweredOn(), steps, b, kind)
  {
    RunSends(w, w.PoweredOn(), steps, b, kind);
  }
}
