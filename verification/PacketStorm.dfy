/**
 The same network when every packet reaches each other badge at most once: one copy per recipient is in
 flight, and a copy is delivered (in any order) or lost.  Every step is also a step of Pairing.
*/
module PacketStorm {
  import opened Arith
  import opened Protocol
  import opened Pairing

  /** A copy of packet number k (of the given kind) on its way to badge r. */
  datatype Copy = Copy(kind: PacketType, k: nat, r: nat)

  datatype Ether = Ether(net: Net, flight: seq<Copy>)

  datatype Move =
    | Own(s: Step)              // a button, a timer callback, or the end of a handler
    | Arrive(c: nat, now: int)  // the c-th copy in flight reaches its recipient
    | Lose(c: nat)

  function CopiesUpTo(kind: PacketType, k: nat, from: nat, n: nat): seq<Copy> {
    if n == 0 then []
    else CopiesUpTo(kind, k, from, n - 1) + if n - 1 == from then [] else [Copy(kind, k, n - 1)]
  }

  /** The copies of whatever a step appended to the log. */
  function NewCopies(n: Net, m: Net): seq<Copy> {
    if |m.log| <= |n.log| then []
    else
      var e := m.log[|n.log|];
      CopiesUpTo(e.kind, |n.log|, e.from, |n.badges|)
  }

  predicate CopyOk(n: Net, c: Copy) {
    c.k < |n.log| && n.log[c.k].kind == c.kind && c.r < |n.badges| && n.log[c.k].from != c.r
  }

  /** A state some run of Pairing reaches. */
  ghost predicate Reached(w: World, n: Net) {
    exists steps: seq<Step> :: IsRun(w, steps) && After(w, steps) == n
  }

  ghost predicate EtherOk(w: World, a: Ether) {
    Shape(w, a.net) && Reached(w, a.net) && forall c | 0 <= c < |a.flight| :: CopyOk(a.net, a.flight[c])
  }

  lemma ReachedInv(w: World, n: Net)
    requires Reached(w, n)
    ensures Inv(w, n)
  {
    var steps :| IsRun(w, steps) && After(w, steps) == n;
    AlwaysInv(w, steps);
  }

  lemma ReachedNext(w: World, n: Net, s: Step)
    requires Shape(w, n) && Reached(w, n) && Can(w, n, s)
    ensures Shape(w, Next(w, n, s)) && Reached(w, Next(w, n, s))
  {
    var steps :| IsRun(w, steps) && After(w, steps) == n;
    RunSnoc(w, w.PoweredOn(), steps, s);
    ShapeKept(w, n, s);
    assert IsRun(w, steps + [s]) && After(w, steps + [s]) == Next(w, n, s);
  }

  predicate CanMove(w: World, a: Ether, v: Move)
    requires Shape(w, a.net)
  {
    match v
    case Own(s) => !s.Deliver? && Can(w, a.net, s)
    case Arrive(c, now) => c < |a.flight| && Can(w, a.net, Deliver(a.flight[c].r, a.flight[c].k, now))
    case Lose(c) => c < |a.flight|
  }

  function Without(flight: seq<Copy>, c: nat): seq<Copy>
    requires c < |flight|
  {
    flight[..c] + flight[c + 1..]
  }

  function Moved(w: World, a: Ether, v: Move): Ether
    requires Shape(w, a.net) && CanMove(w, a, v)
  {
    match v
    case Own(s) =>
      var m := Next(w, a.net, s);
      Ether(m, a.flight + NewCopies(a.net, m))
    case Arrive(c, now) =>
      var m := Next(w, a.net, Deliver(a.flight[c].r, a.flight[c].k, now));
      Ether(m, Without(a.flight, c) + NewCopies(a.net, m))
    case Lose(c) => Ether(a.net, Without(a.flight, c))
  }

  // ---------------------------------------------------------------- sums over the copies in flight

  function Sum(flight: seq<Copy>, weight: PacketType -> nat): nat {
    if flight == [] then 0 else Sum(flight[..|flight| - 1], weight) + weight(flight[|flight| - 1].kind)
  }

  lemma {:induction false} SumConcat(s: seq<Copy>, t: seq<Copy>, weight: PacketType -> nat)
    ensures Sum(s + t, weight) == Sum(s, weight) + Sum(t, weight)
  {
    if t == [] {
      assert s + t == s;
    } else {
      SumConcat(s, t[..|t| - 1], weight);
      assert (s + t)[..|s + t| - 1] == s + t[..|t| - 1];
    }
  }

  lemma SumWithout(s: seq<Copy>, c: nat, weight: PacketType -> nat)
    requires c < |s|
    ensures Sum(Without(s, c), weight) + weight(s[c].kind) == Sum(s, weight)
  {
    SumConcat(s[..c], s[c + 1..], weight);
    SumConcat(s[..c + 1], s[c + 1..], weight);
    assert s == s[..c + 1] + s[c + 1..];
    assert s[..c + 1][..c] == s[..c];
  }

  /** How many of the first n badges are not the sender. */
  function Others(from: nat, n: nat): nat { if from < n then n - 1 else n }

  lemma {:induction false} SumCopies(kind: PacketType, k: nat, from: nat, n: nat, weight: PacketType -> nat)
    ensures Sum(CopiesUpTo(kind, k, from, n), weight) == weight(kind) * Others(from, n)
  {
    if n > 0 {
      SumCopies(kind, k, from, n - 1, weight);
      var rest := CopiesUpTo(kind, k, from, n - 1);
      assert rest + [] == rest;
      if n - 1 != from {
        assert (rest + [Copy(kind, k, n - 1)])[..|rest|] == rest;
        Distribute(weight(kind), Others(from, n - 1), 1);
      }
    }
  }

  lemma {:induction false} CopiesOk(n: Net, kind: PacketType, k: nat, from: nat, upTo: nat)
    requires k < |n.log| && n.log[k].kind == kind && n.log[k].from == from && upTo <= |n.badges|
    ensures forall c | 0 <= c < |CopiesUpTo(kind, k, from, upTo)| :: CopyOk(n, CopiesUpTo(kind, k, from, upTo)[c])
  {
    if upTo > 0 {
      CopiesOk(n, kind, k, from, upTo - 1);
    }
  }

  // ---------------------------------------------------------------- what a step sends

  /** At most one packet goes out, and a delivery answers a packet with the next kind in the exchange. */
  function Answer(kind: PacketType): PacketType {
    match kind
    case SYNC_REQUEST => SYNC_ACCEPT
    case SYNC_ACCEPT => ID_DATA
    case ID_DATA => ACK
    case _ => UNKNOWN
  }

  lemma SendsOne(w: World, n: Net, s: Step)
    requires Shape(w, n) && Reached(w, n) && Can(w, n, s)
    ensures var (m, h) := (Next(w, n, s), n.badges[s.b]);
      && |m.badges| == |n.badges|
      && (m.log == n.log || (|m.log| == |n.log| + 1 && n.log <= m.log && m.log[|n.log|].from == s.b))
      && (s.Deliver? && m.log != n.log ==>
            m.log[|n.log|].kind == Answer(n.log[s.k].kind) && n.log[s.k].kind in {SYNC_REQUEST, SYNC_ACCEPT, ID_DATA})
      && (s.Start? ==> (m.log != n.log <==> h.state == IDLE))
      && (s.Start? && m.log != n.log ==> m.log[|n.log|].kind == SYNC_REQUEST)
      && (s.Finish? || s.Timer? ==> m.log == n.log)
  {
    var b, h := s.b, n.badges[s.b];
    var (g, out) := Act(w, n, s);
    ReachedInv(w, n);
    assert BadgeOk(w, n, b) && StoreOk(w, n, b);
    if s.Deliver? {
      RoomLeft(w, n, b);
      ReceiveFacts(h, w.ids[b], Packet(n.log[s.k].kind, w.ids[n.log[s.k].from]), s.now);
    }
    assert |out| <= 1;
    assert out != [] ==> Stamped(out, b, g.peer) == [Sent(out[0], b, g.peer)];
  }

  // ---------------------------------------------------------------- the decreasing measure

  /** Delivering a packet of these kinds can make its recipient send. */
  predicate Provokes(kind: PacketType) { kind == SYNC_REQUEST || kind == SYNC_ACCEPT || kind == ID_DATA }

  function Rank(kind: PacketType): nat {
    match kind
    case SYNC_REQUEST => 3
    case SYNC_ACCEPT => 2
    case ID_DATA => 1
    case _ => 0
  }

  /**
   * How many deliveries a packet of this kind can still cause, the one that brings it included, when each packet
   * reaches m badges.
   */
  function Weight(kind: PacketType, m: nat): nat
    decreases Rank(kind)
  {
    if Provokes(kind) then 1 + m * Weight(Answer(kind), m) else 1
  }

  function Weights(m: nat): PacketType -> nat { kind => Weight(kind, m) }

  /** Everything still to come, should nothing be lost and every badge answer every packet. */
  function Load(w: World, a: Ether): nat
    requires |w.ids| > 0
  {
    Sum(a.flight, Weights(|w.ids| - 1))
  }

  /** The copies a step adds, weighed: one per other badge of the one packet it sent. */
  lemma NewCopiesSum(w: World, n: Net, s: Step, weight: PacketType -> nat)
    requires Shape(w, n) && Reached(w, n) && Can(w, n, s)
    ensures var m := Next(w, n, s);
      Sum(NewCopies(n, m), weight) == if m.log == n.log then 0 else weight(m.log[|n.log|].kind) * (|w.ids| - 1)
  {
    var m := Next(w, n, s);
    SendsOne(w, n, s);
    if m.log != n.log {
      var e := m.log[|n.log|];
      SumCopies(e.kind, |n.log|, e.from, |n.badges|, weight);
    }
  }

  lemma NewCopiesOk(w: World, n: Net, s: Step)
    requires Shape(w, n) && Reached(w, n) && Can(w, n, s)
    ensures var m := Next(w, n, s);
      && n.log <= m.log && |n.badges| == |m.badges|
      && forall c | 0 <= c < |NewCopies(n, m)| :: CopyOk(m, NewCopies(n, m)[c])
  {
    var m := Next(w, n, s);
    SendsOne(w, n, s);
    if m.log != n.log {
      var e := m.log[|n.log|];
      CopiesOk(m, e.kind, |n.log|, e.from, |n.badges|);
    }
  }

  /** The pairing step a move takes, if any. */
  function StepOf(a: Ether, v: Move): Step
    requires !v.Lose? && (v.Arrive? ==> v.c < |a.flight|)
  {
    match v
    case Own(s) => s
    case Arrive(c, now) => Deliver(a.flight[c].r, a.flight[c].k, now)
  }

  lemma OkKept(w: World, a: Ether, v: Move)
    requires EtherOk(w, a) && CanMove(w, a, v)
    ensures EtherOk(w, Moved(w, a, v))
  {
    if v.Lose? {
      return;
    }
    var s, b := StepOf(a, v), Moved(w, a, v);
    ReachedNext(w, a.net, s);
    NewCopiesOk(w, a.net, s);
    OldCopiesOk(a.net, b.net, a.flight);
    if v.Arrive? { OldCopiesOk(a.net, b.net, Without(a.flight, v.c)); }
  }

  /** A longer log changes nothing for the copies in flight. */
  lemma OldCopiesOk(n: Net, m: Net, flight: seq<Copy>)
    requires n.log <= m.log && |n.badges| == |m.badges| && forall c | 0 <= c < |flight| :: CopyOk(n, flight[c])
    ensures forall c | 0 <= c < |flight| :: CopyOk(m, flight[c])
  {
  }

  predicate Launches(a: Ether, v: Move) {
    v.Own? && v.s.Start? && v.s.b < |a.net.badges| && a.net.badges[v.s.b].state == IDLE
  }

  /** The exact effect of a move on any weighted sum of the copies in flight. */
  lemma SumMoved(w: World, a: Ether, v: Move, weight: PacketType -> nat)
    requires EtherOk(w, a) && CanMove(w, a, v)
    ensures
      var b := Moved(w, a, v);
      var gone := if v.Own? then 0 else weight(a.flight[v.c].kind);
      var added := if b.net.log == a.net.log then 0 else weight(b.net.log[|a.net.log|].kind) * (|w.ids| - 1);
      Sum(b.flight, weight) + gone == Sum(a.flight, weight) + added
  {
    if v.Lose? {
      SumWithout(a.flight, v.c, weight);
      return;
    }
    var s := StepOf(a, v);
    var m := Next(w, a.net, s);
    SendsOne(w, a.net, s);
    NewCopiesSum(w, a.net, s, weight);
    if v.Arrive? {
      SumWithout(a.flight, v.c, weight);
      SumConcat(Without(a.flight, v.c), NewCopies(a.net, m), weight);
    } else {
      SumConcat(a.flight, NewCopies(a.net, m), weight);
    }
  }

  /** What a move does to the log: nothing, or one packet, of the kind its cause dictates. */
  lemma LogMoved(w: World, a: Ether, v: Move)
    requires EtherOk(w, a) && CanMove(w, a, v)
    ensures
      var (old_, new_) := (a.net.log, Moved(w, a, v).net.log);
      && old_ <= new_ && |new_| <= |old_| + 1
      && (v.Lose? ==> new_ == old_)
      && (v.Own? ==> (new_ != old_ <==> Launches(a, v)) && (new_ != old_ ==> new_[|old_|].kind == SYNC_REQUEST))
      && (v.Arrive? && new_ != old_ ==>
            && a.flight[v.c].kind in {SYNC_REQUEST, SYNC_ACCEPT, ID_DATA}
            && new_[|old_|].kind == Answer(a.flight[v.c].kind))
  {
    if !v.Lose? {
      SendsOne(w, a.net, StepOf(a, v));
      assert v.Arrive? ==> CopyOk(a.net, a.flight[v.c]);
    }
  }

  lemma WeightOfRequest(m: nat)
    ensures Weight(SYNC_REQUEST, m) == 1 + m * (1 + m * (1 + m))
  {
  }

  /** The deliveries one start can cause: a SYNC_REQUEST's weight for each copy of it. */
  function PerStart(w: World): nat
    requires |w.ids| > 0
  {
    Weight(SYNC_REQUEST, |w.ids| - 1) * (|w.ids| - 1)
  }

  /** Spelled out for m other badges: m + m^2 + m^3 + m^4. */
  lemma PerStartIs(w: World, m: nat)
    requires |w.ids| == m + 1
    ensures PerStart(w) == m + m * m + m * m * m + m * m * m * m
  {
    WeightOfRequest(m);
    FourPowers(m);
  }

  lemma FourPowers(m: nat)
    ensures (1 + m * (1 + m * (1 + m))) * m == m + m * m + m * m * m + m * m * m * m
  {
    var a := 1 + m * (1 + m);
    assert m * (1 + m) == m + m * m;
    assert m * a == m + m * m + m * m * m;
    assert (1 + m * a) * m == m + (m * a) * m;
  }

  lemma OwnLoad(w: World, a: Ether, v: Move)
    requires EtherOk(w, a) && CanMove(w, a, v) && |w.ids| > 0 && v.Own?
    ensures Load(w, Moved(w, a, v)) == Load(w, a) + if Launches(a, v) then PerStart(w) else 0
  {
    OwnSum(w, a, v, Weights(|w.ids| - 1), PerStart(w));
  }

  lemma OwnSum(w: World, a: Ether, v: Move, weight: PacketType -> nat, start: nat)
    requires EtherOk(w, a) && CanMove(w, a, v) && |w.ids| > 0 && v.Own? && start == weight(SYNC_REQUEST) * (|w.ids| - 1)
    ensures Sum(Moved(w, a, v).flight, weight) == Sum(a.flight, weight) + if Launches(a, v) then start else 0
  {
    var answered := SumsCaused(w, a, v, weight);
  }

  lemma ArrivalLoad(w: World, a: Ether, v: Move)
    requires EtherOk(w, a) && CanMove(w, a, v) && |w.ids| > 0 && !v.Own?
    ensures Load(w, Moved(w, a, v)) < Load(w, a)
  {
    var m, kind := |w.ids| - 1, a.flight[v.c].kind;
    var answered, before, after := ArrivalSums(w, a, v, Weights(m), m, kind);
    ArrivalArith(kind, m, answered, Weights(m), before, after);
    LoadIs(w, a, m, before);
    LoadIs(w, Moved(w, a, v), m, after);
  }

  lemma LoadIs(w: World, a: Ether, m: nat, sum: nat)
    requires |w.ids| == m + 1 && sum == Sum(a.flight, Weights(m))
    ensures Load(w, a) == sum
  {
  }

  lemma ArrivalSums(w: World, a: Ether, v: Move, weight: PacketType -> nat, m: nat, kind: PacketType)
    returns (answered: bool, before: nat, after: nat)
    requires EtherOk(w, a) && CanMove(w, a, v) && |w.ids| == m + 1 && !v.Own? && kind == a.flight[v.c].kind
    ensures answered ==> Provokes(kind)
    ensures before == Sum(a.flight, weight) && after == Sum(Moved(w, a, v).flight, weight)
    ensures after + weight(kind) == before + if answered then weight(Answer(kind)) * m else 0
  {
    answered := SumsCaused(w, a, v, weight);
    before, after := Sum(a.flight, weight), Sum(Moved(w, a, v).flight, weight);
  }

  lemma ArrivalArith(kind: PacketType, m: nat, answered: bool, weight: PacketType -> nat, before: nat, after: nat)
    requires weight == Weights(m) && (answered ==> Provokes(kind))
    requires after + weight(kind) == before + if answered then weight(Answer(kind)) * m else 0
    ensures after < before
  {
    var own, answer := AnswerWeighsLess(kind, m);
  }

  /** SumMoved, with the kind sent named by its cause. */
  lemma SumsCaused(w: World, a: Ether, v: Move, weight: PacketType -> nat) returns (answered: bool)
    requires EtherOk(w, a) && CanMove(w, a, v) && |w.ids| > 0
    ensures v.Own? ==>
      Sum(Moved(w, a, v).flight, weight)
        == Sum(a.flight, weight) + if Launches(a, v) then weight(SYNC_REQUEST) * (|w.ids| - 1) else 0
    ensures !v.Own? ==> answered ==> Provokes(a.flight[v.c].kind)
    ensures !v.Own? ==>
      var kind := a.flight[v.c].kind;
      var added := if answered then weight(Answer(kind)) * (|w.ids| - 1) else 0;
      Sum(Moved(w, a, v).flight, weight) + weight(kind) == Sum(a.flight, weight) + added
  {
    SumMoved(w, a, v, weight);
    LogMoved(w, a, v);
    answered := Moved(w, a, v).net.log != a.net.log;
  }

  /** A packet weighs more than all the answers to it. */
  lemma AnswerWeighsLess(kind: PacketType, m: nat) returns (own: nat, answer: nat)
    ensures own == Weights(m)(kind) && own > 0 && answer == Weights(m)(Answer(kind)) * m
    ensures Provokes(kind) ==> answer < own
  {
    var next := Weight(Answer(kind), m);
    WeightUnfolds(kind, m, next);
    own, answer := Weight(kind, m), next * m;
  }

  lemma WeightUnfolds(kind: PacketType, m: nat, next: nat)
    requires next == Weight(Answer(kind), m)
    ensures Weight(kind, m) == if Provokes(kind) then 1 + next * m else 1
  {
  }

  /** Every delivery (or loss) brings the network closer to silence; only a start adds load, always the same amount. */
  lemma LoadFalls(w: World, a: Ether, v: Move)
    requires EtherOk(w, a) && CanMove(w, a, v) && |w.ids| > 0
    ensures !v.Own? ==> Load(w, Moved(w, a, v)) < Load(w, a)
    ensures v.Own? && !Launches(a, v) ==> Load(w, Moved(w, a, v)) == Load(w, a)
    ensures Launches(a, v) ==>
      Load(w, Moved(w, a, v)) == Load(w, a) + PerStart(w)
  {
    if v.Own? { OwnLoad(w, a, v); } else { ArrivalLoad(w, a, v); }
  }

  // ---------------------------------------------------------------- whole runs

  ghost predicate CanFly(w: World, a: Ether, moves: seq<Move>)
    requires EtherOk(w, a)
    decreases |moves|
  {
    moves == [] || (CanMove(w, a, moves[0]) && (OkKept(w, a, moves[0]); CanFly(w, Moved(w, a, moves[0]), moves[1..])))
  }

  ghost function Fly(w: World, a: Ether, moves: seq<Move>): (b: Ether)
    requires EtherOk(w, a) && CanFly(w, a, moves)
    ensures EtherOk(w, b)
    decreases |moves|
  {
    if moves == [] then a
    else
      OkKept(w, a, moves[0]);
      Fly(w, Moved(w, a, moves[0]), moves[1..])
  }

  function Deliveries(moves: seq<Move>): nat {
    if moves == [] then 0 else (if moves[0].Arrive? then 1 else 0) + Deliveries(moves[1..])
  }

  /** Starts that found the badge IDLE. */
  ghost function Launched(w: World, a: Ether, moves: seq<Move>): nat
    requires EtherOk(w, a) && CanFly(w, a, moves)
    decreases |moves|
  {
    if moves == [] then 0
    else
      OkKept(w, a, moves[0]);
      (if Launches(a, moves[0]) then 1 else 0) + Launched(w, Moved(w, a, moves[0]), moves[1..])
  }

  /** One move's share of the bound, with each start worth `perStart`. */
  lemma BoundStep(perStart: nat, started: nat, launches: bool, arrives: bool, rest: int, end: int, load: int, next: int)
    requires rest + end <= next + perStart * started
    requires next + (if arrives then 1 else 0) <= load + if launches then perStart else 0
    ensures (if arrives then 1 else 0) + rest + end <= load + perStart * ((if launches then 1 else 0) + started)
  {
  }

  lemma LoadStep(w: World, a: Ether, v: Move)
    requires EtherOk(w, a) && CanMove(w, a, v) && |w.ids| > 0
    ensures Load(w, Moved(w, a, v)) + (if v.Arrive? then 1 else 0)
      <= Load(w, a) + if Launches(a, v) then PerStart(w) else 0
  {
    LoadFalls(w, a, v);
  }

  lemma FlyNext(w: World, a: Ether, moves: seq<Move>) returns (b: Ether)
    requires EtherOk(w, a) && CanFly(w, a, moves) && moves != []
    ensures CanMove(w, a, moves[0]) && b == Moved(w, a, moves[0]) && EtherOk(w, b) && CanFly(w, b, moves[1..])
    ensures Fly(w, a, moves) == Fly(w, b, moves[1..])
    ensures Launched(w, a, moves) == (if Launches(a, moves[0]) then 1 else 0) + Launched(w, b, moves[1..])
  {
    OkKept(w, a, moves[0]);
    b := Moved(w, a, moves[0]);
  }

  /** No packet storm: however the run goes on, each start causes at most a fixed number of deliveries. */
  lemma {:induction false} DeliveriesBounded(w: World, a: Ether, moves: seq<Move>)
    requires EtherOk(w, a) && CanFly(w, a, moves) && |w.ids| > 0
    ensures Deliveries(moves) + Load(w, Fly(w, a, moves))
         <= Load(w, a) + PerStart(w) * Launched(w, a, moves)
    decreases |moves|
  {
    if moves != [] {
      var v, rest := moves[0], moves[1..];
      var b := FlyNext(w, a, moves);
      LoadStep(w, a, v);
      DeliveriesBounded(w, b, rest);
      BoundStep(PerStart(w), Launched(w, b, rest), Launches(a, v), v.Arrive?, Deliveries(rest),
        Load(w, Fly(w, b, rest)),
        Load(w, a), Load(w, b));
    }
  }

  // ---------------------------------------------------------------- how many packets of each kind

  function Count(log: seq<Sent>, kind: PacketType): nat {
    if log == [] then 0 else Count(log[..|log| - 1], kind) + if log[|log| - 1].kind == kind then 1 else 0
  }

  function Is(kind: PacketType): PacketType -> nat { k => if k == kind then 1 else 0 }

  /** Each packet is answered at most once per other badge, copies still in flight included. */
  predicate Answered(others: int, a: Ether, kind: PacketType) {
    Count(a.net.log, Answer(kind)) + Sum(a.flight, Is(kind)) <= others * Count(a.net.log, kind)
  }

  predicate Counted(w: World, a: Ether) {
    Answered(|w.ids| - 1, a, SYNC_REQUEST) && Answered(|w.ids| - 1, a, SYNC_ACCEPT) && Answered(|w.ids| - 1, a, ID_DATA)
    && Count(a.net.log, CANCEL) == 0
  }

  lemma CountGrows(n: Net, m: Net, kind: PacketType)
    requires n.log <= m.log && |m.log| <= |n.log| + 1
    ensures Count(m.log, kind) == Count(n.log, kind) + if |m.log| > |n.log| && m.log[|n.log|].kind == kind then 1 else 0
  {
    if |m.log| > |n.log| {
      assert m.log[..|m.log| - 1] == n.log;
    } else {
      assert m.log == n.log;
    }
  }

  lemma AnsweredKept(w: World, a: Ether, v: Move, kind: PacketType, others: nat)
    requires EtherOk(w, a) && CanMove(w, a, v) && |w.ids| == others + 1
    requires Provokes(kind) && Answered(others, a, kind)
    ensures Answered(others, Moved(w, a, v), kind)
  {
    var b := Moved(w, a, v);
    var gone, added := SumsMoved(w, a, v, kind);
    AnsweredArith(others, Count(a.net.log, kind), Count(a.net.log, Answer(kind)), Sum(a.flight, Is(kind)),
      Count(b.net.log, kind), Count(b.net.log, Answer(kind)), Sum(b.flight, Is(kind)), gone, added);
  }

  lemma AnsweredArith(m: nat, c0: nat, c1: nat, s: nat, d0: nat, d1: nat, t: nat, gone: nat, added: nat)
    requires c1 + s <= m * c0 && t + gone == s + added
    requires (d0 == c0 && added == 0) || (d0 == c0 + 1 && added == m)
    requires d1 <= c1 + gone
    ensures d1 + t <= m * d0
  {
  }

  /** What a move does to the copies of one kind in flight, and to the counts of that kind and of its answer. */
  lemma SumsMoved(w: World, a: Ether, v: Move, kind: PacketType) returns (gone: nat, added: nat)
    requires EtherOk(w, a) && CanMove(w, a, v) && |w.ids| > 0 && Provokes(kind)
    ensures var b := Moved(w, a, v);
      && Sum(b.flight, Is(kind)) + gone == Sum(a.flight, Is(kind)) + added
      && (var c0, d0 := Count(a.net.log, kind), Count(b.net.log, kind);
          (d0 == c0 && added == 0) || (d0 == c0 + 1 && added == |w.ids| - 1))
      && Count(b.net.log, Answer(kind)) <= Count(a.net.log, Answer(kind)) + gone
  {
    var b := Moved(w, a, v);
    SumMoved(w, a, v, Is(kind));
    LogMoved(w, a, v);
    CountGrows(a.net, b.net, kind);
    CountGrows(a.net, b.net, Answer(kind));
    gone := if v.Own? then 0 else Is(kind)(a.flight[v.c].kind);
    added := if b.net.log == a.net.log then 0 else Is(kind)(b.net.log[|a.net.log|].kind) * (|w.ids| - 1);
  }

  lemma CancelNeverSent(w: World, a: Ether, v: Move)
    requires EtherOk(w, a) && CanMove(w, a, v)
    requires Count(a.net.log, CANCEL) == 0
    ensures Count(Moved(w, a, v).net.log, CANCEL) == 0
    ensures Count(Moved(w, a, v).net.log, SYNC_REQUEST)
         == Count(a.net.log, SYNC_REQUEST) + if Launches(a, v) then 1 else 0
  {
    LogMoved(w, a, v);
    var b := Moved(w, a, v).net;
    CountGrows(a.net, b, CANCEL);
    CountGrows(a.net, b, SYNC_REQUEST);
    assert b.log != a.net.log && v.Arrive? ==> Provokes(a.flight[v.c].kind);
  }

  /**
   In every run the packet counts form a chain: SYNC_REQUESTs equal the successful starts, and each later
   kind is sent at most (badges - 1) times as often as the one it answers.  CANCEL is never sent.
  */
  lemma {:induction false} PacketChain(w: World, a: Ether, moves: seq<Move>)
    requires EtherOk(w, a) && CanFly(w, a, moves) && |w.ids| > 0 && Counted(w, a)
    ensures var b := Fly(w, a, moves);
      && Counted(w, b)
      && Count(b.net.log, SYNC_REQUEST) == Count(a.net.log, SYNC_REQUEST) + Launched(w, a, moves)
      && Count(b.net.log, SYNC_ACCEPT) <= (|w.ids| - 1) * Count(b.net.log, SYNC_REQUEST)
      && Count(b.net.log, ID_DATA) <= (|w.ids| - 1) * Count(b.net.log, SYNC_ACCEPT)
      && Count(b.net.log, ACK) <= (|w.ids| - 1) * Count(b.net.log, ID_DATA)
    decreases |moves|
  {
    if moves != [] {
      var v := moves[0];
      OkKept(w, a, v);
      AnsweredKept(w, a, v, SYNC_REQUEST, |w.ids| - 1);
      AnsweredKept(w, a, v, SYNC_ACCEPT, |w.ids| - 1);
      AnsweredKept(w, a, v, ID_DATA, |w.ids| - 1);
      CancelNeverSent(w, a, v);
      PacketChain(w, Moved(w, a, v), moves[1..]);
    }
  }

  /** Power-on: nothing sent, nothing in flight. */
  function Silence(w: World): (a: Ether)
    requires w.Ok()
    ensures EtherOk(w, a)
  {
    InvInit(w);
    assert IsRun(w, []) && After(w, []) == w.PoweredOn();
    Ether(w.PoweredOn(), [])
  }

  /** The chain, and the bound on deliveries, from power-on. */
  lemma NoPacketStorm(w: World, moves: seq<Move>)
    requires w.Ok() && |w.ids| > 0 && CanFly(w, Silence(w), moves)
    ensures
      var log := Fly(w, Silence(w), moves).net.log;
      var starts := Launched(w, Silence(w), moves);
      && Count(log, SYNC_REQUEST) == starts
      && Count(log, SYNC_ACCEPT) <= (|w.ids| - 1) * Count(log, SYNC_REQUEST)
      && Count(log, ID_DATA) <= (|w.ids| - 1) * Count(log, SYNC_ACCEPT)
      && Count(log, ACK) <= (|w.ids| - 1) * Count(log, ID_DATA)
      && Count(log, CANCEL) == 0
      && Deliveries(moves) <= PerStart(w) * starts
  {
    PacketChain(w, Silence(w), moves);
    DeliveriesBounded(w, Silence(w), moves);
  }
}
