/** The ten transfers of a key exchange, from bits on the bus to the flag on the badge. */
module QkdExchange {
  import opened KeyCipher
  import Bus

  const SIZE: nat := 128      // bits a transfer
  const ROUND: nat := 640     // bits of one round of five transfers

  /** What one round draws at random, and the flag it sends. */
  datatype Round = Round(dockBits: string, badgeBasis: string, dockBasis: string, dockKey: string, flag: string)

  ghost predicate GoodRound(r: Round) {
    && |r.dockBits| == |r.badgeBasis| == |r.dockBasis| == |r.dockKey| == SIZE
    && Binary(r.dockBits) && Binary(r.badgeBasis) && Binary(r.dockBasis) && Binary(r.dockKey)
    && |r.flag| == 16 && Narrow(r.flag) && NulFree(r.flag)
  }

  function Bits(text: string): (b: seq<bool>)
    ensures |b| == |text|
  {
    seq(|text|, i requires 0 <= i < |text| => text[i] == '1')
  }

  function Text(bits: seq<bool>): (t: string)
    ensures |t| == |bits|
  {
    seq(|bits|, i requires 0 <= i < |bits| => if bits[i] then '1' else '0')
  }

  lemma TextOfBits(t: string)
    requires Binary(t)
    ensures Text(Bits(t)) == t
  {
  }

  /** Transfer k of a round, as received: bits 128 k to 128 k + 127 of it. */
  function Received(bits: seq<bool>, k: nat): string
    requires SIZE * k + SIZE <= |bits|
  {
    Text(bits[SIZE * k..SIZE * k + SIZE])
  }

  /** What the dock sends in transfer k of a round, given the round's earlier bits. */
  function DockSends(r: Round, k: nat, earlier: seq<bool>): string {
    if k == 0 then r.dockBits
    else if k == 2 then r.dockBasis
    else if k == 3 then r.dockKey
    else if k == 4 && |earlier| >= 2 * SIZE then
      var key := SharedKey(r.dockKey, Received(earlier, 1), r.dockBasis);
      if key == [] then [] else XorWrapped(ToBinary(r.flag), key)
    else []
  }

  function BadgeSends(r: Round, k: nat): string {
    if k == 1 then r.badgeBasis else []
  }

  function CharAt(text: string, i: nat): bool { i < |text| && text[i] == '1' }

  /** The bit of a round that follows the given ones: the next character of the current transfer's string. */
  function DockBit(r: Round, sofar: seq<bool>): bool {
    var k := |sofar| / SIZE;
    CharAt(DockSends(r, k, sofar[..SIZE * k]), |sofar| % SIZE)
  }

  function BadgeBit(r: Round, sofar: seq<bool>): bool {
    CharAt(BadgeSends(r, |sofar| / SIZE), |sofar| % SIZE)
  }

  /** The bits of a round as a party sends them, given the round's earlier bits. */
  type Sender = seq<bool> -> bool

  function Dock(r: Round): Sender { (sofar: seq<bool>) => DockBit(r, sofar) }

  function Badge(r: Round): Sender { (sofar: seq<bool>) => BadgeBit(r, sofar) }

  // ---------------------------------------------------------------- the two programs

  /** One call of the bus functions, with the number of bits it sends or reads. */
  datatype Call = SendBits(length: nat) | ReadBits(length: nat)

  /** qkd_routine on the dock ... */
  const DOCK_CALLS: seq<Call> := [
    SendBits(128), ReadBits(128), SendBits(128), SendBits(128), SendBits(128),
    SendBits(128), ReadBits(128), SendBits(128), SendBits(128), SendBits(128)]

  /** ... and qkd_init on the badge. */
  const BADGE_CALLS: seq<Call> := [
    ReadBits(128), SendBits(128), ReadBits(128), ReadBits(128), ReadBits(128),
    ReadBits(128), SendBits(128), ReadBits(128), ReadBits(128), ReadBits(128)]

  /** What a program does bit by bit. */
  function Ops(calls: seq<Call>): (ops: seq<Bus.Op>) {
    if calls == [] then []
    else
      var last := calls[|calls| - 1];
      Ops(calls[..|calls| - 1]) + seq(last.length, _ => if last.SendBits? then Bus.Send else Bus.Read)
  }

  /** Two programs whose calls pair up: equally long, one sending where the other reads. */
  ghost predicate PairUp(a: seq<Call>, b: seq<Call>) {
    |a| == |b| && forall k | 0 <= k < |a| :: a[k].length == b[k].length && a[k].SendBits? != b[k].SendBits?
  }

  /** Then they are complementary bit by bit. */
  lemma {:induction false} PairedOps(a: seq<Call>, b: seq<Call>)
    requires PairUp(a, b)
    ensures |Ops(a)| == |Ops(b)| && forall i | 0 <= i < |Ops(a)| :: Ops(a)[i] != Ops(b)[i]
  {
    if a != [] { PairedOps(a[..|a| - 1], b[..|b| - 1]); }
  }

  /** Bit i of a program of SIZE-bit calls belongs to call i / SIZE. */
  lemma {:induction false} OpsAt(calls: seq<Call>, i: nat)
    requires (forall k | 0 <= k < |calls| :: calls[k].length == SIZE) && i < SIZE * |calls|
    ensures |Ops(calls)| == SIZE * |calls| && i / SIZE < |calls|
    ensures Ops(calls)[i] == if calls[i / SIZE].SendBits? then Bus.Send else Bus.Read
  {
    var front := calls[..|calls| - 1];
    if i < SIZE * |front| { OpsAt(front, i); } else if front != [] { OpsAt(front, 0); }
  }

  /** One round after the other. */
  function Then(first: Sender, second: Sender): Sender {
    (sofar: seq<bool>) => if |sofar| < ROUND then first(sofar) else second(sofar[ROUND..])
  }

  /** The programs of the two rounds, each party following its own. */
  function ExchangePlan(first: Round, second: Round): Bus.Plan {
    Bus.Plan(Ops(DOCK_CALLS), Ops(BADGE_CALLS), Then(Dock(first), Dock(second)), Then(Badge(first), Badge(second)))
  }

  // ---------------------------------------------------------------- what the plan amounts to

  function KeyOf(r: Round): string { SharedKey(r.dockKey, r.badgeBasis, r.dockBasis) }

  ghost predicate KeyedRound(r: Round) { GoodRound(r) && KeyOf(r) != [] }

  function CipherOf(r: Round): string
    requires KeyOf(r) != []
  {
    XorWrapped(ToBinary(r.flag), KeyOf(r))
  }

  /** The strings the five transfers of a round are meant to carry. */
  function Carried(r: Round): (strings: seq<string>)
    requires KeyOf(r) != []
    ensures |strings| == 5
  {
    [r.dockBits, r.badgeBasis, r.dockBasis, r.dockKey, CipherOf(r)]
  }

  ghost predicate AllGood(strings: seq<string>) {
    |strings| == 5 && forall k | 0 <= k < 5 :: |strings[k]| == SIZE && Binary(strings[k])
  }

  lemma CarriedIsGood(r: Round)
    requires KeyedRound(r)
    ensures AllGood(Carried(r))
  {
  }

  /** The bits of the first k transfers. */
  function Joined(strings: seq<string>, k: nat): (bits: seq<bool>)
    requires k <= |strings|
  {
    if k == 0 then [] else Joined(strings, k - 1) + Bits(strings[k - 1])
  }

  lemma {:induction false} JoinedLength(strings: seq<string>, k: nat)
    requires AllGood(strings) && k <= 5
    ensures |Joined(strings, k)| == SIZE * k
  {
    if k > 0 { JoinedLength(strings, k - 1); }
  }

  /** Any later part of the round still shows transfer k. */
  lemma {:induction false} RoundShows(strings: seq<string>, k: nat, upTo: nat)
    requires AllGood(strings) && k < upTo <= 5
    ensures |Joined(strings, upTo)| == SIZE * upTo && Received(Joined(strings, upTo), k) == strings[k]
  {
    JoinedLength(strings, upTo);
    JoinedLength(strings, upTo - 1);
    if k == upTo - 1 {
      assert Joined(strings, upTo)[SIZE * k..SIZE * k + SIZE] == Bits(strings[k]);
      TextOfBits(strings[k]);
    } else {
      RoundShows(strings, k, upTo - 1);
      assert Joined(strings, upTo)[SIZE * k..SIZE * k + SIZE] == Joined(strings, upTo - 1)[SIZE * k..SIZE * k + SIZE];
    }
  }

  /** The sender of transfer k, seeing only what it has sent and received, sends what the transfer is meant to carry. */
  lemma SenderSends(r: Round, k: nat)
    requires KeyedRound(r) && k < 5
    ensures k == 1 ==> BadgeSends(r, k) == Carried(r)[k]
    ensures k != 1 ==> DockSends(r, k, Joined(Carried(r), k)) == Carried(r)[k]
  {
    CarriedIsGood(r);
    if k == 4 { RoundShows(Carried(r), 1, 4); }
  }

  /** The round's parties send the given strings. */
  ghost predicate Sending(dock: Sender, badge: Sender, strings: seq<string>) {
    && AllGood(strings)
    && forall k: nat, j: nat | k < 5 && j < SIZE :: SendsBit(dock, badge, strings, k, j)
  }

  ghost predicate SendsBit(dock: Sender, badge: Sender, strings: seq<string>, k: nat, j: nat)
    requires AllGood(strings) && k < 5 && j < SIZE
  {
    var sofar := Joined(strings, k) + Bits(strings[k])[..j];
    (if k == 1 then badge(sofar) else dock(sofar)) == Bits(strings[k])[j]
  }

  lemma NextBit(r: Round, k: nat, j: nat)
    requires KeyedRound(r) && k < 5 && j < SIZE && AllGood(Carried(r))
    ensures SendsBit(Dock(r), Badge(r), Carried(r), k, j)
  {
    var before, bits := Joined(Carried(r), k), Bits(Carried(r)[k]);
    JoinedLength(Carried(r), k);
    SenderSends(r, k);
    var sofar := before + bits[..j];
    assert |sofar| / SIZE == k && |sofar| % SIZE == j && sofar[..SIZE * k] == before;
  }

  lemma RoundSends(r: Round)
    requires KeyedRound(r)
    ensures Sending(Dock(r), Badge(r), Carried(r))
  {
    CarriedIsGood(r);
    forall k: nat, j: nat | k < 5 && j < SIZE ensures SendsBit(Dock(r), Badge(r), Carried(r), k, j) {
      NextBit(r, k, j);
    }
  }

  // ---------------------------------------------------------------- the conversation

  /** A conversation grows by the bits that follow it. */
  lemma {:induction false} IdealGrows(p: Bus.Plan, whole: seq<bool>, bits: seq<bool>, n: nat)
    requires n <= |bits| && p.Ideal(|whole|) == whole
    requires forall j: nat | j < |bits| :: p.BitAfter(whole + bits[..j]) == bits[j]
    ensures p.Ideal(|whole| + n) == whole + bits[..n]
  {
    if n > 0 {
      IdealGrows(p, whole, bits, n - 1);
      assert whole + bits[..n] == whole + bits[..n - 1] + [bits[n - 1]];
    }
  }

  /** A plan that, after `before`, goes on with the bits of one round. */
  ghost predicate Continues(p: Bus.Plan, before: seq<bool>, dock: Sender, badge: Sender) {
    forall part: seq<bool> | |part| < ROUND ::
      p.BitAfter(before + part) == if |part| / SIZE == 1 then badge(part) else dock(part)
  }

  /** The dock reads in the second transfer of each round. */
  lemma DockOpAt(i: nat)
    requires i < 2 * ROUND
    ensures |Ops(DOCK_CALLS)| == 2 * ROUND
    ensures Ops(DOCK_CALLS)[i] == if (i / SIZE) % 5 == 1 then Bus.Read else Bus.Send
  {
    OpsAt(DOCK_CALLS, i);
  }

  /** The ten sends and reads of the dock's program and the ten of the badge's pair up. */
  lemma ProgramsPairUp(first: Round, second: Round)
    ensures PairUp(DOCK_CALLS, BADGE_CALLS)
    ensures ExchangePlan(first, second).Complementary() && |Ops(DOCK_CALLS)| == |Ops(BADGE_CALLS)| == 2 * ROUND
  {
    PairedOps(DOCK_CALLS, BADGE_CALLS);
    DockOpAt(0);
  }

  /** A dock's program that reads in the second transfer of each round. */
  ghost predicate ReadsSecond(ops: seq<Bus.Op>) {
    |ops| == 2 * ROUND && forall i | 0 <= i < 2 * ROUND :: ops[i] == if (i / SIZE) % 5 == 1 then Bus.Read else Bus.Send
  }

  lemma DockReadsSecond()
    ensures ReadsSecond(Ops(DOCK_CALLS))
  {
    DockOpAt(0);
    forall i | 0 <= i < 2 * ROUND
      ensures Ops(DOCK_CALLS)[i] == if (i / SIZE) % 5 == 1 then Bus.Read else Bus.Send
    {
      DockOpAt(i);
    }
  }

  lemma BitOfRound(p: Bus.Plan, before: seq<bool>, part: seq<bool>)
    requires ReadsSecond(p.dockOps) && (before == [] || |before| == ROUND) && |part| < ROUND
    ensures p.BitAfter(before + part) == if |part| / SIZE == 1 then p.badge(before + part) else p.dock(before + part)
  {
    var i := |before + part|;
    assert p.dockOps[i] == if (i / SIZE) % 5 == 1 then Bus.Read else Bus.Send;
  }

  lemma FirstContinues(p: Bus.Plan, dock: Sender, dock': Sender, badge: Sender, badge': Sender)
    requires ReadsSecond(p.dockOps) && p.dock == Then(dock, dock') && p.badge == Then(badge, badge')
    ensures Continues(p, [], dock, badge)
  {
    forall part: seq<bool> | |part| < ROUND
      ensures p.BitAfter([] + part) == if |part| / SIZE == 1 then badge(part) else dock(part)
    {
      BitOfRound(p, [], part);
      assert [] + part == part;
    }
  }

  lemma SecondContinues(p: Bus.Plan, dock: Sender, dock': Sender, badge: Sender, badge': Sender, before: seq<bool>)
    requires ReadsSecond(p.dockOps) && p.dock == Then(dock, dock') && p.badge == Then(badge, badge')
    requires |before| == ROUND
    ensures Continues(p, before, dock', badge')
  {
    forall part: seq<bool> | |part| < ROUND
      ensures p.BitAfter(before + part) == if |part| / SIZE == 1 then badge'(part) else dock'(part)
    {
      BitOfRound(p, before, part);
      assert (before + part)[ROUND..] == part;
    }
  }

  /** The bit that follows k whole transfers and some bits of the next. */
  lemma ContinuesWith(p: Bus.Plan, before: seq<bool>, dock: Sender, badge: Sender, joined: seq<bool>, bits: seq<bool>,
      k: nat)
    requires Continues(p, before, dock, badge) && k < 5 && |joined| == SIZE * k && |bits| < SIZE
    ensures p.BitAfter(before + joined + bits) == if k == 1 then badge(joined + bits) else dock(joined + bits)
  {
    var part := joined + bits;
    assert |part| / SIZE == k;
    assert before + joined + bits == before + part;
  }

  lemma BitCarried(p: Bus.Plan, before: seq<bool>, dock: Sender, badge: Sender, strings: seq<string>, k: nat, j: nat)
    requires Continues(p, before, dock, badge) && Sending(dock, badge, strings) && k < 5 && j < SIZE
    ensures p.BitAfter(before + Joined(strings, k) + Bits(strings[k])[..j]) == Bits(strings[k])[j]
  {
    JoinedLength(strings, k);
    ContinuesWith(p, before, dock, badge, Joined(strings, k), Bits(strings[k])[..j], k);
    assert SendsBit(dock, badge, strings, k, j);
  }

  lemma JoinedNext(before: seq<bool>, strings: seq<string>, k: nat)
    requires AllGood(strings) && k < 5
    ensures before + Joined(strings, k + 1) == before + Joined(strings, k) + Bits(strings[k])
    ensures |Bits(strings[k])| == SIZE
  {
  }

  lemma GrowsByAll(p: Bus.Plan, whole: seq<bool>, bits: seq<bool>, grown: seq<bool>)
    requires p.Ideal(|whole|) == whole && grown == whole + bits
    requires forall j: nat | j < |bits| :: p.BitAfter(whole + bits[..j]) == bits[j]
    ensures p.Ideal(|grown|) == grown
  {
    IdealGrows(p, whole, bits, |bits|);
    assert bits[..|bits|] == bits;
  }

  lemma TransferCarried(p: Bus.Plan, before: seq<bool>, dock: Sender, badge: Sender, strings: seq<string>, k: nat)
    requires Continues(p, before, dock, badge) && Sending(dock, badge, strings) && k < 5
    requires p.Ideal(|before + Joined(strings, k)|) == before + Joined(strings, k)
    ensures p.Ideal(|before + Joined(strings, k + 1)|) == before + Joined(strings, k + 1)
  {
    JoinedNext(before, strings, k);
    var whole, bits := before + Joined(strings, k), Bits(strings[k]);
    forall j: nat | j < |bits| ensures p.BitAfter(whole + bits[..j]) == bits[j] {
      BitCarried(p, before, dock, badge, strings, k, j);
    }
    GrowsByAll(p, whole, bits, before + Joined(strings, k + 1));
  }

  lemma {:induction false} RoundCarried(p: Bus.Plan, before: seq<bool>, dock: Sender, badge: Sender,
      strings: seq<string>, k: nat)
    requires Continues(p, before, dock, badge) && Sending(dock, badge, strings) && k <= 5 && p.Ideal(|before|) == before
    ensures p.Ideal(|before + Joined(strings, k)|) == before + Joined(strings, k)
  {
    if k == 0 {
      assert before + Joined(strings, 0) == before;
    } else {
      RoundCarried(p, before, dock, badge, strings, k - 1);
      TransferCarried(p, before, dock, badge, strings, k - 1);
    }
  }

  /** The whole conversation: both rounds' five strings in order. */
  lemma ExchangeIs(first: Round, second: Round)
    requires KeyedRound(first) && KeyedRound(second)
    ensures ExchangePlan(first, second).Ideal(2 * ROUND) == Joined(Carried(first), 5) + Joined(Carried(second), 5)
  {
    var p := ExchangePlan(first, second);
    var one, two := Joined(Carried(first), 5), Joined(Carried(second), 5);
    RoundSends(first);
    RoundSends(second);
    JoinedLength(Carried(first), 5);
    JoinedLength(Carried(second), 5);
    DockReadsSecond();
    FirstContinues(p, Dock(first), Dock(second), Badge(first), Badge(second));
    RoundCarried(p, [], Dock(first), Badge(first), Carried(first), 5);
    assert [] + one == one;
    SecondContinues(p, Dock(first), Dock(second), Badge(first), Badge(second), one);
    RoundCarried(p, one, Dock(second), Badge(second), Carried(second), 5);
  }

  lemma {:induction false} JoinedAt(strings: seq<string>, upTo: nat, k: nat, j: nat)
    requires AllGood(strings) && k < upTo <= 5 && j < SIZE
    ensures |Joined(strings, upTo)| == SIZE * upTo && Joined(strings, upTo)[SIZE * k + j] == (strings[k][j] == '1')
  {
    JoinedLength(strings, upTo);
    JoinedLength(strings, upTo - 1);
    if k < upTo - 1 { JoinedAt(strings, upTo - 1, k, j); }
  }

  /** Bit by bit: the line is high for a '1' of digit j of transfer k, in either round. */
  lemma ConversationBit(first: Round, second: Round, k: nat, j: nat)
    requires KeyedRound(first) && KeyedRound(second) && k < 5 && j < 128
    ensures |Carried(first)[k]| == |Carried(second)[k]| == 128
    ensures var bits := ExchangePlan(first, second).Ideal(1280);
      bits[128 * k + j] == (Carried(first)[k][j] == '1') && bits[640 + 128 * k + j] == (Carried(second)[k][j] == '1')
  {
    ExchangeIs(first, second);
    CarriedIsGood(first);
    CarriedIsGood(second);
    TwoRoundsAt(Carried(first), Carried(second), ExchangePlan(first, second).Ideal(1280), k, j);
  }

  lemma TwoRoundsAt(one: seq<string>, two: seq<string>, bits: seq<bool>, k: nat, j: nat)
    requires AllGood(one) && AllGood(two) && k < 5 && j < SIZE && bits == Joined(one, 5) + Joined(two, 5)
    ensures |bits| == 2 * ROUND
    ensures bits[SIZE * k + j] == (one[k][j] == '1') && bits[ROUND + SIZE * k + j] == (two[k][j] == '1')
  {
    JoinedAt(one, 5, k, j);
    JoinedAt(two, 5, k, j);
  }

  /** What either party makes of a finished round: the key, and on the badge the flag. */
  ghost predicate RoundSucceeded(r: Round, bits: seq<bool>)
    requires |bits| == ROUND
  {
    && Received(bits, 0) == r.dockBits && Received(bits, 1) == r.badgeBasis
    && Received(bits, 2) == r.dockBasis && Received(bits, 3) == r.dockKey
    && SharedKey(Received(bits, 3), Received(bits, 1), Received(bits, 2)) == KeyOf(r)
    && KeyOf(r) != [] && Decrypted(Received(bits, 4), KeyOf(r)) == r.flag
  }

  lemma RoundSucceeds(r: Round)
    requires KeyedRound(r)
    ensures |Joined(Carried(r), 5)| == ROUND && RoundSucceeded(r, Joined(Carried(r), 5))
  {
    CarriedIsGood(r);
    JoinedLength(Carried(r), 5);
    RoundShows(Carried(r), 0, 5);
    RoundShows(Carried(r), 1, 5);
    RoundShows(Carried(r), 2, 5);
    RoundShows(Carried(r), 3, 5);
    RoundShows(Carried(r), 4, 5);
    SiftKeepsBinary(r.dockKey, r.badgeBasis, r.dockBasis);
    DecryptUndoesEncrypt(r.flag, KeyOf(r));
  }

  /**
   * Whatever the interleaving, once the badge has its 1280 bits both parties hold the same conversation, derive the
   * same key in each round, and the badge decrypts each round's flag.
   */
  lemma ExchangeSucceeds(first: Round, second: Round, gap: nat, states: seq<Bus.State>)
    requires KeyedRound(first) && KeyedRound(second) && gap < Bus.HALF_PERIOD
    requires Bus.IsRun(ExchangePlan(first, second), gap, states)
    requires |states[|states| - 1].badgeBits| >= 2 * ROUND
    ensures var s := states[|states| - 1];
      && s.badgeBits == s.dockBits && |s.badgeBits| == 2 * ROUND && !s.clock
      && RoundSucceeded(first, s.badgeBits[..ROUND]) && RoundSucceeded(second, s.badgeBits[ROUND..])
  {
    ProgramsPairUp(first, second);
    Bus.Completed(ExchangePlan(first, second), gap, states);
    ExchangeIs(first, second);
    RoundSucceeds(first);
    RoundSucceeds(second);
    var all := states[|states| - 1].badgeBits;
    assert all[..ROUND] == Joined(Carried(first), 5) && all[ROUND..] == Joined(Carried(second), 5);
  }
}
