/** Taking turns over several arrays (components/utils/round_robin_consumer.hpp). */
module RoundRobin {
  import opened Arith

  datatype Element = Element(arrayId: nat, index: nat)

  /** How many elements of the first `upTo` arrays have index below `i`. */
  function Below(lengths: seq<nat>, i: nat, upTo: nat): nat
    requires upTo <= |lengths|
  {
    if upTo == 0 then 0 else Below(lengths, i, upTo - 1) + Min(lengths[upTo - 1], i)
  }

  /** How many of the first `upTo` arrays have an element with index `i`. */
  function Reaching(lengths: seq<nat>, i: nat, upTo: nat): nat
    requires upTo <= |lengths|
  {
    if upTo == 0 then 0 else Reaching(lengths, i, upTo - 1) + if lengths[upTo - 1] > i then 1 else 0
  }

  /**
   * The number of elements that come before (a, i) in round-robin order: all smaller indices, then index i of earlier
   * arrays.
   */
  function Rank(lengths: seq<nat>, a: nat, i: nat): nat
    requires a <= |lengths|
  {
    Below(lengths, i, |lengths|) + Reaching(lengths, i, a)
  }

  predicate IsElement(lengths: seq<nat>, e: Element) {
    e.arrayId < |lengths| && e.index < lengths[e.arrayId]
  }

  // ---------------------------------------------------------------- facts about ranks

  lemma {:induction false} BelowNext(lengths: seq<nat>, i: nat, upTo: nat)
    requires upTo <= |lengths|
    ensures Below(lengths, i + 1, upTo) == Below(lengths, i, upTo) + Reaching(lengths, i, upTo)
  {
    if upTo > 0 { BelowNext(lengths, i, upTo - 1); }
  }

  /** After the last array the order continues with the next index at the first array. */
  lemma RankWraps(lengths: seq<nat>, i: nat)
    ensures Rank(lengths, |lengths|, i) == Rank(lengths, 0, i + 1)
  {
    BelowNext(lengths, i, |lengths|);
  }

  lemma {:induction false} BelowMonotone(lengths: seq<nat>, i: nat, j: nat, upTo: nat)
    requires upTo <= |lengths| && i <= j
    ensures Below(lengths, i, upTo) <= Below(lengths, j, upTo)
  {
    if upTo > 0 { BelowMonotone(lengths, i, j, upTo - 1); }
  }

  lemma {:induction false} ReachingMonotone(lengths: seq<nat>, i: nat, a: nat, b: nat)
    requires a <= b <= |lengths|
    ensures Reaching(lengths, i, a) <= Reaching(lengths, i, b)
    ensures a < b && lengths[a] > i ==> Reaching(lengths, i, a) < Reaching(lengths, i, b)
  {
    if a < b { ReachingMonotone(lengths, i, a, b - 1); }
  }

  lemma {:induction false} BelowTotal(lengths: seq<nat>, i: nat, upTo: nat)
    requires upTo <= |lengths|
    ensures Below(lengths, i, upTo) <= Total(lengths[..upTo])
    ensures (forall b | 0 <= b < upTo :: lengths[b] <= i) <==> Below(lengths, i, upTo) == Total(lengths[..upTo])
  {
    if upTo > 0 {
      BelowTotal(lengths, i, upTo - 1);
      assert lengths[..upTo][..upTo - 1] == lengths[..upTo - 1];
    }
  }

  /** Ranks of elements are below the total and strictly ordered by (index, array): no two elements share one. */
  lemma RankOrder(lengths: seq<nat>, d: Element, e: Element)
    requires IsElement(lengths, d) && IsElement(lengths, e)
    ensures Rank(lengths, d.arrayId, d.index) < Total(lengths)
    ensures d.index < e.index || (d.index == e.index && d.arrayId < e.arrayId)
      <==> Rank(lengths, d.arrayId, d.index) < Rank(lengths, e.arrayId, e.index)
    ensures Rank(lengths, d.arrayId, d.index) == Rank(lengths, e.arrayId, e.index) ==> d == e
  {
    RankBelowNextRound(lengths, d);
    RankBelowNextRound(lengths, e);
    BelowTotal(lengths, d.index + 1, |lengths|);
    assert lengths[..|lengths|] == lengths;
    if d.index < e.index {
      BelowMonotone(lengths, d.index + 1, e.index, |lengths|);
    } else if e.index < d.index {
      BelowMonotone(lengths, e.index + 1, d.index, |lengths|);
    } else if d.arrayId < e.arrayId {
      ReachingMonotone(lengths, d.index, d.arrayId, e.arrayId);
    } else if e.arrayId < d.arrayId {
      ReachingMonotone(lengths, d.index, e.arrayId, d.arrayId);
    }
  }

  lemma RankBelowNextRound(lengths: seq<nat>, e: Element)
    requires IsElement(lengths, e)
    ensures Below(lengths, e.index, |lengths|) <= Rank(lengths, e.arrayId, e.index)
      < Below(lengths, e.index + 1, |lengths|)
  {
    BelowNext(lengths, e.index, |lengths|);
    ReachingMonotone(lengths, e.index, e.arrayId, |lengths|);
  }

  lemma {:induction false} NothingBelowZero(lengths: seq<nat>, upTo: nat)
    requires upTo <= |lengths|
    ensures Below(lengths, 0, upTo) == 0
  {
    if upTo > 0 { NothingBelowZero(lengths, upTo - 1); }
  }

  // ---------------------------------------------------------------- the consumer

  /** A place in the order: the array whose turn it is, and the index this pass over the arrays hands out. */
  datatype Turn = Turn(at: nat, round: nat)

  function NextTurn(lengths: seq<nat>, t: Turn): Turn
    requires |lengths| > 0
  {
    if t.at + 1 == |lengths| then Turn(0, t.round + 1) else Turn(t.at + 1, t.round)
  }

  /** Passing an array counts it exactly if it still had an element of this round. */
  lemma NextTurnRank(lengths: seq<nat>, t: Turn)
    requires t.at < |lengths|
    ensures var u := NextTurn(lengths, t);
      Rank(lengths, u.at, u.round)
      == Rank(lengths, t.at, t.round) + if lengths[t.at] > t.round then 1 else 0
  {
    RankWraps(lengths, t.round);
  }

  /** The positions of all arrays when it is turn t. */
  ghost predicate PositionsAt(lengths: seq<nat>, positions: seq<nat>, t: Turn) {
    && |positions| == |lengths| && t.at < |lengths|
    && forall b | 0 <= b < |lengths| ::
         positions[b] == Min(lengths[b], if b < t.at then t.round + 1 else t.round)
  }

  lemma PositionsMove(lengths: seq<nat>, positions: seq<nat>, t: Turn)
    requires PositionsAt(lengths, positions, t)
    ensures lengths[t.at] > t.round ==>
      positions[t.at] == t.round
      && PositionsAt(lengths, positions[t.at := positions[t.at] + 1], NextTurn(lengths, t))
    ensures lengths[t.at] <= t.round ==>
      positions[t.at] == lengths[t.at] && PositionsAt(lengths, positions, NextTurn(lengths, t))
  {
  }

  /** From turn s to turn t only exhausted arrays were passed, `steps` of them, at most once round. */
  ghost predicate Skipped(lengths: seq<nat>, s: Turn, t: Turn, steps: nat) {
    && s.at < |lengths| && t.at < |lengths|
    && if t.round == s.round then
         t.at == s.at + steps
         && (forall b | s.at <= b < t.at :: lengths[b] <= s.round)
       else
         t.round == s.round + 1 && t.at + |lengths| == s.at + steps
         && (forall b | s.at <= b < |lengths| :: lengths[b] <= s.round)
         && (forall b | 0 <= b < t.at :: lengths[b] <= s.round + 1)
  }

  lemma SkipOne(lengths: seq<nat>, s: Turn, t: Turn, steps: nat)
    requires Skipped(lengths, s, t, steps) && steps < |lengths| && lengths[t.at] <= t.round
    ensures Skipped(lengths, s, NextTurn(lengths, t), steps + 1)
  {
  }

  /** Having gone once round without finding an element means that everything has been handed out. */
  lemma AllSkipped(lengths: seq<nat>, s: Turn, t: Turn)
    requires Skipped(lengths, s, t, |lengths|)
    ensures Rank(lengths, t.at, t.round) == Total(lengths)
  {
    BelowTotal(lengths, t.round, |lengths|);
    assert lengths[..|lengths|] == lengths;
    NoneReaching(lengths, t.round, t.at);
  }

  lemma {:induction false} NoneReaching(lengths: seq<nat>, i: nat, a: nat)
    requires a <= |lengths| && forall b | 0 <= b < a :: lengths[b] <= i
    ensures Reaching(lengths, i, a) == 0
  {
    if a > 0 { NoneReaching(lengths, i, a - 1); }
  }

  class Consumer {
    const lengths: seq<nat>
    const positions: array<nat>
    var current: nat
    ghost var turn: Turn

    ghost predicate Valid()
      reads this, positions
    {
      |lengths| > 0 && current == turn.at && PositionsAt(lengths, positions[..], turn)
    }

    /** How many elements have been handed out. */
    ghost function Consumed(): nat
      requires Valid()
      reads this, positions
    {
      Rank(lengths, turn.at, turn.round)
    }

    constructor (lengths: seq<nat>)
      requires |lengths| > 0
      ensures Valid() && fresh(positions) && this.lengths == lengths && Consumed() == 0
    {
      this.lengths := lengths;
      positions := new nat[|lengths|](i => 0);
      current, turn := 0, Turn(0, 0);
      new;
      NothingBelowZero(lengths, |lengths|);
    }

    method MoveToNextArray(arrayId: nat)
      requires arrayId < |lengths|
      modifies `current
      ensures current == NextTurn(lengths, Turn(arrayId, 0)).at
    {
      current := (arrayId + 1) % |lengths|;
    }

    method MoveToNextElement(arrayId: nat)
      requires arrayId < positions.Length
      modifies positions
      ensures positions[..] == old(positions[..])[arrayId := old(positions[arrayId]) + 1]
    {
      positions[arrayId] := positions[arrayId] + 1;
    }

    predicate IsValidElement(e: Element)
      requires e.arrayId < |lengths|
    {
      e.index < lengths[e.arrayId]
    }

    function GetCurrentElement(): Element
      requires current < positions.Length
      reads this, positions
    {
      Element(current, positions[current])
    }

    /** Hands out the element whose rank is the number of elements handed out before; after the last, (0, 0). */
    method Consume() returns (e: Element)
      requires Valid()
      modifies this, positions
      ensures Valid()
      ensures old(Consumed()) < Total(lengths) ==>
        && IsElement(lengths, e) && Rank(lengths, e.arrayId, e.index) == old(Consumed())
        && Consumed() == old(Consumed()) + 1
      ensures old(Consumed()) >= Total(lengths) ==> e == Element(0, 0) && Consumed() == old(Consumed())
    {
      ghost var first, n := turn, Consumed();
      for attempt := 0 to |lengths|
        invariant Valid() && Consumed() == n
        invariant Skipped(lengths, first, turn, attempt)
      {
        var arrayId := current;
        e := GetCurrentElement();
        PositionsMove(lengths, positions[..], turn);
        NextTurnRank(lengths, turn);
        if IsValidElement(e) {
          RankOrder(lengths, e, e);
          MoveToNextElement(arrayId);
          MoveToNextArray(arrayId);
          turn := NextTurn(lengths, turn);
          return;
        }
        SkipOne(lengths, first, turn, attempt);
        MoveToNextArray(arrayId);
        turn := NextTurn(lengths, turn);
      }
      AllSkipped(lengths, first, turn);
      e := Element(0, 0);
    }
  }

  // ---------------------------------------------------------------- choosing an animation by number

  /**
   * The selection loop of set_idle_animation: consume id + 1 times, with id reduced modulo the number of animations.
   */
  method SelectAnimation(counts: seq<nat>, id: nat) returns (chosen: Element)
    requires |counts| > 0 && Total(counts) > 0
    ensures IsElement(counts, chosen) && Rank(counts, chosen.arrayId, chosen.index) == id % Total(counts)
  {
    var consumer := new Consumer(counts);
    var wanted := id % Total(counts);
    chosen := Element(0, 0);
    for i := 0 to wanted + 1
      invariant consumer.Valid() && consumer.lengths == counts && fresh(consumer) && fresh(consumer.positions)
      invariant consumer.Consumed() == i
      invariant i > 0 ==> IsElement(counts, chosen) && Rank(counts, chosen.arrayId, chosen.index) == i - 1
    {
      chosen := consumer.Consume();
    }
  }

  /**
   * Numbers below the total and animations correspond one to one: every element has its rank, and every rank its
   * element.
   */
  lemma SelectionBijective(counts: seq<nat>, n: nat)
    requires n < Total(counts)
    ensures exists e ::
      && IsElement(counts, e) && Rank(counts, e.arrayId, e.index) == n
      && forall d | IsElement(counts, d) && Rank(counts, d.arrayId, d.index) == n :: d == e
  {
    EachBelowTotal(counts, |counts|);
    assert counts[..|counts|] == counts;
    BelowTotal(counts, Total(counts), |counts|);
    var i := FindRound(counts, n, Total(counts));
    BelowNext(counts, i, |counts|);
    var a := FindArray(counts, i, n - Below(counts, i, |counts|), |counts|);
    var e := Element(a, i);
    forall d | IsElement(counts, d) && Rank(counts, d.arrayId, d.index) == n
      ensures d == e
    {
      RankOrder(counts, d, e);
    }
  }

  lemma {:induction false} EachBelowTotal(lengths: seq<nat>, upTo: nat)
    requires upTo <= |lengths|
    ensures forall b | 0 <= b < upTo :: lengths[b] <= Total(lengths[..upTo])
  {
    if upTo > 0 {
      EachBelowTotal(lengths, upTo - 1);
      assert lengths[..upTo][..upTo - 1] == lengths[..upTo - 1];
    }
  }

  /** The round that hands out number n ... */
  lemma {:induction false} FindRound(lengths: seq<nat>, n: nat, j: nat) returns (i: nat)
    requires n < Below(lengths, j, |lengths|)
    ensures Below(lengths, i, |lengths|) <= n < Below(lengths, i + 1, |lengths|)
  {
    i := 0;
    if j == 0 {
      NothingBelowZero(lengths, |lengths|);
    } else if Below(lengths, j - 1, |lengths|) <= n {
      i := j - 1;
    } else {
      i := FindRound(lengths, n, j - 1);
    }
  }

  /** ... and the array that does. */
  lemma {:induction false} FindArray(lengths: seq<nat>, i: nat, n: nat, upTo: nat) returns (a: nat)
    requires upTo <= |lengths| && n < Reaching(lengths, i, upTo)
    ensures a < upTo && lengths[a] > i && Reaching(lengths, i, a) == n
  {
    if lengths[upTo - 1] > i && Reaching(lengths, i, upTo - 1) == n {
      a := upTo - 1;
    } else {
      a := FindArray(lengths, i, n, upTo - 1);
    }
  }
}
