/** What a badge's store and score say after any sequence of completed exchanges. */
module SyncRecords {
  import opened Score
  import opened BadgeStore
  import opened Protocol

  /** Completed exchanges with these peers, one after the other. */
  function SyncAll(h: Handler, peers: seq<nat>): (g: Handler)
    requires h.level <= MAX_LEVEL
    ensures g.level <= MAX_LEVEL
  {
    if peers == [] then h
    else SyncAll(h, peers[..|peers| - 1]).(peer := peers[|peers| - 1]).Synced()
  }

  /** The different peers in the order they were first met. */
  function FirstMet(peers: seq<nat>): (met: seq<nat>)
    ensures forall p :: p in met <==> p in peers
    ensures forall i, j | 0 <= i < j < |met| :: met[i] != met[j]
  {
    if peers == [] then []
    else
      var before, p := FirstMet(peers[..|peers| - 1]), peers[|peers| - 1];
      assert peers == peers[..|peers| - 1] + [p];
      if p in before then before else before + [p]
  }

  lemma FirstMetGrows(peers: seq<nat>)
    requires peers != []
    ensures |FirstMet(peers[..|peers| - 1])| <= |FirstMet(peers)|
  {
  }

  /**
   As long as the 16-bit counter has not wrapped, the store lists exactly the different peers met, once
   each and in order, and the level is that many level-ups from 0.
  */
  lemma {:induction false} StoreAndScoreAgree(peers: seq<nat>)
    requires |FirstMet(peers)| < COUNT_LIMIT
    ensures var h := SyncAll(PowerOn([], 0), peers);
      h.stored == FirstMet(peers) && h.level == LevelAfter(|h.stored|)
  {
    if peers != [] {
      FirstMetGrows(peers);
      StoreAndScoreAgree(peers[..|peers| - 1]);
    }
  }

  lemma {:induction false} ListBelowLimit(peers: seq<nat>)
    ensures |SyncAll(PowerOn([], 0), peers).stored| < COUNT_LIMIT
  {
    if peers != [] {
      ListBelowLimit(peers[..|peers| - 1]);
    }
  }

  /** That condition is exact: with 65536 different peers or more, the list is never right again. */
  lemma AgreesExactlyBeforeWrap(peers: seq<nat>)
    ensures SyncAll(PowerOn([], 0), peers).stored == FirstMet(peers) <==> |FirstMet(peers)| < 65536
  {
    if |FirstMet(peers)| < COUNT_LIMIT {
      StoreAndScoreAgree(peers);
    } else {
      ListBelowLimit(peers);
    }
  }

  /** The peer that makes the counter wrap is where this ends: the whole list is lost, though not the level. */
  lemma WrapEmptiesList(h: Handler)
    requires h.level <= MAX_LEVEL && |h.stored| == COUNT_LIMIT - 1 && h.peer !in h.stored
    ensures h.Synced().stored == [] && h.Synced().level == LevelUp(h.level)
  {
  }
}
