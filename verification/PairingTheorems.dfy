/** What holds in every run of the pairing protocol. */
module PairingTheorems {
  import opened Protocol
  import opened Pairing

  // ---------------------------------------------------------------- roles

  /** Any number of badges: a RECEIVER's id is below its peer's, and CANCELLED is never entered. */
  lemma RoleSafety(w: World, steps: seq<Step>, i: nat)
    requires IsRun(w, steps) && i < |w.ids|
    ensures var h := After(w, steps).badges[i];
      && (h.state == RECEIVER ==> w.ids[i] < h.peer && h.peer in w.ids)
      && (h.state == SENDER || h.state == COMPLETED ==> h.peer != w.ids[i] && h.peer in w.ids)
      && (h.state == COMPLETED ==> h.peer in h.stored)
      && h.state != CANCELLED
  {
    AlwaysInv(w, steps);
    var n := After(w, steps);
    var h := n.badges[i];
    assert BadgeOk(w, n, i);
    if h.state == RECEIVER { HeardIsMember(w, n.log, SYNC_REQUEST, h.peer); }
    if h.state == SENDER { HeardIsMember(w, n.log, SYNC_ACCEPT, h.peer); }
  }

  /** A path along which every badge is a RECEIVER whose peer is the next badge. */
  ghost predicate ReceiverPath(w: World, n: Net, path: seq<nat>)
    requires |n.badges| == |w.ids|
  {
    && (forall t | 0 <= t < |path| :: path[t] < |w.ids|)
    && forall t | 0 <= t < |path| - 1 ::
         n.badges[path[t]].state == RECEIVER && n.badges[path[t]].peer == w.ids[path[t + 1]]
  }

  /** So the receiver-to-peer graph has no cycle, however many badges there are. */
  lemma {:induction false} ReceiversAcyclic(w: World, n: Net, path: seq<nat>)
    requires Inv(w, n) && |path| >= 2 && ReceiverPath(w, n, path)
    ensures w.ids[path[0]] < w.ids[path[|path| - 1]]
    ensures path[0] != path[|path| - 1]
  {
    assert BadgeOk(w, n, path[0]);
    if |path| > 2 {
      var rest := path[1..];
      forall t | 0 <= t < |rest| - 1
        ensures n.badges[rest[t]].state == RECEIVER && n.badges[rest[t]].peer == w.ids[rest[t + 1]]
      {
        assert rest[t] == path[t + 1] && rest[t + 1] == path[t + 2];
      }
      ReceiversAcyclic(w, n, rest);
    }
  }

  /** Two badges: the lower id never sends, the higher never receives, stale packets or not. */
  lemma TwoBadgeRoles(w: World, steps: seq<Step>, lo: nat, hi: nat)
    requires IsRun(w, steps)
    requires |w.ids| == 2 && lo < 2 && hi < 2 && w.ids[lo] < w.ids[hi]
    ensures After(w, steps).badges[lo].state != SENDER
    ensures After(w, steps).badges[hi].state != RECEIVER
  {
    AlwaysInv(w, steps);
    var n := After(w, steps);
    assert BadgeOk(w, n, lo) && BadgeOk(w, n, hi);
    if n.badges[lo].state == SENDER {
      AcceptorsAreLower(w, n, n.badges[lo].peer);
    }
    if n.badges[hi].state == RECEIVER {
      HeardIsMember(w, n.log, SYNC_REQUEST, n.badges[hi].peer);
    }
  }

  lemma AcceptorsAreLower(w: World, n: Net, id: nat)
    requires Inv(w, n) && Heard(w, n.log, SYNC_ACCEPT, id)
    ensures exists i: nat | i < |w.ids| :: id < w.ids[i]
  {
  }

  // ---------------------------------------------------------------- agreement

  /** Badge i lists an id its flash did not hold at power-on. */
  ghost predicate Fresh(w: World, n: Net, i: nat, p: nat)
    requires i < |n.badges| == |w.ids| == |w.flash|
  {
    p in n.badges[i].stored && p !in w.flash[i]
  }

  /** Badge j lists id c, or is inside the handler that is about to. */
  predicate RecordsOrFinishing(h: Handler, c: nat) {
    c in h.stored || (h.finishing && h.peer == c)
  }

  lemma BeyondPrefix(f: seq<nat>, s: seq<nat>, a: nat)
    requires f <= s && a < |s| && s[a] !in f
    ensures a >= |f|
  {
  }

  /**
   Any number of badges: nobody completes alone.  If i newly lists badge j, then either i is the lower
   one and acknowledged j, which had sent ID_DATA; or i heard an ACK of j, j sent it to a badge c with
   a higher id, and j lists c or is about to.
  */
  lemma NobodyCompletesAlone(w: World, steps: seq<Step>, i: nat, p: nat)
    requires IsRun(w, steps) && i < |w.ids|
    requires Fresh(w, After(w, steps), i, p)
    ensures var n := After(w, steps);
      || (Sent(ACK, i, p) in n.log && w.ids[i] < p && Heard(w, n.log, ID_DATA, p))
      || exists j: nat, c: nat | j < |w.ids| && w.ids[j] == p && c in w.ids ::
           p < c && Sent(ACK, j, c) in n.log && RecordsOrFinishing(n.badges[j], c)
  {
    AlwaysInv(w, steps);
    var n := After(w, steps);
    var s := n.badges[i].stored;
    assert StoreOk(w, n, i);
    var a :| 0 <= a < |s| && s[a] == p;
    BeyondPrefix(w.flash[i], s, a);
    assert Justified(w, n, i, p);
    if Sent(ACK, i, p) in n.log {
      assert SentOk(w, n, Sent(ACK, i, p));
    } else {
      var k :| 0 <= k < |n.log| && n.log[k].kind == ACK && n.log[k].from < |w.ids| && w.ids[n.log[k].from] == p;
      var j, c := n.log[k].from, n.log[k].to;
      assert SentOk(w, n, n.log[k]);
      HeardIsMember(w, n.log, ID_DATA, c);
      assert n.log[k] == Sent(ACK, j, c);
    }
  }

  /**
   Two badges, every run: once the higher id lists the lower, the lower lists the higher, or holds its
   mutex on the way to listing it.  (Flash contents that agree at power-on are the only premise.)
  */
  lemma TwoBadgeAgreement(w: World, steps: seq<Step>, lo: nat, hi: nat)
    requires IsRun(w, steps)
    requires |w.ids| == 2 && lo < 2 && hi < 2 && w.ids[lo] < w.ids[hi]
    requires w.ids[lo] in w.flash[hi] ==> w.ids[hi] in w.flash[lo]
    requires w.ids[lo] in After(w, steps).badges[hi].stored
    ensures RecordsOrFinishing(After(w, steps).badges[lo], w.ids[hi])
  {
    AlwaysInv(w, steps);
    var n := After(w, steps);
    assert StoreOk(w, n, lo) && StoreOk(w, n, hi);
    if w.ids[lo] in w.flash[hi] {
      var a :| 0 <= a < |w.flash[lo]| && w.flash[lo][a] == w.ids[hi];
      assert n.badges[lo].stored[a] == w.ids[hi];
    } else {
      NobodyCompletesAlone(w, steps, hi, w.ids[lo]);
    }
  }

  /** With more badges the same holds for a pair as long as the one heard acknowledged nobody else. */
  lemma AgreementWithoutCrosstalk(w: World, steps: seq<Step>, i: nat, j: nat)
    requires IsRun(w, steps) && i < |w.ids| && j < |w.ids|
    requires Fresh(w, After(w, steps), i, w.ids[j]) && w.ids[j] < w.ids[i]
    requires forall c | Sent(ACK, j, c) in After(w, steps).log :: c == w.ids[i]
    ensures RecordsOrFinishing(After(w, steps).badges[j], w.ids[i])
  {
    NobodyCompletesAlone(w, steps, i, w.ids[j]);
  }
}
