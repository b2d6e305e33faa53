/**
 * One pass of the Cascade error search (ctf-components/quantum/qkd.cpp), against a player who answers parity questions.
 */
module Cascade {
  import opened Arith

  datatype Option<T> = None | Some(value: T)

  ghost predicate Bits(b: seq<int>) { forall i | 0 <= i < |b| :: b[i] == 0 || b[i] == 1 }

  // ---------------------------------------------------------------- parity

  function Ones(b: seq<int>, lo: nat, hi: nat): int
    requires hi <= |b|
  {
    if hi <= lo then 0 else Ones(b, lo, hi - 1) + b[hi - 1]
  }

  /** Parity of b[start..end], both ends included. */
  function Parity(b: seq<int>, start: nat, end: nat): int
    requires end < |b|
  {
    Ones(b, start, end + 1) % 2
  }

  /** The places of [lo, hi) that hold a one. */
  ghost function OnesAt(b: seq<int>, lo: nat, hi: nat): set<int>
    requires hi <= |b|
  {
    set i | lo <= i < hi && b[i] == 1
  }

  lemma {:induction false} OnesCount(b: seq<int>, lo: nat, hi: nat)
    requires hi <= |b| && Bits(b)
    ensures Ones(b, lo, hi) == |OnesAt(b, lo, hi)|
  {
    if lo < hi {
      OnesCount(b, lo, hi - 1);
      assert OnesAt(b, lo, hi) == OnesAt(b, lo, hi - 1) + if b[hi - 1] == 1 then {hi - 1} else {};
    }
  }

  /** The parity of a range tells whether an odd number of its bits are set. */
  lemma ParityIs(b: seq<int>, start: nat, end: nat)
    requires start <= end < |b| && Bits(b)
    ensures Parity(b, start, end) == if |set i | start <= i <= end && b[i] == 1| % 2 == 1 then 1 else 0
  {
    OnesCount(b, start, end + 1);
    assert OnesAt(b, start, end + 1) == set i | start <= i <= end && b[i] == 1;
  }

  method ComputeParity(b: seq<int>, start: nat, end: nat) returns (parity: int)
    requires start <= end < |b|
    ensures parity == Parity(b, start, end)
  {
    var sum := 0;
    for i := start to end + 1
      invariant sum == Ones(b, start, i)
    {
      sum := sum + b[i];
    }
    return sum % 2;
  }

  /** The number of places in [lo, hi) where two keys differ. */
  function Diffs(a: seq<int>, b: seq<int>, lo: nat, hi: nat): nat
    requires hi <= |a| && hi <= |b|
  {
    if hi <= lo then 0 else Diffs(a, b, lo, hi - 1) + if a[hi - 1] != b[hi - 1] then 1 else 0
  }

  lemma {:induction false} DiffsSplit(a: seq<int>, b: seq<int>, lo: nat, mid: nat, hi: nat)
    requires lo <= mid <= hi <= |a| && hi <= |b|
    ensures Diffs(a, b, lo, hi) == Diffs(a, b, lo, mid) + Diffs(a, b, mid, hi)
  {
    if mid < hi { DiffsSplit(a, b, lo, mid, hi - 1); }
  }

  /** Parities differ exactly when the number of differences is odd. */
  lemma {:induction false} ParityTellsOddness(a: seq<int>, b: seq<int>, lo: nat, hi: nat)
    requires hi <= |a| && hi <= |b| && Bits(a) && Bits(b)
    ensures (Ones(a, lo, hi) % 2 != Ones(b, lo, hi) % 2) <==> Diffs(a, b, lo, hi) % 2 == 1
  {
    if lo < hi { ParityTellsOddness(a, b, lo, hi - 1); }
  }

  // ---------------------------------------------------------------- bisection

  /** The player's answer to "parity of [start, end]?"; None if the prompt is cancelled. */
  type Player = (nat, nat) -> Option<int>

  datatype Search = Search(report: Option<nat>, questions: nat)

  /** One search in [start, end]: what it reports, as an original index, and how many questions it asks. */
  function BinarySearchError(badge: seq<int>, dock: seq<int>, original: seq<nat>, start: nat, end: nat,
      player: Player): Search
    requires start <= end < |badge| && |badge| == |dock| == |original|
    decreases end - start
  {
    if start == end then Search(if badge[start] != dock[start] then Some(original[start]) else None, 0)
    else
      var mid := (start + end) / 2;
      match player(start, mid)
      case None => Search(None, 1)
      case Some(parity) =>
        var rest := if Parity(dock, start, mid) != parity
          then BinarySearchError(badge, dock, original, start, mid, player)
          else BinarySearchError(badge, dock, original, mid + 1, end, player);
        rest.(questions := rest.questions + 1)
  }

  /** The player gives the badge key's parity for every range asked about. */
  ghost predicate Truthful(player: Player, badge: seq<int>) {
    forall start: nat, end: nat | start <= end < |badge| :: player(start, end) == Some(Parity(badge, start, end))
  }

  /** Halving rounds to a single bit: the logarithm to base two, rounded up. */
  function CeilLog2(n: nat): nat {
    if n <= 1 then 0 else 1 + CeilLog2((n + 1) / 2)
  }

  lemma {:induction false} CeilLog2Monotone(m: nat, n: nat)
    requires m <= n
    ensures CeilLog2(m) <= CeilLog2(n)
  {
    if m > 1 { CeilLog2Monotone((m + 1) / 2, (n + 1) / 2); }
  }

  lemma {:induction false} CeilLog2Is(n: nat)
    requires n > 0
    ensures n <= Pow2(CeilLog2(n)) && (n > 1 ==> Pow2(CeilLog2(n) - 1) < n)
  {
    if n > 2 { CeilLog2Is((n + 1) / 2); }
  }

  /** Whatever the player answers, a search asks logarithmically many questions. */
  lemma {:induction false} FewQuestions(badge: seq<int>, dock: seq<int>, original: seq<nat>, start: nat, end: nat,
      player: Player)
    requires start <= end < |badge| && |badge| == |dock| == |original|
    ensures BinarySearchError(badge, dock, original, start, end, player).questions <= CeilLog2(end - start + 1)
    decreases end - start
  {
    if start < end {
      var mid := (start + end) / 2;
      FewQuestions(badge, dock, original, start, mid, player);
      FewQuestions(badge, dock, original, mid + 1, end, player);
      CeilLog2Monotone(mid - start + 1, (end - start + 2) / 2);
      CeilLog2Monotone(end - mid, (end - start + 2) / 2);
    }
  }

  /** The half a truthful player is sent to still holds an odd number of differences. */
  lemma HalfStaysOdd(badge: seq<int>, dock: seq<int>, start: nat, mid: nat, end: nat)
    requires start <= mid < end < |badge| == |dock| && Bits(badge) && Bits(dock)
    requires Diffs(badge, dock, start, end + 1) % 2 == 1
    ensures Parity(dock, start, mid) != Parity(badge, start, mid) ==> Diffs(badge, dock, start, mid + 1) % 2 == 1
    ensures Parity(dock, start, mid) == Parity(badge, start, mid) ==> Diffs(badge, dock, mid + 1, end + 1) % 2 == 1
  {
    DiffsSplit(badge, dock, start, mid + 1, end + 1);
    ParityTellsOddness(badge, dock, start, mid + 1);
  }

  /** In a range with an odd number of differences a truthful player is led to one of them. */
  lemma {:induction false} SearchFindsDifference(badge: seq<int>, dock: seq<int>, original: seq<nat>, start: nat,
      end: nat, player: Player)
    returns (p: nat)
    requires start <= end < |badge| && |badge| == |dock| == |original| && Bits(badge) && Bits(dock)
    requires Truthful(player, badge) && Diffs(badge, dock, start, end + 1) % 2 == 1
    ensures start <= p <= end && badge[p] != dock[p]
    ensures BinarySearchError(badge, dock, original, start, end, player).report == Some(original[p])
    decreases end - start
  {
    p := start;
    if start < end {
      var mid := (start + end) / 2;
      HalfStaysOdd(badge, dock, start, mid, end);
      if Parity(dock, start, mid) != Parity(badge, start, mid) {
        p := SearchFindsDifference(badge, dock, original, start, mid, player);
      } else {
        p := SearchFindsDifference(badge, dock, original, mid + 1, end, player);
      }
    }
  }

  /**
   * Where a truthful player leads the search to a difference: of the left halves passed over on the way to the last bit
   * one holds an odd number of differences, or the last bit itself differs.
   */
  predicate Leads(badge: seq<int>, dock: seq<int>, start: nat, end: nat)
    requires start <= end < |badge| == |dock|
    decreases end - start
  {
    if start == end then badge[start] != dock[start]
    else
      var mid := (start + end) / 2;
      Diffs(badge, dock, start, mid + 1) % 2 == 1 || Leads(badge, dock, mid + 1, end)
  }

  /** A truthful search reports something exactly there ... */
  lemma {:induction false} SearchFindsExactlyWhen(badge: seq<int>, dock: seq<int>, original: seq<nat>, start: nat,
      end: nat, player: Player)
    requires start <= end < |badge| && |badge| == |dock| == |original|
    requires Bits(badge) && Bits(dock) && Truthful(player, badge)
    ensures BinarySearchError(badge, dock, original, start, end, player).report.Some?
      <==> Leads(badge, dock, start, end)
    decreases end - start
  {
    if start < end {
      var mid := (start + end) / 2;
      ParityTellsOddness(badge, dock, start, mid + 1);
      if Diffs(badge, dock, start, mid + 1) % 2 == 1 {
        var p := SearchFindsDifference(badge, dock, original, start, mid, player);
      } else {
        SearchFindsExactlyWhen(badge, dock, original, mid + 1, end, player);
      }
    }
  }

  /** ... which includes every range with an odd number of differences, ... */
  lemma {:induction false} OddRangeLeads(badge: seq<int>, dock: seq<int>, start: nat, end: nat)
    requires start <= end < |badge| == |dock| && Diffs(badge, dock, start, end + 1) % 2 == 1
    ensures Leads(badge, dock, start, end)
    decreases end - start
  {
    if start < end {
      var mid := (start + end) / 2;
      DiffsSplit(badge, dock, start, mid + 1, end + 1);
      if Diffs(badge, dock, start, mid + 1) % 2 == 0 { OddRangeLeads(badge, dock, mid + 1, end); }
    }
  }

  /** ... some with an even number, and not others. */
  lemma EvenRangesDiffer()
    ensures Diffs([1, 1], [0, 0], 0, 2) == 2 && Leads([1, 1], [0, 0], 0, 1)
    ensures Diffs([1, 1, 0, 0], [0, 0, 0, 0], 0, 4) == 2 && !Leads([1, 1, 0, 0], [0, 0, 0, 0], 0, 3)
  {
    assert Diffs([1, 1], [0, 0], 0, 1) == 1;
    var a, b := [1, 1, 0, 0], [0, 0, 0, 0];
    assert Diffs(a, b, 0, 1) == 1 && Diffs(a, b, 0, 2) == 2 && Diffs(a, b, 0, 3) == 2;
    assert Diffs(a, b, 2, 3) == 0 && !Leads(a, b, 3, 3) && !Leads(a, b, 2, 3);
  }

  /** Whatever the player answers, a report names a difference inside the range. */
  lemma {:induction false} ReportIsGenuine(badge: seq<int>, dock: seq<int>, original: seq<nat>, start: nat, end: nat,
      player: Player)
    requires start <= end < |badge| && |badge| == |dock| == |original|
    ensures var report := BinarySearchError(badge, dock, original, start, end, player).report;
      report.Some? ==> exists p :: start <= p <= end && badge[p] != dock[p] && report == Some(original[p])
    decreases end - start
  {
    if start < end {
      var mid := (start + end) / 2;
      ReportIsGenuine(badge, dock, original, start, mid, player);
      ReportIsGenuine(badge, dock, original, mid + 1, end, player);
    }
  }

  // ---------------------------------------------------------------- one pass over the blocks

  function BlockEnd(start: nat, block: nat, size: nat): nat
    requires block > 0 && start < size
  {
    if start + block - 1 < size - 1 then start + block - 1 else size - 1
  }

  /** The reports of a pass from `start` on; a cancelled or impossible block parity ends it. */
  datatype Pass = Pass(reports: seq<nat>, aborted: bool, mismatch: bool)

  function PassFrom(badge: seq<int>, dock: seq<int>, original: seq<nat>, start: nat, block: nat, player: Player): Pass
    requires block > 0 && |badge| == |dock| == |original|
    decreases |badge| - start
  {
    if start >= |badge| then Pass([], false, false)
    else
      var end := BlockEnd(start, block, |badge|);
      match player(start, end)
      case None => Pass([], true, false)
      case Some(parity) =>
        if parity != 0 && parity != 1 then Pass([], true, false)
        else
          var rest := PassFrom(badge, dock, original, start + block, block, player);
          if parity == Parity(dock, start, end) then rest
          else
            var here := Reported(BinarySearchError(badge, dock, original, start, end, player));
            Pass(here + rest.reports, rest.aborted, true)
  }

  function Reported(search: Search): seq<nat> {
    if search.report.Some? then [search.report.value] else []
  }

  /** Where the blocks start that hold an odd number of differences. */
  function OddStarts(badge: seq<int>, dock: seq<int>, start: nat, block: nat): (starts: seq<nat>)
    requires block > 0 && |badge| == |dock|
    ensures forall i | 0 <= i < |starts| :: start <= starts[i] < |badge|
    decreases |badge| - start
  {
    if start >= |badge| then []
    else
      (if Diffs(badge, dock, start, BlockEnd(start, block, |badge|) + 1) % 2 == 1 then [start] else [])
      + OddStarts(badge, dock, start + block, block)
  }

  /** The reported places: one inside each odd block, in order, each a difference. */
  ghost predicate OnePerBlock(badge: seq<int>, dock: seq<int>, starts: seq<nat>, block: nat, places: seq<nat>)
    requires block > 0 && |badge| == |dock|
  {
    && |places| == |starts|
    && (forall i | 0 <= i < |places| ::
      starts[i] < |badge| && starts[i] <= places[i] <= BlockEnd(starts[i], block, |badge|))
    && (forall i | 0 <= i < |places| :: badge[places[i]] != dock[places[i]])
    && (forall i, j | 0 <= i < j < |places| :: places[i] < places[j])
  }

  ghost predicate Names(reports: seq<nat>, original: seq<nat>, places: seq<nat>) {
    |reports| == |places| && forall i | 0 <= i < |reports| ::
      places[i] < |original| && reports[i] == original[places[i]]
  }

  lemma NamesNext(reports: seq<nat>, original: seq<nat>, places: seq<nat>, p: nat)
    requires Names(reports, original, places) && p < |original|
    ensures Names([original[p]] + reports, original, [p] + places)
  {
  }

  /** One block, put to a truthful player. */
  lemma BlockReports(badge: seq<int>, dock: seq<int>, original: seq<nat>, start: nat, block: nat, player: Player)
    returns (odd: bool, p: nat)
    requires block > 0 && start < |badge| == |dock| == |original|
    requires Bits(badge) && Bits(dock) && Truthful(player, badge)
    ensures p < |badge|
    ensures odd == (Diffs(badge, dock, start, BlockEnd(start, block, |badge|) + 1) % 2 == 1)
    ensures var rest := PassFrom(badge, dock, original, start + block, block, player);
      PassFrom(badge, dock, original, start, block, player)
        == if odd then Pass([original[p]] + rest.reports, rest.aborted, true) else rest
    ensures odd ==> start <= p <= BlockEnd(start, block, |badge|) && badge[p] != dock[p]
  {
    var end := BlockEnd(start, block, |badge|);
    odd, p := Diffs(badge, dock, start, end + 1) % 2 == 1, start;
    BlockTruth(badge, dock, start, end, player);
    if odd { p := SearchFindsDifference(badge, dock, original, start, end, player); }
    BlockUnfolds(badge, dock, original, start, block, player);
  }

  /** A truthful answer for a block differs from the dock's parity exactly when the block is odd. */
  lemma BlockTruth(badge: seq<int>, dock: seq<int>, start: nat, end: nat, player: Player)
    requires start <= end < |badge| == |dock| && Bits(badge) && Bits(dock) && Truthful(player, badge)
    ensures player(start, end).Some? && 0 <= player(start, end).value <= 1
    ensures player(start, end).value != Parity(dock, start, end) <==> Diffs(badge, dock, start, end + 1) % 2 == 1
  {
    ParityTellsOddness(badge, dock, start, end + 1);
    assert player(start, end) == Some(Parity(badge, start, end));
  }

  /** One block of a pass. */
  lemma BlockUnfolds(badge: seq<int>, dock: seq<int>, original: seq<nat>, start: nat, block: nat, player: Player)
    requires block > 0 && start < |badge| == |dock| == |original|
    ensures var end := BlockEnd(start, block, |badge|);
      var rest := PassFrom(badge, dock, original, start + block, block, player);
      PassFrom(badge, dock, original, start, block, player) ==
        match player(start, end)
        case None => Pass([], true, false)
        case Some(parity) =>
          if parity != 0 && parity != 1 then Pass([], true, false)
          else if parity == Parity(dock, start, end) then rest
          else
            var here := Reported(BinarySearchError(badge, dock, original, start, end, player));
            Pass(here + rest.reports, rest.aborted, true)
  {
  }

  lemma OnePerBlockNext(badge: seq<int>, dock: seq<int>, start: nat, block: nat, starts: seq<nat>, places: seq<nat>,
      p: nat)
    requires block > 0 && start < |badge| == |dock| && OnePerBlock(badge, dock, starts, block, places)
    requires start <= p <= BlockEnd(start, block, |badge|) && badge[p] != dock[p]
    requires forall i | 0 <= i < |starts| :: start + block <= starts[i]
    ensures OnePerBlock(badge, dock, [start] + starts, block, [p] + places)
  {
  }

  /** Put to a truthful player, a pass reports exactly one difference per odd block and nothing else. */
  lemma {:induction false} PassReports(badge: seq<int>, dock: seq<int>, original: seq<nat>, start: nat, block: nat,
      player: Player)
    returns (places: seq<nat>)
    requires block > 0 && |badge| == |dock| == |original| && Bits(badge) && Bits(dock) && Truthful(player, badge)
    ensures OnePerBlock(badge, dock, OddStarts(badge, dock, start, block), block, places)
    ensures Names(PassFrom(badge, dock, original, start, block, player).reports, original, places)
    ensures !PassFrom(badge, dock, original, start, block, player).aborted
    decreases |badge| - start
  {
    places := [];
    if start < |badge| {
      places := PassReports(badge, dock, original, start + block, block, player);
      var odd, p := BlockReports(badge, dock, original, start, block, player);
      if odd {
        OnePerBlockNext(badge, dock, start, block, OddStarts(badge, dock, start + block, block), places, p);
        NamesNext(PassFrom(badge, dock, original, start + block, block, player).reports, original, places, p);
        places := [p] + places;
      }
    }
  }

  // ---------------------------------------------------------------- what flipping the reports does

  function Hamming(a: seq<int>, b: seq<int>): nat
    requires |a| == |b|
  {
    Diffs(a, b, 0, |a|)
  }

  function FlipAll(key: seq<int>, reports: seq<nat>): (r: seq<int>)
    requires forall i | 0 <= i < |reports| :: reports[i] < |key|
    ensures |r| == |key|
    decreases |reports|
  {
    if reports == [] then key else FlipAll(key[reports[0] := 1 - key[reports[0]]], reports[1..])
  }

  lemma {:induction false} DiffsUpdate(a: seq<int>, b: seq<int>, i: nat, v: int, hi: nat)
    requires hi <= |a| && hi <= |b| && i < |a|
    ensures Diffs(a[i := v], b, 0, hi) == Diffs(a, b, 0, hi) +
      if i >= hi then 0 else (if v != b[i] then 1 else 0) - (if a[i] != b[i] then 1 else 0)
  {
    if hi > 0 { DiffsUpdate(a, b, i, v, hi - 1); }
  }

  /** Distinct places of one key, each different from the other key. */
  ghost predicate Genuine(a: seq<int>, b: seq<int>, reports: seq<nat>)
    requires |a| == |b|
  {
    && (forall i | 0 <= i < |reports| :: reports[i] < |a| && a[reports[i]] != b[reports[i]])
    && (forall i, j | 0 <= i < j < |reports| :: reports[i] != reports[j])
  }

  /** Flipping genuine reports brings the keys closer by exactly their number. */
  lemma {:induction false} FlippingHelps(a: seq<int>, b: seq<int>, reports: seq<nat>)
    requires |a| == |b| && Bits(a) && Bits(b) && Genuine(a, b, reports)
    ensures Hamming(FlipAll(a, reports), b) == Hamming(a, b) - |reports|
    decreases |reports|
  {
    if reports != [] {
      var i := reports[0];
      DiffsUpdate(a, b, i, 1 - a[i], |a|);
      var a2 := a[i := 1 - a[i]];
      forall k | 0 <= k < |reports[1..]| ensures a2[reports[1..][k]] == a[reports[1..][k]] {
        assert reports[0] != reports[k + 1];
      }
      FlippingHelps(a2, b, reports[1..]);
    }
  }

  /** badge and dock are the two keys read in the order `original`, which holds each index once. */
  ghost predicate Shuffled(badge: seq<int>, key: seq<int>, original: seq<nat>) {
    |badge| == |key| == |original|
    && forall i | 0 <= i < |original| :: original[i] < |key| && badge[i] == key[original[i]]
  }

  ghost predicate Injective(original: seq<nat>) {
    forall i, j | 0 <= i < j < |original| :: original[i] != original[j]
  }

  lemma ReportsAreGenuine(badgeKey: seq<int>, dockKey: seq<int>, badge: seq<int>, dock: seq<int>, original: seq<nat>,
                          starts: seq<nat>, block: nat, places: seq<nat>, reports: seq<nat>)
    requires |badgeKey| == |dockKey| && Injective(original)
    requires Shuffled(badge, badgeKey, original) && Shuffled(dock, dockKey, original)
    requires block > 0 && OnePerBlock(badge, dock, starts, block, places) && Names(reports, original, places)
    ensures Genuine(badgeKey, dockKey, reports)
  {
  }

  /**
   * For any keys, order and block size: a truthful pass makes one report per odd block and no other, the reports are
   * distinct differences of the unshuffled keys, and flipping them lowers the distance by their number.
   */
  lemma PassCorrects(badgeKey: seq<int>, dockKey: seq<int>, badge: seq<int>, dock: seq<int>, original: seq<nat>,
      block: nat, player: Player)
    requires |badgeKey| == |dockKey| && Bits(badgeKey) && Bits(dockKey) && block > 0
    requires Shuffled(badge, badgeKey, original) && Shuffled(dock, dockKey, original) && Injective(original)
    requires Truthful(player, badge)
    ensures var pass := PassFrom(badge, dock, original, 0, block, player);
      && !pass.aborted && |pass.reports| == |OddStarts(badge, dock, 0, block)|
      && Genuine(badgeKey, dockKey, pass.reports)
      && Hamming(FlipAll(badgeKey, pass.reports), dockKey) == Hamming(badgeKey, dockKey) - |pass.reports|
  {
    var places := PassReports(badge, dock, original, 0, block, player);
    var reports := PassFrom(badge, dock, original, 0, block, player).reports;
    ReportsAreGenuine(badgeKey, dockKey, badge, dock, original,
      OddStarts(badge, dock, 0, block), block, places, reports);
    FlippingHelps(badgeKey, dockKey, reports);
  }
}
