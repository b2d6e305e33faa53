/** The Cascade command around the pass, and the noise it was written for (ctf-components/quantum/qkd.cpp). */
module CascadeFlow {
  import opened Cascade

  const BLOCK_SIZE: nat := 8

  datatype Ended = NoData | InvalidCharacter | Cancelled | Stopped | Finished(mismatch: bool)

  predicate IsDigit(c: char) { c == '0' || c == '1' }

  /** The first `size` characters as bits; reading past the text's end meets its NUL, which is no digit. */
  function ToBits(text: string, size: nat): Option<seq<int>> {
    if size > |text| || exists i | 0 <= i < size :: !IsDigit(text[i]) then None
    else Some(seq(size, i requires 0 <= i < size => if text[i] == '1' then 1 else 0))
  }

  method ReadBits(text: string, size: nat) returns (bits: Option<seq<int>>)
    ensures bits == ToBits(text, size)
  {
    var key: seq<int> := [];
    for i := 0 to size
      invariant |key| == i <= |text|
      invariant forall k | 0 <= k < i :: IsDigit(text[k]) && key[k] == if text[k] == '1' then 1 else 0
    {
      if i >= |text| || !IsDigit(text[i]) { return None; }
      key := key + [if text[i] == '1' then 1 else 0];
    }
    assert key == ToBits(text, size).value;
    bits := Some(key);
  }

  function Identity(size: nat): (order: seq<nat>)
    ensures |order| == size && forall i: nat | i < size :: order[i] == i
  {
    seq(size, i requires 0 <= i < size => i)
  }

  function Permuted(key: seq<int>, order: seq<nat>): (r: seq<int>)
    requires forall i | 0 <= i < |order| :: order[i] < |key|
    ensures |r| == |order| && forall i | 0 <= i < |order| :: r[i] == key[order[i]]
  {
    seq(|order|, i requires 0 <= i < |order| => key[order[i]])
  }

  ghost predicate IsOrder(order: seq<nat>, size: nat) {
    |order| == size && (forall i | 0 <= i < size :: order[i] < size) && Injective(order)
  }

  predicate WantsShuffle(answer: string) { answer == "yes" || answer == "y" }

  function OrderUsed(answer: string, order: seq<nat>, size: nat): seq<nat> {
    if WantsShuffle(answer) then order else Identity(size)
  }

  function EndOf(pass: Pass): Ended {
    if pass.aborted then Stopped else Finished(pass.mismatch)
  }

  /** What the command reports and how it ends. */
  ghost function Outcome(badgeText: string, dockText: string, answer: Option<string>, order: seq<nat>, player: Player)
    : (seq<nat>, Ended)
    requires |badgeText| > 1 ==> IsOrder(order, |badgeText| - 1)
  {
    if |badgeText| <= 1 then ([], NoData)
    else
      var size := |badgeText| - 1;
      var badge, dock := ToBits(badgeText, size), ToBits(dockText, size);
      if badge.None? || dock.None? then ([], InvalidCharacter)
      else if answer.None? then ([], Cancelled)
      else
        var used := OrderUsed(answer.value, order, size);
        var pass := PassFrom(Permuted(badge.value, used), Permuted(dock.value, used), used, 0, BLOCK_SIZE, player);
        (pass.reports, EndOf(pass))
  }

  /** A pass that has gone through one more block. */
  lemma OneMoreBlock(reports: seq<nat>, found: bool, here: seq<nat>, mismatch: bool, rest: Pass, next: Pass)
    requires rest == Pass(here + next.reports, next.aborted, mismatch || next.mismatch)
    ensures reports + rest.reports == reports + here + next.reports
    ensures (found || rest.mismatch) == (found || mismatch || next.mismatch)
  {
  }

  method RunPass(badge: seq<int>, dock: seq<int>, original: seq<nat>, player: Player)
    returns (reports: seq<nat>, ended: Ended)
    requires |badge| == |dock| == |original|
    ensures var pass := PassFrom(badge, dock, original, 0, BLOCK_SIZE, player);
      reports == pass.reports && ended == EndOf(pass)
  {
    var size := |badge|;
    var numBlocks := (size + BLOCK_SIZE - 1) / BLOCK_SIZE;
    reports := [];
    var foundAnyError := false;
    ghost var pass := PassFrom(badge, dock, original, 0, BLOCK_SIZE, player);
    ghost var rest := pass;
    for blockIndex := 0 to numBlocks
      invariant rest == PassFrom(badge, dock, original, blockIndex * BLOCK_SIZE, BLOCK_SIZE, player)
      invariant pass == Pass(reports + rest.reports, rest.aborted, foundAnyError || rest.mismatch)
    {
      BlockUnfolds(badge, dock, original, blockIndex * BLOCK_SIZE, BLOCK_SIZE, player);
      var start := blockIndex * BLOCK_SIZE;
      var end := BlockEnd(start, BLOCK_SIZE, size);
      var answer := player(start, end);
      if answer.None? || (answer.value != 0 && answer.value != 1) {
        ended := Stopped;
        return;
      }
      ghost var next := PassFrom(badge, dock, original, start + BLOCK_SIZE, BLOCK_SIZE, player);
      var dockParity := ComputeParity(dock, start, end);
      if answer.value != dockParity {
        var here := Reported(BinarySearchError(badge, dock, original, start, end, player));
        OneMoreBlock(reports, foundAnyError, here, true, rest, next);
        foundAnyError := true;
        reports := reports + here;
      }
      rest := next;
    }
    ended := Finished(foundAnyError);
  }

  /** `order` is what the shuffle makes of the index map. */
  method RunCascadeFlow(badgeText: string, dockText: string, answer: Option<string>, order: seq<nat>, player: Player)
    returns (reports: seq<nat>, ended: Ended)
    requires |badgeText| > 1 ==> IsOrder(order, |badgeText| - 1)
    ensures (reports, ended) == Outcome(badgeText, dockText, answer, order, player)
  {
    var size := |badgeText| - 1;
    if size < 1 { return [], NoData; }
    var badge := ReadBits(badgeText, size);
    if badge.None? { return [], InvalidCharacter; }
    var dock := ReadBits(dockText, size);
    if dock.None? { return [], InvalidCharacter; }
    if answer.None? { return [], Cancelled; }
    var used := OrderUsed(answer.value, order, size);
    reports, ended := RunPass(Permuted(badge.value, used), Permuted(dock.value, used), used, player);
  }

  lemma UsedIsOrder(answer: string, order: seq<nat>, size: nat)
    requires IsOrder(order, size)
    ensures IsOrder(OrderUsed(answer, order, size), size)
  {
  }

  /**
   * With well-formed keys and a player who answers truthfully the command finishes, and its reports correct the bits it
   * looks at: all but the last.
   */
  lemma FlowCorrects(badgeText: string, dockText: string, answer: string, order: seq<nat>, player: Player)
    requires |badgeText| > 1 && IsOrder(order, |badgeText| - 1)
    requires ToBits(badgeText, |badgeText| - 1).Some? && ToBits(dockText, |badgeText| - 1).Some?
    requires Truthful(player,
      Permuted(ToBits(badgeText, |badgeText| - 1).value, OrderUsed(answer, order, |badgeText| - 1)))
    ensures var (reports, ended) := Outcome(badgeText, dockText, Some(answer), order, player);
      var badge, dock := ToBits(badgeText, |badgeText| - 1).value, ToBits(dockText, |badgeText| - 1).value;
      && ended.Finished? && Genuine(badge, dock, reports)
      && Hamming(FlipAll(badge, reports), dock) == Hamming(badge, dock) - |reports|
  {
    var size := |badgeText| - 1;
    var badge, dock := ToBits(badgeText, size).value, ToBits(dockText, size).value;
    var used := OrderUsed(answer, order, size);
    UsedIsOrder(answer, order, size);
    PassCorrects(badge, dock, Permuted(badge, used), Permuted(dock, used), used, BLOCK_SIZE, player);
  }

  lemma SameBits(a: string, b: string, size: nat)
    requires size <= |a| && size <= |b| && a[..size] == b[..size]
    ensures ToBits(a, size) == ToBits(b, size)
  {
    forall i | 0 <= i < size ensures a[i] == b[i] { assert a[..size][i] == b[..size][i]; }
    if ToBits(a, size).Some? {
      assert ToBits(a, size).value == ToBits(b, size).value;
    } else {
      var i :| 0 <= i < size && !IsDigit(a[i]);
      assert !IsDigit(b[i]);
    }
  }

  /** The last bit of a key is never looked at: whatever it is, the command reports the same and ends the same way. */
  lemma LastBitIgnored(badge: string, badge': string, dock: string, dock': string, answer: Option<string>,
      order: seq<nat>, player: Player)
    requires |badge| == |badge'| == |dock| == |dock'| > 1 && IsOrder(order, |badge| - 1)
    requires badge[..|badge| - 1] == badge'[..|badge| - 1] && dock[..|badge| - 1] == dock'[..|badge| - 1]
    ensures Outcome(badge, dock, answer, order, player) == Outcome(badge', dock', answer, order, player)
  {
    SameBits(badge, badge', |badge| - 1);
    SameBits(dock, dock', |badge| - 1);
  }

  /** So keys that differ there and nowhere else are reported as the same. */
  lemma LastErrorMissed(badge: string, dock: string, answer: string, order: seq<nat>, player: Player)
    requires |badge| == |dock| > 1 && IsOrder(order, |badge| - 1) && badge[..|badge| - 1] == dock[..|badge| - 1]
    requires ToBits(badge, |badge| - 1).Some?
    requires Truthful(player, Permuted(ToBits(badge, |badge| - 1).value, OrderUsed(answer, order, |badge| - 1)))
    ensures Outcome(badge, dock, Some(answer), order, player).0 == []
  {
    SameBits(badge, dock, |badge| - 1);
    FlowCorrects(badge, dock, answer, order, player);
    NoDifference(ToBits(badge, |badge| - 1).value, |badge| - 1);
  }

  lemma {:induction false} NoDifference(key: seq<int>, hi: nat)
    requires hi <= |key|
    ensures Diffs(key, key, 0, hi) == 0
  {
    if hi > 0 { NoDifference(key, hi - 1); }
  }

  // ---------------------------------------------------------------- the fixed noise

  predicate Noise(i: int) { i == 5 || i == 6 || i == 14 || i == 18 || i == 20 || i == 25 || i == 46 }

  /** The dock's key with the fixed places flipped. */
  function Noisy(key: seq<int>): (r: seq<int>)
    ensures |r| == |key| && forall i | 0 <= i < |key| :: r[i] == if Noise(i) then 1 - key[i] else key[i]
  {
    seq(|key|, i requires 0 <= i < |key| => if Noise(i) then 1 - key[i] else key[i])
  }

  function NoiseCount(lo: nat, hi: nat): nat {
    if hi <= lo then 0 else NoiseCount(lo, hi - 1) + if Noise(hi - 1) then 1 else 0
  }

  lemma {:induction false} DiffsAreNoise(key: seq<int>, lo: nat, hi: nat)
    requires Bits(key) && hi <= |key|
    ensures Diffs(Noisy(key), key, lo, hi) == NoiseCount(lo, hi)
  {
    if lo < hi { DiffsAreNoise(key, lo, hi - 1); }
  }

  lemma {:induction false} NoNoiseAbove(lo: nat, hi: nat)
    requires lo > 46
    ensures NoiseCount(lo, hi) == 0
  {
    if lo < hi { NoNoiseAbove(lo, hi - 1); }
  }

  lemma {:induction false} NothingAbove(key: seq<int>, start: nat)
    requires Bits(key) && start > 46
    ensures OddStarts(Noisy(key), key, start, BLOCK_SIZE) == []
    decreases |key| - start
  {
    if start < |key| {
      var end := BlockEnd(start, BLOCK_SIZE, |key|);
      DiffsAreNoise(key, start, end + 1);
      NoNoiseAbove(start, end + 1);
      NothingAbove(key, start + BLOCK_SIZE);
    }
  }

  /** A full block of the noisy key. */
  lemma NoisyBlock(key: seq<int>, start: nat, rest: seq<nat>, count: nat)
    requires Bits(key) && start + BLOCK_SIZE <= |key| && NoiseCount(start, start + BLOCK_SIZE) == count
    requires OddStarts(Noisy(key), key, start + BLOCK_SIZE, BLOCK_SIZE) == rest
    ensures OddStarts(Noisy(key), key, start, BLOCK_SIZE) == (if count % 2 == 1 then [start] else []) + rest
  {
    DiffsAreNoise(key, start, start + BLOCK_SIZE);
  }

  lemma LastNoise(end: nat)
    requires end == 47 || end == 48
    ensures NoiseCount(40, end) == 1
  {
  }

  /** The block with place 46 may be cut short. */
  lemma NoisyLastBlock(key: seq<int>)
    requires Bits(key) && |key| > 46
    ensures OddStarts(Noisy(key), key, 40, BLOCK_SIZE) == [40]
  {
    NothingAbove(key, 48);
    var end := BlockEnd(40, BLOCK_SIZE, |key|) + 1;
    DiffsAreNoise(key, 40, end);
    LastNoise(end);
  }

  lemma FullBlockCounts()
    ensures NoiseCount(0, 8) == 2 && NoiseCount(8, 16) == 1 && NoiseCount(16, 24) == 2
    ensures NoiseCount(24, 32) == 1 && NoiseCount(32, 40) == 0
  {
  }

  lemma NoiseFrom16(key: seq<int>)
    requires Bits(key) && |key| > 46
    ensures OddStarts(Noisy(key), key, 16, BLOCK_SIZE) == [24, 40]
  {
    NoisyLastBlock(key);
    FullBlockCounts();
    NoisyBlock(key, 32, [40], 0);
    NoisyBlock(key, 24, [40], 1);
    NoisyBlock(key, 16, [24, 40], 2);
  }

  lemma NoiseOddStarts(key: seq<int>)
    requires Bits(key) && |key| > 46
    ensures OddStarts(Noisy(key), key, 0, BLOCK_SIZE) == [8, 24, 40]
  {
    NoiseFrom16(key);
    FullBlockCounts();
    NoisyBlock(key, 8, [24, 40], 1);
    NoisyBlock(key, 0, [8, 24, 40], 2);
  }

  /** An unshuffled, truthful pass over the noisy key finds exactly the flips that are alone in their block. */
  lemma NoiseReports(key: seq<int>, player: Player)
    requires Bits(key) && |key| > 46 && Truthful(player, Noisy(key))
    ensures PassFrom(Noisy(key), key, Identity(|key|), 0, BLOCK_SIZE, player) == Pass([14, 25, 46], false, true)
  {
    var pass := PassFrom(Noisy(key), key, Identity(|key|), 0, BLOCK_SIZE, player);
    NoiseOddStarts(key);
    var places := PassReports(Noisy(key), key, Identity(|key|), 0, BLOCK_SIZE, player);
    assert OddStarts(Noisy(key), key, 0, BLOCK_SIZE)[0] == 8;
    assert Noise(places[0]) && Noise(places[1]) && Noise(places[2]);
    assert places == [14, 25, 46];
    assert pass.reports == places;
    ReportsMeanMismatch(Noisy(key), key, Identity(|key|), 0, player);
  }

  lemma {:induction false} ReportsMeanMismatch(badge: seq<int>, dock: seq<int>, original: seq<nat>, start: nat,
      player: Player)
    requires |badge| == |dock| == |original|
    ensures var pass := PassFrom(badge, dock, original, start, BLOCK_SIZE, player); pass.reports != [] ==> pass.mismatch
    decreases |badge| - start
  {
    if start < |badge| { ReportsMeanMismatch(badge, dock, original, start + BLOCK_SIZE, player); }
  }
}
