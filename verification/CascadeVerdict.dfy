/** How the Cascade command ends, for every input (ctf-components/quantum/qkd.cpp). */
module CascadeVerdict {
  import opened Cascade
  import opened CascadeFlow

  /** The last place of block k: eight places each, the last block cut short. */
  function LastOf(k: nat, size: nat): nat
    requires 8 * k < size
  {
    if 8 * k + 7 < size then 8 * k + 7 else size - 1
  }

  /** No answer about block k, or neither 0 nor 1. */
  predicate Unanswered(player: Player, k: nat, size: nat)
    requires 8 * k < size
  {
    var answer := player(8 * k, LastOf(k, size));
    answer.None? || (answer.value != 0 && answer.value != 1)
  }

  /** An answer about block k that is not the dock's parity. */
  predicate Mismatched(player: Player, dock: seq<int>, k: nat)
    requires 8 * k < |dock|
  {
    player(8 * k, LastOf(k, |dock|)) != Some(Parity(dock, 8 * k, LastOf(k, |dock|)))
  }

  ghost predicate SomeUnanswered(player: Player, from: nat, size: nat) {
    exists k: nat | from <= k && 8 * k < size :: Unanswered(player, k, size)
  }

  ghost predicate SomeMismatched(player: Player, dock: seq<int>, from: nat) {
    exists k: nat | from <= k && 8 * k < |dock| :: Mismatched(player, dock, k)
  }

  lemma FirstOrLater(player: Player, dock: seq<int>, k: nat)
    requires 8 * k < |dock|
    ensures SomeUnanswered(player, k, |dock|) <==>
      Unanswered(player, k, |dock|) || SomeUnanswered(player, k + 1, |dock|)
    ensures SomeMismatched(player, dock, k) <==> Mismatched(player, dock, k) || SomeMismatched(player, dock, k + 1)
  {
    if j: nat :| k <= j && 8 * j < |dock| && Unanswered(player, j, |dock|) { assert j == k || k + 1 <= j; }
    if j: nat :| k <= j && 8 * j < |dock| && Mismatched(player, dock, j) { assert j == k || k + 1 <= j; }
  }

  /** A pass is cut short exactly by a block without an answer, and otherwise finds exactly the mismatched blocks. */
  lemma {:induction false} PassEnds(badge: seq<int>, dock: seq<int>, original: seq<nat>, k: nat, player: Player)
    requires |badge| == |dock| == |original|
    ensures var pass := PassFrom(badge, dock, original, 8 * k, 8, player);
      && (pass.aborted <==> SomeUnanswered(player, k, |dock|))
      && (!pass.aborted ==> (pass.mismatch <==> SomeMismatched(player, dock, k)))
    decreases |badge| - 8 * k
  {
    if 8 * k < |badge| {
      PassEnds(badge, dock, original, k + 1, player);
      BlockUnfolds(badge, dock, original, 8 * k, 8, player);
      FirstOrLater(player, dock, k);
      assert BlockEnd(8 * k, 8, |badge|) == LastOf(k, |dock|);
    }
  }

  /** The first `size` characters are all '0' or '1'. */
  predicate Digits(text: string, size: nat) {
    size <= |text| && forall i | 0 <= i < size :: text[i] == '0' || text[i] == '1'
  }

  /** The dock's bits in the order used: the shuffle's if the answer is "y" or "yes", else as they are. */
  ghost predicate DockInOrder(dockText: string, size: nat, answer: string, order: seq<nat>, dock: seq<int>)
    requires size <= |dockText| && IsOrder(order, size)
  {
    && |dock| == size
    && forall i: nat | i < size ::
         dock[i] == if dockText[if answer == "y" || answer == "yes" then order[i] else i] == '1' then 1 else 0
  }

  lemma DockUsed(dockText: string, size: nat, answer: string, order: seq<nat>, dock: seq<int>)
    requires Digits(dockText, size) && IsOrder(order, size) && DockInOrder(dockText, size, answer, order, dock)
    ensures ToBits(dockText, size).Some?
    ensures dock == Permuted(ToBits(dockText, size).value, OrderUsed(answer, order, size))
  {
  }

  /** With both keys well formed and an answer about the shuffle, the player's answers decide. */
  lemma PlayedOut(badgeText: string, dockText: string, answer: string, order: seq<nat>, player: Player, dock: seq<int>)
    requires |badgeText| > 1 && IsOrder(order, |badgeText| - 1)
    requires Digits(badgeText, |badgeText| - 1) && Digits(dockText, |badgeText| - 1)
    requires DockInOrder(dockText, |badgeText| - 1, answer, order, dock)
    ensures var ended := Outcome(badgeText, dockText, Some(answer), order, player).1;
      && (ended == Stopped <==> SomeUnanswered(player, 0, |dock|))
      && (ended != Stopped ==> ended == Finished(SomeMismatched(player, dock, 0)))
  {
    var size := |badgeText| - 1;
    var used := OrderUsed(answer, order, size);
    UsedIsOrder(answer, order, size);
    DockUsed(dockText, size, answer, order, dock);
    PassEnds(Permuted(ToBits(badgeText, size).value, used), dock, used, 0, player);
  }

  /** How the command ends, for every input. */
  lemma EndsExactlyWhen(badgeText: string, dockText: string, answer: Option<string>, order: seq<nat>, player: Player)
    requires |badgeText| > 1 ==> IsOrder(order, |badgeText| - 1)
    ensures var ended := Outcome(badgeText, dockText, answer, order, player).1;
      var wellFormed := |badgeText| > 1 && Digits(badgeText, |badgeText| - 1) && Digits(dockText, |badgeText| - 1);
      && (ended == NoData <==> |badgeText| <= 1)
      && (ended == InvalidCharacter <==> |badgeText| > 1 && !wellFormed)
      && (ended == Cancelled <==> wellFormed && answer.None?)
      && (ended == Stopped <==> wellFormed && answer.Some? && SomeUnanswered(player, 0, |badgeText| - 1))
  {
    if |badgeText| > 1 && Digits(badgeText, |badgeText| - 1) && Digits(dockText, |badgeText| - 1) && answer.Some? {
      var size := |badgeText| - 1;
      var dock := Permuted(ToBits(dockText, size).value, OrderUsed(answer.value, order, size));
      PlayedOut(badgeText, dockText, answer.value, order, player, dock);
    }
  }

  /** Nothing is reported unless the pass was played. */
  lemma ReportsNeedAPass(badgeText: string, dockText: string, answer: Option<string>, order: seq<nat>, player: Player)
    requires |badgeText| > 1 ==> IsOrder(order, |badgeText| - 1)
    ensures var (reports, ended) := Outcome(badgeText, dockText, answer, order, player);
      ended == NoData || ended == InvalidCharacter || ended == Cancelled ==> reports == []
  {
  }

  // ---------------------------------------------------------------- truthful players

  lemma {:induction false} MismatchMeansReport(badge: seq<int>, dock: seq<int>, original: seq<nat>, start: nat,
      player: Player)
    requires |badge| == |dock| == |original| && Bits(badge) && Bits(dock) && Truthful(player, badge)
    ensures var pass := PassFrom(badge, dock, original, start, BLOCK_SIZE, player);
      !pass.aborted && (pass.mismatch <==> pass.reports != [])
    decreases |badge| - start
  {
    if start < |badge| {
      MismatchMeansReport(badge, dock, original, start + BLOCK_SIZE, player);
      var odd, p := BlockReports(badge, dock, original, start, BLOCK_SIZE, player);
    }
  }

  /** Put to a truthful player the command says that it found errors exactly when it reported some. */
  lemma TruthfulVerdict(badgeText: string, dockText: string, answer: string, order: seq<nat>, player: Player)
    requires |badgeText| > 1 && IsOrder(order, |badgeText| - 1)
    requires ToBits(badgeText, |badgeText| - 1).Some? && ToBits(dockText, |badgeText| - 1).Some?
    requires Truthful(player,
      Permuted(ToBits(badgeText, |badgeText| - 1).value, OrderUsed(answer, order, |badgeText| - 1)))
    ensures var (reports, ended) := Outcome(badgeText, dockText, Some(answer), order, player);
      ended == Finished(reports != [])
  {
    var size := |badgeText| - 1;
    var used := OrderUsed(answer, order, size);
    UsedIsOrder(answer, order, size);
    MismatchMeansReport(Permuted(ToBits(badgeText, size).value, used), Permuted(ToBits(dockText, size).value, used),
      used, 0, player);
  }
}
