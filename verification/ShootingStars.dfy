/** When shooting stars step, and how long blanking them lasts (components/badge-led-strip/strip_animator.cpp). */
module ShootingStars {
  import opened StripAnimator

  function After(s: Stars, n: nat): (t: Stars)
    requires s.Ok()
    ensures t.Ok() && t.kind == s.kind && t.before == s.before && t.count == s.count
  {
    if n == 0 then s else After(s, n - 1).Tick()
  }

  /** The eight-bit counter, n counts on. */
  function Reading(s: Stars, n: nat): nat { (s.since + n) % 256 }

  lemma CountOne(s: Stars, n: nat)
    requires s.Ok() && s.kind == ShootingStar && Reading(s, n) != s.before
    ensures s.(since := Reading(s, n)).Tick() == s.(since := Reading(s, n + 1))
  {
  }

  /** Until they are due the stars only count, in eight bits. */
  lemma {:induction false} OnlyCounting(s: Stars, n: nat)
    requires s.Ok() && s.kind == ShootingStar && s.since < 256
    requires forall m: nat | m < n :: Reading(s, m) != s.before
    ensures After(s, n) == s.(since := Reading(s, n))
  {
    if n > 0 {
      OnlyCounting(s, n - 1);
      CountOne(s, n - 1);
    }
  }

  // ---------------------------------------------------------------- how often they step

  /** After n further ticks, and not before, the stars are due. */
  ghost predicate DueFirst(s: Stars, n: nat)
    requires s.Ok()
  {
    After(s, n).Due() && forall m: nat | m < n :: !After(s, m).Due()
  }

  lemma DueAfterCounting(s: Stars, n: nat)
    requires s.Ok() && s.kind == ShootingStar && s.since < 256 && Reading(s, n) == s.before
    requires forall m: nat | m < n :: Reading(s, m) != s.before
    ensures DueFirst(s, n)
  {
    OnlyCounting(s, n);
    forall m: nat | m < n ensures !After(s, m).Due() {
      OnlyCounting(s, m);
      assert Reading(s, m) != s.before;
    }
  }

  lemma NeverDue(s: Stars, n: nat)
    requires s.Ok() && s.kind == ShootingStar && s.since < 256 && s.before > 255
    ensures !After(s, n).Due()
  {
    OnlyCounting(s, n);
  }

  /**
   * Stars that have just stepped step again `before` ticks later if that is 1 to 255, 256 ticks later if it is 0, else
   * never.
   */
  lemma StepsEvery(s: Stars)
    requires s.Ok() && s.kind == ShootingStar && s.since == 1
    ensures 1 <= s.before <= 255 ==> DueFirst(s, s.before - 1)
    ensures s.before == 0 ==> DueFirst(s, 255)
    ensures s.before > 255 ==> forall n: nat :: !After(s, n).Due()
  {
    if 1 <= s.before <= 255 {
      DueAfterCounting(s, s.before - 1);
    } else if s.before == 0 {
      DueAfterCounting(s, 255);
    } else {
      forall n: nat ensures !After(s, n).Due() { NeverDue(s, n); }
    }
  }

  // ---------------------------------------------------------------- how long blanking lasts

  predicate Dark(s: Stars)
    requires s.Ok()
  {
    forall i | 0 <= i < ANIM_COUNT :: !s.active[i]
  }

  /** No animated LED becomes active, however long the strip ticks on. */
  ghost predicate StaysDark(s: Stars)
    requires s.Ok()
  {
    forall n: nat :: Dark(After(s, n))
  }

  lemma {:induction false} OthersStay(s: Stars, n: nat)
    requires s.Ok() && s.kind != ShootingStar
    ensures After(s, n) == s
  {
    if n > 0 { OthersStay(s, n - 1); }
  }

  /** The first step of blanked stars lights LED 1. */
  lemma StarsReturn(s: Stars)
    requires s.Ok() && s.kind == ShootingStar && s.before <= 255
    ensures After(s.Blanked(), s.before + 1).active[1]
  {
    var b := s.Blanked();
    DueAfterCounting(b, s.before);
    OnlyCounting(b, s.before);
    assert StarAt(1, s.count, 0) == 1;
  }

  /**
   * Blanking the strip lasts exactly when no shooting stars are selected, or their interval is out of the counter's
   * reach.
   */
  lemma BlankingLastsExactlyWhen(s: Stars)
    requires s.Ok()
    ensures s.Blanked().Ok()
    ensures StaysDark(s.Blanked()) <==> s.kind != ShootingStar || s.before > 255
  {
    var b := s.Blanked();
    if s.kind != ShootingStar {
      forall n: nat ensures Dark(After(b, n)) { OthersStay(b, n); }
    } else if s.before > 255 {
      forall n: nat ensures Dark(After(b, n)) { OnlyCounting(b, n); }
    } else {
      StarsReturn(s);
      assert !Dark(After(b, s.before + 1));
    }
  }
}
