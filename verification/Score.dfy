/** Social level of a badge (components/badge/badge.cpp). */
module Score {
  const MAX_LEVEL: nat := 200

  function Clamp(value: nat): nat { if value > MAX_LEVEL then MAX_LEVEL else value }

  /** The level after a sync that discovered `discovered` new badges, in uint8_t arithmetic. */
  function ComputeNewSocialLevel(current: nat, discovered: nat): nat
    requires current < 256
  {
    var levelUp :=
      if discovered != 1 then 0
      else if current <= 20 then 5
      else if current <= 75 then 4
      else if current <= 125 then 3
      else 2;
    Clamp((current + levelUp) % 256)
  }

  /** Anything but exactly one new badge leaves a level as it is. */
  lemma OnlyOneRaises(current: nat, discovered: nat)
    requires current <= MAX_LEVEL
    ensures ComputeNewSocialLevel(current, discovered) != current <==> discovered == 1 && current < 200
    ensures ComputeNewSocialLevel(current, discovered) <= 200
  {
  }

  /** One new peer. */
  function LevelUp(current: nat): nat
    requires current < 256
  {
    ComputeNewSocialLevel(current, 1)
  }

  /** The level of a badge that started at level 0 and met n different peers, one sync at a time. */
  function LevelAfter(n: nat): (level: nat)
    ensures level <= MAX_LEVEL
  {
    if n == 0 then 0 else LevelUp(LevelAfter(n - 1))
  }

  /** The level after n peers: four slopes, and the cap is reached with exactly the 71st. */
  function ClosedForm(n: nat): nat {
    if n <= 5 then 5 * n
    else if n <= 18 then 25 + 4 * (n - 5)
    else if n <= 35 then 77 + 3 * (n - 18)
    else if n <= 71 then 128 + 2 * (n - 35)
    else MAX_LEVEL
  }

  lemma ClosedFormSteps(n: nat)
    ensures ClosedForm(n) <= MAX_LEVEL && ClosedForm(n + 1) == LevelUp(ClosedForm(n))
  {
  }

  lemma {:induction false} LevelAfterClosedForm(n: nat)
    ensures LevelAfter(n) == ClosedForm(n)
  {
    if n > 0 {
      LevelAfterClosedForm(n - 1);
      ClosedFormSteps(n - 1);
    }
  }

  /** So levels never fall, and every peer before the 71st raises them. */
  lemma LevelMonotone(m: nat, n: nat)
    requires m < n
    ensures LevelAfter(m) <= LevelAfter(n)
    ensures LevelAfter(m) < LevelAfter(n) <==> m < 71
  {
    LevelAfterClosedForm(m);
    LevelAfterClosedForm(n);
  }

  /** The score side of the badge object: the level in memory and the level kept in the configuration store. */
  class Badge {
    var socialLevel: nat
    var savedLevel: nat

    ghost predicate Valid()
      reads this
    {
      socialLevel <= MAX_LEVEL && savedLevel <= MAX_LEVEL
    }

    constructor ()
      ensures Valid() && socialLevel == 0 && savedLevel == 0
    {
      socialLevel, savedLevel := 0, 0;
    }

    method SetSocialLevel(newLevel: nat, save: bool)
      requires Valid() && newLevel < 256
      modifies this
      ensures Valid() && socialLevel == if newLevel <= 200 then newLevel else 200
      ensures savedLevel == if save then socialLevel else old(savedLevel)
    {
      socialLevel := Clamp(newLevel);
      if save {
        savedLevel := socialLevel;
      }
    }

    method ApplyScoreChange(discovered: nat)
      requires Valid()
      modifies this
      ensures Valid()
      ensures socialLevel == ComputeNewSocialLevel(old(socialLevel), discovered)
      ensures savedLevel == if discovered > 0 then socialLevel else old(savedLevel)
    {
      if discovered > 0 {
        var level := ComputeNewSocialLevel(socialLevel, discovered);
        SetSocialLevel(level, true);
      }
    }
  }
}
