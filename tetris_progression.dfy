/**
  Score, level and gravity-speed bookkeeping of the falling-block game.
 */
module TetrisProgression {

  /** Points per soft-dropped and per hard-dropped cell. */
  const SoftDropPoints: nat := 1
  const HardDropPoints: nat := 2

  /** The line-clear award table; any other count scores nothing. */
  function LinePoints(cleared: nat): (points: nat)
    ensures points > 0 <==> 1 <= cleared <= 4
    ensures points <= 800
  {
    if cleared == 1 then 100
    else if cleared == 2 then 300
    else if cleared == 3 then 500
    else if cleared == 4 then 800
    else 0
  }

  /** Clearing more rows at once always pays more than clearing fewer. */
  lemma LinePointsIncreasing(a: nat, b: nat)
    requires a < b <= 4
    ensures LinePoints(a) < LinePoints(b)
    ensures b >= 2 ==> LinePoints(b) > b * LinePoints(1)
  {
  }

  /** The level reached after clearing `lines` rows. */
  function LevelFor(lines: nat): (level: nat)
    ensures level >= 1
    ensures (level - 1) * 10 <= lines < level * 10
  {
    lines / 10 + 1
  }

  /** The level never goes down as lines accumulate. */
  lemma LevelMonotone(a: nat, b: nat)
    requires a <= b
    ensures LevelFor(a) <= LevelFor(b)
  {
  }

  function Pow(b: nat, k: nat): (p: nat)
    ensures p >= 1 || b == 0
  {
    if k == 0 then 1 else b * Pow(b, k - 1)
  }

  /**
    The unclamped gravity interval after k level-ups: 1000 ms scaled by 0.85^k
    and rounded down, computed exactly as 1000 * 17^k / 20^k.
   */
  function Decay(k: nat): (d: nat)
    ensures k == 0 ==> d == 1000
    ensures d <= 1000
  {
    PowBelow(k);
    DivBelow(1000 * Pow(17, k), Pow(20, k), 1001);
    1000 * Pow(17, k) / Pow(20, k)
  }

  /** 17^k never exceeds 20^k. */
  lemma {:induction false} PowBelow(k: nat)
    ensures Pow(17, k) <= Pow(20, k)
  {
    if k > 0 {
      PowBelow(k - 1);
    }
  }

  /** The gravity interval of a level, never below the 60 ms floor. */
  function DropMs(level: nat): (ms: nat)
    requires level >= 1
    ensures ms >= 60
    ensures level == 1 ==> ms == 1000
  {
    var d := Decay(level - 1);
    if d < 60 then 60 else d
  }

  lemma DecayStep(k: nat)
    ensures Decay(k + 1) <= Decay(k)
  {
    var a := 1000 * Pow(17, k);
    var b := Pow(20, k);
    var q := a / b;
    assert a < (q + 1) * b;
    assert 17 * a < 20 * ((q + 1) * b) by {
      assert 17 * a < 17 * ((q + 1) * b);
    }
    assert 1000 * Pow(17, k + 1) == 17 * a;
    assert Pow(20, k + 1) == 20 * b;
    assert 20 * ((q + 1) * b) == (q + 1) * (20 * b);
    DivBelow(17 * a, 20 * b, q + 1);
  }

  lemma DivBelow(n: nat, m: nat, bound: nat)
    requires m > 0 && n < bound * m
    ensures n / m < bound
  {
    if n / m >= bound {
      assert (n / m) * m >= bound * m by {
        MulMono(bound, n / m, m);
      }
    }
  }

  lemma MulMono(a: nat, b: nat, m: nat)
    requires a <= b
    ensures a * m <= b * m
  {
  }

  /** A higher level never has a longer gravity interval. */
  lemma {:induction false} DropMsNonIncreasing(l1: nat, l2: nat)
    requires 1 <= l1 <= l2
    ensures DropMs(l2) <= DropMs(l1)
    decreases l2 - l1
  {
    if l1 < l2 {
      DropMsNonIncreasing(l1 + 1, l2);
      DecayStep(l1 - 1);
    }
  }
}
