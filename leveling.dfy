/** The levelling policy and the XP amount drawn for one message.

    The bot computes a level as floor(0.1 * sqrt(xp)) in floating point; here a level is
    specified over the integers as the largest L with 100·L² ≤ xp. The two agree on totals
    below about 2.5·10^15; above that, the rounded square root of a total just under a
    threshold 100·L² can reach L, which the integer definition does not follow. */
module Leveling {

  /** `l` is the level of a total of `xp` points: 100·l² ≤ xp < 100·(l+1)². */
  predicate IsLevelOf(xp: int, l: nat) {
    100 * l * l <= xp < 100 * (l + 1) * (l + 1)
  }

  /** The level reached with `xp` points (the formula applied on every update). */
  function LevelFor(xp: nat): (l: nat)
    ensures IsLevelOf(xp, l)
  {
    LevelFrom(xp, 0)
  }

  /** Counts levels upward from `l`, which is known to be reached already. */
  function LevelFrom(xp: nat, l: nat): (r: nat)
    requires 100 * l * l <= xp
    ensures l <= r && IsLevelOf(xp, r)
    decreases xp - 100 * l * l
  {
    if 100 * (l + 1) * (l + 1) <= xp then
      assert 100 * l * l < 100 * (l + 1) * (l + 1);
      LevelFrom(xp, l + 1)
    else
      l
  }

  lemma SquareMonotone(a: nat, b: nat)
    ensures a <= b ==> a * a <= b * b
  {
    if a <= b {
      assert a * a <= a * b <= b * b;
    }
  }

  /** IsLevelOf has exactly one solution, so LevelFor is the level and nothing else is. */
  lemma LevelForUnique(xp: nat, l: nat)
    requires IsLevelOf(xp, l)
    ensures LevelFor(xp) == l
  {
    var m := LevelFor(xp);
    SquareMonotone(m + 1, l);
    SquareMonotone(l + 1, m);
  }

  /** More XP never means a lower level. */
  lemma LevelForMonotone(a: nat, b: nat)
    requires a <= b
    ensures LevelFor(a) <= LevelFor(b)
  {
    SquareMonotone(LevelFor(b) + 1, LevelFor(a));
  }

  /** The sample values of the formula: thresholds at 100·L², nothing below 100 points. */
  lemma LevelForSamples()
    ensures LevelFor(0) == 0 && LevelFor(5) == 0 && LevelFor(99) == 0
    ensures LevelFor(100) == 1 && LevelFor(101) == 1 && LevelFor(399) == 1
    ensures LevelFor(400) == 2 && LevelFor(10000) == 10
  {
    LevelForUnique(0, 0);
    LevelForUnique(5, 0);
    LevelForUnique(99, 0);
    LevelForUnique(100, 1);
    LevelForUnique(101, 1);
    LevelForUnique(399, 1);
    LevelForUnique(400, 2);
    LevelForUnique(10000, 10);
  }

  /** The amount earned for one message: floor(random * (xpMax - xpMin + 1)) + xpMin, where
      the random fraction in [0, 1) is written draw / scale. */
  function Earned(xpMin: int, xpMax: int, draw: nat, scale: nat): (e: int)
    requires xpMin <= xpMax && draw < scale
    ensures xpMin <= e <= xpMax
  {
    var span := xpMax - xpMin + 1;
    DrawBelowSpan(draw, scale, span);
    draw * span / scale + xpMin
  }

  lemma DrawBelowSpan(draw: nat, scale: nat, span: nat)
    requires draw < scale && 0 < span
    ensures draw * span / scale < span
  {
    assert draw * span < scale * span by {
      assert (scale - draw) * span > 0;
    }
    var q := draw * span / scale;
    MultipleBounds(q - span + 1, scale);
  }

  /** Every amount in [xpMin, xpMax] is drawn for some random fraction. */
  lemma EarnedReachesEveryAmount(xpMin: int, xpMax: int, e: int)
    requires xpMin <= e <= xpMax
    ensures Earned(xpMin, xpMax, e - xpMin, xpMax - xpMin + 1) == e
  {
    var span, k := xpMax - xpMin + 1, e - xpMin;
    var q, r := k * span / span, k * span % span;
    assert (k - q) * span == r;
    MultipleBounds(k - q, span);
  }

  /** A non-zero multiple of a positive `s` is at least `s` away from zero. */
  lemma MultipleBounds(d: int, s: int)
    requires 0 < s
    ensures 1 <= d ==> s <= d * s
    ensures d <= -1 ==> d * s <= -s
  {
    if 1 <= d {
      assert d * s == s + (d - 1) * s;
    } else if d <= -1 {
      assert d * s == -s + (d + 1) * s;
    }
  }
}
