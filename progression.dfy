/**
 * The progression calculator: the level a player has reached for a given amount
 * of experience, and the experience still missing to reach the next level.
 *
 * The source computes `(int)((sqrt(2500 + 200 * e) - 50) / 100)` in floating point.
 * Here the square root is the exact integer square root; for a non-negative
 * argument `floor((sqrt(x) - 50) / 100) == floor((floor(sqrt(x)) - 50) / 100)`,
 * so the two agree whenever the floating-point root is exact enough (see README).
 */
module Progression {
  import Validation

  /** The integer square root: the largest `r` with `r * r <= n`. */
  function IntSqrt(n: nat): (r: nat)
    ensures r * r <= n < (r + 1) * (r + 1)
    decreases n
  {
    if n < 2 then n
    else
      var h := IntSqrt(n / 4);
      var r := 2 * h;
      DoubledRoot(n, h);
      if (r + 1) * (r + 1) <= n then r + 1 else r
  }

  /** Doubling the root of `n / 4` gives a root of `n` that is off by at most one. */
  lemma DoubledRoot(n: nat, h: nat)
    requires h * h <= n / 4 < (h + 1) * (h + 1)
    ensures (2 * h) * (2 * h) <= n < (2 * h + 2) * (2 * h + 2)
  {
    var q := n / 4;
    assert (2 * h) * (2 * h) == 4 * (h * h);
    assert (2 * h + 2) * (2 * h + 2) == 4 * ((h + 1) * (h + 1));
    assert n < 4 * q + 4;
    assert 4 * q + 4 <= 4 * ((h + 1) * (h + 1));
  }

  /** The experience at which level `level` begins: 50 * L * (L + 1). */
  function LevelStart(level: nat): (start: nat)
  {
    50 * level * (level + 1)
  }

  /** The square behind the level formula: (100 L + 50)^2 == 2500 + 200 * LevelStart(L). */
  lemma LevelStartSquare(level: nat)
    ensures (100 * level + 50) * (100 * level + 50) == 2500 + 200 * LevelStart(level)
  {
  }

  /** `calculateLevel`: the level reached with `experience` points. */
  function Level(experience: nat): (level: nat)
    ensures LevelStart(level) <= experience < LevelStart(level + 1)
  {
    var x := 2500 + 200 * experience;
    var y := IntSqrt(x);
    assert 50 <= y by {
      if y < 50 { SquareMonotone(y + 1, 50); }
    }
    var level := (y - 50) / 100;
    assert 100 * level + 50 <= y < 100 * (level + 1) + 50;
    SquareMonotone(100 * level + 50, y);
    SquareMonotone(y + 1, 100 * (level + 1) + 50);
    LevelStartSquare(level);
    LevelStartSquare(level + 1);
    assert LevelStart(level + 1) == 50 * (level + 1) * (level + 2);
    level
  }

  /** `calculateUntilNextLevel`: the source's formula, for any experience and level. */
  function UntilNextLevel(experience: int, level: int): (missing: int)
    ensures level >= -1 ==> experience + missing == LevelStart(level + 1)
  {
    50 * (level + 1) * (level + 2) - experience
  }

  lemma SquareMonotone(a: nat, b: nat)
    requires a <= b
    ensures a * a <= b * b
  {
    assert a * a <= a * b by { MulMonotone(a, a, b); }
    assert a * b <= b * b by { MulMonotone(b, a, b); }
  }

  lemma MulMonotone(k: nat, a: nat, b: nat)
    requires a <= b
    ensures k * a <= k * b
  {
    assert k * b == k * a + k * (b - a);
  }

  /** Level `L + 1` starts 100 * (L + 1) points after level `L`. */
  lemma LevelStartStep(level: nat)
    ensures LevelStart(level + 1) == LevelStart(level) + 100 * (level + 1)
    ensures LevelStart(level + 1) == 50 * (level + 1) * (level + 2)
  {
    var m := 50 * (level + 1);
    assert LevelStart(level + 1) == m * (level + 2) == m * level + 2 * m;
    assert LevelStart(level) == m * level;
  }

  /** Level starts grow with the level. */
  lemma {:induction false} LevelStartMonotone(a: nat, b: nat)
    requires a <= b
    ensures LevelStart(a) <= LevelStart(b)
  {
    if a < b {
      LevelStartMonotone(a, b - 1);
      LevelStartStep(b - 1);
    }
  }

  /** `Level(e)` is the largest level whose start does not exceed `e`. */
  lemma LevelIsLargest(experience: nat, level: nat)
    ensures LevelStart(level) <= experience <==> level <= Level(experience)
  {
    if level <= Level(experience) {
      LevelStartMonotone(level, Level(experience));
    } else {
      LevelStartMonotone(Level(experience) + 1, level);
    }
  }

  /** A level whose bracket contains `e` is the level of `e`. */
  lemma LevelUnique(experience: nat, level: nat)
    requires LevelStart(level) <= experience < LevelStart(level + 1)
    ensures Level(experience) == level
  {
    LevelIsLargest(experience, level);
    LevelIsLargest(experience, level + 1);
  }

  /** More experience never lowers the level. */
  lemma LevelMonotone(e1: nat, e2: nat)
    requires e1 <= e2
    ensures Level(e1) <= Level(e2)
  {
    LevelIsLargest(e2, Level(e1));
  }

  /** The experience still missing is at least 1 and at most the width of the current level. */
  lemma UntilNextLevelBounds(experience: nat)
    ensures 1 <= UntilNextLevel(experience, Level(experience)) <= 100 * (Level(experience) + 1)
    ensures UntilNextLevel(experience, Level(experience)) == LevelStart(Level(experience) + 1) - experience
  {
    var level := Level(experience);
    LevelStartStep(level);
    assert UntilNextLevel(experience, level) == LevelStart(level + 1) - experience;
  }

  /** A fresh player: level 0 and 100 points to go. */
  lemma StartingValues()
    ensures Level(0) == 0 && UntilNextLevel(0, Level(0)) == 100
  {
    LevelUnique(0, 0);
  }

  /** 750 points reach level 3 (600 <= 750 < 1000), with 250 points to level 4. */
  lemma LevelOf750()
    ensures Level(750) == 3 && UntilNextLevel(750, Level(750)) == 250
  {
    LevelUnique(750, 3);
  }

  /**
   * Over the valid experience range the level is at most 446, and every value the
   * source computes in 32-bit `int` (`50 * (L + 1) * (L + 2)` and the result) or
   * feeds to the square root stays far from 2^31.
   */
  lemma ValidRangeFitsInt32(experience: nat)
    requires experience <= Validation.MaxExperience
    ensures Level(experience) <= 446
    ensures 2500 + 200 * experience < 0x8000_0000
    ensures 50 * (Level(experience) + 1) * (Level(experience) + 2) <= 10012800
    ensures 0 < UntilNextLevel(experience, Level(experience)) <= 44700
  {
    var level := Level(experience);
    LevelIsLargest(experience, 447);
    assert LevelStart(447) == 10012800;
    LevelStartMonotone(level + 1, 447);
    UntilNextLevelBounds(experience);
  }
}
