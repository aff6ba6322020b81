/** The percentage score `int(round(float(nRight)/nTotal*100))` of
    autograder.py, in exact integer arithmetic: Python 2's `round` rounds
    halves away from zero, which for a non-negative value is floor(x + 1/2). */
module Scoring {

  /** A score of `right` passes out of `total` tests, rounded to the nearest
      whole percent, halves rounded up. */
  function Score(right: nat, total: nat): (pct: nat)
    requires total >= 1
    ensures total * (2 * pct - 1) <= 200 * right < total * (2 * pct + 1)
    ensures right <= total ==> pct <= 100
    ensures right == 0 ==> pct == 0
    ensures right == total ==> pct == 100
  {
    RoundingFacts(right, total);
    (200 * right + total) / (2 * total)
  }

  lemma {:induction false} RoundingFacts(right: nat, total: nat)
    requires total >= 1
    ensures var q := (200 * right + total) / (2 * total);
      && total * (2 * q - 1) <= 200 * right < total * (2 * q + 1)
      && (right <= total ==> q <= 100)
      && (right == 0 ==> q == 0)
      && (right == total ==> q == 100)
  {
    var a, b := 200 * right + total, 2 * total;
    var q := a / b;
    DivBracket(a, b);
    assert total * (2 * q - 1) == b * q - total;
    assert total * (2 * q + 1) == b * q + total;
    if right <= total {
      assert a < b * 101;
      MulIncreasing(b, q, 101);
    }
    if right == 0 {
      assert a < b * 1;
      MulIncreasing(b, q, 1);
    }
    if right == total {
      assert b * 100 <= a;
      MulIncreasing(b, 99, q);
    }
  }

  /** The quotient of a by b brackets a between two multiples of b. */
  lemma {:induction false} DivBracket(a: nat, b: nat)
    requires b >= 1
    ensures b * (a / b) <= a < b * (a / b) + b
  {
    assert b * (a / b) + a % b == a;
  }

  /** The rounding inequality has exactly one solution: Score is the nearest
      whole percent and nothing else is. */
  lemma {:induction false} ScoreIsTheNearestPercent(right: nat, total: nat, p: nat)
    requires total >= 1
    requires total * (2 * p - 1) <= 200 * right < total * (2 * p + 1)
    ensures p == Score(right, total)
  {
    var q := Score(right, total);
    if p < q {
      MulMonotone(total, 2 * p + 1, 2 * q - 1);
    } else if q < p {
      MulMonotone(total, 2 * q + 1, 2 * p - 1);
    }
  }

  lemma {:induction false} MulIncreasing(b: nat, x: nat, y: nat)
    requires b >= 1 && b * x < b * y
    ensures x < y
  {
    if x >= y {
      MulMonotone(b, y, x);
    }
  }

  lemma {:induction false} MulMonotone(b: nat, x: nat, y: nat)
    requires x <= y
    ensures b * x <= b * y
  {
    assert b * y == b * x + b * (y - x);
  }
}
