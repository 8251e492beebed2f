/** Java `int` arithmetic used by CircleNode.java, and the facts about
    Dafny's Euclidean `/` and `%` that the list proofs need.
    Java's `/` rounds toward zero, Dafny's rounds down: they differ only for
    a negative dividend, which the list reaches as `adjustIndexAfter(-1)`. */
module JavaInt {

  /** Java's `a / b` for a positive divisor. It agrees with Dafny's `/` on a
      non-negative dividend, and a small negative one gives zero. */
  function JavaDiv(a: int, b: int): (q: int)
    requires b > 0
    ensures a >= 0 ==> q == a / b
    ensures -b < a < 0 ==> q == 0
  {
    if a >= 0 then a / b
    else
      DivBounds(-a, b);
      -((-a) / b)
  }

  /** Java's quotient is rounded toward zero: it never lies further from zero
      than the exact quotient a / b, and is less than one away from it. */
  lemma JavaDivTowardZero(a: int, b: int)
    requires b > 0
    ensures a >= 0 ==> 0 <= JavaDiv(a, b) && JavaDiv(a, b) * b <= a < JavaDiv(a, b) * b + b
    ensures a < 0 ==> JavaDiv(a, b) <= 0 && JavaDiv(a, b) * b - b < a <= JavaDiv(a, b) * b
  {
    if a >= 0 {
      DivBounds(a, b);
    } else {
      DivBounds(-a, b);
      assert JavaDiv(a, b) * b == -(((-a) / b) * b);
    }
  }

  lemma DivBounds(a: int, b: int)
    requires a >= 0 && b > 0
    ensures (a / b) * b <= a < (a / b) * b + b
    ensures a / b >= 0
    ensures a < b ==> a / b == 0
  {
    if a < b {
      ModSmall(a, b);
    }
  }

  /** Quotient and remainder are determined by the division equation. */
  lemma DivModUnique(a: int, b: int, q: int, r: int)
    requires b >= 1 && 0 <= r < b && a == q * b + r
    ensures a / b == q && a % b == r
  {
    var q0, r0 := a / b, a % b;
    assert q0 * b + r0 == q * b + r;
    assert (q0 - q) * b == r - r0;
    if q0 - q >= 1 {
      MulAtLeast(q0 - q, b);
    } else if q0 - q <= -1 {
      MulAtLeast(q - q0, b);
    }
  }

  lemma MulAtLeast(x: int, b: int)
    requires x >= 1 && b >= 1
    ensures x * b >= b
  {
    assert x * b - b == (x - 1) * b;
  }

  /** Monotonicity of multiplication by a positive factor. */
  lemma MulMono(x: int, y: int, b: int)
    requires x <= y && b >= 1
    ensures x * b <= y * b
  {
    assert y * b - x * b == (y - x) * b;
  }

  /** One step up: how `(a + 1) / b` and `(a + 1) % b` follow from `a / b` and `a % b`. */
  lemma DivStep(a: int, b: int)
    requires b >= 1
    ensures a % b == b - 1 ==> (a + 1) / b == a / b + 1 && (a + 1) % b == 0
    ensures a % b != b - 1 ==> (a + 1) / b == a / b && (a + 1) % b == a % b + 1
  {
    if a % b == b - 1 {
      DivModUnique(a + 1, b, a / b + 1, 0);
    } else {
      DivModUnique(a + 1, b, a / b, a % b + 1);
    }
  }

  /** An exact quotient times the divisor gives back the dividend. */
  lemma MulDivExact(a: int, b: int)
    requires b >= 1 && a % b == 0
    ensures (a / b) * b == a
  {
  }

  /** Integer division by a positive divisor is monotonic. */
  lemma DivMono(a: int, c: int, b: int)
    requires a <= c && b >= 1
    ensures a / b <= c / b
  {
    if a / b > c / b {
      MulMono(c / b + 1, a / b, b);
    }
  }

  /** Adding the divisor leaves the remainder alone. */
  lemma ModShift(a: int, b: int)
    requires b >= 1
    ensures (a + b) % b == a % b
  {
    DivModUnique(a + b, b, a / b + 1, a % b);
  }

  /** Reducing a summand first does not change the remainder of a sum. */
  lemma ModAdd(a: int, c: int, b: int)
    requires b >= 1
    ensures (a % b + c) % b == (a + c) % b
  {
    var q, r := a / b, a % b;
    var q2, r2 := (r + c) / b, (r + c) % b;
    assert a + c == (q + q2) * b + r2 by {
      assert (q + q2) * b == q * b + q2 * b;
    }
    DivModUnique(a + c, b, q + q2, r2);
  }

  /** The division equation. */
  lemma DivMod(a: int, b: int)
    requires b >= 1
    ensures a == (a / b) * b + a % b && 0 <= a % b < b
  {
  }

  /** A multiple of the divisor that fits in the dividend bounds the quotient. */
  lemma MulLeDiv(x: int, b: int, a: int)
    requires b >= 1 && a >= 0 && x * b <= a
    ensures x <= a / b
  {
    if x > a / b {
      DivBounds(a, b);
      MulMono(a / b + 1, x, b);
    }
  }

  /** A dividend at least the divisor has a quotient of at least one. */
  lemma DivAtLeastOne(a: int, b: int)
    requires a >= b >= 1
    ensures a / b >= 1
  {
    if a / b < 1 {
      DivBounds(a, b);
    }
  }

  /** Slots before the one holding a position end at or before it. */
  lemma SlotEndsBefore(k: int, p: int, b: int)
    requires b >= 1 && p >= 0 && 0 <= k < p / b
    ensures b <= (k + 1) * b <= p
  {
    DivBounds(p, b);
    MulMono(k + 1, p / b, b);
    MulAtLeast(k + 1, b);
  }

  /** Slots from the one holding a position on end after it. */
  lemma SlotEndsAfter(k: int, p: int, b: int)
    requires b >= 1 && p >= 0 && p / b <= k
    ensures p < (k + 1) * b
  {
    DivBounds(p, b);
    MulMono(p / b + 1, k + 1, b);
    assert (p / b + 1) * b == (p / b) * b + b;
  }

  /** When position p is not the last of its slot's stretch, every slot from
      the one holding p on ends after p + 1 too. */
  lemma SlotEndsAfterNext(k: int, p: int, b: int)
    requires b >= 1 && p >= 0 && p / b <= k && p % b + 2 <= b
    ensures p + 2 <= (k + 1) * b
  {
    DivMod(p, b);
    MulMono(p / b + 1, k + 1, b);
    assert (p / b + 1) * b == (p / b) * b + b;
  }

  /** The lookup's step back from the end of the slot after the one holding
      position a - 1 (remainder d past a multiple q * b): half - (d - half)
      steps land on position a - 1 when b == 2 * half, and on a when b is odd. */
  lemma StepsBack(a: int, b: int, q: int, d: int, half: int)
    requires a == q * b + d
    ensures (q + 1) * b - 1 - (half - (d - half)) == a - 1 + (b - 2 * half)
  {
    assert (q + 1) * b == q * b + b;
  }

  /** A value already in range is its own remainder. */
  lemma ModSmall(a: int, b: int)
    requires 0 <= a < b
    ensures a % b == a && a / b == 0
  {
    DivModUnique(a, b, 0, a);
  }
}
