/** Truncating integer division, as C#'s `BigInteger` implements `/`, `%` and
    `DivRem`: the quotient rounds toward zero and
    a non-zero remainder takes the sign of the dividend. Dafny's own `/` and `%`
    are Euclidean, so they are used here on magnitudes only. */
module TruncatedDivision {

  function Abs(x: int): nat {
    if x < 0 then -x else x
  }

  /** The relation truncating division establishes between dividend `a`,
      divisor `b`, quotient `q` and remainder `r`. */
  predicate IsTruncDivRem(a: int, b: int, q: int, r: int) {
    && q * b + r == a
    && Abs(r) < Abs(b)
    && (r == 0 || (r < 0 <==> a < 0))
  }

  /** Quotient rounded toward zero. */
  function Quot(a: int, b: int): int
    requires b != 0
  {
    var m := Abs(a) / Abs(b);
    if (a < 0) == (b < 0) then m else -m
  }

  /** Remainder with the sign of the dividend. */
  function Rem(a: int, b: int): int
    requires b != 0
  {
    var m := Abs(a) % Abs(b);
    if a < 0 then -m else m
  }

  /** `Quot` and `Rem` together satisfy the truncating-division relation. */
  lemma QuotRem(a: int, b: int)
    requires b != 0
    ensures IsTruncDivRem(a, b, Quot(a, b), Rem(a, b))
  {
    SignedFromMagnitudes(a, b, Abs(a) / Abs(b), Abs(a) % Abs(b));
  }

  /** Giving the Euclidean quotient and remainder of the magnitudes the signs
      truncation asks for yields a truncating quotient and remainder. */
  lemma SignedFromMagnitudes(a: int, b: int, m: int, k: int)
    requires b != 0
    requires m * Abs(b) + k == Abs(a) && 0 <= k < Abs(b)
    ensures IsTruncDivRem(a, b, if (a < 0) == (b < 0) then m else -m, if a < 0 then -k else k)
  {
    if a < 0 && b < 0 {
      assert m * b == -(m * Abs(b));
    } else if a < 0 {
      assert (-m) * b == -(m * Abs(b));
    } else if b < 0 {
      assert (-m) * b == m * Abs(b);
    }
  }

  /** Magnitude of a product. */
  lemma AbsMul(k: int, b: int)
    ensures Abs(k * b) == Abs(k) * Abs(b)
  {
    if k < 0 && b < 0 {
      assert k * b == (-k) * (-b);
    } else if k < 0 {
      assert k * b == -((-k) * b);
    } else if b < 0 {
      assert k * b == -(k * (-b));
    }
  }

  /** A non-zero natural factor does not shrink a natural number. */
  lemma MulZeroOrAtLeast(x: nat, y: nat)
    ensures x == 0 || x * y >= y
  {
    if x != 0 {
      var z: nat := x - 1;
      assert x * y == z * y + y;
    }
  }

  /** A multiple of `b` smaller in magnitude than `b` is zero. */
  lemma SmallMultiple(k: int, b: int)
    requires b != 0
    requires Abs(k * b) < Abs(b)
    ensures k == 0
  {
    AbsMul(k, b);
    MulZeroOrAtLeast(Abs(k), Abs(b));
  }

  /** At most one quotient/remainder pair satisfies the truncating-division relation. */
  lemma {:induction false} TruncDivRemUnique(a: int, b: int, q: int, r: int, q': int, r': int)
    requires IsTruncDivRem(a, b, q, r)
    requires IsTruncDivRem(a, b, q', r')
    ensures q == q' && r == r'
  {
    assert (q - q') * b == r' - r;
    assert Abs(r' - r) < Abs(b);
    SmallMultiple(q - q', b);
  }
}
