/** Facts about Euclidean division shared by the models of Go's `%`. */
module DivMod {

  /** Euclidean division is unique: a value written as q * n + r with r in
    * [0, n) has remainder r. */
  lemma ModUnique(k: int, n: int, q: int, r: int)
    requires n > 0 && 0 <= r < n && k == q * n + r
    ensures k % n == r
  {
    var d := q - k / n;
    assert k == (k / n) * n + k % n;
    assert d * n == k % n - r;
  }

  function Abs(a: int): (r: nat)
    ensures r == a || r == -a
  {
    if a < 0 then -a else a
  }

  /** Go's `/` on integers: the quotient truncated toward zero. */
  function GoQuo(a: int, b: int): (q: int)
    requires b != 0
    ensures a >= 0 && b > 0 ==> q == a / b
    ensures a >= 0 && b < 0 ==> q == -(a / -b)
  {
    var q := Abs(a) / Abs(b);
    if (a < 0) == (b < 0) then q else -q
  }

  /** Go's `%` on integers: the remainder takes the dividend's sign, so a
    * non-negative dividend leaves a remainder in [0, |b|). */
  function GoRem(a: int, b: int): (r: int)
    requires b != 0
    ensures a == GoQuo(a, b) * b + r
    ensures a >= 0 ==> 0 <= r < Abs(b)
    ensures a >= 0 && b > 0 ==> r == a % b
  {
    a - GoQuo(a, b) * b
  }

  /** A product with a non-positive factor and a natural one is not
    * positive. */
  lemma {:induction false} MulNonPositive(b: nat, x: int)
    ensures x <= 0 ==> b * x <= 0
    decreases b
  {
    if b > 0 {
      MulNonPositive(b - 1, x);
      assert b * x == (b - 1) * x + x;
    }
  }

  /** Multiplying by at least two at least doubles a natural number. */
  lemma {:induction false} MulAtLeastDouble(b: int, q: nat)
    ensures b >= 2 ==> b * q >= 2 * q
    decreases q
  {
    if q > 0 {
      MulAtLeastDouble(b, q - 1);
      assert b * q == b * (q - 1) + b;
    }
  }

  lemma DivLess(a: int, b: int)
    requires a > 0 && b > 1
    ensures a / b < a
  {
    var q, r := a / b, a % b;
    DivNonNegative(a, b);
    assert a == b * q + r && 0 <= r;
    MulAtLeastDouble(b, q);
  }

  /** For a positive dividend and a base other than 0 and 1, the quotient
    * is smaller than the dividend: Go's digit loops end. */
  lemma QuoShrinks(a: int, b: int)
    requires a > 0 && b != 0 && b != 1
    ensures GoQuo(a, b) < a
  {
    if b > 1 {
      DivLess(a, b);
    } else {
      DivNonNegative(a, -b);
    }
  }

  /** b to the power e. */
  function IntPow(b: int, e: nat): int
  {
    if e == 0 then 1 else b * IntPow(b, e - 1)
  }

  lemma IntPowPositive(b: int, e: nat)
    requires b > 0
    ensures IntPow(b, e) > 0
  {
  }

  /** A non-negative dividend leaves a non-negative quotient. */
  lemma DivNonNegative(a: int, b: int)
    requires a >= 0 && b > 0
    ensures GoQuo(a, b) == a / b >= 0
  {
    var q, r := a / b, a % b;
    assert a == b * q + r && r < b;
    MulNonPositive(b, q + 1);
    assert b * (q + 1) == b * q + b;
  }

  /** A dividend below b * p leaves a quotient below p. */
  lemma DivBelow(a: int, b: int, p: int)
    requires a >= 0 && b > 0 && a < b * p
    ensures a / b < p
  {
    var q, r := a / b, a % b;
    assert a == b * q + r && 0 <= r;
    MulNonPositive(b, p - q);
    assert b * (p - q) == b * p - b * q;
  }

  /** A dividend below the divisor is its own remainder. */
  lemma QuoOfSmall(a: int, b: int)
    requires 0 <= a < b
    ensures GoQuo(a, b) == 0 && GoRem(a, b) == a
  {
    ModUnique(a, b, 0, a);
    assert a == (a / b) * b + a % b;
  }

  /** Go's remainder is zero exactly when the Euclidean one is: the two
    * differ only in sign. */
  lemma GoRemZero(a: int, b: int)
    requires b > 0
    ensures GoRem(a, b) == 0 <==> a % b == 0
  {
    if a < 0 {
      var q := (-a) / b;
      assert -a == q * b + (-a) % b;
      assert GoQuo(a, b) == -q;
      assert GoRem(a, b) == -((-a) % b);
      if (-a) % b == 0 {
        ModUnique(a, b, -q, 0);
      }
      if a % b == 0 {
        assert a == (a / b) * b;
        ModUnique(-a, b, -(a / b), 0);
      }
    }
  }
}
