/** ExponentiatedBy: repeated Multiply starting from NewBigNumber("1").
  * The running product is built by NewBigNumber, so it carries the default
  * configuration, and since Multiply reads both texts with the receiver's
  * configuration, the base is read with the default configuration whatever
  * configuration it carries itself. */
module BigPower {
  import opened BigDigits
  import opened BigNumbers
  import opened BigAddSub
  import opened BigValues
  import opened BigMultiply
  import opened BigCompare
  import opened BigSigned
  import opened BigProduct
  import opened BigModulo

  /** The base as the running product reads it. */
  function AsDefault(a: BigNumber): BigNumber
  {
    a.(format := DefaultConfig)
  }

  /** NewBigNumber("1"): the number one, positive and without fraction. */
  lemma OneNumber()
    ensures var r := NewBigNumber("1");
      r.sign == 1 && WellFormed(DefaultConfig, r.value) && |FracPart(DefaultConfig, r.value)| == 0 &&
      Scaled(DefaultConfig, r.value, 0) == 1
  {
    DefaultStarts012();
    DefaultConfigDot();
    assert RemainderNumber(DefaultConfig, 1) == NewBigNumber("1");
    SymbolNumber(DefaultConfig, 1);
  }

  /** Multiply reads only the receiver's configuration, so the base's own
    * configuration does not matter. */
  lemma MultiplyReadsValue(x: BigNumber, a: BigNumber)
    requires MultiplyOperands(x, a)
    ensures MultiplyOperands(x, AsDefault(a)) && MultiplyResult(x, a) == MultiplyResult(x, AsDefault(a))
  {
    assert CommonPlaces(x.format, x, a) == CommonPlaces(x.format, x, AsDefault(a));
    assert ProductText(x, a, true) == ProductText(x, AsDefault(a), true);
  }

  /** One step of the loop: a default-configuration product times the base. */
  lemma PowerStepFacts(x: BigNumber, a: BigNumber)
    requires x.format == DefaultConfig && WellFormed(DefaultConfig, x.value) && WellFormed(DefaultConfig, a.value)
    ensures MultiplyOperands(x, a)
    ensures var r := MultiplyResult(x, a);
      r.format == DefaultConfig && WellFormed(DefaultConfig, r.value) && r.sign == x.sign * a.sign
  {
    DefaultConfigDot();
    MultiplyValueIn(x, AsDefault(a));
    MultiplyReadsValue(x, a);
  }

  /** The value ExponentiatedBy computes for a non-negative exponent n:
    * n products of the base into NewBigNumber("1"). */
  function Power(a: BigNumber, n: nat): (r: BigNumber)
    requires n == 0 || WellFormed(DefaultConfig, a.value)
    ensures r.format == DefaultConfig && WellFormed(DefaultConfig, r.value)
    ensures Signed(a) ==> r.sign == if n % 2 == 0 then 1 else a.sign
    ensures |FracPart(DefaultConfig, a.value)| == 0 ==>
      |FracPart(DefaultConfig, r.value)| == 0 && Scaled(DefaultConfig, r.value, 0) == Pow(Scaled(DefaultConfig, a.value, 0), n)
  {
    if n == 0 then
      OneNumber();
      NewBigNumber("1")
    else
      var x := Power(a, n - 1);
      PowerStepFacts(x, a);
      SignStep(x.sign, a.sign, n);
      IntegerStep(x, a, n);
      MultiplyResult(x, a)
  }

  /** The parity of the sign after one more factor. */
  lemma SignStep(s: int, t: int, n: nat)
    requires n >= 1
    ensures (t == 1 || t == -1) && s == (if (n - 1) % 2 == 0 then 1 else t) ==>
      s * t == if n % 2 == 0 then 1 else t
  {
  }

  /** ExponentiatedBy as written: a loop of Multiply calls, none for an
    * exponent of zero or less. */
  method ExponentiatedBy(a: BigNumber, exponent: int) returns (r: BigNumber)
    requires exponent <= 0 || WellFormed(DefaultConfig, a.value)
    ensures r == Power(a, if exponent > 0 then exponent else 0)
  {
    var n: nat := if exponent > 0 then exponent else 0;
    r := NewBigNumber("1");
    for i := 0 to n
      invariant i == 0 || WellFormed(DefaultConfig, a.value)
      invariant r == Power(a, i)
    {
      ghost var prev := r;
      r := Multiply(r, a);
      PowerNext(a, i, prev, r);
    }
  }

  /** No factor: the number one. */
  lemma PowerZero(a: BigNumber)
    ensures var r := Power(a, 0);
      r.sign == 1 && |FracPart(DefaultConfig, r.value)| == 0 && Scaled(DefaultConfig, r.value, 0) == 1
  {
    OneNumber();
  }

  /** One more factor of the base. */
  lemma PowerUnfold(a: BigNumber, n: nat)
    requires n >= 1 && WellFormed(DefaultConfig, a.value)
    ensures MultiplyOperands(Power(a, n - 1), a)
    ensures Power(a, n) == MultiplyResult(Power(a, n - 1), a)
  {
    PowerStepFacts(Power(a, n - 1), a);
  }

  /** The loop step: multiplying a^i by the base gives a^(i+1). */
  lemma PowerNext(a: BigNumber, i: nat, x: BigNumber, r: BigNumber)
    requires WellFormed(DefaultConfig, a.value) && x == Power(a, i)
    requires MultiplyOperands(x, a) && r == MultiplyResult(x, a)
    ensures r == Power(a, i + 1)
  {
    PowerUnfold(a, i + 1);
  }

  /** One step of the integer case of Power: with x worth A^(n-1) and no
    * fraction on either side, x times the base is worth A^n. */
  lemma IntegerStep(x: BigNumber, a: BigNumber, n: nat)
    requires n >= 1 && x.format == DefaultConfig && WellFormed(DefaultConfig, x.value) && WellFormed(DefaultConfig, a.value)
    ensures MultiplyOperands(x, a)
    ensures var c, r := DefaultConfig, MultiplyResult(x, a);
      |FracPart(c, a.value)| == 0 && |FracPart(c, x.value)| == 0 &&
      Scaled(c, x.value, 0) == Pow(Scaled(c, a.value, 0), n - 1) ==>
        |FracPart(c, r.value)| == 0 && Scaled(c, r.value, 0) == Pow(Scaled(c, a.value, 0), n)
  {
    PowerStepFacts(x, a);
    var c := DefaultConfig;
    if |FracPart(c, a.value)| == 0 && |FracPart(c, x.value)| == 0 && Scaled(c, x.value, 0) == Pow(Scaled(c, a.value, 0), n - 1) {
      IntegerProduct(x, a);
      PowerStepOf(c, x, a, MultiplyResult(x, a), n);
    }
  }

  /** The product of two integers is an integer worth their product. */
  lemma IntegerProduct(x: BigNumber, a: BigNumber)
    requires x.format == DefaultConfig && WellFormed(DefaultConfig, x.value) && WellFormed(DefaultConfig, a.value)
    requires |FracPart(DefaultConfig, x.value)| == 0 && |FracPart(DefaultConfig, a.value)| == 0
    ensures MultiplyOperands(x, a)
    ensures var r := MultiplyResult(x, a);
      |FracPart(DefaultConfig, r.value)| == 0 &&
      Scaled(DefaultConfig, r.value, 0) == Scaled(DefaultConfig, x.value, 0) * Scaled(DefaultConfig, a.value, 0)
  {
    DefaultConfigDot();
    assert AsDefault(a).value == a.value;
    assert CommonPlaces(x.format, x, AsDefault(a)) == 0;
    assert ProductPlaces(2 * 0, x.format.maxDecimal) == 0;
    MultiplyValueIn(x, AsDefault(a));
    MultiplyReadsValue(x, a);
    DropUnit(x.format, x, AsDefault(a), MultiplyResult(x, AsDefault(a)), CommonPlaces(x.format, x, AsDefault(a)),
      ProductPlaces(2 * CommonPlaces(x.format, x, AsDefault(a)), x.format.maxDecimal));
  }

  /** Read at no places, a product with no added places is the plain product. */
  lemma DropUnit(c: Config, x: BigNumber, b: BigNumber, r: BigNumber, f: nat, p: nat)
    requires c.base >= 0 && f == 0 && p == 0 && |FracPart(c, x.value)| == 0 && |FracPart(c, b.value)| == 0
    requires |FracPart(c, r.value)| <= p
    requires Scaled(c, r.value, p) == Scaled(c, x.value, f) * Scaled(c, b.value, f) * Pow(c.base, p - 2 * f)
    ensures Scaled(c, r.value, 0) == Scaled(c, x.value, 0) * Scaled(c, b.value, 0)
  {
    assert Pow(c.base, p - 2 * f) == 1;
    MulOne(Scaled(c, x.value, 0) * Scaled(c, b.value, 0), Pow(c.base, p - 2 * f));
  }

  /** One more factor: x worth A^(n-1) times the base A is worth A^n. */
  lemma PowerStepOf(c: Config, x: BigNumber, a: BigNumber, r: BigNumber, n: nat)
    requires n >= 1 && c.base >= 0
    requires |FracPart(c, x.value)| == 0 && |FracPart(c, a.value)| == 0 && |FracPart(c, r.value)| == 0
    requires Scaled(c, x.value, 0) == Pow(Scaled(c, a.value, 0), n - 1)
    requires Scaled(c, r.value, 0) == Scaled(c, x.value, 0) * Scaled(c, a.value, 0)
    ensures Scaled(c, r.value, 0) == Pow(Scaled(c, a.value, 0), n)
  {
  }
}
