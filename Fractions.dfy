/**
 * The mutable `Fraction` of phetcommon's model package: an integer numerator
 * and denominator, updated in place by the mutating operations (`reduce`,
 * `set`, `setToSum`, `add`, `subtract`, `multiply`, `divide`) and copied by
 * the non-mutating ones (`reduced`, `plus`, `minus`, `times`, `divided`, the
 * `...Integer` conveniences, `abs`).
 *
 * JavaScript numbers are modelled as unbounded integers (the source asserts
 * that both parts are integers and is exact below 2^53); the value of a
 * fraction is stated exactly, as a real.
 */
module Fractions {
  import opened IntMath

  /** The serialised form of a fraction. */
  datatype FractionStateObject = FractionStateObject(numerator: int, denominator: int)

  /** The exact value `numerator / denominator`. */
  ghost function RealRatio(numerator: int, denominator: int): real
    requires denominator != 0
  {
    numerator as real / denominator as real
  }

  lemma CastMul(a: int, b: int)
    ensures (a * b) as real == a as real * b as real
  {}

  lemma CancelCommonFactor(n: real, k: real, d: real)
    requires k != 0.0 && d != 0.0
    ensures (n * k) / (d * k) == n / d
  {}

  lemma SplitQuotient(a: real, b: real, l: real)
    requires l != 0.0
    ensures (a + b) / l == a / l + b / l
  {}

  /** Scaling a numerator to a common multiple `l` of its denominator keeps its value over `l`. */
  lemma ScaledTerm(n: int, d: int, l: int)
    requires d != 0 && l != 0 && Divides(d, l)
    ensures (n * l) / d * d == n * l
    ensures RealRatio((n * l) / d, l) == RealRatio(n, d)
  {
    var k := l / d;
    ExactQuotient(d, l);
    assert l == d * k;
    MulAssociates(n, d, k);
    assert n * l == d * (n * k);
    DivModUnique(n * l, d, n * k, 0);
    CastMul(n, k);
    CastMul(d, k);
    CancelCommonFactor(n as real, k as real, d as real);
  }

  /**
   * The numerator `setToSum` computes: each numerator scaled to the least
   * common multiple of the two denominators, then added.
   */
  function SumNumerator(n1: int, d1: int, n2: int, d2: int): (r: int)
    requires d1 != 0 && d2 != 0
    ensures Lcm(d1, d2) > 0
    ensures RealRatio(r, Lcm(d1, d2)) == RealRatio(n1, d1) + RealRatio(n2, d2)
  {
    var l := Lcm(d1, d2);
    LcmIsCommonMultiple(d1, d2);
    ScaledTerm(n1, d1, l);
    ScaledTerm(n2, d2, l);
    SplitQuotient(((n1 * l) / d1) as real, ((n2 * l) / d2) as real, l as real);
    (n1 * l) / d1 + (n2 * l) / d2
  }

  /** The sign of a fraction with a nonzero denominator is the sign of its value. */
  lemma SignOfRatio(n: int, d: int)
    requires d != 0
    ensures Sign(n) * Sign(d) == -1 <==> RealRatio(n, d) < 0.0
    ensures Sign(n) * Sign(d) == 0 <==> RealRatio(n, d) == 0.0
    ensures Sign(n) * Sign(d) == 1 <==> RealRatio(n, d) > 0.0
  {
    var q := RealRatio(n, d);
    assert q * d as real == n as real;
    if d > 0 {
      if n > 0 { assert q > 0.0; } else if n < 0 { assert q < 0.0; }
    } else {
      if n > 0 { assert q < 0.0; } else if n < 0 { assert q > 0.0; }
    }
  }

  /**
   * The fraction `reduce` produces: both parts divided by their greatest
   * common divisor, or 0/0 when that divisor is 0 (only for 0/0 itself).
   */
  function Reduced(s: FractionStateObject): (r: FractionStateObject)
    ensures Gcd(s.numerator, s.denominator) == 0 ==> r == FractionStateObject(0, 0)
    ensures Gcd(s.numerator, s.denominator) != 0 ==>
              Gcd(r.numerator, r.denominator) == 1 &&
              r.numerator * Gcd(s.numerator, s.denominator) == s.numerator &&
              r.denominator * Gcd(s.numerator, s.denominator) == s.denominator
    ensures s.denominator != 0 ==>
              r.denominator != 0 && Sign(r.denominator) == Sign(s.denominator) &&
              RealRatio(r.numerator, r.denominator) == RealRatio(s.numerator, s.denominator)
  {
    var g := Gcd(s.numerator, s.denominator);
    if g == 0 then
      FractionStateObject(0, 0)
    else
      var r := FractionStateObject(s.numerator / g, s.denominator / g);
      DivideByGcdIsCoprime(s.numerator, s.denominator);
      ExactQuotient(g, s.numerator);
      ExactQuotient(g, s.denominator);
      DividedRatio(r.numerator, r.denominator, g);
      r
  }

  lemma DividedRatio(n: int, d: int, g: int)
    requires g > 0
    ensures d * g != 0 ==> d != 0 && Sign(d) == Sign(d * g) && RealRatio(n, d) == RealRatio(n * g, d * g)
  {
    if d * g != 0 {
      CastMul(n, g);
      CastMul(d, g);
      CancelCommonFactor(n as real, g as real, d as real);
    }
  }

  /** The result of `isLessThan`: the sign of the difference, computed as `subtract` does, is -1. */
  function LessThan(n1: int, d1: int, n2: int, d2: int): (r: bool)
    requires d1 != 0 && d2 != 0
    ensures r <==> RealRatio(n1, d1) < RealRatio(n2, d2)
  {
    DifferenceSign(n1, d1, n2, d2);
    Sign(SumNumerator(n1, d1, -n2, d2)) * Sign(Lcm(d1, d2)) == -1
  }

  lemma DifferenceSign(n1: int, d1: int, n2: int, d2: int)
    requires d1 != 0 && d2 != 0
    ensures Sign(SumNumerator(n1, d1, -n2, d2)) * Sign(Lcm(d1, d2)) == -1 <==>
              RealRatio(n1, d1) < RealRatio(n2, d2)
  {
    var n, l := SumNumerator(n1, d1, -n2, d2), Lcm(d1, d2);
    DifferenceRatio(n1, d1, n2, d2);
    SignOfRatio(n, l);
  }

  /** The lcm numerator of n1/d1 + (-n2)/d2 over the lcm has the value of the difference. */
  lemma DifferenceRatio(n1: int, d1: int, n2: int, d2: int)
    requires d1 != 0 && d2 != 0
    ensures RealRatio(SumNumerator(n1, d1, -n2, d2), Lcm(d1, d2)) == RealRatio(n1, d1) - RealRatio(n2, d2)
  {
    NegatedRatio(n2, d2);
  }

  lemma NegatedRatio(n: int, d: int)
    requires d != 0
    ensures RealRatio(-n, d) == -RealRatio(n, d)
  {
    assert (-n) as real == -(n as real);
  }

  /**
   * `isLessThan` is a strict order: never true of a fraction and itself,
   * never true both ways, and false both ways for -2/2 and 2/-2.
   */
  lemma LessThanStrict(n1: int, d1: int, n2: int, d2: int)
    requires d1 != 0 && d2 != 0
    ensures !LessThan(n1, d1, n1, d1)
    ensures LessThan(n1, d1, n2, d2) ==> !LessThan(n2, d2, n1, d1)
    ensures !LessThan(-2, 2, 2, -2) && !LessThan(2, -2, -2, 2)
  {
    assert RealRatio(-2, 2) == RealRatio(2, -2);
  }

  class Fraction {
    var numerator: int
    var denominator: int

    constructor (numerator: int, denominator: int)
      ensures this.numerator == numerator && this.denominator == denominator
    {
      this.numerator := numerator;
      this.denominator := denominator;
    }

    /** The exact value; `getValue` is its floating-point approximation. */
    ghost function Value(): real
      reads this
      requires denominator != 0
    {
      RealRatio(numerator, denominator)
    }

    /** `isInteger`: the value is a whole number (never for a zero denominator, whose remainder is NaN). */
    function IsInteger(): (r: bool)
      reads this
      ensures r <==> denominator != 0 && Value() == Value().Floor as real
    {
      IntegerRatio(numerator, denominator);
      denominator != 0 && numerator % denominator == 0
    }

    /** `toString`: numerator and denominator joined by a slash; it determines both parts. */
    function ToString(): (s: string)
      reads this
      ensures s == RatioString(numerator, denominator)
    {
      RatioString(numerator, denominator)
    }

    /** `copy`: a new fraction with the same parts. */
    method Copy() returns (f: Fraction)
      ensures fresh(f)
      ensures f.ToStateObject() == ToStateObject()
    {
      f := new Fraction(numerator, denominator);
    }

    /** `reduce`: divides both parts by their gcd in place and returns this fraction. */
    method Reduce() returns (r: Fraction)
      modifies this
      ensures r == this
      ensures ToStateObject() == Reduced(old(ToStateObject()))
    {
      var s := Reduced(ToStateObject());
      numerator := s.numerator;
      denominator := s.denominator;
      r := this;
    }

    /** `reduced`: a reduced copy; this fraction is unchanged. */
    method ReducedCopy() returns (r: Fraction)
      ensures fresh(r)
      ensures r.ToStateObject() == Reduced(ToStateObject())
    {
      var f := Copy();
      r := f.Reduce();
    }

    /** `isReduced`: the gcd of the parts is 1, that is, no factor above 1 divides both. */
    function IsReduced(): (r: bool)
      reads this
      ensures r <==> Coprime(numerator, denominator)
    {
      GcdOneIffCoprime(numerator, denominator);
      Gcd(numerator, denominator) == 1
    }

    /** `equals`: the same numerator and the same denominator, not merely the same value. */
    function Equals(fraction: Fraction): (r: bool)
      reads this, fraction
      ensures r <==> ToStateObject() == fraction.ToStateObject()
      ensures r && denominator != 0 ==> fraction.denominator != 0 && Value() == fraction.Value()
    {
      numerator == fraction.numerator && denominator == fraction.denominator
    }

    /**
     * `sign`, Math.sign of the value. A zero denominator gives an infinity
     * whose sign is the numerator's; 0/0 (NaN in JavaScript) is given 0.
     */
    function Sign(): (s: int)
      reads this
      ensures denominator != 0 ==> (s == -1 <==> Value() < 0.0)
      ensures denominator != 0 ==> (s == 0 <==> Value() == 0.0)
      ensures denominator != 0 ==> (s == 1 <==> Value() > 0.0)
      ensures denominator == 0 ==> s == IntMath.Sign(numerator)
    {
      if denominator == 0 then
        IntMath.Sign(numerator)
      else
        SignOfRatio(numerator, denominator);
        IntMath.Sign(numerator) * IntMath.Sign(denominator)
    }

    /**
     * `isLessThan`: compares exactly by subtracting in a scratch fraction,
     * which is overwritten; neither operand changes.
     */
    method IsLessThan(fraction: Fraction, scratch: Fraction) returns (r: bool)
      requires denominator != 0 && fraction.denominator != 0
      requires scratch != this && scratch != fraction
      modifies scratch
      ensures r == LessThan(numerator, denominator, fraction.numerator, fraction.denominator)
      ensures r <==> Value() < fraction.Value()
    {
      var s := scratch.Set(this);
      s := s.Subtract(fraction);
      r := s.Sign() == -1;
    }

    /** `abs`: a new fraction of the absolute values of both parts. */
    method Abs() returns (f: Fraction)
      ensures fresh(f)
      ensures f.numerator == IntMath.Abs(numerator) && f.denominator == IntMath.Abs(denominator)
      ensures denominator != 0 ==>
                f.denominator != 0 && f.Value() == (if Value() < 0.0 then -Value() else Value())
    {
      f := new Fraction(IntMath.Abs(numerator), IntMath.Abs(denominator));
      if denominator != 0 {
        SignOfRatio(numerator, denominator);
        SignOfRatio(f.numerator, f.denominator);
        AbsRatio(numerator, denominator);
      }
    }

    /** `set`: copies the parts of `value` into this fraction. */
    method Set(value: Fraction) returns (r: Fraction)
      modifies this
      ensures r == this
      ensures ToStateObject() == old(value.ToStateObject())
      ensures value.ToStateObject() == old(value.ToStateObject())
    {
      numerator := value.numerator;
      denominator := value.denominator;
      r := this;
    }

    /** `setToSum`: this fraction becomes n1/d1 + n2/d2 over the lcm of the denominators. */
    method SetToSum(n1: int, d1: int, n2: int, d2: int) returns (r: Fraction)
      requires d1 != 0 && d2 != 0
      modifies this
      ensures r == this
      ensures numerator == SumNumerator(n1, d1, n2, d2) && denominator == Lcm(d1, d2)
      ensures denominator > 0 && Value() == RealRatio(n1, d1) + RealRatio(n2, d2)
    {
      numerator := SumNumerator(n1, d1, n2, d2);
      denominator := Lcm(d1, d2);
      r := this;
    }

    /** `add`: this fraction plus `value`, in place; `value` may be this fraction itself. */
    method Add(value: Fraction) returns (r: Fraction)
      requires denominator != 0 && value.denominator != 0
      modifies this
      ensures r == this
      ensures numerator == SumNumerator(old(numerator), old(denominator), old(value.numerator), old(value.denominator))
      ensures denominator == Lcm(old(denominator), old(value.denominator))
      ensures denominator > 0 && Value() == old(Value()) + old(value.Value())
      ensures value != this ==> value.ToStateObject() == old(value.ToStateObject())
    {
      r := SetToSum(numerator, denominator, value.numerator, value.denominator);
    }

    /** `plus`: a new fraction, this fraction plus `value`. */
    method Plus(value: Fraction) returns (r: Fraction)
      requires denominator != 0 && value.denominator != 0
      ensures fresh(r)
      ensures r.numerator == SumNumerator(numerator, denominator, value.numerator, value.denominator)
      ensures r.denominator == Lcm(denominator, value.denominator)
      ensures r.denominator > 0 && r.Value() == Value() + value.Value()
    {
      var f := Copy();
      r := f.Add(value);
    }

    /** `subtract`: this fraction minus `value`, in place. */
    method Subtract(value: Fraction) returns (r: Fraction)
      requires denominator != 0 && value.denominator != 0
      modifies this
      ensures r == this
      ensures numerator == SumNumerator(old(numerator), old(denominator), -old(value.numerator), old(value.denominator))
      ensures denominator == Lcm(old(denominator), old(value.denominator))
      ensures denominator > 0 && Value() == old(Value()) - old(value.Value())
      ensures value != this ==> value.ToStateObject() == old(value.ToStateObject())
    {
      assert RealRatio(-value.numerator, value.denominator) == -value.Value();
      r := SetToSum(numerator, denominator, -value.numerator, value.denominator);
    }

    /** `minus`: a new fraction, this fraction minus `value`. */
    method Minus(value: Fraction) returns (r: Fraction)
      requires denominator != 0 && value.denominator != 0
      ensures fresh(r)
      ensures r.numerator == SumNumerator(numerator, denominator, -value.numerator, value.denominator)
      ensures r.denominator == Lcm(denominator, value.denominator)
      ensures r.denominator > 0 && r.Value() == Value() - value.Value()
    {
      var f := Copy();
      r := f.Subtract(value);
    }

    /** `multiply`: both parts multiplied by those of `value`, in place. */
    method Multiply(value: Fraction) returns (r: Fraction)
      modifies this
      ensures r == this
      ensures numerator == old(numerator) * old(value.numerator)
      ensures denominator == old(denominator) * old(value.denominator)
      ensures old(denominator) != 0 && old(value.denominator) != 0 ==>
                denominator != 0 && Value() == old(Value()) * old(value.Value())
    {
      numerator := numerator * value.numerator;
      denominator := denominator * value.denominator;
      r := this;
      if old(denominator) != 0 && old(value.denominator) != 0 {
        ProductRatio(old(numerator), old(denominator), old(value.numerator), old(value.denominator));
      }
    }

    /** `times`: a new fraction, this fraction times `value`. */
    method Times(value: Fraction) returns (r: Fraction)
      ensures fresh(r)
      ensures r.numerator == numerator * value.numerator
      ensures r.denominator == denominator * value.denominator
      ensures denominator != 0 && value.denominator != 0 ==>
                r.denominator != 0 && r.Value() == Value() * value.Value()
    {
      var f := Copy();
      r := f.Multiply(value);
    }

    /**
     * `divide`, as written: the numerator is multiplied by `value`'s
     * denominator first, and the denominator then by `value`'s numerator, so
     * when `value` is this fraction the second step reads the numerator the
     * first step already changed.
     */
    method Divide(value: Fraction) returns (r: Fraction)
      modifies this
      ensures r == this
      ensures numerator == old(numerator) * old(value.denominator)
      ensures value != this ==> denominator == old(denominator) * old(value.numerator)
      ensures value == this ==> denominator == old(denominator) * numerator
    {
      numerator := numerator * value.denominator;
      denominator := denominator * value.numerator;
      r := this;
    }

    /**
     * `divide` as evidently intended: both parts of `value` are read before
     * this fraction changes, so the result is the quotient even when `value`
     * is this fraction.
     */
    method DivideInPlace(value: Fraction) returns (r: Fraction)
      modifies this
      ensures r == this
      ensures numerator == old(numerator) * old(value.denominator)
      ensures denominator == old(denominator) * old(value.numerator)
      ensures old(denominator) != 0 && old(value.numerator) != 0 && old(value.denominator) != 0 ==>
                denominator != 0 && Value() == old(Value()) / old(value.Value())
    {
      var n, d := value.numerator, value.denominator;
      numerator := numerator * d;
      denominator := denominator * n;
      r := this;
      if old(denominator) != 0 && n != 0 && d != 0 {
        QuotientRatio(old(numerator), old(denominator), n, d);
      }
    }

    /** `divided`: a new fraction, this fraction divided by `value`. */
    method Divided(value: Fraction) returns (r: Fraction)
      ensures fresh(r)
      ensures r.numerator == numerator * value.denominator
      ensures r.denominator == denominator * value.numerator
      ensures denominator != 0 && value.numerator != 0 && value.denominator != 0 ==>
                r.denominator != 0 && r.Value() == Value() / value.Value()
    {
      var f := Copy();
      r := f.DivideInPlace(value);
    }

    /** `plusInteger`: a new fraction over the same denominator. */
    method PlusInteger(value: int) returns (r: Fraction)
      ensures fresh(r)
      ensures r.numerator == numerator + value * denominator && r.denominator == denominator
      ensures denominator != 0 ==> r.Value() == Value() + value as real
    {
      r := new Fraction(numerator + value * denominator, denominator);
      if denominator != 0 {
        ShiftRatio(numerator, denominator, value);
      }
    }

    /** `minusInteger`: a new fraction over the same denominator. */
    method MinusInteger(value: int) returns (r: Fraction)
      ensures fresh(r)
      ensures r.numerator == numerator - value * denominator && r.denominator == denominator
      ensures denominator != 0 ==> r.Value() == Value() - value as real
    {
      r := new Fraction(numerator - value * denominator, denominator);
      if denominator != 0 {
        ShiftRatio(numerator, denominator, -value);
      }
    }

    /** `timesInteger`: a new fraction over the same denominator. */
    method TimesInteger(value: int) returns (r: Fraction)
      ensures fresh(r)
      ensures r.numerator == numerator * value && r.denominator == denominator
      ensures denominator != 0 ==> r.Value() == Value() * value as real
    {
      r := new Fraction(numerator * value, denominator);
      if denominator != 0 {
        ProductRatio(numerator, denominator, value, 1);
      }
    }

    /** `dividedInteger`: only the denominator changes; dividing by 0 gives a zero denominator. */
    method DividedInteger(value: int) returns (r: Fraction)
      ensures fresh(r)
      ensures r.numerator == numerator && r.denominator == denominator * value
      ensures value == 0 ==> r.denominator == 0
      ensures denominator != 0 && value != 0 ==> r.denominator != 0 && r.Value() == Value() / value as real
    {
      r := new Fraction(numerator, denominator * value);
      if denominator != 0 && value != 0 {
        QuotientRatio(numerator, denominator, value, 1);
      }
    }

    /** `fromInteger`: the fraction value/1. */
    static method FromInteger(value: int) returns (f: Fraction)
      ensures fresh(f)
      ensures f.numerator == value && f.denominator == 1
      ensures f.IsInteger() && f.Value() == value as real
    {
      f := new Fraction(value, 1);
    }

    /** `toStateObject`: the two parts, as stored. */
    function ToStateObject(): (s: FractionStateObject)
      reads this
      ensures s.numerator == numerator && s.denominator == denominator
    {
      FractionStateObject(numerator, denominator)
    }

    /** `fromStateObject`: a new fraction whose state object is `s`. */
    static method FromStateObject(s: FractionStateObject) returns (f: Fraction)
      ensures fresh(f)
      ensures f.ToStateObject() == s
    {
      f := new Fraction(s.numerator, s.denominator);
    }
  }

  /** The remainder test of `isInteger` agrees with the value being whole. */
  lemma IntegerRatio(n: int, d: int)
    ensures d != 0 ==> (n % d == 0 <==> RealRatio(n, d) == RealRatio(n, d).Floor as real)
  {
    if d != 0 {
      var q := RealRatio(n, d);
      if n % d == 0 {
        var k := n / d;
        assert n == d * k;
        CastMul(d, k);
        assert q == k as real;
      }
      if q == q.Floor as real {
        var k := q.Floor;
        assert n as real == d as real * k as real;
        CastMul(d, k);
        assert n == d * k;
        if d > 0 {
          DivModUnique(n, d, k, 0);
        } else {
          DivModUnique(n, d, k, 0);
        }
      }
    }
  }

  lemma AbsRatio(n: int, d: int)
    requires d != 0
    ensures RealRatio(IntMath.Abs(n), IntMath.Abs(d)) ==
              (if RealRatio(n, d) < 0.0 then -RealRatio(n, d) else RealRatio(n, d))
  {
    SignOfRatio(n, d);
  }

  lemma ProductRatio(n1: int, d1: int, n2: int, d2: int)
    requires d1 != 0 && d2 != 0
    ensures d1 * d2 != 0
    ensures RealRatio(n1 * n2, d1 * d2) == RealRatio(n1, d1) * RealRatio(n2, d2)
  {
    CastMul(n1, n2);
    CastMul(d1, d2);
  }

  lemma QuotientRatio(n1: int, d1: int, n2: int, d2: int)
    requires d1 != 0 && n2 != 0 && d2 != 0
    ensures d1 * n2 != 0
    ensures RealRatio(n1 * d2, d1 * n2) == RealRatio(n1, d1) / RealRatio(n2, d2)
  {
    CastMul(n1, d2);
    CastMul(d1, n2);
  }

  lemma ShiftRatio(n: int, d: int, k: int)
    requires d != 0
    ensures RealRatio(n + k * d, d) == RealRatio(n, d) + k as real
  {
    CastMul(k, d);
  }

  /** `f.divide(f)` as written leaves 2/3 as 6/18, a third, where the quotient is 1. */
  method DivideBySelfAsWritten() returns (f: Fraction)
    ensures f.numerator == 6 && f.denominator == 18 && f.Value() != 1.0
  {
    f := new Fraction(2, 3);
    var r := f.Divide(f);
  }

  /** The corrected division of 2/3 by itself is 6/6, whose value is 1. */
  method DivideBySelfIntended() returns (f: Fraction)
    ensures f.numerator == 6 && f.denominator == 6 && f.Value() == 1.0
  {
    f := new Fraction(2, 3);
    var r := f.DivideInPlace(f);
  }
}
