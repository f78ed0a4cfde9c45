/**
 * The older, AMD-module `Fraction`: public numerator and denominator fields,
 * an in-place `reduce` that returns nothing, and the static factory
 * `Fraction.fraction`. The reduction itself and the exact value are the
 * ones of the newer `Fraction` (module Fractions).
 */
module LegacyFractions {
  import opened IntMath
  import Fractions

  class Fraction {
    var numerator: int
    var denominator: int

    /** Stores both parts unchanged; the source asserts they are integers, which `int` guarantees. */
    constructor (numerator: int, denominator: int)
      ensures this.numerator == numerator && this.denominator == denominator
    {
      this.numerator := numerator;
      this.denominator := denominator;
    }

    ghost function Value(): real
      reads this
      requires denominator != 0
    {
      Fractions.RealRatio(numerator, denominator)
    }

    /**
     * `isInteger`: the quotient `numerator / denominator` is an integer. A
     * zero denominator gives an infinity or NaN, neither of which is.
     */
    function IsInteger(): (r: bool)
      reads this
      ensures r <==> denominator != 0 && Value() == Value().Floor as real
      ensures r <==> denominator != 0 && Divides(denominator, numerator)
    {
      Fractions.IntegerRatio(numerator, denominator);
      denominator != 0 && (numerator / denominator) * denominator == numerator
    }

    /** `toString`: numerator, slash, denominator. */
    function ToString(): (s: string)
      reads this
      ensures s == RatioString(numerator, denominator)
    {
      IntToString(numerator) + "/" + IntToString(denominator)
    }

    /** `reduce`: divides both parts by their gcd in place, or sets 0/0 when the gcd is 0. */
    method Reduce()
      modifies this
      ensures Fractions.FractionStateObject(numerator, denominator) ==
                Fractions.Reduced(Fractions.FractionStateObject(old(numerator), old(denominator)))
      ensures old(denominator) != 0 ==> denominator != 0 && Value() == old(Value())
      ensures Gcd(old(numerator), old(denominator)) != 0 ==> Coprime(numerator, denominator)
    {
      var g := Gcd(numerator, denominator);
      if g == 0 {
        numerator, denominator := 0, 0;
      } else {
        numerator, denominator := numerator / g, denominator / g;
        ExactQuotient(g, old(numerator));
        ExactQuotient(g, old(denominator));
        GcdOneIffCoprime(numerator, denominator);
      }
    }

    /** `equals`: the same numerator and the same denominator. */
    function Equals(that: Fraction): (r: bool)
      reads this, that
      ensures r <==> ToString() == that.ToString()
    {
      RatioStringInjective(numerator, denominator, that.numerator, that.denominator);
      numerator == that.numerator && denominator == that.denominator
    }

    /** The static `Fraction.fraction(numerator, denominator)`: the same as the constructor. */
    static method Create(numerator: int, denominator: int) returns (f: Fraction)
      ensures fresh(f)
      ensures f.numerator == numerator && f.denominator == denominator
    {
      f := new Fraction(numerator, denominator);
    }
  }
}
