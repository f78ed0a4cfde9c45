/**
 * Integer helpers used by both fraction classes: absolute value, sign, divisibility,
 * the non-negative greatest common divisor and least common multiple of the geometry
 * library's `Utils.gcd` / `Utils.lcm`, and JavaScript's decimal rendering of integers.
 *
 * Dafny's `/` and `%` are Euclidean. Every quotient the fraction code takes is exact
 * (the divisor divides the dividend), and there Euclidean and JavaScript division agree.
 */
module IntMath {

  function Abs(n: int): nat
  {
    if n < 0 then -n else n
  }

  /** `Math.sign` on integers. */
  function Sign(n: int): int
  {
    if n > 0 then 1 else if n < 0 then -1 else 0
  }

  /** `c` divides `n`; zero divides only zero. */
  predicate Divides(c: int, n: int)
  {
    if c == 0 then n == 0 else n % c == 0
  }

  // ---------------------------------------------------------------------------
  // Division facts
  // ---------------------------------------------------------------------------

  lemma AbsMul(a: int, b: int)
    ensures Abs(a * b) == Abs(a) * Abs(b)
  {
    if a < 0 && b < 0 {
      assert a * b == (-a) * (-b);
    } else if a < 0 {
      assert a * b == -((-a) * b);
    } else if b < 0 {
      assert a * b == -(a * (-b));
    }
  }

  lemma MulAtLeast(c: nat, k: nat)
    requires k >= 1
    ensures c * k >= c
  {
  }

  lemma MulAbsAtLeast(c: int, k: int)
    requires k != 0
    ensures Abs(c * k) >= Abs(c)
  {
    AbsMul(c, k);
    MulAtLeast(Abs(c), Abs(k));
  }

  /** Euclidean division is unique: a quotient and an in-range remainder determine `/` and `%`. */
  lemma DivModUnique(n: int, c: int, q: int, r: int)
    requires c != 0 && 0 <= r < Abs(c) && n == c * q + r
    ensures n / c == q && n % c == r
  {
    var q', r' := n / c, n % c;
    assert c * q + r == c * q' + r';
    assert c * (q - q') == r' - r;
    if q - q' != 0 {
      MulAbsAtLeast(c, q - q');
      assert false;
    }
  }

  /** A witnessed multiple is divisible. */
  lemma DividesByWitness(c: int, n: int, k: int)
    requires n == c * k
    ensures Divides(c, n)
  {
    if c != 0 {
      DivModUnique(n, c, k, 0);
    }
  }

  /** A divisible number is the divisor times the exact quotient. */
  lemma ExactQuotient(c: int, n: int)
    requires c != 0 && Divides(c, n)
    ensures n == c * (n / c)
  {
  }

  lemma DividesLinear(c: int, x: int, y: int, k: int)
    requires Divides(c, x) && Divides(c, y)
    ensures Divides(c, x * k + y)
  {
    if c != 0 {
      var p, s := x / c, y / c;
      assert x * k + y == c * (p * k + s) by {
        assert x == c * p && y == c * s;
        assert x * k == c * (p * k);
      }
      DividesByWitness(c, x * k + y, p * k + s);
    }
  }

  lemma DividesNegate(c: int, n: int)
    ensures Divides(c, n) <==> Divides(c, -n)
  {
    if c != 0 {
      if Divides(c, n) {
        DividesByWitness(c, -n, -(n / c));
      }
      if Divides(c, -n) {
        DividesByWitness(c, n, -((-n) / c));
      }
    }
  }

  lemma DividesAbs(c: int, n: int)
    ensures Divides(c, n) <==> Divides(c, Abs(n))
  {
    DividesNegate(c, n);
  }

  lemma DivisorNegate(c: int, n: int)
    ensures Divides(c, n) <==> Divides(-c, n)
  {
    if c != 0 {
      if Divides(c, n) {
        DividesByWitness(-c, n, -(n / c));
      }
      if Divides(-c, n) {
        DividesByWitness(c, n, -(n / (-c)));
      }
    }
  }

  lemma DivisorAbs(c: int, n: int)
    ensures Divides(c, n) <==> Divides(Abs(c), n)
  {
    DivisorNegate(c, n);
  }

  /** A positive divisor of a non-zero number is no larger than its absolute value. */
  lemma DivisorAtMost(c: int, n: int)
    requires c > 0 && n != 0 && Divides(c, n)
    ensures c <= Abs(n)
  {
    ExactQuotient(c, n);
    MulAbsAtLeast(c, n / c);
  }

  lemma DividesTransitive(a: int, b: int, c: int)
    requires Divides(a, b) && Divides(b, c)
    ensures Divides(a, c)
  {
    if a != 0 && b != 0 {
      var p, q := b / a, c / b;
      assert c == a * (p * q) by {
        assert b == a * p && c == b * q;
      }
      DividesByWitness(a, c, p * q);
    } else if a != 0 {
      assert c == 0;
      DividesByWitness(a, c, 0);
    }
  }

  // ---------------------------------------------------------------------------
  // Greatest common divisor and least common multiple
  // ---------------------------------------------------------------------------

  /** Euclid's algorithm on natural numbers. */
  function GcdNat(a: nat, b: nat): (g: nat)
    decreases b
    ensures g == 0 <==> a == 0 && b == 0
    ensures Divides(g, a) && Divides(g, b)
  {
    if b == 0 then
      DividesByWitness(a, a, 1);
      DividesByWitness(a, 0, 0);
      a
    else
      var g := GcdNat(b, a % b);
      assert a == b * (a / b) + a % b;
      DividesLinear(g, b, a % b, a / b);
      g
  }

  /**
   * The non-negative greatest common divisor. The library computes it by Euclid's
   * algorithm with JavaScript's truncating `%` and takes `Math.abs` of the result, which
   * gives the same number as Euclid's algorithm on the absolute values.
   */
  function Gcd(a: int, b: int): (g: nat)
    ensures g == 0 <==> a == 0 && b == 0
    ensures Divides(g, a) && Divides(g, b)
  {
    var g := GcdNat(Abs(a), Abs(b));
    DividesAbs(g, a);
    DividesAbs(g, b);
    g
  }

  lemma {:induction false} GcdNatGreatest(a: nat, b: nat, c: int)
    requires c != 0 && Divides(c, a) && Divides(c, b)
    ensures Divides(c, GcdNat(a, b))
    decreases b
  {
    if b != 0 {
      assert a % b == a + (-(a / b)) * b;
      DividesLinear(c, b, a, -(a / b));
      assert Divides(c, a % b) by {
        assert b * (-(a / b)) + a == a % b;
      }
      GcdNatGreatest(b, a % b, c);
    }
  }

  /** Every common divisor of `a` and `b` divides `Gcd(a, b)`. */
  lemma GcdGreatest(a: int, b: int, c: int)
    requires c != 0 && Divides(c, a) && Divides(c, b)
    ensures Divides(c, Gcd(a, b))
  {
    DividesAbs(c, a);
    DividesAbs(c, b);
    GcdNatGreatest(Abs(a), Abs(b), c);
  }

  /** Two integers are coprime when no integer above 1 divides both. */
  ghost predicate Coprime(a: int, b: int)
  {
    forall c :: c > 1 ==> !(Divides(c, a) && Divides(c, b))
  }

  /** `Gcd(a, b) == 1` says exactly that `a` and `b` are coprime (0 and 0 are not). */
  lemma GcdOneIffCoprime(a: int, b: int)
    ensures Gcd(a, b) == 1 <==> Coprime(a, b)
  {
    var g := Gcd(a, b);
    if g == 1 {
      forall c | c > 1
        ensures !(Divides(c, a) && Divides(c, b))
      {
        if Divides(c, a) && Divides(c, b) {
          GcdGreatest(a, b, c);
          DivisorAtMost(c, 1);
        }
      }
    } else if g == 0 {
      DividesByWitness(2, 0, 0);
      assert Divides(2, a) && Divides(2, b);
    } else {
      assert g > 1 && Divides(g, a) && Divides(g, b);
    }
  }

  lemma MulAssociates(x: int, y: int, z: int)
    ensures x * (y * z) == (x * y) * z
  {
  }

  /** Dividing both numbers by their gcd leaves a coprime pair. */
  lemma DivideByGcdIsCoprime(a: int, b: int)
    requires Gcd(a, b) != 0
    ensures Gcd(a / Gcd(a, b), b / Gcd(a, b)) == 1
  {
    var g := Gcd(a, b);
    var a', b' := a / g, b / g;
    ExactQuotient(g, a);
    ExactQuotient(g, b);
    var h := Gcd(a', b');
    ExactQuotient(h, a');
    ExactQuotient(h, b');
    MulAssociates(g, h, a' / h);
    MulAssociates(g, h, b' / h);
    MulAtLeast(g, h);
    DividesByWitness(g * h, a, a' / h);
    DividesByWitness(g * h, b, b' / h);
    GcdGreatest(a, b, g * h);
    DivisorAtMost(g * h, g);
    if h > 1 {
      assert g * h == g * (h - 1) + g;
      MulAtLeast(g, h - 1);
    }
  }

  /**
   * The non-negative least common multiple `|a * b| / gcd(a, b)` of the library, with
   * 0 where the library's formula divides 0 by 0.
   */
  function Lcm(a: int, b: int): (l: nat)
  {
    var g := Gcd(a, b);
    if g == 0 then 0 else Quotient(Abs(a * b), g)
  }

  /** The quotient of a natural number by a positive one. */
  function Quotient(m: nat, d: nat): nat
    requires d > 0
  {
    m / d
  }

  /** `|a * b| / g` is `|a|` times the exact quotient `|b| / g`. */
  lemma LcmFactor(a: int, b: int)
    requires b != 0
    ensures Gcd(a, b) > 0 && Abs(b) / Gcd(a, b) > 0
    ensures Lcm(a, b) == Abs(a) * (Abs(b) / Gcd(a, b))
  {
    var g := Gcd(a, b);
    DividesAbs(g, b);
    var b' := Abs(b) / g;
    ExactQuotient(g, Abs(b));
    AbsMul(a, b);
    MulAssociates(Abs(a), g, b');
    assert Abs(a * b) == g * (Abs(a) * b');
    DivModUnique(Abs(a * b), g, Abs(a) * b', 0);
  }

  lemma LcmSymmetric(a: int, b: int)
    ensures Lcm(a, b) == Lcm(b, a)
  {
    assert Gcd(a, b) == Gcd(b, a) by {
      if Gcd(a, b) != 0 {
        GcdGreatest(a, b, Gcd(b, a));
        GcdGreatest(b, a, Gcd(a, b));
        DivisorAtMost(Gcd(a, b), Gcd(b, a));
        DivisorAtMost(Gcd(b, a), Gcd(a, b));
      }
    }
    assert a * b == b * a;
  }

  /** The lcm of two non-zero numbers is a positive common multiple of both. */
  lemma LcmIsCommonMultiple(a: int, b: int)
    requires a != 0 && b != 0
    ensures Lcm(a, b) > 0
    ensures Divides(a, Lcm(a, b)) && Divides(b, Lcm(a, b))
  {
    LcmFactor(a, b);
    LcmFactor(b, a);
    LcmSymmetric(a, b);
    var l := Lcm(a, b);
    MulAtLeast(Abs(a), Abs(b) / Gcd(a, b));
    DividesByWitness(Abs(a), l, Abs(b) / Gcd(a, b));
    DivisorAbs(a, l);
    DividesByWitness(Abs(b), l, Abs(a) / Gcd(b, a));
    DivisorAbs(b, l);
  }

  // ---------------------------------------------------------------------------
  // Decimal rendering of integers (JavaScript's `String(n)` for integers)
  // ---------------------------------------------------------------------------

  predicate IsDigit(c: char)
  {
    '0' <= c <= '9'
  }

  function DigitValue(c: char): nat
    requires IsDigit(c)
  {
    (c as int) - ('0' as int)
  }

  function DigitChar(d: nat): (c: char)
    requires d < 10
    ensures IsDigit(c) && DigitValue(c) == d
  {
    (('0' as int) + d) as char
  }

  /** The decimal digits of `n`, most significant first, without leading zeros. */
  function NatToString(n: nat): (s: string)
    decreases n
    ensures |s| > 0
    ensures forall i :: 0 <= i < |s| ==> IsDigit(s[i])
    ensures |s| > 1 ==> s[0] != '0'
  {
    if n < 10 then [DigitChar(n)] else NatToString(n / 10) + [DigitChar(n % 10)]
  }

  /** An integer in decimal, with a leading `-` when it is negative. */
  function IntToString(n: int): (s: string)
    ensures |s| > 0
    ensures forall i :: 0 <= i < |s| ==> IsDigit(s[i]) || (i == 0 && s[i] == '-')
  {
    if n < 0 then "-" + NatToString(-n) else NatToString(n)
  }

  /** Reading decimal digits back. */
  function ParseNat(s: string): nat
    requires forall i :: 0 <= i < |s| ==> IsDigit(s[i])
  {
    if s == [] then 0
    else ParseNat(s[..|s| - 1]) * 10 + DigitValue(s[|s| - 1])
  }

  function ParseInt(s: string): int
    requires |s| > 0
    requires forall i :: 0 <= i < |s| ==> IsDigit(s[i]) || (i == 0 && s[i] == '-')
  {
    if s[0] == '-' then -(ParseNat(s[1..]) as int) else ParseNat(s)
  }

  lemma {:induction false} ParseNatToString(n: nat)
    ensures ParseNat(NatToString(n)) == n
    decreases n
  {
    var s := NatToString(n);
    if n >= 10 {
      ParseNatToString(n / 10);
      assert s[..|s| - 1] == NatToString(n / 10);
    }
  }

  /** Decimal rendering loses nothing: the text determines the integer. */
  lemma ParseIntToString(n: int)
    ensures ParseInt(IntToString(n)) == n
  {
    if n < 0 {
      ParseNatToString(-n);
      assert IntToString(n)[1..] == NatToString(-n);
    } else {
      ParseNatToString(n);
    }
  }

  lemma IntToStringInjective(m: int, n: int)
    requires IntToString(m) == IntToString(n)
    ensures m == n
  {
    ParseIntToString(m);
    ParseIntToString(n);
  }

  /** A fraction's text, `numerator + '/' + denominator` in JavaScript. */
  function RatioString(numerator: int, denominator: int): (s: string)
    ensures var k := |IntToString(numerator)|;
      k < |s| && s[k] == '/' && (forall i :: 0 <= i < k ==> s[i] != '/') &&
      s[..k] == IntToString(numerator) && s[k + 1..] == IntToString(denominator)
  {
    var a, b := IntToString(numerator), IntToString(denominator);
    assert (a + "/" + b)[..|a|] == (a + ("/" + b))[..|a|] == a;
    assert (a + "/" + b)[|a| + 1..] == b;
    a + "/" + b
  }

  /** Parsing either side of the slash gives back the two parts. */
  lemma RatioStringParses(numerator: int, denominator: int)
    ensures var s, k := RatioString(numerator, denominator), |IntToString(numerator)|;
      ParseInt(s[..k]) == numerator && ParseInt(s[k + 1..]) == denominator
  {
    ParseIntToString(numerator);
    ParseIntToString(denominator);
  }

  /** The text of a fraction determines both of its parts: the `/` can only be the separator. */
  lemma RatioStringInjective(n1: int, d1: int, n2: int, d2: int)
    ensures RatioString(n1, d1) == RatioString(n2, d2) <==> n1 == n2 && d1 == d2
  {
    if RatioString(n1, d1) == RatioString(n2, d2) {
      RatioSameParts(n1, d1, n2, d2);
    }
  }

  lemma RatioSameParts(n1: int, d1: int, n2: int, d2: int)
    requires RatioString(n1, d1) == RatioString(n2, d2)
    ensures n1 == n2 && d1 == d2
  {
    var s1, s2 := IntToString(n1), IntToString(n2);
    var t := RatioString(n1, d1);
    assert t[|s1|] == '/';
    assert t[|s2|] == '/';
    assert |s1| == |s2|;
    assert s1 == t[..|s1|] == s2;
    IntToStringInjective(n1, n2);
    assert IntToString(d1) == t[|s1| + 1..] == IntToString(d2);
    IntToStringInjective(d1, d2);
  }
}
