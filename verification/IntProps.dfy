/** The overflow and width predicates of lib/intprops.h. */
module IntProps {

  /** C's division truncates toward zero. */
  function TruncDiv(a: int, b: int): int
    requires b != 0
  {
    if (a >= 0) == (b > 0) then Abs(a) / Abs(b) else -(Abs(a) / Abs(b))
  }

  function Abs(a: int): nat {
    if a < 0 then -a else a
  }

  /** The bounds of an integer type: two's complement, or unsigned. */
  predicate IsRange(min: int, max: int) {
    max > 0 && (min == 0 || min == -max - 1)
  }

  predicate InRange(x: int, min: int, max: int) {
    min <= x <= max
  }

  function AddRangeOverflow(a: int, b: int, min: int, max: int): bool {
    if b < 0 then a < min - b else max - b < a
  }

  function SubtractRangeOverflow(a: int, b: int, min: int, max: int): bool {
    if b < 0 then max + b < a else a < min + b
  }

  function MultiplyRangeOverflow(a: int, b: int, min: int, max: int): bool {
    if b < 0 then
      if a < 0 then a < TruncDiv(max, b)
      else if b == -1 then false
      else TruncDiv(min, b) < a
    else if b == 0 then false
    else if a < 0 then a < TruncDiv(min, b)
    else TruncDiv(max, b) < a
  }

  lemma AddOverflowsIff(a: int, b: int, min: int, max: int)
    requires IsRange(min, max) && InRange(a, min, max) && InRange(b, min, max)
    ensures AddRangeOverflow(a, b, min, max) <==> !InRange(a + b, min, max)
    ensures InRange(if b < 0 then min - b else max - b, min, max)
  {
  }

  lemma SubtractOverflowsIff(a: int, b: int, min: int, max: int)
    requires IsRange(min, max) && InRange(a, min, max) && InRange(b, min, max)
    ensures SubtractRangeOverflow(a, b, min, max) <==> !InRange(a - b, min, max)
    ensures InRange(if b < 0 then max + b else min + b, min, max)
  {
  }

  /** The quotient that the multiplication predicate evaluates, if it evaluates one. */
  function Quotient(a: int, b: int, min: int, max: int): int
    requires b != 0
  {
    TruncDiv(if (a < 0) == (b < 0) then max else min, b)
  }

  lemma MultiplyOverflowsIff(a: int, b: int, min: int, max: int)
    requires IsRange(min, max) && InRange(a, min, max) && InRange(b, min, max)
    ensures MultiplyRangeOverflow(a, b, min, max) <==> !InRange(a * b, min, max)
    ensures b != 0 && !(b == -1 && a >= 0) ==> InRange(Quotient(a, b, min, max), min, max)
  {
    if b == 0 {
      assert a * b == 0;
    } else if (a < 0) == (b < 0) {
      MultiplySameSign(a, b, min, max);
    } else {
      MultiplyOtherSign(a, b, min, max);
    }
  }

  lemma MultiplySameSign(a: int, b: int, min: int, max: int)
    requires IsRange(min, max) && b != 0 && (a < 0) == (b < 0) && InRange(a, min, max) && InRange(b, min, max)
    ensures MultiplyRangeOverflow(a, b, min, max) <==> !InRange(a * b, min, max)
    ensures InRange(TruncDiv(max, b), min, max)
  {
    SignOfProduct(a, b);
    AboveIff(Abs(a), Abs(b), max);
    SmallerQuotient(max, Abs(b));
    ProductIsNatural(Abs(a), Abs(b));
  }

  lemma MultiplyOtherSign(a: int, b: int, min: int, max: int)
    requires IsRange(min, max) && b != 0 && (a < 0) != (b < 0) && InRange(a, min, max) && InRange(b, min, max)
    ensures MultiplyRangeOverflow(a, b, min, max) <==> !InRange(a * b, min, max)
    ensures !(b == -1 && a >= 0) ==> InRange(TruncDiv(min, b), min, max)
  {
    SignOfProduct(a, b);
    AboveIff(Abs(a), Abs(b), -min);
    SmallerQuotient(-min, Abs(b));
    ProductIsNatural(Abs(a), Abs(b));
  }

  lemma ProductIsNatural(a: nat, b: nat)
    ensures a * b >= 0
  {
  }

  lemma SignOfProduct(a: int, b: int)
    ensures a * b == if (a < 0) == (b < 0) then Abs(a) * Abs(b) else -(Abs(a) * Abs(b))
  {
  }

  /** A product exceeds a bound exactly when one factor exceeds the quotient of the bound. */
  lemma AboveIff(a: nat, b: nat, m: nat)
    requires b > 0
    ensures m / b < a <==> m < a * b
  {
    var q := m / b;
    assert m == q * b + m % b;
    if q < a {
      assert a * b == (q + 1) * b + (a - q - 1) * b;
      assert (a - q - 1) * b >= 0;
    } else {
      assert q * b == a * b + (q - a) * b;
      assert (q - a) * b >= 0;
    }
  }

  lemma SmallerQuotient(m: nat, b: nat)
    requires b > 0
    ensures m / b <= m && (b > 1 && m > 0 ==> m / b < m)
  {
    AboveIff(m + 1, b, m);
    AboveIff(m, b, m);
    AtLeastItself(m, b);
    AtLeastItself(m + 1, b);
  }

  lemma AtLeastItself(m: nat, b: nat)
    requires b > 0
    ensures m * b >= m && (b > 1 && m > 0 ==> m * b > m)
  {
    assert m * b == m + m * (b - 1);
  }

  // ----- The width of a number -----

  /** The macro INT_BITS_STRLEN_BOUND. */
  function BitsStrlenBound(b: nat): nat {
    (b * 146 + 484) / 485
  }

  /** The number of decimal digits that print `n`. */
  function Digits(n: nat): nat {
    if n < 10 then 1 else 1 + Digits(n / 10)
  }

  function Pow(b: nat, e: nat): (p: nat)
    ensures b > 0 ==> p > 0
  {
    if e == 0 then 1 else b * Pow(b, e - 1)
  }

  lemma {:induction false} DigitsIff(n: nat, d: nat)
    requires d > 0
    ensures Digits(n) <= d <==> n < Pow(10, d)
  {
    if d == 1 {
      assert Pow(10, 1) == 10 * Pow(10, 0);
    } else {
      assert Pow(10, d) == 10 * Pow(10, d - 1);
      if n < 10 {
        assert Pow(10, d - 1) >= 1;
      } else {
        DigitsIff(n / 10, d - 1);
      }
    }
  }

  lemma {:induction false} PowAdd(b: nat, e: nat, f: nat)
    ensures Pow(b, e + f) == Pow(b, e) * Pow(b, f)
  {
    if e == 0 {
    } else {
      PowAdd(b, e - 1, f);
      assert Pow(b, e + f) == b * Pow(b, e - 1 + f);
      MulAssociative(b, Pow(b, e - 1), Pow(b, f));
    }
  }

  lemma MulAssociative(x: nat, y: nat, z: nat)
    ensures x * (y * z) == x * y * z
  {
  }

  lemma {:induction false} PowPow(b: nat, e: nat, f: nat)
    ensures Pow(Pow(b, e), f) == Pow(b, e * f)
  {
    if f > 0 {
      PowPow(b, e, f - 1);
      PowAdd(b, e, e * (f - 1));
      assert e * f == e + e * (f - 1);
    } else {
      assert e * f == 0;
    }
  }

  lemma {:induction false} PowMonotonic(a: nat, b: nat, e: nat)
    requires a <= b
    ensures Pow(a, e) <= Pow(b, e)
  {
    if e == 0 {
    } else {
      PowMonotonic(a, b, e - 1);
      assert a * Pow(a, e - 1) <= b * Pow(b, e - 1) by {
        MulMonotonic(a, b, Pow(a, e - 1), Pow(b, e - 1));
      }
    }
  }

  lemma MulMonotonic(a: nat, b: nat, x: nat, y: nat)
    requires a <= b && x <= y
    ensures a * x <= b * y
  {
    assert b * y == a * x + a * (y - x) + (b - a) * y;
  }

  lemma {:induction false} ExponentMonotonic(b: nat, e: nat, f: nat)
    requires b > 0 && e <= f
    ensures Pow(b, e) <= Pow(b, f)
  {
    PowAdd(b, e, f - e);
    assert Pow(b, e) * Pow(b, f - e) == Pow(b, e) + Pow(b, e) * (Pow(b, f - e) - 1);
  }

  // 2^485 is less than 10^146, if only just: it begins with the digits 9989.

  lemma TwoTo15()
    ensures Pow(2, 15) == 32768
  {
    assert Pow(2, 5) == 32;
    PowAdd(2, 5, 5);
    PowAdd(2, 5, 10);
  }

  lemma TwoTo30()
    ensures Pow(2, 30) == 1073741824
  {
    TwoTo15();
    PowAdd(2, 15, 15);
  }

  lemma TwoTo60()
    ensures Pow(2, 60) == 1152921504606846976
  {
    TwoTo30();
    PowAdd(2, 30, 30);
  }

  lemma TwoTo120()
    ensures Pow(2, 120) == 1329227995784915872903807060280344576
  {
    TwoTo60();
    PowAdd(2, 60, 60);
  }

  lemma TwoTo121()
    ensures Pow(2, 121) == 2658455991569831745807614120560689152
  {
    TwoTo120();
  }

  lemma TwoTo242()
    ensures Pow(2, 242) == 7067388259113537318333190002971674063309935587502475832486424805170479104
  {
    TwoTo121();
    PowAdd(2, 121, 121);
  }

  lemma TwoTo484()
    ensures Pow(2, 484) == 49947976805055875702105555676690660891977570282639538413746511354005947821116249921924897649015871538557230897942505966327167610868612564900642816
  {
    TwoTo242();
    PowAdd(2, 242, 242);
  }

  lemma TwoTo485()
    ensures Pow(2, 485) == 99895953610111751404211111353381321783955140565279076827493022708011895642232499843849795298031743077114461795885011932654335221737225129801285632
  {
    TwoTo484();
  }

  lemma TenTo9()
    ensures Pow(10, 9) == 1000000000
  {
  }

  lemma TenTo18()
    ensures Pow(10, 18) == 1000000000000000000
  {
    TenTo9();
    PowAdd(10, 9, 9);
  }

  lemma TenTo36()
    ensures Pow(10, 36) == 1000000000000000000000000000000000000
  {
    TenTo18();
    PowAdd(10, 18, 18);
  }

  lemma TenTo72()
    ensures Pow(10, 72) == 1000000000000000000000000000000000000000000000000000000000000000000000000
  {
    TenTo36();
    PowAdd(10, 36, 36);
  }

  lemma TenTo73()
    ensures Pow(10, 73) == 10000000000000000000000000000000000000000000000000000000000000000000000000
  {
    TenTo72();
  }

  lemma TenTo146()
    ensures Pow(10, 146) == 100000000000000000000000000000000000000000000000000000000000000000000000000000000000000000000000000000000000000000000000000000000000000000000000000
  {
    TenTo73();
    PowAdd(10, 73, 73);
  }

  lemma TwoToTheWidth()
    ensures Pow(2, 485) < Pow(10, 146)
  {
    TwoTo485();
    TenTo146();
  }

  /** For every width `b`, the bound is enough for every number of `b` bits. */
  lemma BoundSuffices(b: nat, n: nat)
    requires b >= 1 && n < Pow(2, b)
    ensures Digits(n) <= BitsStrlenBound(b)
  {
    var d := BitsStrlenBound(b);
    assert 146 * b <= 485 * d;
    DigitsIff(n, d);
    if Pow(10, d) < Pow(2, b) {
      // raise both sides to the power 485
      PowStrictlyMonotonic(Pow(10, d), Pow(2, b), 485);
      PowPow(10, d, 485);
      PowPow(2, b, 485);
      PowPow(2, 485, b);
      PowPow(10, 146, b);
      assert b * 485 == 485 * b && d * 485 == 485 * d;
      TwoToTheWidth();
      PowMonotonic(Pow(2, 485), Pow(10, 146), b);
      ExponentMonotonic(10, 146 * b, 485 * d);
    }
  }

  lemma {:induction false} PowStrictlyMonotonic(a: nat, b: nat, e: nat)
    requires a < b && e > 0
    ensures Pow(a, e) < Pow(b, e)
  {
    PowMonotonic(a, b, e - 1);
    var x, y := Pow(a, e - 1), Pow(b, e - 1);
    assert y > 0;
    MulMonotonic(a, b - 1, x, y);
    assert b * y == (b - 1) * y + y;
  }
}
