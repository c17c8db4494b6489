/** How good the bound of lib/intprops.h on the number of digits is: the comment of the macro says that
    it is tight for every width below 2621, and not at 2621. */
module IntBoundTightness {
  import opened IntProps

  // ----- Bounding the quotient of two powers -----

  /** The `e`th power of x / y is at most p / q. */
  ghost predicate AtMost(x: nat, y: nat, e: nat, p: nat, q: nat) {
    Pow(x, e) * q <= p * Pow(y, e)
  }

  lemma SumOfExponents(x: nat, y: nat, e: nat, f: nat, p1: nat, q1: nat, p2: nat, q2: nat, p: nat, q: nat)
    requires AtMost(x, y, e, p1, q1) && AtMost(x, y, f, p2, q2)
    requires q1 > 0 && q2 > 0 && p1 * p2 * q <= p * (q1 * q2)
    ensures AtMost(x, y, e + f, p, q)
  {
    PowAdd(x, e, f);
    PowAdd(y, e, f);
    Multiply(Pow(x, e), Pow(y, e), Pow(x, f), Pow(y, f), p1, q1, p2, q2, p, q);
  }

  lemma Multiply(a: nat, b: nat, c: nat, d: nat, p1: nat, q1: nat, p2: nat, q2: nat, p: nat, q: nat)
    requires a * q1 <= p1 * b && c * q2 <= p2 * d
    requires q1 > 0 && q2 > 0 && p1 * p2 * q <= p * (q1 * q2)
    ensures a * c * q <= p * (b * d)
  {
    var n, bd := q1 * q2, b * d;
    MulMonotonic(a * q1, p1 * b, c * q2, p2 * d);
    assert (a * q1) * (c * q2) == (a * c) * n by { Regroup(a, q1, c, q2); }
    assert (p1 * b) * (p2 * d) == (p1 * p2) * bd by { Regroup(p1, b, p2, d); }
    MulMonotonic((a * c) * n, (p1 * p2) * bd, q, q);
    MulMonotonic(p1 * p2 * q, p * n, bd, bd);
    assert ((a * c) * n) * q == (a * c * q) * n by { Swap(a * c, n, q); }
    assert ((p1 * p2) * bd) * q == (p1 * p2 * q) * bd by { Swap(p1 * p2, bd, q); }
    assert (p * n) * bd == (p * bd) * n by { Swap(p, n, bd); }
    Cancel(a * c * q, p * bd, n);
  }

  lemma Regroup(a: nat, b: nat, c: nat, d: nat)
    ensures (a * b) * (c * d) == (a * c) * (b * d)
  {
    MulAssociative(a, b, c * d);
    MulAssociative(b, c, d);
    MulAssociative(a, c, b * d);
    MulAssociative(c, b, d);
    assert b * c == c * b;
  }

  lemma Swap(a: nat, b: nat, c: nat)
    ensures (a * b) * c == (a * c) * b
  {
    MulAssociative(a, b, c);
    MulAssociative(a, c, b);
    assert b * c == c * b;
  }

  lemma Cancel(a: nat, b: nat, n: nat)
    requires n > 0 && a * n <= b * n
    ensures a <= b
  {
    if a > b {
      StrictlyLess(n, b, a);
    }
  }

  /** A smaller power of a quotient that is at least 1 has no larger bound. */
  lemma SmallerExponent(x: nat, y: nat, e: nat, f: nat, p: nat, q: nat)
    requires AtMost(x, y, f, p, q) && e <= f && 0 < y <= x
    ensures AtMost(x, y, e, p, q)
  {
    var g := f - e;
    PowAdd(x, e, g);
    PowAdd(y, e, g);
    PowMonotonic(y, x, g);
    var a, b, c, d := Pow(x, e), Pow(y, e), Pow(x, g), Pow(y, g);
    MulMonotonic(a * q, a * q, d, c);
    assert (a * q) * c == (a * c) * q by { Swap(a, q, c); }
    assert p * (b * d) == (p * b) * d by { MulAssociative(p, b, d); }
    Cancel(a * q, p * b, d);
  }

  // ----- 10 to the 146th over 2 to the 485th -----

  const SCALE: nat := 100000000

  /** From a bound of the quotient, one of its 2136th power by repeated squaring. */
  lemma Power2136(x: nat, y: nat)
    requires AtMost(x, y, 1, 100104155, SCALE)
    ensures AtMost(x, y, 2136, 924058241, SCALE)
  {
    hide AtMost;
    var s := SCALE;
    SumOfExponents(x, y, 1, 1, 100104155, s, 100104155, s, 100208419, s);
    SumOfExponents(x, y, 2, 2, 100208419, s, 100208419, s, 100417273, s);
    SumOfExponents(x, y, 4, 4, 100417273, s, 100417273, s, 100836288, s);
    SumOfExponents(x, y, 8, 8, 100836288, s, 100836288, s, 101679570, s);
    SumOfExponents(x, y, 16, 16, 101679570, s, 101679570, s, 103387350, s);
    SumOfExponents(x, y, 32, 32, 103387350, s, 103387350, s, 106889442, s);
    SumOfExponents(x, y, 64, 64, 106889442, s, 106889442, s, 114253529, s);
    SumOfExponents(x, y, 128, 128, 114253529, s, 114253529, s, 130538689, s);
    SumOfExponents(x, y, 256, 256, 130538689, s, 130538689, s, 170403494, s);
    SumOfExponents(x, y, 512, 512, 170403494, s, 170403494, s, 290373508, s);
    SumOfExponents(x, y, 1024, 1024, 290373508, s, 290373508, s, 843167742, s);
    SumOfExponents(x, y, 2048, 64, 843167742, s, 106889442, s, 901257295, s);
    SumOfExponents(x, y, 2112, 16, 901257295, s, 101679570, s, 916394543, s);
    SumOfExponents(x, y, 2128, 8, 916394543, s, 100836288, s, 924058241, s);
  }

  /** The same from below, with the quotient upside down. */
  lemma Power2621(x: nat, y: nat)
    requires AtMost(y, x, 1, SCALE, 100104154)
    ensures AtMost(y, x, 2621, SCALE, 1530906540)
  {
    hide AtMost;
    var s := SCALE;
    SumOfExponents(y, x, 1, 1, s, 100104154, s, 100104154, s, 100208416);
    SumOfExponents(y, x, 2, 2, s, 100208416, s, 100208416, s, 100417266);
    SumOfExponents(y, x, 4, 4, s, 100417266, s, 100417266, s, 100836273);
    SumOfExponents(y, x, 8, 8, s, 100836273, s, 100836273, s, 101679539);
    SumOfExponents(y, x, 16, 16, s, 101679539, s, 101679539, s, 103387286);
    SumOfExponents(y, x, 32, 32, s, 103387286, s, 103387286, s, 106889309);
    SumOfExponents(y, x, 64, 64, s, 106889309, s, 106889309, s, 114253243);
    SumOfExponents(y, x, 128, 128, s, 114253243, s, 114253243, s, 130538035);
    SumOfExponents(y, x, 256, 256, s, 130538035, s, 130538035, s, 170401785);
    SumOfExponents(y, x, 512, 512, s, 170401785, s, 170401785, s, 290367683);
    SumOfExponents(y, x, 1024, 1024, s, 290367683, s, 290367683, s, 843133913);
    SumOfExponents(y, x, 2048, 512, s, 843133913, s, 170401785, s, 1436715237);
    SumOfExponents(y, x, 2560, 32, s, 1436715237, s, 103387286, s, 1485380891);
    SumOfExponents(y, x, 2592, 16, s, 1485380891, s, 101679539, s, 1510328442);
    SumOfExponents(y, x, 2608, 8, s, 1510328442, s, 100836273, s, 1522958910);
    SumOfExponents(y, x, 2616, 4, s, 1522958910, s, 100417266, s, 1529313699);
    SumOfExponents(y, x, 2620, 1, s, 1529313699, s, 100104154, s, 1530906540);
  }

  lemma Quotient()
    ensures var x, y := Pow(10, 146), Pow(2, 485);
      0 < y <= x && AtMost(x, y, 1, 100104155, SCALE) && AtMost(y, x, 1, SCALE, 100104154)
  {
    TwoTo485();
    TenTo146();
    FirstPower(Pow(10, 146));
    FirstPower(Pow(2, 485));
  }

  lemma FirstPower(x: nat)
    ensures Pow(x, 1) == x
  {
    assert Pow(x, 1) == x * Pow(x, 0);
  }

  // ----- The bound -----

  /** With 146 b = 485 k + r, the `b`th power of two exceeds the `k`th of ten exactly when the quotient
      to the `b` is below the `r`th of ten. */
  lemma Raised(b: nat, k: nat, r: nat)
    requires 146 * b == 485 * k + r
    ensures Pow(10, k) < Pow(2, b) <==> Pow(Pow(10, 146), b) < Pow(10, r) * Pow(Pow(2, 485), b)
  {
    var t, u := Pow(10, k), Pow(2, b);
    PowPow(10, k, 485);
    PowPow(2, b, 485);
    PowPow(2, 485, b);
    PowPow(10, 146, b);
    PowAdd(10, r, 485 * k);
    assert b * 485 == 485 * b && k * 485 == 485 * k;
    var m := Pow(10, r);
    assert Pow(Pow(10, 146), b) == m * Pow(t, 485);
    assert Pow(Pow(2, 485), b) == Pow(u, 485);
    if t < u {
      PowStrictlyMonotonic(t, u, 485);
      StrictlyLess(m, Pow(t, 485), Pow(u, 485));
    } else {
      PowMonotonic(u, t, 485);
      MulMonotonic(m, m, Pow(u, 485), Pow(t, 485));
    }
  }

  lemma StrictlyLess(m: nat, a: nat, b: nat)
    requires m > 0 && a < b
    ensures m * a < m * b
  {
    assert m * b == m * a + m * (b - a);
    assert m * (b - a) > 0;
  }

  /** Below 2621, the remainder is 1 at 2136 at most. */
  lemma RemainderOne(b: nat, k: nat)
    requires 146 * b == 485 * k + 1 && b < 2621
    ensures b <= 2136
  {
    var m := 196 * k - 59 * b;
    assert b == 485 * m + 196;
  }

  lemma Below(x: nat, y: nat, b: nat, p: nat, m: nat)
    requires AtMost(x, y, b, p, SCALE) && p < m * SCALE && y > 0
    ensures Pow(x, b) < m * Pow(y, b)
  {
    var c, d := Pow(x, b), Pow(y, b);
    if c >= m * d {
      MulMonotonic(m * d, c, SCALE, SCALE);
      Swap(m, d, SCALE);
      assert (m * SCALE) * d <= p * d;
      Cancel(m * SCALE, p, d);
    }
  }

  /** The greatest number of `b` bits has exactly as many digits as the bound says, for every width
      `b` below 2621. */
  lemma TightBelow2621(b: nat)
    requires 1 <= b < 2621
    ensures Pow(2, b) > 0 && Digits(Pow(2, b) - 1) == BitsStrlenBound(b)
  {
    hide Pow, AtMost;
    var n, d := Pow(2, b) - 1, BitsStrlenBound(b);
    BoundSuffices(b, n);
    if d > 1 {
      var k := d - 1;
      var r := 146 * b - 485 * k;
      QuotientIsSmall(b, k, r);
      Raised(b, k, r);
      DigitsIff(n, k);
    }
  }

  lemma QuotientIsSmall(b: nat, k: nat, r: nat)
    requires 146 * b == 485 * k + r && 1 <= r && b < 2621
    ensures Pow(Pow(10, 146), b) < Pow(10, r) * Pow(Pow(2, 485), b)
  {
    hide Pow, AtMost;
    var x, y := Pow(10, 146), Pow(2, 485);
    Quotient();
    Power2136(x, y);
    if r == 1 {
      RemainderOne(b, k);
      SmallerExponent(x, y, b, 2136, 924058241, SCALE);
      Below(x, y, b, 924058241, 10);
      FirstPower(10);
    } else {
      SumOfExponents(x, y, 2136, 2136, 924058241, SCALE, 924058241, SCALE, 9999999999, SCALE);
      SmallerExponent(x, y, b, 4272, 9999999999, SCALE);
      Below(x, y, b, 9999999999, 100);
      TenSquared();
      ExponentMonotonic(10, 2, r);
      MulMonotonic(100, Pow(10, r), Pow(y, b), Pow(y, b));
    }
  }

  lemma TenSquared()
    ensures Pow(10, 2) == 100
  {
    FirstPower(10);
    PowAdd(10, 1, 1);
  }

  /** At 2621 the bound is one too many. */
  lemma NotTightAt2621(b: nat, n: nat)
    requires b == 2621 && n < Pow(2, b)
    ensures Digits(n) < BitsStrlenBound(b)
  {
    hide Pow, AtMost;
    var k := 789;
    QuotientIsLarge(b);
    Raised(b, k, 1);
    DigitsIff(n, k);
  }

  lemma QuotientIsLarge(b: nat)
    requires b == 2621
    ensures Pow(Pow(10, 146), b) >= Pow(10, 1) * Pow(Pow(2, 485), b)
  {
    hide Pow, AtMost;
    var x, y := Pow(10, 146), Pow(2, 485);
    Quotient();
    Power2621(x, y);
    Above(x, y, b, 1530906540, 10);
    FirstPower(10);
  }

  lemma Above(x: nat, y: nat, b: nat, q: nat, m: nat)
    requires AtMost(y, x, b, SCALE, q) && q >= m * SCALE
    ensures Pow(x, b) >= m * Pow(y, b)
  {
    var c, d := Pow(x, b), Pow(y, b);
    MulMonotonic(m * SCALE, q, d, d);
    Swap(m, d, SCALE);
    Cancel(m * d, c, SCALE);
  }
}
