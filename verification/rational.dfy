/**
 `mars_boost::rational` (`native/mars/boost/rational.hpp`) over unbounded
 integers: fractions kept with a positive denominator and no common factor.
 `integer::gcd` is the greatest common divisor of the absolute values.
 */
module Rationals {

  import opened Numbers

  ghost predicate Normal(n: int, d: int) { d > 0 && Gcd(n, d) == 1 }

  /** n/d and p/q denote the same number (for nonzero denominators). */
  ghost predicate SameValue(n: int, d: int, p: int, q: int) { n * q == p * d }

  // ----- normal forms -----

  /** A value has only one normal form, so comparing the fields decides equality. */
  lemma NormalFormIsUnique(a: int, b: int, c: int, d: int)
    requires Normal(a, b) && Normal(c, d)
    ensures SameValue(a, b, c, d) <==> a == c && b == d
  {
    if SameValue(a, b, c, d) {
      var k := CoprimeDivides(a, b, d, c);
      var l := CoprimeDivides(c, d, b, a);
      PositiveMultiple(b, d, k);
      PositiveMultiple(d, b, l);
      Cancel(b, a, c);
    }
  }

  /** Sum and difference of normal fractions divided by the small gcd only, as `+=` and `-=` do. */
  lemma SumIsNormal(a: int, b: int, c: int, d: int)
    requires Normal(a, b) && Normal(c, d)
    ensures var g := Gcd(b, d);
            && g > 0
            && var b1 := CDiv(b, g);
            var t := a * CDiv(d, g) + c * b1;
            var h := Gcd(t, g);
            && h > 0
            && var n, m := CDiv(t, h), b1 * CDiv(d, h);
            && Normal(n, m)
            && SameValue(n, m, a * d + c * b, b * d)
  {
    Cofactors(b, d);
    var g := Gcd(b, d);
    var b1, d1 := CDiv(b, g), CDiv(d, g);
    var t := a * d1 + c * b1;
    SumNumerator(a, b, c, d, g, b1, d1);
    Cofactors(t, g);
    var h := Gcd(t, g);
    var n, e := CDiv(t, h), CDiv(g, h);
    SumQuotient(d, g, h, d1, e);
    CoprimeDivisor(n, b1, h, t);
    CoprimeDivisor(n, d1, h, t);
    CoprimeProduct(n, d1, e);
    CoprimeProduct(n, b1, d1 * e);
    SumValue(a, b, c, d, g, b1, d1, h, n, e);
  }

  /** The combined numerator shares no factor with either cofactor of the denominators. */
  lemma SumNumerator(a: int, b: int, c: int, d: int, g: int, b1: int, d1: int)
    requires Gcd(a, b) == 1 && Gcd(c, d) == 1 && Gcd(b1, d1) == 1
    requires b == g * b1 && d == g * d1
    ensures Gcd(a * d1 + c * b1, b1) == 1 && Gcd(a * d1 + c * b1, d1) == 1
  {
    CoprimeSymmetric(a, b);
    CoprimeDivisor(b1, a, g, b);
    CoprimeProduct(b1, a, d1);
    CoprimeSymmetric(b1, a * d1);
    CoprimeShift(a * d1, b1, c);
    CoprimeSymmetric(c, d);
    CoprimeDivisor(d1, c, g, d);
    CoprimeSymmetric(b1, d1);
    CoprimeProduct(d1, c, b1);
    CoprimeSymmetric(d1, c * b1);
    CoprimeShift(c * b1, d1, a);
  }

  lemma SumQuotient(d: int, g: int, h: nat, d1: int, e: int)
    requires h > 0 && d == g * d1 && g == h * e
    ensures CDiv(d, h) == d1 * e
  {
    assert (h * e) * d1 == h * (d1 * e);
    ExactQuotient(d, h, d1 * e);
  }

  lemma SumValue(a: int, b: int, c: int, d: int, g: int, b1: int, d1: int, h: int, n: int, e: int)
    requires g > 0 && h > 0 && b > 0 && d > 0
    requires b == g * b1 && d == g * d1 && a * d1 + c * b1 == h * n && g == h * e
    ensures b1 * (d1 * e) > 0
    ensures SameValue(n, b1 * (d1 * e), a * d + c * b, b * d)
  {
    PositiveFactor(g, b1);
    PositiveFactor(g, d1);
    PositiveFactor(h, e);
    PositiveProduct(d1, e);
    PositiveProduct(b1, d1 * e);
    calc {
      a * d + c * b;
      a * (g * d1) + c * (g * b1);
      { TakeOut(g, a, d1, c, b1); }
      g * (h * n);
    }
    calc {
      (a * d + c * b) * (b1 * (d1 * e));
      (g * (h * n)) * (b1 * (d1 * e));
      { Regroup(g, h, n, b1, d1, e); }
      n * ((g * b1) * ((h * e) * d1));
      n * (b * d);
    }
  }

  lemma Regroup(g: int, h: int, n: int, b1: int, d1: int, e: int)
    ensures (g * (h * n)) * (b1 * (d1 * e)) == n * ((g * b1) * ((h * e) * d1))
  {
    assert (g * (h * n)) == n * (g * h);
    assert (n * (g * h)) * (b1 * (d1 * e)) == n * ((g * h) * (b1 * (d1 * e)));
    assert (g * h) * (b1 * (d1 * e)) == (g * b1) * (h * (d1 * e));
    assert h * (d1 * e) == (h * e) * d1;
  }

  lemma PositiveFactor(g: int, k: int)
    requires g > 0 && g * k > 0
    ensures k > 0
  {
  }

  lemma PositiveProduct(x: int, y: int)
    requires x > 0 && y > 0
    ensures x * y > 0
  {
  }

  lemma Normalized(n: int, d: int)
    requires d != 0
    ensures var g := Gcd(n, d);
            && g > 0 && CDiv(d, g) != 0
            && Gcd(CDiv(n, g), CDiv(d, g)) == 1
            && SameValue(CDiv(n, g), CDiv(d, g), n, d)
  {
    Cofactors(n, d);
    var g := Gcd(n, d);
    SignOfFactor(g, CDiv(d, g));
    CommonFactor(g, CDiv(n, g), CDiv(d, g));
  }

  lemma CommonFactor(g: int, x: int, y: int)
    ensures x * (g * y) == (g * x) * y
  {
  }

  /** Product of fractions reduced crosswise, as `*=` and `/=` do, whatever the signs. */
  lemma CrossReduced(a: int, b: int, c: int, d: int)
    requires b != 0 && d != 0 && Gcd(a, b) == 1 && Gcd(c, d) == 1
    ensures var g1, g2 := Gcd(a, d), Gcd(c, b);
            && g1 > 0 && g2 > 0
            && var n, m := CDiv(a, g1) * CDiv(c, g2), CDiv(b, g2) * CDiv(d, g1);
            && Gcd(n, m) == 1
            && SameValue(n, m, a * c, b * d)
            && m != 0 && (m > 0 <==> (b > 0 <==> d > 0))
  {
    Cofactors(a, d);
    Cofactors(c, b);
    var g1, g2 := Gcd(a, d), Gcd(c, b);
    var p, s, r, q := CDiv(a, g1), CDiv(d, g1), CDiv(c, g2), CDiv(b, g2);
    CoprimeCofactors(a, b, g1, p, g2, q);
    CoprimeCofactors(c, d, g2, r, g1, s);
    CoprimeSymmetric(r, q);
    FourCoprime(p, r, q, s);
    SignOfFactor(g2, q);
    SignOfFactor(g1, s);
    SignOfProduct(q, s);
    CrossValue(p, r, q, s, g1, g2);
  }

  lemma CrossValue(p: int, r: int, q: int, s: int, g1: int, g2: int)
    ensures (p * r) * ((g2 * q) * (g1 * s)) == ((g1 * p) * (g2 * r)) * (q * s)
  {
    calc {
      (p * r) * ((g2 * q) * (g1 * s));
      { Interchange(g2, q, g1, s); }
      (p * r) * ((g2 * g1) * (q * s));
      { assert (p * r) * ((g2 * g1) * (q * s)) == ((p * r) * (g1 * g2)) * (q * s); }
      ((g1 * g2) * (p * r)) * (q * s);
      { Interchange(g1, p, g2, r); }
      ((g1 * p) * (g2 * r)) * (q * s);
    }
  }

  lemma Interchange(a: int, b: int, c: int, d: int)
    ensures (a * b) * (c * d) == (a * c) * (b * d)
  {
  }

  lemma CoprimeCofactors(a: int, b: int, g: int, p: int, h: int, q: int)
    requires Gcd(a, b) == 1 && a == g * p && b == h * q
    ensures Gcd(p, q) == 1
  {
    CoprimeDivisor(p, b, g, a);
    CoprimeSymmetric(p, b);
    CoprimeDivisor(q, p, h, b);
    CoprimeSymmetric(q, p);
  }

  lemma FourCoprime(p: int, r: int, q: int, s: int)
    requires Gcd(p, q) == 1 && Gcd(p, s) == 1 && Gcd(q, r) == 1 && Gcd(r, s) == 1
    ensures Gcd(p * r, q * s) == 1
  {
    CoprimeProduct(p, q, s);
    CoprimeSymmetric(q, r);
    CoprimeProduct(r, q, s);
    CoprimeSymmetric(p, q * s);
    CoprimeSymmetric(r, q * s);
    CoprimeProduct(q * s, p, r);
    CoprimeSymmetric(q * s, p * r);
  }

  lemma SignOfFactor(g: int, k: int)
    requires g > 0
    ensures g * k > 0 <==> k > 0
    ensures g * k != 0 <==> k != 0
  {
  }

  lemma SignOfProduct(x: int, y: int)
    requires x != 0 && y != 0
    ensures x * y != 0 && (x * y > 0 <==> (x > 0 <==> y > 0))
  {
  }

  lemma CoprimeToOne(a: int)
    ensures Gcd(a, 1) == 1 && Gcd(1, a) == 1
    ensures CDiv(a, 1) == a
  {
    CoprimeFrom(a, 1, 0, 1);
    CoprimeFrom(1, a, 1, 0);
  }

  // ----- the recursive test for normal form -----

  /** `inner_gcd`: Euclid's algorithm with truncated remainders, so of either sign. */
  function InnerGcd(a: int, b: int): int
    decreases Abs(b)
  {
    if b == 0 then a else
      CModBounds(a, b);
      InnerGcd(b, CMod(a, b))
  }

  lemma {:induction false} InnerGcdIsGcd(a: int, b: int)
    ensures Abs(InnerGcd(a, b)) == Gcd(a, b)
    decreases Abs(b)
  {
    if b != 0 {
      CModBounds(a, b);
      InnerGcdIsGcd(b, CMod(a, b));
    }
  }

  function IsNormalized(n: int, d: int): bool {
    d > 0 && (n != 0 || d == 1) && Abs(InnerGcd(n, d)) == 1
  }

  lemma IsNormalizedDecides(n: int, d: int)
    ensures IsNormalized(n, d) <==> Normal(n, d)
  {
    InnerGcdIsGcd(n, d);
    if n == 0 {
      assert Gcd(0, d) == Abs(d) by { assert d != 0 ==> 0 % Abs(d) == 0; }
    }
  }

  // ----- comparison by continued fractions -----

  /** One cycle of an expansion: n = q * d + r with the remainder in range. */
  ghost predicate Cycle(n: int, d: int, q: int, r: int) {
    n == q * d + r && 0 <= r < d
  }

  ghost predicate Less(n: int, d: int, p: int, q: int) { n * q < p * d }

  lemma FloorDecides(n: int, d: int, q: int, r: int, n2: int, d2: int, q2: int, r2: int)
    requires Cycle(n, d, q, r) && Cycle(n2, d2, q2, r2) && q < q2
    ensures Less(n, d, n2, d2)
  {
    assert n < (q + 1) * d;
    TimesMonotone(q + 1, q2, d);
    assert n < q2 * d;
    assert n * d2 < (q2 * d) * d2;
    assert (q2 * d) * d2 == (q2 * d2) * d;
    TimesMonotone(q2 * d2, n2, d);
  }

  lemma TimesMonotone(x: int, y: int, d: int)
    requires x <= y && d > 0
    ensures x * d <= y * d
  {
  }

  /** With equal quotients the remainders decide; reciprocals turn the order around. */
  lemma RemaindersDecide(n: int, d: int, q: int, r: int, n2: int, d2: int, r2: int)
    requires Cycle(n, d, q, r) && Cycle(n2, d2, q, r2)
    ensures Less(n, d, n2, d2) <==> Less(d2, r2, d, r)
    ensures Less(n2, d2, n, d) <==> Less(d, r, d2, r2)
  {
    assert n * d2 == (q * d) * d2 + r * d2;
    assert n2 * d == (q * d2) * d + r2 * d;
    assert (q * d) * d2 == (q * d2) * d;
  }

  lemma SignOfRemainders(d: int, r: int, d2: int, r2: int)
    requires d > 0 && d2 > 0 && r >= 0 && r2 >= 0 && (r == 0 || r2 == 0)
    ensures Less(d2, r2, d, r) <==> r == 0 && r2 != 0
    ensures Less(d, r, d2, r2) <==> r != 0 && r2 == 0
  {
    assert r > 0 ==> d2 * r > 0;
    assert r2 > 0 ==> d * r2 > 0;
  }

  /** Floor division by adding the denominator back while the truncated remainder is negative. */
  method FloorCycle(n: int, d: int) returns (q: int, r: int)
    requires d > 0
    ensures Cycle(n, d, q, r)
  {
    CModBounds(n, d);
    q, r := CDiv(n, d), CMod(n, d);
    while r < 0
      invariant n == q * d + r && -d < r < d
      decreases -r
    {
      r, q := r + d, q - 1;
    }
  }

  method TruncatedCycle(n: int, d: int) returns (q: int, r: int)
    requires n >= 0 && d > 0
    ensures Cycle(n, d, q, r)
  {
    CModBounds(n, d);
    q, r := CDiv(n, d), CMod(n, d);
  }

  class Rational {
    var num: int
    var den: int

    ghost predicate Valid()
      reads this
    {
      Normal(num, den)
    }

    constructor (n: int)
      ensures Valid() && num == n && den == 1
    {
      num, den := n, 1;
      CoprimeToOne(n);
    }

    /** Refuses (by an exception) a zero denominator only. */
    method Normalize() returns (ok: bool)
      modifies this
      ensures ok <==> old(den) != 0
      ensures ok ==> Valid() && SameValue(num, den, old(num), old(den))
      ensures !ok ==> num == old(num) && den == old(den)
    {
      if den == 0 {
        return false;
      }
      if num == 0 {
        den := 1;
        CoprimeToOne(0);
        return true;
      }
      Normalized(num, den);
      var g := Gcd(num, den);
      num, den := CDiv(num, g), CDiv(den, g);
      if den < 0 {
        SameValueNegated(num, den, old(num), old(den));
        num, den := -num, -den;
      }
      return true;
    }

    /** `assign`: the target keeps its value when the fraction is refused. */
    method Assign(n: int, d: int) returns (ok: bool)
      requires Valid()
      modifies this
      ensures Valid() && (ok <==> d != 0)
      ensures if ok then SameValue(num, den, n, d) else num == old(num) && den == old(den)
    {
      var candidate := new Rational(n);
      candidate.den := d;
      ok := candidate.Normalize();
      if ok {
        num, den := candidate.num, candidate.den;
      }
    }

    method AddAssign(r: Rational)
      requires Valid() && r.Valid()
      modifies this
      ensures Valid()
      ensures SameValue(num, den, old(num) * old(r.den) + old(r.num) * old(den), old(den) * old(r.den))
    {
      var rNum, rDen := r.num, r.den;
      SumIsNormal(num, den, rNum, rDen);
      var g := Gcd(den, rDen);
      den := CDiv(den, g);
      num := num * CDiv(rDen, g) + rNum * den;
      g := Gcd(num, g);
      num := CDiv(num, g);
      den := den * CDiv(rDen, g);
    }

    method SubAssign(r: Rational)
      requires Valid() && r.Valid()
      modifies this
      ensures Valid()
      ensures SameValue(num, den, old(num) * old(r.den) - old(r.num) * old(den), old(den) * old(r.den))
    {
      var rNum, rDen := r.num, r.den;
      SumIsNormal(num, den, -rNum, rDen);
      NegatedProduct(rNum, den);
      var g := Gcd(den, rDen);
      den := CDiv(den, g);
      NegatedProduct(rNum, den);
      num := num * CDiv(rDen, g) - rNum * den;
      g := Gcd(num, g);
      num := CDiv(num, g);
      den := den * CDiv(rDen, g);
    }

    method MulAssign(r: Rational)
      requires Valid() && r.Valid()
      modifies this
      ensures Valid()
      ensures SameValue(num, den, old(num) * old(r.num), old(den) * old(r.den))
    {
      var rNum, rDen := r.num, r.den;
      CrossReduced(num, den, rNum, rDen);
      var gcd1 := Gcd(num, rDen);
      var gcd2 := Gcd(rNum, den);
      num := CDiv(num, gcd1) * CDiv(rNum, gcd2);
      den := CDiv(den, gcd2) * CDiv(rDen, gcd1);
    }

    /** Refuses a zero divisor, which leaves the value alone. */
    method DivAssign(r: Rational) returns (ok: bool)
      requires Valid() && r.Valid()
      modifies this
      ensures Valid() && (ok <==> old(r.num) != 0)
      ensures if ok then SameValue(num, den, old(num) * old(r.den), old(den) * old(r.num))
              else num == old(num) && den == old(den)
    {
      var rNum, rDen := r.num, r.den;
      if rNum == 0 {
        return false;
      }
      if num == 0 {
        return true;
      }
      CoprimeSymmetric(rNum, rDen);
      CrossReduced(num, den, rDen, rNum);
      var gcd1 := Gcd(num, rNum);
      var gcd2 := Gcd(rDen, den);
      num := CDiv(num, gcd1) * CDiv(rDen, gcd2);
      den := CDiv(den, gcd2) * CDiv(rNum, gcd1);
      if den < 0 {
        SameValueNegated(num, den, old(num) * rDen, old(den) * rNum);
        num, den := -num, -den;
      }
      return true;
    }

    method AddInteger(i: int)
      requires Valid()
      modifies this
      ensures Valid() && den == old(den) && num == old(num) + i * old(den)
    {
      CoprimeShift(num, den, i);
      num := num + i * den;
    }

    method SubInteger(i: int)
      requires Valid()
      modifies this
      ensures Valid() && den == old(den) && num == old(num) - i * old(den)
    {
      CoprimeShift(num, den, -i);
      NegatedProduct(i, den);
      num := num - i * den;
    }

    method MulInteger(i: int)
      requires Valid()
      modifies this
      ensures Valid() && SameValue(num, den, old(num) * i, old(den))
    {
      CoprimeToOne(num);
      CoprimeToOne(i);
      CrossReduced(num, den, i, 1);
      var gcd := Gcd(i, den);
      CoprimeToOne(1);
      num := num * CDiv(i, gcd);
      den := CDiv(den, gcd);
    }

    method DivInteger(i: int) returns (ok: bool)
      requires Valid()
      modifies this
      ensures Valid() && (ok <==> i != 0)
      ensures if ok then SameValue(num, den, old(num), old(den) * i) else num == old(num) && den == old(den)
    {
      if i == 0 {
        return false;
      }
      if num == 0 {
        return true;
      }
      CoprimeToOne(i);
      CoprimeToOne(den);
      CrossReduced(num, den, 1, i);
      CoprimeToOne(1);
      var gcd := Gcd(num, i);
      num := CDiv(num, gcd);
      den := den * CDiv(i, gcd);
      if den < 0 {
        SameValueNegated(num, den, old(num), old(den) * i);
        num, den := -num, -den;
      }
      return true;
    }

    /** Decides the order of two fractions without multiplying them out. */
    method LessThan(r: Rational) returns (less: bool)
      requires Valid() && r.Valid()
      ensures less <==> Less(num, den, r.num, r.den)
    {
      var tn, td, rn, rd := num, den, r.num, r.den;
      var tq, tr := FloorCycle(tn, td);
      var rq, rr := FloorCycle(rn, rd);
      var reverse := false;
      while true
        invariant Cycle(tn, td, tq, tr) && Cycle(rn, rd, rq, rr)
        invariant Less(num, den, r.num, r.den) <==> if reverse then Less(rn, rd, tn, td) else Less(tn, td, rn, rd)
        decreases td
      {
        if tq != rq {
          QuotientsDecide(tn, td, tq, tr, rn, rd, rq, rr);
          return if reverse then tq > rq else tq < rq;
        }
        RemaindersDecide(tn, td, tq, tr, rn, rd, rr);
        reverse := !reverse;
        if tr == 0 || rr == 0 {
          break;
        }
        tn, td, rn, rd := td, tr, rd, rr;
        tq, tr := TruncatedCycle(tn, td);
        rq, rr := TruncatedCycle(rn, rd);
      }
      SignOfRemainders(td, tr, rd, rr);
      if tr == rr {
        return false;
      } else {
        return (tr != 0) != reverse;
      }
    }

    method Equals(r: Rational) returns (equal: bool)
      requires Valid() && r.Valid()
      ensures equal <==> SameValue(num, den, r.num, r.den)
    {
      NormalFormIsUnique(num, den, r.num, r.den);
      return num == r.num && den == r.den;
    }

    method LessThanInteger(i: int) returns (less: bool)
      requires Valid()
      ensures less <==> num < i * den
    {
      var q, r := FloorCycle(num, den);
      FloorBelow(num, den, q, r, i);
      return q < i;
    }

    method GreaterThanInteger(i: int) returns (greater: bool)
      requires Valid()
      ensures greater <==> num > i * den
    {
      CoprimeToOne(i);
      NormalFormIsUnique(num, den, i, 1);
      if den == 1 && num == i {
        return false;
      }
      var less := LessThanInteger(i);
      return !less;
    }
  }

  lemma QuotientsDecide(n: int, d: int, q: int, r: int, n2: int, d2: int, q2: int, r2: int)
    requires Cycle(n, d, q, r) && Cycle(n2, d2, q2, r2) && q != q2
    ensures Less(n, d, n2, d2) <==> q < q2
    ensures Less(n2, d2, n, d) <==> q > q2
  {
    if q < q2 {
      FloorDecides(n, d, q, r, n2, d2, q2, r2);
    } else {
      FloorDecides(n2, d2, q2, r2, n, d, q, r);
    }
  }

  lemma FloorBelow(n: int, d: int, q: int, r: int, i: int)
    requires Cycle(n, d, q, r)
    ensures q < i <==> n < i * d
  {
    if q < i {
      TimesMonotone(q + 1, i, d);
    } else {
      TimesMonotone(i, q, d);
    }
  }

  lemma NegatedProduct(x: int, y: int)
    ensures (-x) * y == -(x * y)
  {
  }

  lemma SameValueNegated(n: int, d: int, p: int, q: int)
    requires SameValue(n, d, p, q)
    ensures SameValue(-n, -d, p, q)
  {
    assert p * (-d) == -(p * d);
    NegatedProduct(n, q);
  }
}
