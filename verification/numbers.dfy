/** Greatest common divisors over the integers, through Bezout's identity. */
module Numbers {

  function Abs(x: int): nat { if x < 0 then -x else x }

  /** Division and remainder as C++ has them: the quotient is truncated toward zero. */
  function CDiv(a: int, b: int): int
    requires b != 0
  {
    if (a < 0) == (b < 0) then Abs(a) / Abs(b) else -(Abs(a) / Abs(b))
  }

  function CMod(a: int, b: int): int
    requires b != 0
  {
    a - CDiv(a, b) * b
  }

  /** The remainder is smaller than the divisor and has the sign of the dividend. */
  lemma CModBounds(a: int, b: int)
    requires b != 0
    ensures Abs(CMod(a, b)) == Abs(a) % Abs(b) < Abs(b)
    ensures a >= 0 ==> CMod(a, b) >= 0
    ensures a <= 0 ==> CMod(a, b) <= 0
  {
    var q, r := Abs(a) / Abs(b), Abs(a) % Abs(b);
    assert Abs(a) == q * Abs(b) + r;
    if (a < 0) == (b < 0) {
      assert q * b == if b < 0 then -(q * Abs(b)) else q * Abs(b);
    } else {
      assert -q * b == if b < 0 then q * Abs(b) else -(q * Abs(b));
    }
  }

  function NatGcd(a: nat, b: nat): (g: nat)
    ensures g == 0 <==> a == 0 && b == 0
    decreases b
  {
    if b == 0 then a else NatGcd(b, a % b)
  }

  function Gcd(a: int, b: int): nat { NatGcd(Abs(a), Abs(b)) }

  ghost predicate IsMultiple(n: int, d: int, k: int) { n == d * k }

  ghost predicate Divides(d: int, n: int) { exists k :: IsMultiple(n, d, k) }

  lemma {:induction false} NatBezout(a: nat, b: nat) returns (x: int, y: int, p: nat, q: nat)
    ensures x * a + y * b == NatGcd(a, b)
    ensures a == NatGcd(a, b) * p && b == NatGcd(a, b) * q
    decreases b
  {
    if b == 0 {
      x, y, p, q := 1, 0, 1, 0;
    } else {
      var x2, y2, p2, q2 := NatBezout(b, a % b);
      var d := Quotient(a, b);
      BezoutStep(a, b, d, NatGcd(a, b), x2, y2, p2, q2);
      MulNonneg(p2, d);
      x, y := y2, x2 - y2 * d;
      p, q := p2 * d + q2, p2;
    }
  }

  lemma Quotient(a: nat, b: nat) returns (d: nat)
    requires b > 0
    ensures a - b * d == a % b
  {
    d := a / b;
  }

  lemma MulNonneg(a: nat, b: nat)
    ensures a * b >= 0
  {
  }

  lemma BezoutStep(a: int, b: int, d: int, g: int, x: int, y: int, p: int, q: int)
    requires x * b + y * (a - b * d) == g && b == g * p && a - b * d == g * q
    ensures y * a + (x - y * d) * b == g
    ensures a == g * (p * d + q)
  {
    calc {
      y * a + (x - y * d) * b;
      y * a + x * b - (y * d) * b;
      { assert (y * d) * b == y * (b * d); }
      x * b + y * a - y * (b * d);
      g;
    }
    assert g * (p * d + q) == (g * p) * d + g * q;
  }

  /** The gcd divides both numbers and is a combination of them. */
  lemma Bezout(a: int, b: int) returns (x: int, y: int, p: int, q: int)
    ensures x * a + y * b == Gcd(a, b)
    ensures a == Gcd(a, b) * p && b == Gcd(a, b) * q
  {
    hide NatGcd;
    x, y, p, q := NatBezout(Abs(a), Abs(b));
    var g := Gcd(a, b);
    SignsCancel(x, a);
    SignsCancel(y, b);
    SignsCancel(g, p);
    SignsCancel(g, q);
    if a < 0 { x, p := -x, -p; }
    if b < 0 { y, q := -y, -q; }
  }

  lemma SignsCancel(x: int, y: int)
    ensures (-x) * y == x * (-y) == -(x * y)
  {
  }

  /** Every common divisor divides the gcd, and the gcd is one of them. */
  lemma GcdIsGreatest(a: int, b: int, d: int)
    ensures Divides(d, a) && Divides(d, b) <==> Divides(d, Gcd(a, b))
  {
    var x, y, p, q := Bezout(a, b);
    var g := Gcd(a, b);
    if Divides(d, a) && Divides(d, b) {
      CombinationDivides(d, a, b, x, y);
    }
    if Divides(d, g) {
      CombinationDivides(d, g, g, p, 0);
      CombinationDivides(d, g, g, q, 0);
    }
  }

  lemma CombinationDivides(d: int, a: int, b: int, x: int, y: int)
    requires Divides(d, a) && Divides(d, b)
    ensures Divides(d, x * a + y * b)
  {
    var i :| IsMultiple(a, d, i);
    var j :| IsMultiple(b, d, j);
    TakeOut(d, x, i, y, j);
    assert x * a == x * (d * i) && y * b == y * (d * j);
    assert IsMultiple(x * a + y * b, d, x * i + y * j);
  }

  /** Coprimality is a combination equal to one. */
  lemma CoprimeFrom(a: int, b: int, x: int, y: int)
    requires x * a + y * b == 1
    ensures Gcd(a, b) == 1
  {
    var x2, y2, p, q := Bezout(a, b);
    var g := Gcd(a, b);
    TakeOut(g, x, p, y, q);
    UnitFactor(g, x * p + y * q);
  }

  lemma TakeOut(g: int, x: int, p: int, y: int, q: int)
    ensures x * (g * p) + y * (g * q) == g * (x * p + y * q)
  {
    assert x * (g * p) == g * (x * p) && y * (g * q) == g * (y * q);
  }

  lemma MulGrows(g: nat, k: int)
    ensures k >= 1 ==> g * k >= g
    ensures k <= -1 ==> g * k + g <= 0
  {
  }

  lemma UnitFactor(g: nat, k: int)
    requires g * k == 1
    ensures g == 1
  {
    MulGrows(g, k);
  }

  lemma CoprimeSymmetric(a: int, b: int)
    requires Gcd(a, b) == 1
    ensures Gcd(b, a) == 1
  {
    var x, y, p, q := Bezout(a, b);
    CoprimeFrom(b, a, y, x);
  }

  /** A number coprime to two others is coprime to their product. */
  lemma CoprimeProduct(t: int, u: int, v: int)
    requires Gcd(t, u) == 1 && Gcd(t, v) == 1
    ensures Gcd(t, u * v) == 1
  {
    var x, y, p, q := Bezout(t, u);
    var z, w, p2, q2 := Bezout(t, v);
    ProductIdentity(t, u, v, x, y, z, w);
    CoprimeFrom(t, u * v, x * (z * t + w * v) + y * u * z, y * w);
  }

  lemma ProductIdentity(t: int, u: int, v: int, x: int, y: int, z: int, w: int)
    requires x * t + y * u == 1 && z * t + w * v == 1
    ensures (x * (z * t + w * v) + y * u * z) * t + (y * w) * (u * v) == 1
  {
    var e := z * t + w * v;
    calc {
      (x * e + y * u * z) * t + (y * w) * (u * v);
      { assert (x * e) * t == (x * t) * e; }
      (x * t) * e + (y * u * z) * t + (y * w) * (u * v);
      { assert (y * u * z) * t == (y * u) * (z * t) && (y * w) * (u * v) == (y * u) * (w * v); }
      (x * t) * e + (y * u) * (z * t) + (y * u) * (w * v);
      { assert (y * u) * (z * t) + (y * u) * (w * v) == (y * u) * e; }
      (x * t) * e + (y * u) * e;
      1;
    }
  }

  /** Coprimality passes to divisors. */
  lemma CoprimeDivisor(a: int, b: int, k: int, t: int)
    requires Gcd(t, b) == 1 && t == a * k
    ensures Gcd(a, b) == 1
  {
    var x, y, p, q := Bezout(t, b);
    assert x * (a * k) == (x * k) * a;
    CoprimeFrom(a, b, x * k, y);
  }

  /** Adding a multiple of b does not change what a number shares with b. */
  lemma CoprimeShift(a: int, b: int, k: int)
    requires Gcd(a, b) == 1
    ensures Gcd(a + k * b, b) == 1
  {
    var x, y, p, q := Bezout(a, b);
    assert x * (a + k * b) + (y - x * k) * b == x * a + y * b by {
      assert x * (a + k * b) == x * a + x * (k * b);
      assert x * (k * b) == (x * k) * b;
    }
    CoprimeFrom(a + k * b, b, x, y - x * k);
  }

  /** Dividing both numbers by their gcd leaves coprime numbers; the divisions are exact. */
  lemma Cofactors(a: int, b: int)
    requires a != 0 || b != 0
    ensures var g := Gcd(a, b);
            && g > 0
            && a == g * CDiv(a, g) && b == g * CDiv(b, g)
            && Gcd(CDiv(a, g), CDiv(b, g)) == 1
  {
    var x, y, p, q := Bezout(a, b);
    var g := Gcd(a, b);
    ExactQuotient(a, g, p);
    ExactQuotient(b, g, q);
    TakeOut(g, x, p, y, q);
    Cancel(g, x * p + y * q, 1);
    CoprimeFrom(p, q, x, y);
  }

  lemma ExactQuotient(a: int, g: nat, p: int)
    requires g > 0 && a == g * p
    ensures CDiv(a, g) == p
  {
    Sign(g, p);
    var q, r := Abs(a) / g, Abs(a) % g;
    assert Abs(a) == g * Abs(p);
    assert g * (Abs(p) - q) == r;
    SmallMultiple(g, Abs(p) - q, r);
  }

  lemma Sign(g: nat, p: int)
    requires g > 0
    ensures g * p < 0 <==> p < 0
    ensures Abs(g * p) == g * Abs(p)
  {
  }

  lemma SmallMultiple(g: nat, k: int, r: nat)
    requires r < g && g * k == r
    ensures k == 0
  {
    MulGrows(g, k);
  }

  lemma Cancel(g: int, x: int, y: int)
    requires g != 0 && g * x == g * y
    ensures x == y
  {
    assert g * (x - y) == 0;
  }

  /** A number coprime to a that divides a multiple of a divides the cofactor. */
  lemma CoprimeDivides(a: int, b: int, d: int, c: int) returns (k: int)
    requires Gcd(a, b) == 1 && a * d == c * b
    ensures d == b * k
  {
    hide Gcd;
    var x, y, p, q := Bezout(a, b);
    k := x * c + y * d;
    CombinationTimes(x, a, y, b, d);
    FactorOut(x, c, b, y * d);
  }

  lemma CombinationTimes(x: int, a: int, y: int, b: int, d: int)
    ensures (x * a + y * b) * d == x * (a * d) + b * (y * d)
  {
    assert (x * a) * d == x * (a * d) && (y * b) * d == b * (y * d);
  }

  lemma FactorOut(x: int, c: int, b: int, z: int)
    ensures x * (c * b) + b * z == b * (x * c + z)
  {
    assert x * (c * b) == b * (x * c);
  }

  lemma PositiveMultiple(b: int, d: int, k: int)
    requires b > 0 && d > 0 && d == b * k
    ensures b <= d
  {
    MulGrows(b, k);
  }
}
