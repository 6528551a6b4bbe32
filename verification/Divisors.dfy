/** Division with remainder, common divisors and multiples. */
module Divisors {
  /** Quotient and remainder are unique. */
  lemma DivModUnique(n: int, d: int, q: int, r: int)
    requires d > 0 && n == q * d + r && 0 <= r < d
    ensures n / d == q && n % d == r
  {
    var q', r' := n / d, n % d;
    assert (q - q') * d == r' - r && (q' - q) * d == r - r';
    if q > q' {
      Scaled(1, q - q', d);
    } else if q < q' {
      Scaled(1, q' - q, d);
    }
  }

  lemma Scaled(a: int, b: int, d: nat)
    requires a <= b
    ensures a * d <= b * d
  {
  }

  lemma MultipleMod(k: int, d: int)
    requires d > 0
    ensures (k * d) % d == 0 && (k * d) / d == k
  {
    DivModUnique(k * d, d, k, 0);
  }

  lemma Quotient(n: int, d: int)
    requires d > 0 && n % d == 0
    ensures n == (n / d) * d
  {
  }

  /** What divides a divisor divides the number. */
  lemma DividesOn(d: int, e: int, n: int)
    requires d > 0 && e > 0 && e % d == 0 && n % e == 0
    ensures n % d == 0
  {
    Quotient(n, e);
    Quotient(e, d);
    assert n == ((n / e) * (e / d)) * d;
    MultipleMod((n / e) * (e / d), d);
  }

  lemma DividesSum(a: int, b: int, d: int)
    requires d > 0 && a % d == 0 && b % d == 0
    ensures (a + b) % d == 0 && (a - b) % d == 0
  {
    Quotient(a, d);
    Quotient(b, d);
    assert a + b == (a / d + b / d) * d && a - b == (a / d - b / d) * d;
    MultipleMod(a / d + b / d, d);
    MultipleMod(a / d - b / d, d);
  }

  lemma DividesProduct(a: int, k: int, d: int)
    requires d > 0 && a % d == 0
    ensures (a * k) % d == 0
  {
    Quotient(a, d);
    assert a * k == ((a / d) * k) * d;
    MultipleMod((a / d) * k, d);
  }

  function Gcd(a: nat, b: nat): (g: nat)
    ensures a > 0 || b > 0 ==> g > 0
    decreases b
  {
    if b == 0 then a else Gcd(b, a % b)
  }

  lemma {:induction false} GcdDivides(a: nat, b: nat)
    requires a > 0 || b > 0
    ensures a % Gcd(a, b) == 0 && b % Gcd(a, b) == 0
    decreases b
  {
    if b == 0 {
      MultipleMod(1, a);
      MultipleMod(0, a);
    } else {
      GcdDivides(b, a % b);
      DividesWhole(a, b, Gcd(b, a % b));
    }
  }

  lemma DividesWhole(a: nat, b: nat, g: nat)
    requires b > 0 && g > 0 && b % g == 0 && (a % b) % g == 0
    ensures a % g == 0
  {
    var q, r := a / b, a % b;
    assert a == b * q + r;
    DividesProduct(b, q, g);
    DividesSum(b * q, r, g);
  }

  /** Every common divisor divides it. */
  lemma {:induction false} GcdGreatest(a: nat, b: nat, d: nat)
    requires d > 0 && a % d == 0 && b % d == 0
    ensures Gcd(a, b) % d == 0
    decreases b
  {
    if b > 0 {
      DividesRest(a, b, d);
      GcdGreatest(b, a % b, d);
    }
  }

  lemma DividesRest(a: nat, b: nat, d: nat)
    requires b > 0 && d > 0 && a % d == 0 && b % d == 0
    ensures (a % b) % d == 0
  {
    var q, r := a / b, a % b;
    assert r == a - b * q;
    DividesProduct(b, q, d);
    DividesSum(a, b * q, d);
  }

  function Lcm(a: nat, b: nat): nat
    requires a > 0 && b > 0
  {
    a / Gcd(a, b) * b
  }

  lemma LcmIsMultiple(a: nat, b: nat)
    requires a > 0 && b > 0
    ensures Lcm(a, b) > 0 && Lcm(a, b) % a == 0 && Lcm(a, b) % b == 0
  {
    var g := Gcd(a, b);
    GcdDivides(a, b);
    Quotient(a, g);
    Quotient(b, g);
    MultipleMod(a / g, b);
    assert a / g * b == (b / g) * a;
    MultipleMod(b / g, a);
    assert a / g > 0;
    Scaled(1, a / g, b);
  }

  /** No other common multiple is less. */
  lemma {:induction false} LcmIsLeast(a: nat, b: nat, m: nat)
    requires a > 0 && b > 0 && m > 0 && m % a == 0 && m % b == 0
    ensures m >= Lcm(a, b)
    decreases m
  {
    var rest := (a * b) % m;
    hide Gcd;
    if rest == 0 {
      Quotient(a * b, m);
      ProductOverMultiple(a, b, m, a * b / m);
    } else {
      MultipleMod(b, a);
      MultipleMod(a, b);
      assert (a * b) % a == 0 && (a * b) % b == 0 by {
        assert b * a == a * b;
      }
      RestIsMultiple(a * b, m, a);
      RestIsMultiple(a * b, m, b);
      LcmIsLeast(a, b, rest);
    }
  }

  lemma RestIsMultiple(n: nat, m: nat, d: nat)
    requires m > 0 && d > 0 && n % d == 0 && m % d == 0
    ensures (n % m) % d == 0
  {
    DividesRest(n, m, d);
  }

  /** If a common multiple divides the product, what is left divides both factors. */
  lemma ProductOverMultiple(a: nat, b: nat, m: nat, d: nat)
    requires a > 0 && b > 0 && m > 0 && m % a == 0 && m % b == 0 && a * b == d * m
    ensures m >= Lcm(a, b)
  {
    var g := Gcd(a, b);
    Positive(a, b);
    assert d > 0;
    FactorOf(a, b, m, d);
    assert b * a == d * m;
    FactorOf(b, a, m, d);
    GcdGreatest(a, b, d);
    GcdDivides(a, b);
    Quotient(g, d);
    GcdTimesLcm(a, b);
    hide Gcd, Lcm;
    Scaled(1, g / d, d);
    SmallerFactor(d, g, m, Lcm(a, b));
  }

  lemma GcdTimesLcm(a: nat, b: nat)
    requires a > 0 && b > 0
    ensures a * b == Gcd(a, b) * Lcm(a, b)
  {
    var g := Gcd(a, b);
    GcdDivides(a, b);
    Quotient(a, g);
    hide Gcd;
    var q := a / g;
    assert (q * g) * b == g * (q * b);
  }

  lemma SmallerFactor(d: nat, g: nat, m: nat, l: nat)
    requires 0 < d <= g && d * m == g * l
    ensures m >= l
  {
    Scaled(d, g, l);
    assert d * l == l * d && d * m == m * d && (m + 1) * d == m * d + d;
    if m < l {
      Scaled(m + 1, l, d);
    }
  }

  lemma Positive(a: nat, b: nat)
    requires a > 0 && b > 0
    ensures a * b > 0
  {
    Scaled(1, a, b);
  }

  lemma FactorOf(a: nat, b: nat, m: nat, d: nat)
    requires a > 0 && b > 0 && m > 0 && m % b == 0 && a * b == d * m && d > 0
    ensures a % d == 0
  {
    var t := m / b;
    Quotient(m, b);
    assert a * b == (t * d) * b by {
      assert d * (t * b) == (t * d) * b;
    }
    MultipleMod(a, b);
    MultipleMod(t * d, b);
    assert a == t * d;
    MultipleMod(t, d);
  }

  /** A number is a multiple of both exactly if it is one of the least common multiple. */
  lemma CommonMultiple(a: nat, b: nat, m: nat)
    requires a > 0 && b > 0
    ensures Lcm(a, b) > 0 && (m % Lcm(a, b) == 0 <==> m % a == 0 && m % b == 0)
  {
    LcmIsMultiple(a, b);
    var l := Lcm(a, b);
    if m % l == 0 {
      DividesOn(a, l, m);
      DividesOn(b, l, m);
    }
    if m % a == 0 && m % b == 0 && m % l != 0 {
      RestIsMultiple(m, l, a);
      RestIsMultiple(m, l, b);
      hide Lcm;
      LcmIsLeast(a, b, m % l);
    }
  }
}
