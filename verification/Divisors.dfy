/** Multiples and the greatest common divisor. */
module Divisors {
  ghost predicate Multiple(g: nat, n: nat) {
    exists k: nat :: n == g * k
  }

  function Gcd(a: nat, b: nat): nat
    decreases b
  {
    if b == 0 then a else Gcd(b, a % b)
  }

  lemma {:induction false} MultipleBy(g: nat, n: nat, k: nat)
    requires n == g * k
    ensures Multiple(g, n)
  {
  }

  lemma {:induction false} MultipleAdd(g: nat, m: nat, n: nat)
    requires Multiple(g, m) && Multiple(g, n)
    ensures Multiple(g, m + n)
  {
    var k: nat :| m == g * k;
    var l: nat :| n == g * l;
    assert m + n == g * (k + l);
  }

  lemma {:induction false} ProductOrder(g: nat, k: nat, l: nat)
    requires g > 0
    ensures g * k <= g * l <==> k <= l
  {
    if k <= l {
      assert g * l == g * k + g * (l - k);
    } else {
      assert g * k == g * l + g * (k - l);
    }
  }

  lemma {:induction false} MultipleAtLeast(g: nat, n: nat)
    requires Multiple(g, n) && n > 0
    ensures g <= n
  {
    var k: nat :| n == g * k;
    if k > 0 {
      ProductOrder(g, 1, k);
    }
  }

  lemma {:induction false} MultipleSub(g: nat, m: nat, n: nat)
    requires Multiple(g, m) && Multiple(g, n) && n <= m
    ensures Multiple(g, m - n)
  {
    var k: nat :| m == g * k;
    var l: nat :| n == g * l;
    if g == 0 {
      MultipleBy(g, m - n, 0);
    } else {
      ProductOrder(g, l, k);
      assert m - n == g * (k - l);
      MultipleBy(g, m - n, k - l);
    }
  }

  lemma {:induction false} MultipleTimes(g: nat, n: nat, k: nat)
    requires Multiple(g, n)
    ensures Multiple(g, n * k)
  {
    var l: nat :| n == g * l;
    assert n * k == g * (l * k);
    MultipleBy(g, n * k, l * k);
  }

  lemma {:induction false} MultipleTrans(g: nat, m: nat, n: nat)
    requires Multiple(g, m) && Multiple(m, n)
    ensures Multiple(g, n)
  {
    var k: nat :| n == m * k;
    MultipleTimes(g, m, k);
  }

  /** Multiples and remainders say the same. */
  lemma {:induction false} MultipleMod(g: nat, n: nat)
    requires g > 0
    ensures Multiple(g, n) <==> n % g == 0
  {
    if n % g == 0 {
      MultipleBy(g, n, n / g);
    }
    if Multiple(g, n) {
      var k: nat :| n == g * k;
      ModOfProduct(g, k);
    }
  }

  lemma {:induction false} ModOfProduct(g: nat, k: nat)
    requires g > 0
    ensures (g * k) % g == 0
  {
    ModUnique(g * k, g, k, 0);
  }

  /** Quotient and remainder are unique. */
  lemma {:induction false} ModUnique(n: nat, g: nat, q: nat, r: nat)
    requires g > 0 && r < g && n == g * q + r
    ensures n % g == r && n / g == q
  {
    var q', r' := n / g, n % g;
    assert n == g * q' + r';
    if q < q' {
      assert g * q' == g * q + g * (q' - q);
      ProductOrder(g, 1, q' - q);
    } else if q' < q {
      assert g * q == g * q' + g * (q - q');
      ProductOrder(g, 1, q - q');
    }
  }

  lemma {:induction false} GcdDivides(a: nat, b: nat)
    ensures Multiple(Gcd(a, b), a) && Multiple(Gcd(a, b), b)
    decreases b
  {
    if b == 0 {
      MultipleBy(a, a, 1);
      MultipleBy(a, b, 0);
    } else {
      GcdDivides(b, a % b);
      MultipleTimes(Gcd(a, b), b, a / b);
      MultipleAdd(Gcd(a, b), b * (a / b), a % b);
    }
  }

  lemma {:induction false} GcdGreatest(d: nat, a: nat, b: nat)
    requires Multiple(d, a) && Multiple(d, b)
    ensures Multiple(d, Gcd(a, b))
    decreases b
  {
    if b > 0 {
      MultipleTimes(d, b, a / b);
      MultipleSub(d, a, b * (a / b));
      GcdGreatest(d, b, a % b);
    }
  }

  lemma {:induction false} GcdPositive(a: nat, b: nat)
    ensures Gcd(a, b) == 0 <==> a == 0 && b == 0
    ensures Gcd(a, b) <= a + b
    ensures b > 0 ==> Gcd(a, b) <= b
    ensures a > 0 ==> Gcd(a, b) <= a
    decreases b
  {
    if b > 0 {
      GcdPositive(b, a % b);
      if a > 0 {
        GcdDivides(a, b);
        MultipleAtLeast(Gcd(a, b), a);
      }
    }
  }

  /** Bezout: the greatest common divisor is a difference of multiples. */
  lemma {:induction false} Bezout(a: nat, b: nat) returns (x: int, y: int)
    ensures Gcd(a, b) == a * x + b * y
    decreases b
  {
    if b == 0 {
      x, y := 1, 0;
    } else {
      var u, v := Bezout(b, a % b);
      x, y := v, u - (a / b) * v;
      BezoutStep(a, b, u, v);
    }
  }

  lemma {:induction false} BezoutStep(a: nat, b: nat, u: int, v: int)
    requires b > 0
    ensures b * u + (a % b) * v == a * v + b * (u - (a / b) * v)
  {
    var q, r := a / b, a % b;
    assert a == b * q + r;
    assert a * v == b * q * v + r * v;
    assert b * (u - q * v) == b * u - b * q * v;
  }
}
