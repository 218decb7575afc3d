/** Integers modulo a number: multiples, inverses, and when there is an inverse. */
module Modular {
  lemma {:induction false} Scale(a: int, b: int, c: int)
    ensures (a * b) * c == a * (b * c)
  {
  }

  lemma {:induction false} Distribute(d: int, a: int, b: int)
    ensures d * (a - b) == d * a - d * b
  {
  }

  lemma {:induction false} Reorder(p: int, d: int, i: int)
    ensures d * (p * i) == p * (d * i)
  {
  }

  lemma {:induction false} AtLeastOnce(d: nat, k: int)
    ensures k >= 1 ==> d * k >= d
    ensures k <= -1 ==> d * k + d <= 0
  {
  }

  lemma {:induction false} DivisionIsUnique(n: int, d: nat, q: int, r: nat)
    requires n == d * q + r && r < d
    ensures n % d == r && n / d == q
  {
    var q', r' := n / d, n % d;
    assert n == d * q' + r' && 0 <= r' < d;
    Distribute(d, q', q);
    AtLeastOnce(d, q' - q);
  }

  lemma {:induction false} IsMultiple(p: nat, k: int)
    requires p > 0
    ensures (p * k) % p == 0
  {
    DivisionIsUnique(p * k, p, k, 0);
  }

  lemma {:induction false} Remainder(p: nat, n: int) returns (r: int, q: int)
    requires p > 0
    ensures n == p * q + r && r == n % p
  {
    r, q := n % p, n / p;
  }

  lemma {:induction false} OddFactor(p: nat, w: int)
    requires p % 2 == 1 && (p * w) % 2 == 0
    ensures w % 2 == 0 && p * w == 2 * (p * (w / 2))
  {
    var k := p / 2;
    assert p == 2 * k + 1;
    assert p * w == 2 * (k * w) + w;
    assert w == 2 * (w / 2);
    assert p * (2 * (w / 2)) == 2 * (p * (w / 2));
  }

  lemma {:induction false} Halve(p: nat, n: int, w: int)
    requires p % 2 == 1 && 2 * n == p * w
    ensures n % p == 0
  {
    OddFactor(p, w);
    IsMultiple(p, w / 2);
  }

  predicate IsInverse(p: nat, x: int, a: int)
    requires p > 0
  {
    0 <= x < p && (a * x) % p == 1
  }

  ghost predicate Invertible(p: nat, a: int)
    requires p > 0
  {
    exists x :: IsInverse(p, x, a)
  }

  lemma {:induction false} InverseQuotient(p: nat, x: int, a: int) returns (i: int)
    requires p > 0 && IsInverse(p, x, a)
    ensures a * x == p * i + 1
  {
    i := (a * x) / p;
  }

  lemma {:induction false} InverseTimes(p: nat, a: int) returns (x: int, i: int)
    requires p > 0 && Invertible(p, a)
    ensures a * x == p * i + 1
  {
    x :| IsInverse(p, x, a);
    i := InverseQuotient(p, x, a);
  }

  /** A multiple of p that stays one after division by a number with an inverse; if it is small, it is zero. */
  lemma {:induction false} Cancel(p: nat, d: int, e: int, x: int, i: int, k: int)
    requires p > 0 && d * e == p * k && e * x == p * i + 1 && d < p && d + p > 0
    ensures d == 0
  {
    calc {
      d;
      d * (p * i + 1) - d * (p * i);
      d * (e * x) - d * (p * i);
      { Scale(d, e, x); Reorder(p, d, i); }
      (p * k) * x - p * (d * i);
      { Scale(p, k, x); Distribute(p, k * x, d * i); }
      p * (k * x - d * i);
    }
    AtLeastOnce(p, k * x - d * i);
  }

  /** The extended Euclidean algorithm: a common divisor, as a combination of both numbers. */
  lemma {:induction false} Bezout(a: nat, b: nat) returns (g: nat, s: int, t: int)
    requires b > 0
    ensures g > 0 && a % g == 0 && b % g == 0 && s * a + t * b == g
    decreases a
  {
    if a == 0 {
      return b, 0, 1;
    }
    var g', s', t' := Bezout(b % a, a);
    Divides(g', a, b / a, b % a);
    assert b == a * (b / a) + b % a;
    Combine(s', t', a, b / a, b % a);
    return g', t' - s' * (b / a), s';
  }

  lemma {:induction false} Divides(g: nat, a: nat, q: nat, r: nat)
    requires g > 0 && a % g == 0 && r % g == 0
    ensures (a * q + r) % g == 0
  {
    var m, n := a / g, r / g;
    assert a == g * m && r == g * n;
    Scale(g, m, q);
    assert a * q + r == g * (m * q + n);
    IsMultiple(g, m * q + n);
  }

  lemma {:induction false} Combine(s: int, t: int, a: int, q: int, r: int)
    ensures (t - s * q) * a + s * (a * q + r) == s * r + t * a
  {
    assert (t - s * q) * a == t * a - (s * q) * a;
    assert s * (a * q + r) == s * (a * q) + s * r;
    assert (s * q) * a == s * (a * q);
  }

  ghost predicate Prime(p: nat) {
    p > 1 && forall d :: 1 < d < p ==> p % d != 0
  }

  lemma {:induction false} InverseOf(p: nat, a: int, s: int, t: int)
    requires p > 1 && s * (a % p) + t * p == 1
    ensures (a * (s % p)) % p == 1
  {
    var q, r, m, x := a / p, a % p, s / p, s % p;
    assert a == p * q + r && s == p * m + x;
    assert s * r == (p * m) * r + x * r;
    Scale(p, m, r);
    assert a * x == (p * q) * x + r * x;
    Scale(p, q, x);
    var k := q * x - t - m * r;
    assert p * k == p * (q * x) - p * t - p * (m * r) by {
      Distribute(p, q * x - t, m * r);
      Distribute(p, q * x, t);
    }
    assert a * x == p * k + 1;
    DivisionIsUnique(a * x, p, k, 1);
  }

  /** Modulo a prime, exactly the multiples of the prime have no inverse. */
  lemma {:induction false} PrimeInverse(p: nat, a: int)
    requires Prime(p)
    ensures Invertible(p, a) <==> a % p != 0
  {
    if a % p == 0 {
      forall x ensures !IsInverse(p, x, a) {
        assert a == p * (a / p);
        Scale(p, a / p, x);
        IsMultiple(p, (a / p) * x);
      }
    } else {
      var r := a % p;
      var g, s, t := Bezout(r, p);
      if g >= p {
        DivisionIsUnique(r, g, 0, r);
        assert false;
      }
      assert g == 1;
      var x := s % p;
      InverseOf(p, a, s, t);
      assert IsInverse(p, x, a);
    }
  }
}
