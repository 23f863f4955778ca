/** Divisibility, and residues modulo a prime: the extended Euclidean algorithm, inverses and Euclid's lemma. */
module Modular {
  predicate Divides(d: nat, n: int)
    requires d > 0
  {
    n % d == 0
  }

  ghost predicate IsPrime(p: nat) {
    p >= 2 && forall d: nat :: 1 < d < p ==> !Divides(d, p)
  }

  lemma SmallMultiple(t: int, d: nat)
    requires 0 <= t * d < d
    ensures t == 0
  {
  }

  lemma ModSmall(r: nat, g: nat)
    requires r < g
    ensures r % g == r
  {
  }

  /** A multiple of `d` is divisible by `d`. */
  lemma MultipleDivides(d: nat, k: int)
    requires d > 0
    ensures Divides(d, k * d)
  {
    var n := k * d;
    DivMod(n, d);
    var q, r := n / d, n % d;
    assert (k - q) * d == k * d - q * d;
    SmallMultiple(k - q, d);
  }

  lemma DivMod(n: int, d: nat)
    requires d > 0
    ensures n == n / d * d + n % d && 0 <= n % d < d
  {
  }

  /** The remainder is the one reduced number congruent to `a`. */
  lemma ResidueIff(m: nat, a: int, r: nat)
    requires m > 0
    ensures r < m && Divides(m, a - r) <==> r == a % m
  {
    DivMod(a, m);
    var q := a / m;
    if r == a % m {
      MultipleDivides(m, q);
    }
    if r < m && Divides(m, a - r) {
      DivMod(a - r, m);
      var t := (a - r) / m;
      assert (q - t) * m == q * m - t * m;
      if q - t >= 0 {
        SmallQuotientOf(q - t, m, r - a % m);
      } else {
        assert (t - q) * m == t * m - q * m;
        SmallQuotientOf(t - q, m, a % m - r);
      }
    }
  }

  lemma SmallQuotientOf(k: nat, m: nat, d: int)
    requires m > 0 && k * m == d && d < m
    ensures k == 0
  {
  }

  lemma DividesLinear(d: nat, a: int, b: int, u: int, v: int)
    requires d > 0 && Divides(d, a) && Divides(d, b)
    ensures Divides(d, u * a + v * b)
  {
    var j, k := a / d, b / d;
    assert u * a + v * b == (u * j + v * k) * d by {
      assert u * (j * d) == u * j * d && v * (k * d) == v * k * d;
    }
    MultipleDivides(d, u * j + v * k);
  }

  lemma {:induction false} Bezout(a: nat, b: nat) returns (g: nat, u: int, v: int)
    requires a > 0 || b > 0
    ensures g > 0 && Divides(g, a) && Divides(g, b) && u * a + v * b == g
    decreases b
  {
    if b == 0 {
      g, u, v := a, 1, 0;
    } else {
      var q := a / b;
      var h, s, t := Bezout(b, a % b);
      assert a == q * b + a % b;
      DividesLinear(h, b, a % b, q, 1);
      assert t * a == t * (q * b) + t * (a % b);
      assert t * (q * b) == (t * q) * b;
      g, u, v := h, t, s - t * q;
      assert (s - t * q) * b == s * b - (t * q) * b;
    }
  }

  /** Every residue that a prime does not divide has an inverse. */
  lemma Inverse(p: nat, a: int) returns (z: int)
    requires IsPrime(p) && !Divides(p, a)
    ensures Divides(p, a * z - 1)
  {
    var r := a % p;
    DivMod(a, p);
    var g, u, v := Bezout(r, p);
    DivisorOfPrime(p, r, g);
    z := u;
    var q := a / p;
    assert a * u - 1 == (q * u - v) * p by {
      assert (q * p + r) * u == q * u * p + r * u;
      assert (q * u - v) * p == q * u * p - v * p;
    }
    MultipleDivides(p, q * u - v);
  }

  lemma DivisorOfPrime(p: nat, r: nat, g: nat)
    requires IsPrime(p) && 0 < r < p && g > 0 && Divides(g, r) && Divides(g, p)
    ensures g == 1
  {
    if g > r {
      ModSmall(r, g);
    }
  }

  /** Euclid's lemma. */
  lemma Euclid(p: nat, a: int, b: int)
    requires IsPrime(p) && Divides(p, a * b)
    ensures Divides(p, a) || Divides(p, b)
  {
    if !Divides(p, a) {
      var z := Inverse(p, a);
      DividesLinear(p, a * b, a * z - 1, z, -b);
      assert z * (a * b) + -b * (a * z - 1) == b by {
        assert z * (a * b) == b * (a * z);
        assert -b * (a * z - 1) == -(b * (a * z)) + b;
      }
    }
  }
}
