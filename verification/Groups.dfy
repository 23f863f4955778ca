/** Repeated addition in an abelian group, for the scalar multiplications of the signature scheme. */
module Groups {
  datatype Group<!G> = Group(zero: G, add: (G, G) -> G, neg: G -> G)

  ghost predicate AssociativeAt<G>(g: Group<G>, a: G, b: G, c: G) {
    g.add(g.add(a, b), c) == g.add(a, g.add(b, c))
  }

  ghost predicate CommutativeAt<G>(g: Group<G>, a: G, b: G) {
    g.add(a, b) == g.add(b, a)
  }

  ghost predicate ZeroAndInverseAt<G>(g: Group<G>, a: G) {
    g.add(a, g.zero) == a && g.add(a, g.neg(a)) == g.zero
  }

  /** The group laws; proofs name the instances they use. */
  ghost predicate IsAbelian<G(!new)>(g: Group<G>) {
    && (forall a, b, c :: AssociativeAt(g, a, b, c))
    && (forall a, b :: CommutativeAt(g, a, b))
    && (forall a :: ZeroAndInverseAt(g, a))
  }

  /** The scalar multiple `n·p`. */
  function Times<G>(g: Group<G>, n: nat, p: G): G
    decreases n
  {
    if n == 0 then g.zero else g.add(p, Times(g, n - 1, p))
  }

  lemma {:induction false} TimesAdd<G(!new)>(g: Group<G>, m: nat, n: nat, p: G)
    requires IsAbelian(g)
    ensures Times(g, m + n, p) == g.add(Times(g, m, p), Times(g, n, p))
    decreases m
  {
    if m == 0 {
      assert CommutativeAt(g, g.zero, Times(g, n, p)) && ZeroAndInverseAt(g, Times(g, n, p));
    } else {
      TimesAdd(g, m - 1, n, p);
      assert m - 1 + n == m + n - 1;
      assert AssociativeAt(g, p, Times(g, m - 1, p), Times(g, n, p));
    }
  }

  lemma {:induction false} TimesTimes<G(!new)>(g: Group<G>, m: nat, n: nat, p: G)
    requires IsAbelian(g)
    ensures Times(g, m * n, p) == Times(g, m, Times(g, n, p))
    decreases m
  {
    if m > 0 {
      TimesTimes(g, m - 1, n, p);
      assert (m - 1) * n >= 0;
      assert m * n == n + (m - 1) * n;
      TimesAdd(g, n, (m - 1) * n, p);
    }
  }

  lemma {:induction false} TimesZero<G(!new)>(g: Group<G>, n: nat)
    requires IsAbelian(g)
    ensures Times(g, n, g.zero) == g.zero
  {
    if n > 0 {
      TimesZero(g, n - 1);
      assert ZeroAndInverseAt(g, g.zero);
    }
  }

  /** Multiples of a point killed by `order` depend only on the scalar modulo `order`. */
  lemma TimesMod<G(!new)>(g: Group<G>, order: nat, n: nat, p: G)
    requires IsAbelian(g) && order > 0 && Times(g, order, p) == g.zero
    ensures Times(g, n % order, p) == Times(g, n, p)
  {
    var q, r := n / order, n % order;
    assert q * order >= 0;
    assert n == r + q * order;
    TimesAdd(g, r, q * order, p);
    TimesTimes(g, q, order, p);
    TimesZero(g, q);
    assert ZeroAndInverseAt(g, Times(g, r, p));
  }

  lemma CancelRight<G(!new)>(g: Group<G>, a: G, b: G, c: G)
    requires IsAbelian(g) && g.add(a, c) == g.add(b, c)
    ensures a == b
  {
    assert AssociativeAt(g, a, c, g.neg(c)) && AssociativeAt(g, b, c, g.neg(c));
    assert ZeroAndInverseAt(g, c) && ZeroAndInverseAt(g, a) && ZeroAndInverseAt(g, b);
  }

  /** `order` is the exact order of `p`. */
  ghost predicate HasOrder<G>(g: Group<G>, order: nat, p: G) {
    && order > 0
    && Times(g, order, p) == g.zero
    && forall n: nat :: 0 < n < order ==> Times(g, n, p) != g.zero
  }

  /** Below the order, different scalars give different multiples. */
  lemma TimesInjective<G(!new)>(g: Group<G>, order: nat, m: nat, n: nat, p: G)
    requires IsAbelian(g) && HasOrder(g, order, p) && m <= n < order && Times(g, m, p) == Times(g, n, p)
    ensures m == n
  {
    TimesAdd(g, n - m, m, p);
    assert CommutativeAt(g, g.zero, Times(g, m, p)) && ZeroAndInverseAt(g, Times(g, m, p));
    CancelRight(g, Times(g, n - m, p), g.zero, Times(g, m, p));
  }
}
