/** The field of 1024 elements, as the quadratic extension of the field of 32 by a root of z^2 + z + 1. */
module Gf1024 {
  import opened Gf32
  import opened Powers

  /** `p + q * z`. */
  datatype Pair = Pair(p: Element, q: Element)

  const NIL := Pair(ZERO, ZERO)
  const UNIT := Pair(ONE, ZERO)

  function Plus(x: Pair, y: Pair): Pair {
    Pair(Add(x.p, y.p), Add(x.q, y.q))
  }

  function Scale(e: Element, y: Pair): Pair {
    Pair(Mul(e, y.p), Mul(e, y.q))
  }

  function TimesZ(y: Pair): Pair {
    Pair(y.q, Add(y.p, y.q))
  }

  function Times(x: Pair, y: Pair): Pair {
    Plus(Scale(x.p, y), Scale(x.q, TimesZ(y)))
  }

  lemma PlusLaws(x: Pair, y: Pair, z: Pair)
    ensures Plus(Plus(x, y), z) == Plus(x, Plus(y, z)) && Plus(x, y) == Plus(y, x)
    ensures Plus(x, NIL) == x && Plus(x, x) == NIL
  {
    AddLaws(x.p, y.p, z.p);
    AddLaws(x.q, y.q, z.q);
  }

  lemma ScaleAdditive(e: Element, x: Pair, y: Pair)
    ensures Scale(e, Plus(x, y)) == Plus(Scale(e, x), Scale(e, y))
  {
    MulAdditive(e, x.p, y.p, 0);
    MulAdditive(e, x.q, y.q, 0);
  }

  lemma ScaleLinear(e: Element, f: Element, y: Pair)
    ensures Scale(Add(e, f), y) == Plus(Scale(e, y), Scale(f, y))
  {
    MulLinear(e, f, y.p, 0);
    MulLinear(e, f, y.q, 0);
  }

  lemma ScaleAssoc(e: Element, f: Element, y: Pair)
    ensures Scale(Mul(e, f), y) == Scale(e, Scale(f, y))
  {
    MulAssoc(e, f, y.p, 0);
    MulAssoc(e, f, y.q, 0);
  }

  lemma TimesZAdditive(x: Pair, y: Pair)
    ensures TimesZ(Plus(x, y)) == Plus(TimesZ(x), TimesZ(y))
  {
    AddPairs(x.p, y.p, x.q, y.q);
  }

  lemma AddPairs(a: Element, b: Element, c: Element, d: Element)
    ensures Add(Add(a, b), Add(c, d)) == Add(Add(a, c), Add(b, d))
  {
    AddLaws(a, b, Add(c, d));
    AddLaws(b, c, d);
    AddLaws(c, b, d);
    AddLaws(a, c, Add(b, d));
  }

  lemma TimesZScale(e: Element, y: Pair)
    ensures TimesZ(Scale(e, y)) == Scale(e, TimesZ(y))
  {
    MulAdditive(e, y.p, y.q, 0);
  }

  lemma FourPlus(a: Pair, b: Pair, c: Pair, d: Pair)
    ensures Plus(Plus(a, b), Plus(c, d)) == Plus(Plus(a, c), Plus(b, d))
  {
    AddPairs(a.p, b.p, c.p, d.p);
    AddPairs(a.q, b.q, c.q, d.q);
  }

  lemma TimesAdditive(x: Pair, y: Pair, w: Pair)
    ensures Times(x, Plus(y, w)) == Plus(Times(x, y), Times(x, w))
  {
    ScaleAdditive(x.p, y, w);
    TimesZAdditive(y, w);
    ScaleAdditive(x.q, TimesZ(y), TimesZ(w));
    FourPlus(Scale(x.p, y), Scale(x.p, w), Scale(x.q, TimesZ(y)), Scale(x.q, TimesZ(w)));
  }

  lemma TimesCommutes(x: Pair, y: Pair)
    ensures Times(x, y) == Times(y, x)
  {
    MulCommutes(x.p, y.p);
    MulCommutes(x.q, y.q);
    MulCommutes(x.p, y.q);
    MulCommutes(x.q, y.p);
    MulAdditive(x.q, y.p, y.q, 0);
    MulAdditive(y.q, x.p, x.q, 0);
    var a, b, c := Mul(x.p, y.q), Mul(x.q, y.p), Mul(x.q, y.q);
    AddLaws(a, b, c);
    AddLaws(b, a, c);
  }

  lemma TimesLinear(x: Pair, y: Pair, w: Pair)
    ensures Times(Plus(x, y), w) == Plus(Times(x, w), Times(y, w))
  {
    TimesCommutes(Plus(x, y), w);
    TimesCommutes(x, w);
    TimesCommutes(y, w);
    TimesAdditive(w, x, y);
  }

  lemma TimesScale(e: Element, x: Pair, y: Pair)
    ensures Times(Scale(e, x), y) == Scale(e, Times(x, y))
  {
    ScaleAssoc(e, x.p, y);
    ScaleAssoc(e, x.q, TimesZ(y));
    ScaleAdditive(e, Scale(x.p, y), Scale(x.q, TimesZ(y)));
  }

  lemma TimesTimesZ(x: Pair, y: Pair)
    ensures Times(TimesZ(x), y) == TimesZ(Times(x, y))
  {
    var z := TimesZ(y);
    TimesZAdditive(Scale(x.p, y), Scale(x.q, z));
    TimesZScale(x.p, y);
    TimesZScale(x.q, z);
    TwiceZ(y);
    ScaleAdditive(x.q, y, z);
    ScaleLinear(x.p, x.q, z);
    PlusLaws(Scale(x.q, y), Scale(x.p, z), Scale(x.q, z));
    PlusLaws(Scale(x.p, z), Scale(x.q, y), Scale(x.q, z));
  }

  lemma TwiceZ(y: Pair)
    ensures TimesZ(TimesZ(y)) == Plus(y, TimesZ(y))
  {
    AddLaws(y.p, y.q, y.q);
    AddLaws(y.q, y.p, y.q);
  }

  lemma TimesAssoc(x: Pair, y: Pair, w: Pair)
    ensures Times(Times(x, y), w) == Times(x, Times(y, w))
  {
    TimesLinear(Scale(x.p, y), Scale(x.q, TimesZ(y)), w);
    TimesScale(x.p, y, w);
    TimesScale(x.q, TimesZ(y), w);
    TimesTimesZ(y, w);
  }

  lemma TimesUnit(x: Pair)
    ensures Times(x, UNIT) == x && Times(UNIT, x) == x
    ensures Times(x, NIL) == NIL && Times(NIL, x) == NIL
  {
    TimesCommutes(x, UNIT);
    TimesCommutes(x, NIL);
    MulOne(x.p);
    MulOne(x.q);
    MulZero(x.p);
    MulZero(x.q);
    MulCommutes(ONE, x.p);
    MulCommutes(ONE, x.q);
    MulCommutes(ZERO, x.p);
    MulCommutes(ZERO, x.q);
    AddLaws(x.p, ZERO, ZERO);
    AddLaws(x.q, ZERO, ZERO);
  }

  // ---------- No zero divisors ----------

  function Conjugate(x: Pair): Pair {
    Pair(Add(x.p, x.q), x.q)
  }

  function Norm(x: Pair): Element {
    Add(Mul(x.p, Add(x.p, x.q)), Mul(x.q, x.q))
  }

  lemma TimesConjugate(x: Pair)
    ensures Times(Conjugate(x), x) == Pair(Norm(x), ZERO)
  {
    TimesCommutes(Conjugate(x), x);
    MulCommutes(x.p, x.q);
    AddLaws(x.p, x.q, x.q);
    MulAdditive(x.q, x.p, x.q, 0);
    AddLaws(Mul(x.q, x.p), Mul(x.q, x.p), ZERO);
  }

  lemma Square(e: Element)
    ensures Mul(e, e) == Element((e.b4 != e.b3) != e.b2, e.b4, e.b1, e.b4 != e.b3, e.b0)
  {
    MulUnfolds(e, e);
  }

  /** The norm form has no zero because z^2 + z + 1 has no root in the field of 32. */
  lemma NormZero(x: Pair)
    requires Norm(x) == ZERO
    ensures x == NIL
  {
    MulAdditive(x.p, x.p, x.q, 0);
    FormZero(x.p, x.q);
  }

  lemma FormZero(p: Element, q: Element)
    requires Add(Add(Mul(p, p), Mul(p, q)), Mul(q, q)) == ZERO
    ensures p == ZERO && q == ZERO
  {
    Square(p);
    Square(q);
    BitsOfForm(p, q, Mul(p, q));
  }

  lemma BitsOfForm(p: Element, q: Element, pq: Element)
    requires pq == Mul(p, q)
    requires Add(Add(Element((p.b4 != p.b3) != p.b2, p.b4, p.b1, p.b4 != p.b3, p.b0), pq),
                 Element((q.b4 != q.b3) != q.b2, q.b4, q.b1, q.b4 != q.b3, q.b0)) == ZERO
    ensures p == ZERO && q == ZERO
  {
    MulUnfolds(p, q);
  }

  lemma NoZeroFactors(x: Pair, y: Pair)
    requires Times(x, y) == NIL
    ensures x == NIL || y == NIL
  {
    var n := Norm(x);
    TimesAssoc(Conjugate(x), x, y);
    TimesConjugate(x);
    TimesUnit(Conjugate(x));
    MulCommutes(ZERO, TimesZ(y).p);
    MulCommutes(ZERO, TimesZ(y).q);
    MulZero(TimesZ(y).p);
    MulZero(TimesZ(y).q);
    AddLaws(Mul(n, y.p), ZERO, ZERO);
    AddLaws(Mul(n, y.q), ZERO, ZERO);
    assert Mul(n, y.p) == ZERO && Mul(n, y.q) == ZERO;
    NoZeroDivisors(n, y.p);
    NoZeroDivisors(n, y.q);
    if n == ZERO {
      NormZero(x);
    }
  }

  lemma ProductNonzero(x: Pair, y: Pair)
    requires x != NIL && y != NIL
    ensures Times(x, y) != NIL
  {
    if Times(x, y) == NIL {
      NoZeroFactors(x, y);
    }
  }

  lemma Cancel(x: Pair, y: Pair, w: Pair)
    requires x != NIL && Times(x, y) == Times(x, w)
    ensures y == w
  {
    TimesAdditive(x, y, w);
    PlusLaws(Times(x, y), NIL, NIL);
    NoZeroFactors(x, Plus(y, w));
    SumZero(y, w);
  }

  lemma SumZero(y: Pair, w: Pair)
    ensures Plus(y, w) == NIL <==> y == w
  {
    PlusLaws(y, w, w);
    PlusLaws(w, NIL, NIL);
    PlusLaws(y, NIL, NIL);
    PlusLaws(NIL, w, NIL);
  }

  // ---------- Powers ----------

  lemma TimesMonoid()
    ensures Monoid(Times, UNIT)
  {
    forall x, y, w
      ensures Lawful(Times, x, y, w)
    {
      TimesAssoc(x, y, w);
      TimesCommutes(x, y);
    }
    forall x
      ensures Neutral(Times, UNIT, x)
    {
      TimesUnit(x);
    }
  }

  lemma PowNonzero(x: Pair, n: nat)
    requires x != NIL
    ensures Power(Times, UNIT, x, n) != NIL
  {
    forall y, w | y != NIL && w != NIL
      ensures Times(y, w) != NIL
    {
      ProductNonzero(y, w);
    }
    PowerNonzero(Times, UNIT, NIL, x, n);
  }

  // ---------- An element of order 1023 ----------

  // `ALPHA_n` is `ALPHA` to the power `n`.
  const ALPHA := Pair(Element(true, true, true, true, false), Element(false, true, false, false, true))
  const ALPHA_2 := Pair(Element(false, true, true, true, true), Element(true, false, false, true, true))
  const ALPHA_4 := Pair(Element(true, true, false, false, false), Element(true, true, true, true, true))
  const ALPHA_8 := Pair(Element(true, false, true, false, true), Element(true, true, true, false, true))
  const ALPHA_16 := Pair(Element(true, false, false, true, false), Element(true, true, false, false, true))
  const ALPHA_32 := Pair(Element(true, false, true, true, true), Element(false, true, false, false, true))
  const ALPHA_64 := Pair(Element(true, true, true, false, false), Element(true, false, false, true, true))
  const ALPHA_128 := Pair(Element(false, false, true, true, true), Element(true, true, true, true, true))
  const ALPHA_256 := Pair(Element(false, true, false, false, false), Element(true, true, true, false, true))
  const ALPHA_5 := Pair(Element(true, true, false, true, true), Element(true, false, true, false, false))
  const ALPHA_21 := Pair(Element(false, true, false, false, true), Element(false, false, false, true, true))
  const ALPHA_85 := Pair(Element(true, false, true, true, false), Element(true, false, true, true, true))
  const ALPHA_33 := Pair(Element(true, false, true, true, true), Element(false, false, false, false, false))
  const ALPHA_93 := Pair(Element(false, true, false, false, true), Element(true, false, true, false, true))
  const ALPHA_341 := Pair(Element(false, false, false, false, false), Element(false, false, false, false, true))

  lemma Products0()
    ensures Times(ALPHA, ALPHA) == ALPHA_2
    ensures Times(ALPHA_2, ALPHA_2) == ALPHA_4
    ensures Times(ALPHA_4, ALPHA_4) == ALPHA_8
  {
  }

  lemma Products1()
    ensures Times(ALPHA_8, ALPHA_8) == ALPHA_16
    ensures Times(ALPHA_16, ALPHA_16) == ALPHA_32
    ensures Times(ALPHA_32, ALPHA_32) == ALPHA_64
  {
  }

  lemma Products2()
    ensures Times(ALPHA_64, ALPHA_64) == ALPHA_128
    ensures Times(ALPHA_128, ALPHA_128) == ALPHA_256
    ensures Times(ALPHA_4, ALPHA) == ALPHA_5
  {
  }

  lemma Products3()
    ensures Times(ALPHA_16, ALPHA_5) == ALPHA_21
    ensures Times(ALPHA_64, ALPHA_21) == ALPHA_85
    ensures Times(ALPHA_32, ALPHA) == ALPHA_33
  {
  }

  lemma Products4()
    ensures Times(ALPHA_85, ALPHA_8) == ALPHA_93
    ensures Times(ALPHA_85, ALPHA_256) == ALPHA_341
    ensures Times(ALPHA_341, Times(ALPHA_341, ALPHA_341)) == UNIT
  {
  }

  lemma NotUnits()
    ensures ALPHA_33 != UNIT && ALPHA_93 != UNIT && ALPHA_341 != UNIT
  {
  }

  lemma AlphaProducts()
    ensures Products(Times, ALPHA, ALPHA_2, ALPHA_4, ALPHA_8, ALPHA_16, ALPHA_32, ALPHA_33, ALPHA_5, ALPHA_21, ALPHA_64,
                     ALPHA_128, ALPHA_256, ALPHA_85, ALPHA_93, ALPHA_341)
  {
    Products0();
    Products1();
    Products2();
    Products3();
    Products4();
  }

  lemma OrderFrom(f: (Pair, Pair) -> Pair, a: Pair, a2: Pair, a4: Pair, a8: Pair, a16: Pair, a32: Pair, a33: Pair,
                  a5: Pair, a21: Pair, a64: Pair, a128: Pair, a256: Pair, a85: Pair, a93: Pair, a341: Pair, n: nat)
    requires Monoid(f, UNIT) && 0 < n < 1023
    requires Products(f, a, a2, a4, a8, a16, a32, a33, a5, a21, a64, a128, a256, a85, a93, a341)
    requires f(a341, f(a341, a341)) == UNIT && a33 != UNIT && a93 != UNIT && a341 != UNIT
    ensures !Period(f, UNIT, a, n)
  {
    OrderFromProducts(f, UNIT, a, a2, a4, a8, a16, a32, a33, a5, a21, a64, a128, a256, a85, a93, a341, n);
  }

  /** No power of `ALPHA` below 1023 is the unit. */
  lemma AlphaOrder(n: nat)
    requires 0 < n < 1023
    ensures !Period(Times, UNIT, ALPHA, n)
  {
    NotUnits();
    Products4();
    AlphaProducts();
    TimesMonoid();
    OrderFrom(Times, ALPHA, ALPHA_2, ALPHA_4, ALPHA_8, ALPHA_16, ALPHA_32, ALPHA_33, ALPHA_5, ALPHA_21,
              ALPHA_64, ALPHA_128, ALPHA_256, ALPHA_85, ALPHA_93, ALPHA_341, n);
  }
}
