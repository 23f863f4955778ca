/** The field of 32 elements that Bech32 symbols stand for (BIP-173, section "Checksum design"): polynomials over the
    field of two elements modulo x^5 + x^3 + 1. */
module Gf32 {
  /** Coefficients, the highest first. */
  datatype Element = Element(b4: bool, b3: bool, b2: bool, b1: bool, b0: bool)

  const ZERO := Element(false, false, false, false, false)
  const ONE := Element(false, false, false, false, true)

  function Add(x: Element, y: Element): Element {
    Element(x.b4 != y.b4, x.b3 != y.b3, x.b2 != y.b2, x.b1 != y.b1, x.b0 != y.b0)
  }

  function TimesX(e: Element): Element {
    Element(e.b3, e.b2 != e.b4, e.b1, e.b0, e.b4)
  }

  function Bit(e: Element, i: nat): bool {
    if i == 0 then e.b0 else if i == 1 then e.b1 else if i == 2 then e.b2 else if i == 3 then e.b3 else i == 4 && e.b4
  }

  function Next(bit: bool, w: Element, m: Element): Element {
    if bit then Add(w, TimesX(m)) else TimesX(m)
  }

  /** The product of `w` with the coefficients of `u` from `i` up, by Horner's rule. */
  function MulFrom(u: Element, w: Element, i: nat): Element
    decreases 5 - i, u, w
  {
    if i >= 5 then ZERO else Next(Bit(u, i), w, MulFrom(u, w, i + 1))
  }

  function Mul(u: Element, w: Element): Element {
    MulFrom(u, w, 0)
  }

  lemma Unfold(u: Element, w: Element, i: nat)
    requires i < 5
    ensures MulFrom(u, w, i) == Next(Bit(u, i), w, MulFrom(u, w, i + 1))
  {
  }

  lemma MulUnfolds(u: Element, w: Element)
    ensures Mul(u, w) == Next(u.b0, w, Next(u.b1, w, Next(u.b2, w, Next(u.b3, w, Next(u.b4, w, ZERO)))))
  {
    Unfold(u, w, 0);
    Unfold(u, w, 1);
    Unfold(u, w, 2);
    Unfold(u, w, 3);
    Unfold(u, w, 4);
  }

  lemma NoZeroDivisors(u: Element, w: Element)
    requires Mul(u, w) == ZERO
    ensures u == ZERO || w == ZERO
  {
    MulUnfolds(u, w);
  }

  lemma NextAdditive(b: bool, x: Element, y: Element, m: Element, n: Element)
    ensures Next(b, Add(x, y), Add(m, n)) == Add(Next(b, x, m), Next(b, y, n))
  {
  }

  lemma NextLinear(b: bool, c: bool, w: Element, m: Element, n: Element)
    ensures Next(b != c, w, Add(m, n)) == Add(Next(b, w, m), Next(c, w, n))
  {
  }

  lemma {:induction false} MulAdditive(u: Element, x: Element, y: Element, i: nat)
    ensures MulFrom(u, Add(x, y), i) == Add(MulFrom(u, x, i), MulFrom(u, y, i))
    decreases 5 - i
  {
    if i < 5 {
      MulAdditive(u, x, y, i + 1);
      NextAdditive(Bit(u, i), x, y, MulFrom(u, x, i + 1), MulFrom(u, y, i + 1));
    }
  }

  lemma BitOfSum(u: Element, v: Element, i: nat)
    ensures Bit(Add(u, v), i) == (Bit(u, i) != Bit(v, i))
  {
  }

  lemma {:induction false} MulLinear(u: Element, v: Element, w: Element, i: nat)
    ensures MulFrom(Add(u, v), w, i) == Add(MulFrom(u, w, i), MulFrom(v, w, i))
    decreases 5 - i
  {
    if i < 5 {
      MulLinear(u, v, w, i + 1);
      BitOfSum(u, v, i);
      NextLinear(Bit(u, i), Bit(v, i), w, MulFrom(u, w, i + 1), MulFrom(v, w, i + 1));
    }
  }

  lemma TimesXAdditive(x: Element, y: Element)
    ensures TimesX(Add(x, y)) == Add(TimesX(x), TimesX(y))
  {
  }

  lemma LowTimesX(y: Element, g: Element)
    requires !y.b4
    ensures Mul(TimesX(y), g) == TimesX(Mul(y, g))
  {
    MulUnfolds(TimesX(y), g);
    MulUnfolds(y, g);
    assert Next(false, g, ZERO) == ZERO;
  }

  lemma TopTimesX(g: Element)
    ensures var top := Element(true, false, false, false, false); Mul(TimesX(top), g) == TimesX(Mul(top, g))
  {
    var top := Element(true, false, false, false, false);
    MulUnfolds(TimesX(top), g);
    MulUnfolds(top, g);
  }

  lemma MulTimesX(x: Element, g: Element)
    ensures Mul(TimesX(x), g) == TimesX(Mul(x, g))
  {
    var low, top := x.(b4 := false), Element(true, false, false, false, false);
    LowTimesX(low, g);
    if x.b4 {
      assert x == Add(low, top);
      TopTimesX(g);
      MulLinear(low, top, g, 0);
      MulLinear(TimesX(low), TimesX(top), g, 0);
      TimesXAdditive(low, top);
      TimesXAdditive(Mul(low, g), Mul(top, g));
    }
  }

  lemma {:induction false} MulAssoc(u: Element, x: Element, g: Element, i: nat)
    ensures Mul(MulFrom(u, x, i), g) == MulFrom(u, Mul(x, g), i)
    decreases 5 - i
  {
    if i < 5 {
      MulAssoc(u, x, g, i + 1);
      MulNext(Bit(u, i), x, MulFrom(u, x, i + 1), g);
    } else {
      MulUnfolds(ZERO, g);
    }
  }

  lemma MulNext(b: bool, x: Element, m: Element, g: Element)
    ensures Mul(Next(b, x, m), g) == Next(b, Mul(x, g), Mul(m, g))
  {
    MulTimesX(m, g);
    MulLinear(x, TimesX(m), g, 0);
  }

  lemma MulZero(u: Element)
    ensures Mul(u, ZERO) == ZERO
  {
    MulUnfolds(u, ZERO);
    assert TimesX(ZERO) == ZERO && Next(true, ZERO, ZERO) == ZERO;
  }

  lemma MulOne(u: Element)
    ensures Mul(u, ONE) == u
  {
    MulUnfolds(u, ONE);
  }

  lemma AddLaws(x: Element, y: Element, z: Element)
    ensures Add(Add(x, y), z) == Add(x, Add(y, z)) && Add(x, y) == Add(y, x)
    ensures Add(x, ZERO) == x && Add(x, x) == ZERO
  {
  }

  lemma NextTimesX(b: bool, w: Element, m: Element)
    ensures Next(b, TimesX(w), TimesX(m)) == TimesX(Next(b, w, m))
  {
  }

  lemma {:induction false} TimesXOut(u: Element, w: Element, i: nat)
    ensures MulFrom(u, TimesX(w), i) == TimesX(MulFrom(u, w, i))
    decreases 5 - i
  {
    if i < 5 {
      TimesXOut(u, w, i + 1);
      NextTimesX(Bit(u, i), w, MulFrom(u, w, i + 1));
    }
  }

  lemma TimesNext(w: Element, b: bool, x: Element, rest: Element)
    ensures Mul(w, Next(b, x, rest)) == Next(b, Mul(w, x), Mul(w, rest))
  {
    TimesXOut(w, rest, 0);
    if b {
      MulAdditive(w, x, TimesX(rest), 0);
    }
  }

  lemma {:induction false} MulCommutesFrom(u: Element, w: Element, i: nat)
    ensures Mul(w, MulFrom(u, ONE, i)) == MulFrom(u, w, i)
    decreases 5 - i
  {
    if i < 5 {
      MulCommutesFrom(u, w, i + 1);
      Unfold(u, ONE, i);
      TimesNext(w, Bit(u, i), ONE, MulFrom(u, ONE, i + 1));
      MulOne(w);
    } else {
      MulZero(w);
    }
  }

  lemma MulCommutes(u: Element, w: Element)
    ensures Mul(u, w) == Mul(w, u)
  {
    MulOne(u);
    MulCommutesFrom(u, w, 0);
  }

  // ---------- Horner's rule gives the sum of the multiples ----------

  /** `e` times `g`, from the first `n` coefficients of `e`. */
  function Sum(e: Element, g: Element, n: nat): Element
    requires n <= 5
  {
    if n == 0 then ZERO else if Bit(e, n - 1) then Add(Sum(e, g, n - 1), TimesXTo(g, n - 1)) else Sum(e, g, n - 1)
  }

  function TimesXTo(g: Element, n: nat): Element {
    if n == 0 then g else TimesX(TimesXTo(g, n - 1))
  }

  lemma {:induction false} ToAdditive(x: Element, y: Element, n: nat)
    ensures TimesXTo(Add(x, y), n) == Add(TimesXTo(x, n), TimesXTo(y, n))
  {
    if n > 0 {
      ToAdditive(x, y, n - 1);
      TimesXAdditive(TimesXTo(x, n - 1), TimesXTo(y, n - 1));
    }
  }

  lemma {:induction false} ToTimesX(g: Element, n: nat)
    ensures TimesXTo(TimesX(g), n) == TimesXTo(g, n + 1)
  {
    if n > 0 {
      ToTimesX(g, n - 1);
    }
  }

  lemma {:induction false} ToZero(n: nat)
    ensures TimesXTo(ZERO, n) == ZERO
  {
    if n > 0 {
      ToZero(n - 1);
    }
  }

  /** Horner's rule gives the sum. */
  lemma {:induction false} SumIsMul(e: Element, g: Element, n: nat)
    requires n <= 5
    ensures Add(Sum(e, g, n), TimesXTo(MulFrom(e, g, n), n)) == Mul(e, g)
  {
    if n == 0 {
      AddLaws(Mul(e, g), ZERO, ZERO);
      AddLaws(ZERO, Mul(e, g), ZERO);
    } else {
      SumIsMul(e, g, n - 1);
      var rest := MulFrom(e, g, n);
      ToTimesX(rest, n - 1);
      if Bit(e, n - 1) {
        ToAdditive(g, TimesX(rest), n - 1);
        AddLaws(Sum(e, g, n - 1), TimesXTo(g, n - 1), TimesXTo(rest, n));
      }
    }
  }

  lemma MulIsSum(e: Element, g: Element)
    ensures Mul(e, g) == Sum(e, g, 5)
  {
    SumIsMul(e, g, 5);
    ToZero(5);
    AddLaws(Sum(e, g, 5), ZERO, ZERO);
  }
}
